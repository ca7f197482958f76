/** The service metadata read from a GetCapabilities response
    (src/wfs20/util.py `build_service_meta`, `build_content_meta`,
    `FeatureTypeMeta`): keywords, the GetCapabilities and GetFeature
    operation metadata, the feature types offered, and the service
    constraints. */
module Capabilities {
  import opened Wrappers
  import opened Errors
  import opened Strings
  import opened Xml
  import opened Namespaces
  import Crs

  /** `float(token)`, taken as given: None when it raises. */
  type FloatParser = string -> Option<real>

  // ---------------------------------------------------------------------
  // Dictionaries filled in a loop
  // ---------------------------------------------------------------------

  /** `for e in es: d[key] = value`, where computing the entry of an
      element may raise; later entries overwrite earlier ones. */
  function Assign<V>(es: seq<Element>, entry: Element -> Result<(string, V), Error>): (r: Result<map<string, V>, Error>)
    ensures r.Ok? <==> forall i :: 0 <= i < |es| ==> entry(es[i]).Ok?
    ensures r.Err? ==> exists i :: 0 <= i < |es| && entry(es[i]) == Err(r.error) && forall j :: 0 <= j < i ==> entry(es[j]).Ok?
    decreases |es|
  {
    if |es| == 0 then Ok(map[])
    else
      var n := |es| - 1;
      assert forall i :: 0 <= i < n ==> es[..n][i] == es[i];
      var m :- Assign(es[..n], entry);
      var kv :- entry(es[n]);
      Ok(m[kv.0 := kv.1])
  }

  /** The entry of element `i` is not overwritten by a later one. */
  predicate LastKey<V>(es: seq<Element>, entry: Element -> Result<(string, V), Error>, i: nat)
    requires i < |es| && forall j :: 0 <= j < |es| ==> entry(es[j]).Ok?
  {
    forall j :: i < j < |es| ==> entry(es[j]).value.0 != entry(es[i]).value.0
  }

  /** The keys are those of the entries. */
  lemma {:induction false} AssignKeys<V>(es: seq<Element>, entry: Element -> Result<(string, V), Error>)
    requires Assign(es, entry).Ok?
    ensures forall k :: k in Assign(es, entry).value <==> exists i :: 0 <= i < |es| && entry(es[i]).value.0 == k
    decreases |es|
  {
    if |es| > 0 {
      var n := |es| - 1;
      var init := es[..n];
      assert forall i :: 0 <= i < n ==> init[i] == es[i];
      AssignKeys(init, entry);
      var m := Assign(init, entry).value;
      var kv := entry(es[n]).value;
      assert Assign(es, entry).value == m[kv.0 := kv.1];
      forall k | k in Assign(es, entry).value
        ensures exists i :: 0 <= i < |es| && entry(es[i]).value.0 == k
      {
        if k != kv.0 {
          var i :| 0 <= i < n && entry(init[i]).value.0 == k;
          assert entry(es[i]).value.0 == k;
        }
      }
    }
  }

  /** Each key holds the value of its last entry. */
  lemma {:induction false} AssignLastWins<V>(es: seq<Element>, entry: Element -> Result<(string, V), Error>, i: nat)
    requires Assign(es, entry).Ok?
    requires i < |es| && LastKey(es, entry, i)
    ensures entry(es[i]).value.0 in Assign(es, entry).value
    ensures Assign(es, entry).value[entry(es[i]).value.0] == entry(es[i]).value.1
    decreases |es|
  {
    var n := |es| - 1;
    var init := es[..n];
    assert forall k :: 0 <= k < n ==> init[k] == es[k];
    var m := Assign(init, entry).value;
    var kv := entry(es[n]).value;
    assert Assign(es, entry).value == m[kv.0 := kv.1];
    if i < n {
      assert LastKey(init, entry, i);
      AssignLastWins(init, entry, i);
    }
  }

  // ---------------------------------------------------------------------
  // Feature type metadata
  // ---------------------------------------------------------------------

  datatype FeatureTypeMeta = FeatureTypeMeta(
    name: Option<string>,
    title: Option<string>,
    summary: Option<string>,
    bbox84: Option<seq<real>>,
    crs: seq<Crs.CRS>,
    outputFormats: seq<Option<string>>,
    metadataUrls: seq<string>)

  /** `elem.find(path).text`: `AttributeError` when nothing is found. */
  function FoundText(found: Option<Element>): (r: Result<Option<string>, Error>)
    ensures r.Err? <==> found.None?
    ensures r.Err? ==> r.error == AttributeError
    ensures r.Ok? ==> r.value == found.value.text
  {
    match found
    case None => Err(AttributeError)
    case Some(x) => Ok(x.text)
  }

  /** `vs` are the parsed values of `tokens`, one each, in order. */
  predicate Parsed(tokens: seq<string>, parseFloat: FloatParser, vs: seq<real>)
  {
    |vs| == |tokens| && forall i :: 0 <= i < |tokens| ==> parseFloat(tokens[i]) == Some(vs[i])
  }

  /** `[float(d) for d in tokens]`, None when any token does not parse. */
  function ParseFloats(tokens: seq<string>, parseFloat: FloatParser): (r: Option<seq<real>>)
    ensures r.Some? <==> forall i :: 0 <= i < |tokens| ==> parseFloat(tokens[i]).Some?
    ensures r.Some? ==> Parsed(tokens, parseFloat, r.value)
    decreases |tokens|
  {
    if |tokens| == 0 then Some([])
    else
      var head := parseFloat(tokens[0]);
      var rest := ParseFloats(tokens[1..], parseFloat);
      assert forall i :: 1 <= i < |tokens| ==> tokens[1..][i - 1] == tokens[i];
      if head.Some? && rest.Some? then Some([head.value] + rest.value) else None
  }

  /** `[float(d) for d in corner.text.split()]`, None when the corner or its
      text is missing or a token does not parse. */
  function CornerValues(corner: Option<Element>, parseFloat: FloatParser): (r: Option<seq<real>>)
    ensures r.Some? <==> corner.Some? && corner.value.text.Some?
                         && ParseFloats(Words(corner.value.text.value), parseFloat).Some?
    ensures r.Some? ==> Parsed(Words(corner.value.text.value), parseFloat, r.value)
  {
    if corner.None? || corner.value.text.None? then None
    else ParseFloats(Words(corner.value.text.value), parseFloat)
  }

  /** `bbox84`: the lower-corner values followed by the upper-corner
      values of the WGS84 bounding box; None when there is no box or
      anything inside it fails. */
  function Bbox84(e: Element, parseFloat: FloatParser): (r: Option<seq<real>>)
    ensures var box := Find(e, Path(OwsNamespace, ["WGS84BoundingBox"]));
            r.Some? <==> box.Some?
                         && CornerValues(Find(box.value, Path(OwsNamespace, ["LowerCorner"])), parseFloat).Some?
                         && CornerValues(Find(box.value, Path(OwsNamespace, ["UpperCorner"])), parseFloat).Some?
    ensures r.Some? ==>
              var box := Find(e, Path(OwsNamespace, ["WGS84BoundingBox"])).value;
              var lower := Find(box, Path(OwsNamespace, ["LowerCorner"])).value.text.value;
              var upper := Find(box, Path(OwsNamespace, ["UpperCorner"])).value.text.value;
              Parsed(Words(lower) + Words(upper), parseFloat, r.value)
  {
    var box := Find(e, Path(OwsNamespace, ["WGS84BoundingBox"]));
    if box.None? then None
    else
      var lower := CornerValues(Find(box.value, Path(OwsNamespace, ["LowerCorner"])), parseFloat);
      var upper := CornerValues(Find(box.value, Path(OwsNamespace, ["UpperCorner"])), parseFloat);
      if lower.Some? && upper.Some? then Some(lower.value + upper.value) else None
  }

  /** `CRS(text)`: a missing text raises `TypeError` at the `in` test. */
  function ParseText(text: Option<string>, table: Crs.AxisTable): (r: Result<Crs.CRS, Error>)
    ensures text.None? ==> r == Err(TypeError)
    ensures text.Some? ==> r == Crs.Parse(text.value, table)
  {
    match text
    case None => Err(TypeError)
    case Some(s) => Crs.Parse(s, table)
  }

  /** `url.attrib["{xlink}href"]`. */
  function Href(e: Element): Result<string, Error>
  {
    Attr(e, ClarkName(XlinkNamespace, "href"))
  }

  /** `FeatureTypeMeta(elem)`: name, title and abstract (each raising
      `AttributeError` when absent), the WGS84 box, the default CRS then
      the other CRS in document order, the output formats, and the
      metadata URLs; the first failure, in that order, is raised. */
  function BuildFeatureType(e: Element, table: Crs.AxisTable, parseFloat: FloatParser): (r: Result<FeatureTypeMeta, Error>)
    ensures Find(e, Path(WfsNamespace, ["Name"])).None? ==> r == Err(AttributeError)
    ensures Find(e, Path(WfsNamespace, ["Name"])).Some? && Find(e, Path(WfsNamespace, ["Title"])).None? ==> r == Err(AttributeError)
    ensures (Find(e, Path(WfsNamespace, ["Name"])).Some? && Find(e, Path(WfsNamespace, ["Title"])).Some?
             && Find(e, Path(WfsNamespace, ["Abstract"])).None?) ==> r == Err(AttributeError)
    ensures (Find(e, Path(WfsNamespace, ["Name"])).Some? && Find(e, Path(WfsNamespace, ["Title"])).Some?
             && Find(e, Path(WfsNamespace, ["Abstract"])).Some? && Find(e, Path(WfsNamespace, ["DefaultCRS"])).None?)
            ==> r == Err(AttributeError)
    ensures (Find(e, Path(WfsNamespace, ["Name"])).Some? && Find(e, Path(WfsNamespace, ["Title"])).Some?
             && Find(e, Path(WfsNamespace, ["Abstract"])).Some? && Find(e, Path(WfsNamespace, ["DefaultCRS"])).Some?
             && ParseText(Find(e, Path(WfsNamespace, ["DefaultCRS"])).value.text, table).Err?)
            ==> r == Err(ParseText(Find(e, Path(WfsNamespace, ["DefaultCRS"])).value.text, table).error)
    ensures r.Ok? <==>
              && Find(e, Path(WfsNamespace, ["Name"])).Some?
              && Find(e, Path(WfsNamespace, ["Title"])).Some?
              && Find(e, Path(WfsNamespace, ["Abstract"])).Some?
              && Find(e, Path(WfsNamespace, ["DefaultCRS"])).Some?
              && ParseText(Find(e, Path(WfsNamespace, ["DefaultCRS"])).value.text, table).Ok?
              && (var others := FindAll(e, Path(WfsNamespace, ["OtherCRS"]));
                  forall i :: 0 <= i < |others| ==> ParseText(others[i].text, table).Ok?)
              && (var urls := FindAll(e, Path(WfsNamespace, ["MetadataURL"]));
                  forall i :: 0 <= i < |urls| ==> Href(urls[i]).Ok?)
    ensures r.Ok? ==> r.value.name == Find(e, Path(WfsNamespace, ["Name"])).value.text
    ensures r.Ok? ==> r.value.title == Find(e, Path(WfsNamespace, ["Title"])).value.text
    ensures r.Ok? ==> r.value.summary == Find(e, Path(WfsNamespace, ["Abstract"])).value.text
    ensures r.Ok? ==> r.value.bbox84 == Bbox84(e, parseFloat)
    ensures r.Ok? ==>
              var others := FindAll(e, Path(WfsNamespace, ["OtherCRS"]));
              && |r.value.crs| == 1 + |others|
              && Some(r.value.crs[0]) == ParseTextOf(Find(e, Path(WfsNamespace, ["DefaultCRS"])), table)
              && forall i :: 0 <= i < |others| ==> ParseText(others[i].text, table) == Ok(r.value.crs[i + 1])
    ensures r.Ok? ==> r.value.outputFormats == Texts(FindAll(e, Path(WfsNamespace, ["OutputFormats", "Format"])))
    ensures r.Ok? ==>
              var urls := FindAll(e, Path(WfsNamespace, ["MetadataURL"]));
              |r.value.metadataUrls| == |urls| && forall i :: 0 <= i < |urls| ==> Href(urls[i]) == Ok(r.value.metadataUrls[i])
  {
    var names :- Identity(e);
    var bbox := Bbox84(e, parseFloat);
    var defaultText :- FoundText(Find(e, Path(WfsNamespace, ["DefaultCRS"])));
    var crs :- CrsList(defaultText, FindAll(e, Path(WfsNamespace, ["OtherCRS"])), table);
    var formats := Texts(FindAll(e, Path(WfsNamespace, ["OutputFormats", "Format"])));
    var urls :- MetadataUrls(FindAll(e, Path(WfsNamespace, ["MetadataURL"])));
    Ok(FeatureTypeMeta(names.0, names.1, names.2, bbox, crs, formats, urls))
  }

  /** The `Name`, `Title` and `Abstract` texts of a feature type; a missing
      element raises `AttributeError`. */
  function Identity(e: Element): (r: Result<(Option<string>, Option<string>, Option<string>), Error>)
    ensures r.Ok? <==> && Find(e, Path(WfsNamespace, ["Name"])).Some?
                       && Find(e, Path(WfsNamespace, ["Title"])).Some?
                       && Find(e, Path(WfsNamespace, ["Abstract"])).Some?
    ensures r.Err? ==> r.error == AttributeError
    ensures r.Ok? ==> r.value == (Find(e, Path(WfsNamespace, ["Name"])).value.text,
                                  Find(e, Path(WfsNamespace, ["Title"])).value.text,
                                  Find(e, Path(WfsNamespace, ["Abstract"])).value.text)
  {
    var name :- FoundText(Find(e, Path(WfsNamespace, ["Name"])));
    var title :- FoundText(Find(e, Path(WfsNamespace, ["Title"])));
    var summary :- FoundText(Find(e, Path(WfsNamespace, ["Abstract"])));
    Ok((name, title, summary))
  }

  /** The CRS list of a feature type: the default CRS text parsed, then
      each `OtherCRS` text in document order; the first failure is raised. */
  function CrsList(defaultText: Option<string>, others: seq<Element>, table: Crs.AxisTable): (r: Result<seq<Crs.CRS>, Error>)
    ensures ParseText(defaultText, table).Err? ==> r == Err(ParseText(defaultText, table).error)
    ensures r.Ok? <==> ParseText(defaultText, table).Ok? && forall i :: 0 <= i < |others| ==> ParseText(others[i].text, table).Ok?
    ensures r.Ok? ==>
              && |r.value| == 1 + |others|
              && Ok(r.value[0]) == ParseText(defaultText, table)
              && forall i :: 0 <= i < |others| ==> ParseText(others[i].text, table) == Ok(r.value[i + 1])
  {
    var first :- ParseText(defaultText, table);
    var rest :- MapAll(Texts(others), t => ParseText(t, table));
    Ok([first] + rest)
  }

  /** The `xlink:href` of each metadata URL element, in document order;
      the first element without one raises `KeyError`. */
  function MetadataUrls(urls: seq<Element>): (r: Result<seq<string>, Error>)
    ensures r.Ok? <==> forall i :: 0 <= i < |urls| ==> Href(urls[i]).Ok?
    ensures r.Ok? ==> |r.value| == |urls| && forall i :: 0 <= i < |urls| ==> Href(urls[i]) == Ok(r.value[i])
    ensures r.Err? ==> exists i :: 0 <= i < |urls| && Href(urls[i]) == Err(r.error)
  {
    MapAll(urls, Href)
  }

  /** The CRS of a found element's text, None when the element is missing
      or the text does not parse. */
  function ParseTextOf(found: Option<Element>, table: Crs.AxisTable): Option<Crs.CRS>
  {
    if found.None? then None
    else
      var r := ParseText(found.value.text, table);
      if r.Ok? then Some(r.value) else None
  }

  /** A layer whose default CRS is written as the EPSG URN of `code` lists
      the CRS `from_epsg(code)` builds, so that code passes the projection
      check of `get_data`. */
  lemma DefaultCrsListed(e: Element, table: Crs.AxisTable, parseFloat: FloatParser, code: string)
    requires ':' !in code
    requires BuildFeatureType(e, table, parseFloat).Ok?
    requires Find(e, Path(WfsNamespace, ["DefaultCRS"])).value.text
             == Some(Crs.UrnString(Crs.DefaultNamingAuthority, "EPSG", "", code))
    ensures Crs.Member(Crs.FromEpsg(code, None, table).value, BuildFeatureType(e, table, parseFloat).value.crs) == Ok(true)
  {
    var crss := BuildFeatureType(e, table, parseFloat).value.crs;
    var x := Crs.FromEpsg(code, None, table).value;
    assert crss[0] == x;
    assert Crs.Equal(crss[0], Same(x)) == Ok(true);
  }

  /** Bounding-box values keep token order: lower corner "x1 y1", upper
      corner "x2 y2" give the values of x1, y1, x2, y2 in that order. */
  lemma Bbox84TokenOrder(e: Element, parseFloat: FloatParser, lowerTokens: seq<string>, upperTokens: seq<string>)
    requires forall i :: 0 <= i < |lowerTokens| ==> lowerTokens[i] != [] && !HasSpace(lowerTokens[i])
    requires forall i :: 0 <= i < |upperTokens| ==> upperTokens[i] != [] && !HasSpace(upperTokens[i])
    requires var box := Find(e, Path(OwsNamespace, ["WGS84BoundingBox"]));
             && box.Some?
             && Find(box.value, Path(OwsNamespace, ["LowerCorner"])).Some?
             && Find(box.value, Path(OwsNamespace, ["LowerCorner"])).value.text == Some(Join(lowerTokens, ' '))
             && Find(box.value, Path(OwsNamespace, ["UpperCorner"])).Some?
             && Find(box.value, Path(OwsNamespace, ["UpperCorner"])).value.text == Some(Join(upperTokens, ' '))
    requires forall i :: 0 <= i < |lowerTokens| ==> parseFloat(lowerTokens[i]).Some?
    requires forall i :: 0 <= i < |upperTokens| ==> parseFloat(upperTokens[i]).Some?
    ensures Bbox84(e, parseFloat).Some?
    ensures Parsed(lowerTokens + upperTokens, parseFloat, Bbox84(e, parseFloat).value)
  {
    WordsOfSpaced(lowerTokens);
    WordsOfSpaced(upperTokens);
  }

  // ---------------------------------------------------------------------
  // Operation metadata
  // ---------------------------------------------------------------------

  /** `CapabilitiesMeta` / `FeatureMeta`: HTTP method name (upper-cased) to
      its link, and each parameter's allowed values. */
  datatype OperationMeta = OperationMeta(
    requestMethods: map<string, string>,
    parameters: map<string, seq<Option<string>>>)

  /** One HTTP method element under `DCP/HTTP`: its upper-cased local name
      and its link. */
  function MethodEntry(x: Element): (r: Result<(string, string), Error>)
    ensures r.Ok? <==> ClarkName(XlinkNamespace, "href") in x.attrs
    ensures r.Err? ==> r.error == KeyError
    ensures r.Ok? ==> r.value == (Upper(x.local), x.attrs[ClarkName(XlinkNamespace, "href")])
  {
    var href :- Href(x);
    Ok((Upper(x.local), href))
  }

  /** One `Parameter` element: its name and its allowed values. */
  function ParameterEntry(x: Element): (r: Result<(string, seq<Option<string>>), Error>)
    ensures r.Ok? <==> "name" in x.attrs
    ensures r.Err? ==> r.error == KeyError
    ensures r.Ok? ==> r.value == (x.attrs["name"], Texts(FindAll(x, Path(OwsNamespace, ["AllowedValues", "Value"]))))
  {
    var name :- Attr(x, "name");
    Ok((name, Texts(FindAll(x, Path(OwsNamespace, ["AllowedValues", "Value"])))))
  }

  /** `build_content_meta(obj, elem)`: the operation needs a name; every
      HTTP method needs a link and every parameter a name, else
      `KeyError`. */
  function BuildOperationMeta(e: Element): (r: Result<OperationMeta, Error>)
    ensures r.Err? ==> r.error == KeyError
    ensures "name" !in e.attrs ==> r.Err?
    ensures r.Ok? <==> "name" in e.attrs
                       && (forall x :: x in FindAll(e, Path(OwsNamespace, ["DCP", "HTTP", "*"])) ==> MethodEntry(x).Ok?)
                       && (forall x :: x in FindAll(e, Path(OwsNamespace, ["Parameter"])) ==> ParameterEntry(x).Ok?)
    ensures r.Ok? ==> r.value.requestMethods == Assign(FindAll(e, Path(OwsNamespace, ["DCP", "HTTP", "*"])), MethodEntry).value
    ensures r.Ok? ==> r.value.parameters == Assign(FindAll(e, Path(OwsNamespace, ["Parameter"])), ParameterEntry).value
  {
    var opName :- Attr(e, "name");
    var methods :- Assign(FindAll(e, Path(OwsNamespace, ["DCP", "HTTP", "*"])), MethodEntry);
    var parameters :- Assign(FindAll(e, Path(OwsNamespace, ["Parameter"])), ParameterEntry);
    Ok(OperationMeta(methods, parameters))
  }

  /** The two operation slots filled by the loop over `Operation`. */
  datatype Operations = Operations(capabilities: Option<OperationMeta>, getFeature: Option<OperationMeta>)

  /** An operation the loop reads without raising: it has a name, and a
      GetCapabilities or GetFeature operation builds. */
  predicate OperationReads(x: Element)
  {
    "name" in x.attrs
    && (x.attrs["name"] == "GetCapabilities" || x.attrs["name"] == "GetFeature" ==> BuildOperationMeta(x).Ok?)
  }

  /** The loop over `OperationsMetadata/Operation`: every operation needs a
      name (else `KeyError`); a later GetCapabilities or GetFeature
      operation replaces an earlier one; other operations are skipped. */
  function ReadOperations(es: seq<Element>): (r: Result<Operations, Error>)
    ensures r.Err? ==> r.error == KeyError
    decreases |es|
  {
    if |es| == 0 then Ok(Operations(None, None))
    else
      var n := |es| - 1;
      var ops :- ReadOperations(es[..n]);
      var name :- Attr(es[n], "name");
      if name == "GetCapabilities" then
        var m :- BuildOperationMeta(es[n]);
        Ok(ops.(capabilities := Some(m)))
      else if name == "GetFeature" then
        var m :- BuildOperationMeta(es[n]);
        Ok(ops.(getFeature := Some(m)))
      else Ok(ops)
  }

  /** The loop raises exactly when some operation does not read. */
  lemma {:induction false} ReadOperationsOk(es: seq<Element>)
    ensures ReadOperations(es).Ok? <==> forall i :: 0 <= i < |es| ==> OperationReads(es[i])
    decreases |es|
  {
    if |es| > 0 {
      var n := |es| - 1;
      var init := es[..n];
      ReadOperationsOk(init);
      assert forall i :: 0 <= i < n ==> init[i] == es[i];
    }
  }

  /** The operation `es[i]` is named `name` and no later one is. */
  predicate LastNamed(es: seq<Element>, i: nat, name: string)
    requires i < |es|
  {
    Attr(es[i], "name") == Ok(name) && forall j :: i < j < |es| ==> Attr(es[j], "name") != Ok(name)
  }

  /** The slot an operation name fills. */
  function Slot(ops: Operations, name: string): Option<OperationMeta>
  {
    if name == "GetCapabilities" then ops.capabilities
    else if name == "GetFeature" then ops.getFeature
    else None
  }

  /** Reading one more operation: its slot is refilled when it carries
      the slot's name, and the other slots are kept. */
  lemma ReadOperationsStep(es: seq<Element>, name: string)
    requires |es| > 0 && ReadOperations(es).Ok?
    requires name == "GetCapabilities" || name == "GetFeature"
    ensures ReadOperations(es[..|es| - 1]).Ok?
    ensures Attr(es[|es| - 1], "name") == Ok(name) ==> BuildOperationMeta(es[|es| - 1]).Ok?
    ensures Slot(ReadOperations(es).value, name) ==
              if Attr(es[|es| - 1], "name") == Ok(name) then OkValue(BuildOperationMeta(es[|es| - 1]))
              else Slot(ReadOperations(es[..|es| - 1]).value, name)
  {
    var n := |es| - 1;
    var prev, last := ReadOperations(es[..n]), es[n];
    assert prev.Ok? && Attr(last, "name").Ok?;
    var called := Attr(last, "name").value;
    if called == "GetCapabilities" || called == "GetFeature" {
      assert BuildOperationMeta(last).Ok?;
    } else {
      assert ReadOperations(es).value == prev.value;
    }
  }

  /** A slot is empty exactly when no operation has its name. */
  lemma {:induction false} ReadOperationsEmpty(es: seq<Element>, name: string)
    requires ReadOperations(es).Ok?
    requires name == "GetCapabilities" || name == "GetFeature"
    ensures Slot(ReadOperations(es).value, name).None? <==> forall i :: 0 <= i < |es| ==> Attr(es[i], "name") != Ok(name)
    decreases |es|
  {
    if |es| > 0 {
      var n := |es| - 1;
      var init := es[..n];
      ReadOperationsStep(es, name);
      ReadOperationsEmpty(init, name);
      assert forall i :: 0 <= i < n ==> init[i] == es[i];
    }
  }

  /** A filled slot holds the metadata of the last operation with its
      name: a later GetCapabilities or GetFeature operation wins. */
  lemma {:induction false} ReadOperationsLastWins(es: seq<Element>, name: string, i: nat)
    requires ReadOperations(es).Ok?
    requires name == "GetCapabilities" || name == "GetFeature"
    requires i < |es| && LastNamed(es, i, name)
    ensures Slot(ReadOperations(es).value, name) == OkValue(BuildOperationMeta(es[i]))
    ensures BuildOperationMeta(es[i]).Ok?
    decreases |es|
  {
    var n := |es| - 1;
    var init := es[..n];
    ReadOperationsStep(es, name);
    if i < n {
      assert init[i] == es[i];
      assert LastNamed(init, i, name) by {
        forall j | i < j < n
          ensures Attr(init[j], "name") != Ok(name)
        {
          assert init[j] == es[j];
        }
      }
      ReadOperationsLastWins(init, name, i);
    }
  }

  function OkValue<T>(r: Result<T, Error>): Option<T>
  {
    if r.Ok? then Some(r.value) else None
  }

  // ---------------------------------------------------------------------
  // Feature types, constraints and the whole service
  // ---------------------------------------------------------------------

  /** `feature_type_meta` with its key order `feature_types`: a dict keyed
      by feature-type name. */
  datatype Registry = Registry(names: seq<Option<string>>, metas: map<Option<string>, FeatureTypeMeta>)

  /** Inserting the metas in order: a name keeps the position of its first
      insertion and the value of its last. */
  function Register(ms: seq<FeatureTypeMeta>): (r: Registry)
    ensures Distinct(r.names)
    ensures forall x :: x in r.names <==> x in r.metas
    ensures forall x :: x in r.metas <==> exists i :: 0 <= i < |ms| && ms[i].name == x
    decreases |ms|
  {
    if |ms| == 0 then Registry([], map[])
    else
      var n := |ms| - 1;
      var prev := Register(ms[..n]);
      assert forall i :: 0 <= i < n ==> ms[..n][i] == ms[i];
      var m := ms[n];
      Registry(if m.name in prev.metas then prev.names else prev.names + [m.name], prev.metas[m.name := m])
  }

  /** `ms[i]` is the last meta with its name. */
  predicate LastMeta(ms: seq<FeatureTypeMeta>, i: nat)
    requires i < |ms|
  {
    forall j :: i < j < |ms| ==> ms[j].name != ms[i].name
  }

  /** Registering one more meta overwrites its name's entry. */
  lemma RegisterStep(ms: seq<FeatureTypeMeta>)
    requires |ms| > 0
    ensures Register(ms).metas == Register(ms[..|ms| - 1]).metas[ms[|ms| - 1].name := ms[|ms| - 1]]
  {
  }

  /** Each name maps to its last meta. */
  lemma {:induction false} RegisterLastWins(ms: seq<FeatureTypeMeta>, i: nat)
    requires i < |ms| && LastMeta(ms, i)
    ensures ms[i].name in Register(ms).metas && Register(ms).metas[ms[i].name] == ms[i]
    decreases |ms|
  {
    var n := |ms| - 1;
    var init := ms[..n];
    RegisterStep(ms);
    var before, after := Register(init).metas, Register(ms).metas;
    assert after == before[ms[n].name := ms[n]];
    if i < n {
      assert init[i] == ms[i];
      assert LastMeta(init, i) by {
        forall j | i < j < n
          ensures init[j].name != init[i].name
        {
          assert init[j] == ms[j];
        }
      }
      RegisterLastWins(init, i);
      assert ms[n].name != ms[i].name;
      assert after[ms[i].name] == before[ms[i].name];
      assert after[ms[i].name] == ms[i];
    } else {
      assert i == n;
      var m := ms[n];
      assert after == before[m.name := m];
      assert after[m.name] == m;
    }
  }

  /** `FirstBefore(ms, x, y)`: `x` appears in `ms` before `y` first does. */
  predicate FirstBefore(ms: seq<FeatureTypeMeta>, x: Option<string>, y: Option<string>)
  {
    exists i :: 0 <= i < |ms| && ms[i].name == x && forall j :: 0 <= j <= i ==> ms[j].name != y
  }

  lemma FirstBeforeExtend(ms: seq<FeatureTypeMeta>, m: FeatureTypeMeta, x: Option<string>, y: Option<string>)
    requires FirstBefore(ms, x, y)
    ensures FirstBefore(ms + [m], x, y)
  {
    var i :| 0 <= i < |ms| && ms[i].name == x && forall j :: 0 <= j <= i ==> ms[j].name != y;
    assert (ms + [m])[i].name == x;
    assert forall j :: 0 <= j <= i ==> (ms + [m])[j] == ms[j];
  }

  lemma FirstBeforeNew(ms: seq<FeatureTypeMeta>, m: FeatureTypeMeta, x: Option<string>)
    requires exists i :: 0 <= i < |ms| && ms[i].name == x
    requires forall j :: 0 <= j < |ms| ==> ms[j].name != m.name
    ensures FirstBefore(ms + [m], x, m.name)
  {
    var i :| 0 <= i < |ms| && ms[i].name == x;
    assert (ms + [m])[i].name == x;
    assert forall j :: 0 <= j <= i ==> (ms + [m])[j] == ms[j];
  }

  /** The names are listed in order of first appearance. */
  lemma {:induction false} RegisterOrder(ms: seq<FeatureTypeMeta>)
    ensures forall k, l :: 0 <= k < l < |Register(ms).names| ==>
              FirstBefore(ms, Register(ms).names[k], Register(ms).names[l])
    decreases |ms|
  {
    if |ms| > 0 {
      var n := |ms| - 1;
      var init, m := ms[..n], ms[n];
      assert ms == init + [m];
      RegisterOrder(init);
      var prev := Register(init);
      var names := Register(ms).names;
      assert names == if m.name in prev.metas then prev.names else prev.names + [m.name];
      forall k, l | 0 <= k < l < |names|
        ensures FirstBefore(ms, names[k], names[l])
      {
        if l < |prev.names| {
          assert names[k] == prev.names[k] && names[l] == prev.names[l];
          FirstBeforeExtend(init, m, prev.names[k], prev.names[l]);
        } else {
          assert names[k] == prev.names[k] && names[k] in prev.metas;
          FirstBeforeNew(init, m, names[k]);
        }
      }
    }
  }

  /** A service constraint: its default value, or its allowed values. */
  datatype Constraint = Default(value: Option<string>) | Allowed(values: seq<Option<string>>)

  /** One `Constraint` element: a `DefaultValue` child wins over the
      allowed values; a constraint without a name raises `KeyError`. */
  function ConstraintEntry(x: Element): (r: Result<(string, Constraint), Error>)
    ensures r.Ok? <==> "name" in x.attrs
    ensures r.Err? ==> r.error == KeyError
    ensures r.Ok? ==> r.value.0 == x.attrs["name"]
    ensures r.Ok? ==> var dv := Find(x, Path(OwsNamespace, ["DefaultValue"]));
              r.value.1 == if dv.Some? then Default(dv.value.text) else Allowed(Texts(FindAll(x, Path(OwsNamespace, ["AllowedValues", "Value"]))))
  {
    var dv := Find(x, Path(OwsNamespace, ["DefaultValue"]));
    var name :- Attr(x, "name");
    if dv.Some? then Ok((name, Default(dv.value.text)))
    else Ok((name, Allowed(Texts(FindAll(x, Path(OwsNamespace, ["AllowedValues", "Value"]))))))
  }

  /** `FeatureTypeMeta(f)` for each feature type in turn; the first
      failure is raised. */
  function BuildFeatureTypes(fts: seq<Element>, table: Crs.AxisTable, parseFloat: FloatParser): (r: Result<seq<FeatureTypeMeta>, Error>)
    ensures r.Ok? <==> forall i :: 0 <= i < |fts| ==> BuildFeatureType(fts[i], table, parseFloat).Ok?
    ensures r.Ok? ==> |r.value| == |fts| && forall i :: 0 <= i < |fts| ==> r.value[i] == BuildFeatureType(fts[i], table, parseFloat).value
    ensures r.Err? ==> exists i :: 0 <= i < |fts| && BuildFeatureType(fts[i], table, parseFloat) == Err(r.error)
                                   && forall j :: 0 <= j < i ==> BuildFeatureType(fts[j], table, parseFloat).Ok?
  {
    MapAll(fts, e => BuildFeatureType(e, table, parseFloat))
  }

  /** The service metadata. */
  datatype ServiceMeta = ServiceMeta(
    keywords: seq<Option<string>>,
    operations: Operations,
    featureTypes: Registry,
    constraints: map<string, Constraint>)

  /** `build_service_meta(wfs, r)` on the parsed capabilities document:
      keywords, then the operations, then the feature types, then the
      constraints; the first failure, in that order, is raised. */
  function BuildServiceMeta(root: Element, table: Crs.AxisTable, parseFloat: FloatParser): (r: Result<ServiceMeta, Error>)
    ensures var ops := ReadOperations(FindAll(root, Path(OwsNamespace, ["OperationsMetadata", "Operation"])));
            var fts := BuildFeatureTypes(FindAll(root, Path(WfsNamespace, ["FeatureTypeList", "FeatureType"])), table, parseFloat);
            var cs := Assign(FindAll(root, Path(OwsNamespace, ["OperationsMetadata", "Constraint"])), ConstraintEntry);
            && (r.Ok? <==> ops.Ok? && fts.Ok? && cs.Ok?)
            && (ops.Err? ==> r == Err(ops.error))
            && (ops.Ok? && fts.Err? ==> r == Err(fts.error))
            && (ops.Ok? && fts.Ok? && cs.Err? ==> r == Err(cs.error))
    ensures r.Ok? ==> r.value.keywords == Texts(FindAll(root, Path(OwsNamespace, ["ServiceIdentification", "Keywords", "Keyword"])))
    ensures r.Ok? ==> Some(r.value.operations) == OkValue(ReadOperations(FindAll(root, Path(OwsNamespace, ["OperationsMetadata", "Operation"]))))
    ensures r.Ok? ==> r.value.featureTypes == Register(BuildFeatureTypes(FindAll(root, Path(WfsNamespace, ["FeatureTypeList", "FeatureType"])), table, parseFloat).value)
    ensures r.Ok? ==> Some(r.value.constraints) == OkValue(Assign(FindAll(root, Path(OwsNamespace, ["OperationsMetadata", "Constraint"])), ConstraintEntry))
  {
    var keywords := Texts(FindAll(root, Path(OwsNamespace, ["ServiceIdentification", "Keywords", "Keyword"])));
    var ops :- ReadOperations(FindAll(root, Path(OwsNamespace, ["OperationsMetadata", "Operation"])));
    var metas :- BuildFeatureTypes(FindAll(root, Path(WfsNamespace, ["FeatureTypeList", "FeatureType"])), table, parseFloat);
    var registry := Register(metas);
    var constraints :- Assign(FindAll(root, Path(OwsNamespace, ["OperationsMetadata", "Constraint"])), ConstraintEntry);
    Ok(ServiceMeta(keywords, ops, registry, constraints))
  }

  /** Every feature type of the document is registered under its name, and
      the name holds the meta of the last feature type carrying it. */
  lemma ServiceMetaLayer(root: Element, table: Crs.AxisTable, parseFloat: FloatParser, i: nat)
    requires BuildServiceMeta(root, table, parseFloat).Ok?
    requires var fts := FindAll(root, Path(WfsNamespace, ["FeatureTypeList", "FeatureType"]));
             && i < |fts| && BuildFeatureType(fts[i], table, parseFloat).Ok?
             && forall j :: i < j < |fts| && BuildFeatureType(fts[j], table, parseFloat).Ok? ==>
                  BuildFeatureType(fts[j], table, parseFloat).value.name != BuildFeatureType(fts[i], table, parseFloat).value.name
    ensures var fts := FindAll(root, Path(WfsNamespace, ["FeatureTypeList", "FeatureType"]));
            var m := BuildFeatureType(fts[i], table, parseFloat).value;
            var reg := BuildServiceMeta(root, table, parseFloat).value.featureTypes;
            m.name in reg.names && m.name in reg.metas && reg.metas[m.name] == m
  {
    var fts := FindAll(root, Path(WfsNamespace, ["FeatureTypeList", "FeatureType"]));
    var ms := BuildFeatureTypes(fts, table, parseFloat).value;
    assert ms[i] == BuildFeatureType(fts[i], table, parseFloat).value;
    assert LastMeta(ms, i);
    RegisterLastWins(ms, i);
  }
}
