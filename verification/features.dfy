/** Feature records (src/wfs20/util.py class `Feature`): the text of every
    local-namespace child, keyed by local name, plus the serialised first
    child of a geometry-named child. */
module Features {
  import opened Wrappers
  import opened Errors
  import opened Strings
  import opened Xml

  /** Local names (lower-cased) that carry a feature's geometry. */
  const GeometryNames: set<string> := {"geom", "geometry", "geometrie", "shape"}

  /** A feature: field name to raw text, and the serialised geometry if a
      geometry-named child was present. */
  datatype Feature = Feature(fields: map<string, string>, geometry: Option<string>)

  /** `etree.tostring`, taken as given. */
  type Serializer = Element -> string

  /** `e.text and e.text.strip()`: some text that is not all whitespace. */
  predicate HasText(text: Option<string>)
  {
    text.Some? && !Blank(text.value)
  }

  predicate IsGeometry(e: Element)
  {
    Lower(e.local) in GeometryNames
  }

  /** `elem.findall("{loc}*")`: the direct children in namespace `loc`. */
  function LocalChildren(e: Element, loc: string): (cs: seq<Element>)
    ensures cs == Select(e.children, QName(loc, Wildcard))
  {
    ElementKeyStep(loc, Wildcard);
    FindAllStep(e, QName(loc, Wildcard));
    FindAll(e, ElementKey(loc, Wildcard))
  }

  /** No later child with text has the same local name as child `i`. */
  predicate LastTextFor(cs: seq<Element>, i: nat)
    requires i < |cs|
  {
    forall j :: i < j < |cs| && HasText(cs[j].text) ==> cs[j].local != cs[i].local
  }

  /** No later child is geometry-named. */
  predicate LastGeometry(cs: seq<Element>, i: nat)
    requires i < |cs|
  {
    forall j :: i < j < |cs| ==> !IsGeometry(cs[j])
  }

  /** One iteration of the constructor's loop: record the text, then take
      the geometry, which raises `IndexError` on a childless element. */
  function Absorb(f: Feature, c: Element, serialize: Serializer): Result<Feature, Error>
  {
    var fields := if HasText(c.text) then f.fields[c.local := c.text.value] else f.fields;
    if IsGeometry(c) then
      if |c.children| == 0 then Err(IndexError)
      else Ok(Feature(fields, Some(serialize(c.children[0]))))
    else Ok(Feature(fields, f.geometry))
  }

  /** The constructor's loop over the local children `cs`, in order; it
      fails exactly when a geometry-named child has no child of its own. */
  function Gather(cs: seq<Element>, serialize: Serializer): (r: Result<Feature, Error>)
    ensures r.Ok? <==> forall i :: 0 <= i < |cs| && IsGeometry(cs[i]) ==> |cs[i].children| > 0
    ensures r.Err? ==> r.error == IndexError
    decreases |cs|
  {
    if |cs| == 0 then Ok(Feature(map[], None))
    else
      var n := |cs| - 1;
      assert forall i :: 0 <= i < n ==> cs[..n][i] == cs[i];
      var f :- Gather(cs[..n], serialize);
      Absorb(f, cs[n], serialize)
  }

  /** The local names of the children with text. */
  function TextNames(cs: seq<Element>): set<string>
  {
    set i | 0 <= i < |cs| && HasText(cs[i].text) :: cs[i].local
  }

  /** One more child adds its name when it has text. */
  lemma TextNamesStep(cs: seq<Element>)
    requires |cs| > 0
    ensures TextNames(cs) == TextNames(cs[..|cs| - 1]) + (if HasText(cs[|cs| - 1].text) then {cs[|cs| - 1].local} else {})
  {
    var n := |cs| - 1;
    var init := cs[..n];
    forall x | x in TextNames(cs)
      ensures x in TextNames(init) || (HasText(cs[n].text) && x == cs[n].local)
    {
      var i :| 0 <= i < |cs| && HasText(cs[i].text) && cs[i].local == x;
      if i < n {
        assert init[i] == cs[i];
      }
    }
    forall x | x in TextNames(init)
      ensures x in TextNames(cs)
    {
      var i :| 0 <= i < n && HasText(init[i].text) && init[i].local == x;
      assert init[i] == cs[i];
    }
  }

  /** The field names are the local names of the children with text. */
  lemma {:induction false} GatherFieldNames(cs: seq<Element>, serialize: Serializer)
    requires Gather(cs, serialize).Ok?
    ensures Gather(cs, serialize).value.fields.Keys == TextNames(cs)
    decreases |cs|
  {
    if |cs| > 0 {
      var n := |cs| - 1;
      var init := cs[..n];
      assert forall i :: 0 <= i < n ==> init[i] == cs[i];
      GatherFieldNames(init, serialize);
      var f := Gather(init, serialize).value;
      assert Gather(cs, serialize) == Absorb(f, cs[n], serialize);
      TextNamesStep(cs);
    }
  }

  /** A field holds the text of the last child with text of that name. */
  lemma {:induction false} GatherLastText(cs: seq<Element>, serialize: Serializer, i: nat)
    requires Gather(cs, serialize).Ok?
    requires i < |cs| && HasText(cs[i].text) && LastTextFor(cs, i)
    ensures cs[i].local in Gather(cs, serialize).value.fields
    ensures Gather(cs, serialize).value.fields[cs[i].local] == cs[i].text.value
    decreases |cs|
  {
    var n := |cs| - 1;
    var init := cs[..n];
    assert forall k :: 0 <= k < n ==> init[k] == cs[k];
    var f := Gather(init, serialize).value;
    assert Gather(cs, serialize) == Absorb(f, cs[n], serialize);
    if i < n {
      GatherLastText(init, serialize, i);
    }
  }

  /** The geometry is present iff a geometry-named child is. */
  lemma {:induction false} GatherGeometryPresent(cs: seq<Element>, serialize: Serializer)
    requires Gather(cs, serialize).Ok?
    ensures Gather(cs, serialize).value.geometry.Some? <==> exists i :: 0 <= i < |cs| && IsGeometry(cs[i])
    decreases |cs|
  {
    if |cs| > 0 {
      var n := |cs| - 1;
      var init := cs[..n];
      assert forall k :: 0 <= k < n ==> init[k] == cs[k];
      GatherGeometryPresent(init, serialize);
      var f := Gather(init, serialize).value;
      assert Gather(cs, serialize) == Absorb(f, cs[n], serialize);
      if IsGeometry(cs[n]) {
        assert 0 <= n < |cs| && IsGeometry(cs[n]);
      } else if exists i :: 0 <= i < |cs| && IsGeometry(cs[i]) {
        var i :| 0 <= i < |cs| && IsGeometry(cs[i]);
        assert i < n && IsGeometry(init[i]);
      }
    }
  }

  /** The geometry is the serialised first child of the last
      geometry-named child. */
  lemma {:induction false} GatherGeometry(cs: seq<Element>, serialize: Serializer, i: nat)
    requires Gather(cs, serialize).Ok?
    requires i < |cs| && IsGeometry(cs[i]) && LastGeometry(cs, i)
    ensures |cs[i].children| > 0 && Gather(cs, serialize).value.geometry == Some(serialize(cs[i].children[0]))
    decreases |cs|
  {
    var n := |cs| - 1;
    var init := cs[..n];
    assert forall k :: 0 <= k < n ==> init[k] == cs[k];
    var f := Gather(init, serialize).value;
    assert Gather(cs, serialize) == Absorb(f, cs[n], serialize);
    if i < n {
      assert !IsGeometry(cs[n]);
      assert LastGeometry(init, i);
      GatherGeometry(init, serialize, i);
    }
  }

  /** `Feature(elem)` with the local namespace `loc`: it raises exactly on a
      childless geometry-named child; otherwise its fields map the local
      name of each local child with text to the last such text, and its
      geometry is the serialised first child of the last geometry-named
      local child, absent when there is none. */
  function NewFeature(e: Element, loc: string, serialize: Serializer): (r: Result<Feature, Error>)
    ensures r.Ok? <==> forall i :: 0 <= i < |LocalChildren(e, loc)| && IsGeometry(LocalChildren(e, loc)[i]) ==>
                         |LocalChildren(e, loc)[i].children| > 0
    ensures r.Err? ==> r.error == IndexError
    ensures r.Ok? ==> var cs := LocalChildren(e, loc);
                      r.value.fields.Keys == TextNames(cs)
    ensures r.Ok? ==> var cs := LocalChildren(e, loc);
                      forall i :: 0 <= i < |cs| && HasText(cs[i].text) && LastTextFor(cs, i) ==>
                        r.value.fields[cs[i].local] == cs[i].text.value
    ensures r.Ok? ==> var cs := LocalChildren(e, loc);
                      r.value.geometry.Some? <==> exists i :: 0 <= i < |cs| && IsGeometry(cs[i])
    ensures r.Ok? ==> var cs := LocalChildren(e, loc);
                      forall i :: 0 <= i < |cs| && IsGeometry(cs[i]) && LastGeometry(cs, i) ==>
                        |cs[i].children| > 0 && r.value.geometry == Some(serialize(cs[i].children[0]))
  {
    var cs := LocalChildren(e, loc);
    var r := Gather(cs, serialize);
    if r.Ok? then
      GatherFieldNames(cs, serialize);
      GatherGeometryPresent(cs, serialize);
      assert forall i :: 0 <= i < |cs| && HasText(cs[i].text) && LastTextFor(cs, i) ==>
               r.value.fields[cs[i].local] == cs[i].text.value by {
        forall i | 0 <= i < |cs| && HasText(cs[i].text) && LastTextFor(cs, i)
          ensures cs[i].local in r.value.fields && r.value.fields[cs[i].local] == cs[i].text.value
        {
          GatherLastText(cs, serialize, i);
        }
      }
      assert forall i :: 0 <= i < |cs| && IsGeometry(cs[i]) && LastGeometry(cs, i) ==>
               |cs[i].children| > 0 && r.value.geometry == Some(serialize(cs[i].children[0])) by {
        forall i | 0 <= i < |cs| && IsGeometry(cs[i]) && LastGeometry(cs, i)
          ensures |cs[i].children| > 0 && r.value.geometry == Some(serialize(cs[i].children[0]))
        {
          GatherGeometry(cs, serialize, i);
        }
      }
      r
    else r
  }

  /** `[Feature(elem) for elem in root.iter("{loc}keyword")]`, stopping at
      the first feature that raises. */
  function FeatureList(elems: seq<Element>, loc: string, serialize: Serializer): (r: Result<seq<Feature>, Error>)
    ensures r.Ok? <==> forall i :: 0 <= i < |elems| ==> NewFeature(elems[i], loc, serialize).Ok?
    ensures r.Ok? ==> |r.value| == |elems|
    ensures r.Ok? ==> forall i :: 0 <= i < |elems| ==> r.value[i] == NewFeature(elems[i], loc, serialize).value
    ensures r.Err? ==> r.error == IndexError
  {
    MapAll(elems, e => NewFeature(e, loc, serialize))
  }
}
