/** The reader of a GetFeature response (src/wfs20/reader.py `DataReader`,
    filled by `build_response_meta` in src/wfs20/util.py): the features of
    the requested layer and the layer's metadata, and the in-place
    concatenation of two readers. */
module Reader {
  import opened Wrappers
  import opened Errors
  import opened Xml
  import opened TypeInference
  import opened Namespaces
  import opened Features
  import opened LayerMetas
  import opened Request

  datatype DataReader = DataReader(
    url: string,
    keyword: string,
    requestMethod: string,
    data: Option<string>,
    gml: string,
    features: seq<Feature>,
    meta: LayerMeta)

  /** The iteration order of a Python set of strings, taken as given. */
  type Enumerator = set<string> -> seq<string>

  /** An enumerator lists every element of a set exactly once. */
  ghost predicate Sound(orderOf: Enumerator)
  {
    forall s :: Enumerates(orderOf(s), s)
  }

  /** `DataReader(url, keyword, requestMethod, data)` given the HTTP layer's
      response: the status and exception checks of `get_response`, then
      the content parsed, the local namespace chosen, a feature for every
      element named `keyword` in it in document order, and the layer
      metadata. A keyword of `None` raises when the element key is built,
      after the response has been checked. */
  function Read(url: string, keyword: Option<string>, requestMethod: string, data: Option<string>, resp: Response,
                serialize: Serializer, classify: Classifier, orderOf: Enumerator): (r: Result<DataReader, Error>)
    requires Sound(orderOf)
    ensures GetResponse(resp).Err? ==> r == Err(GetResponse(resp).error)
    ensures GetResponse(resp).Ok? && resp.body.None? ==> r == Err(SyntaxError)
    ensures GetResponse(resp).Ok? && resp.body.Some? && keyword.None? ==> r == Err(AttributeError)
    ensures GetResponse(resp).Ok? && resp.body.Some? && keyword.Some? ==>
              var doc := resp.body.value;
              var loc := LocalNamespace(doc.nsmap);
              && (r.Ok? <==> FeatureList(IterTag(doc.root, QName(loc, keyword.value)), loc, serialize).Ok?)
              && (r.Err? ==> r == Err(IndexError))
    ensures r.Ok? ==> GetResponse(resp).Ok? && resp.body.Some? && keyword.Some?
    ensures r.Ok? ==> var doc := resp.body.value;
                      var loc := LocalNamespace(doc.nsmap);
                      && r.value == DataReader(url, keyword.value, requestMethod, data, doc.content, r.value.features, r.value.meta)
                      && FeatureList(IterTag(doc.root, QName(loc, keyword.value)), loc, serialize) == Ok(r.value.features)
                      && r.value.meta == NewLayerMeta(doc.root, loc, keyword.value, classify,
                                                      orderOf(Headers(doc.root, loc, keyword.value)))
    ensures r.Ok? ==> var doc := resp.body.value;
                      var loc := LocalNamespace(doc.nsmap);
                      && r.value.meta.headers == Headers(doc.root, loc, keyword.value)
                      && WellFormed(r.value.meta)
                      && (forall h :: h in r.value.meta.types ==>
                            r.value.meta.types[h] == FieldType(Observations(doc.root, loc, h, classify)))
                      && r.value.meta.links == LinkTable(orderOf(Headers(doc.root, loc, keyword.value)))
  {
    var checked :- GetResponse(resp);
    if resp.body.None? then Err(SyntaxError)
    else
      var doc := resp.body.value;
      var loc := LocalNamespace(doc.nsmap);
      if keyword.None? then Err(AttributeError)
      else
        var kw := keyword.value;
        var features :- FeatureList(IterTag(doc.root, QName(loc, kw)), loc, serialize);
        var order := orderOf(Headers(doc.root, loc, kw));
        Ok(DataReader(url, kw, requestMethod, data, doc.content, features, NewLayerMeta(doc.root, loc, kw, classify, order)))
  }

  /** Every field of every feature read, other than the keyword itself,
      is one of the layer's headers: the fields are the texts of the
      feature element's local children, and the iteration over the whole
      document meets those children too. */
  lemma ReadFieldsAreHeaders(url: string, keyword: Option<string>, requestMethod: string, data: Option<string>,
                             resp: Response, serialize: Serializer, classify: Classifier, orderOf: Enumerator,
                             i: nat, h: string)
    requires Sound(orderOf)
    requires Read(url, keyword, requestMethod, data, resp, serialize, classify, orderOf).Ok?
    requires var rd := Read(url, keyword, requestMethod, data, resp, serialize, classify, orderOf).value;
             i < |rd.features| && h in rd.features[i].fields && h != rd.keyword
    ensures h in Read(url, keyword, requestMethod, data, resp, serialize, classify, orderOf).value.meta.headers
  {
    var rd := Read(url, keyword, requestMethod, data, resp, serialize, classify, orderOf).value;
    var doc := resp.body.value;
    var loc := LocalNamespace(doc.nsmap);
    var elems := IterTag(doc.root, QName(loc, keyword.value));
    assert rd.features[i] == NewFeature(elems[i], loc, serialize).value;
    var cs := LocalChildren(elems[i], loc);
    assert h in (set j | 0 <= j < |cs| && HasText(cs[j].text) :: cs[j].local);
    var j :| 0 <= j < |cs| && HasText(cs[j].text) && cs[j].local == h;
    assert cs[j] in elems[i].children && Matches(cs[j], QName(loc, Wildcard));
    assert elems[i] in Iter(doc.root);
    IterChild(doc.root, elems[i], cs[j]);
    assert cs[j] in IterTag(doc.root, QName(loc, Wildcard));
  }

  /** `reader += other`: the features are concatenated and the metadata
      merged into the left reader; anything but a reader raises
      `TypeError`, except a bare `object()`, which passes the class test and
      raises `AttributeError` at `other.features`. */
  function Combine(a: DataReader, b: Operand<DataReader>): (r: Result<DataReader, Error>)
    ensures r.Err? <==> !b.Same?
    ensures b.Foreign? ==> r == Err(TypeError)
    ensures b.Base? ==> r == Err(AttributeError)
    ensures r.Ok? ==> r.value.features == a.features + b.value.features
    ensures r.Ok? ==> Merge(a.meta, Same(b.value.meta)) == Ok(r.value.meta)
    ensures r.Ok? ==> r.value.url == a.url && r.value.keyword == a.keyword && r.value.requestMethod == a.requestMethod
                      && r.value.data == a.data && r.value.gml == a.gml
  {
    if b.Foreign? then Err(TypeError)
    else if b.Base? then Err(AttributeError)
    else
      var meta := Merge(a.meta, Same(b.value.meta)).value;
      Ok(a.(features := a.features + b.value.features, meta := meta))
  }

  /** Combining keeps every feature of both readers in order, and the
      headers of the result are those of both. */
  lemma CombineContents(a: DataReader, b: DataReader)
    ensures Combine(a, Same(b)).Ok?
    ensures |Combine(a, Same(b)).value.features| == |a.features| + |b.features|
    ensures forall i :: 0 <= i < |a.features| ==> Combine(a, Same(b)).value.features[i] == a.features[i]
    ensures forall i :: 0 <= i < |b.features| ==> Combine(a, Same(b)).value.features[|a.features| + i] == b.features[i]
    ensures Combine(a, Same(b)).value.meta.headers == a.meta.headers + b.meta.headers
  {
  }

  /** Combining well-formed readers gives a well-formed reader, and the
      readers of two different layers combine without complaint. */
  lemma CombineWellFormed(a: DataReader, b: DataReader)
    requires WellFormed(a.meta) && WellFormed(b.meta)
    ensures WellFormed(Combine(a, Same(b)).value.meta)
    ensures Combine(a, Same(b)).value.keyword == a.keyword
  {
    MergeWellFormed(a.meta, b.meta);
  }

  /** Combining readers is associative. */
  lemma CombineAssociative(a: DataReader, b: DataReader, c: DataReader)
    requires WellFormed(a.meta) && WellFormed(b.meta) && WellFormed(c.meta)
    ensures Combine(Combine(a, Same(b)).value, Same(c)) == Combine(a, Same(Combine(b, Same(c)).value))
  {
    MergeAssociative(a.meta, b.meta, c.meta);
    assert a.features + b.features + c.features == a.features + (b.features + c.features);
  }
}
