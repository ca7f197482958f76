/** Request construction (src/wfs20/request.py): splitting a service URL
    into base and query, completing the GetCapabilities URL, the status
    check of a response, the bounding-box parameter, and the GetFeature
    URL. Query strings are sequences of (key, value) pairs; percent
    encoding and decoding are a given codec. */
module Request {
  import opened Wrappers
  import opened Errors
  import opened Strings
  import opened Xml
  import opened Namespaces
  import Crs

  type Pair = (string, string)

  /** `urllib.parse.parse_qsl` and `urlencode`, taken as given. */
  datatype UrlCodec = UrlCodec(parse: string -> seq<Pair>, encode: seq<Pair> -> string)

  /** Every pair has a non-empty value. */
  predicate NonBlank(ps: seq<Pair>)
  {
    forall i :: 0 <= i < |ps| ==> ps[i].1 != ""
  }

  /** `parse_qsl` with its default `keep_blank_values=False`: a pair with an
      empty value is dropped, so none is ever returned. */
  ghost predicate DropsBlanks(codec: UrlCodec)
  {
    forall q :: NonBlank(codec.parse(q))
  }

  /** Decoding undoes `urlencode` on every query whose values are all
      non-empty (percent encoding is lossless; only blank values are lost). */
  ghost predicate RoundTrips(codec: UrlCodec)
  {
    forall ps :: NonBlank(ps) ==> codec.parse(codec.encode(ps)) == ps
  }

  /** `urlencode` percent-encodes `?`, so no encoded query contains one. */
  ghost predicate QueryFree(codec: UrlCodec)
  {
    forall ps :: '?' !in codec.encode(ps)
  }

  /** `base_url(url)`: the text before the first `?`, and the pairs parsed
      from the text between the first and the second `?` (none when the URL
      has no `?`). */
  function BaseUrl(url: string, codec: UrlCodec): (r: (string, seq<Pair>))
    ensures r.0 <= url && '?' !in r.0
    ensures '?' !in url ==> r == (url, [])
    ensures '?' in url ==> url[|r.0|] == '?' && r.1 == codec.parse(Split(url[|r.0| + 1..], '?')[0])
  {
    var parts := Split(url, '?');
    SplitHead(url, '?');
    if '?' in url then (parts[0], codec.parse(parts[1])) else (parts[0], [])
  }

  function Keys(ps: seq<Pair>): (r: seq<string>)
    ensures |r| == |ps| && forall i :: 0 <= i < |ps| ==> r[i] == ps[i].0
  {
    seq(|ps|, i requires 0 <= i < |ps| => ps[i].0)
  }

  /** The default pair `(k, v)` when `k` is not among `keys`. */
  function Default(keys: seq<string>, k: string, v: string): (r: seq<Pair>)
    ensures k in keys ==> r == []
    ensures k !in keys ==> r == [(k, v)]
  {
    if k in keys then [] else [(k, v)]
  }

  /** The pairs of a GetCapabilities request: the given pairs in order,
      then each of service, request and version whose key is missing, in
      that order; every one of the three keys is then present. */
  function ServiceQuery(ps: seq<Pair>, version: string): (r: seq<Pair>)
    ensures ps <= r
    ensures "service" in Keys(r) && "request" in Keys(r) && "version" in Keys(r)
  {
    var keys := Keys(ps);
    var x := Default(keys, "service", "WFS");
    var y := Default(keys, "request", "GetCapabilities");
    var z := Default(keys, "version", version);
    var c := ps + x + y + z;
    var added := c[|ps|..];
    assert added == x + y + z;
    assert Keys(c) == keys + Keys(added);
    assert "service" !in keys ==> added[0] == ("service", "WFS");
    assert "request" !in keys ==> added[|x|] == ("request", "GetCapabilities");
    assert "version" !in keys ==> added[|x| + |y|] == ("version", version);
    c
  }

  /** A default pair is appended exactly when its key is missing. */
  lemma ServiceQueryAdded(ps: seq<Pair>, version: string)
    ensures ("service", "WFS") in ServiceQuery(ps, version)[|ps|..] <==> "service" !in Keys(ps)
    ensures ("request", "GetCapabilities") in ServiceQuery(ps, version)[|ps|..] <==> "request" !in Keys(ps)
    ensures ("version", version) in ServiceQuery(ps, version)[|ps|..] <==> "version" !in Keys(ps)
  {
    var keys := Keys(ps);
    var x := Default(keys, "service", "WFS");
    var y := Default(keys, "request", "GetCapabilities");
    var z := Default(keys, "version", version);
    assert ServiceQuery(ps, version)[|ps|..] == x + y + z;
    assert "service" != "request" && "service" != "version" && "request" != "version";
  }

  /** Nothing but the missing defaults is appended. */
  lemma ServiceQueryLength(ps: seq<Pair>, version: string)
    ensures |ServiceQuery(ps, version)| == |ps| + (if "service" in Keys(ps) then 0 else 1)
              + (if "request" in Keys(ps) then 0 else 1) + (if "version" in Keys(ps) then 0 else 1)
  {
  }

  /** Completing a completed query changes nothing. */
  lemma ServiceQueryIdempotent(ps: seq<Pair>, version: string)
    ensures ServiceQuery(ServiceQuery(ps, version), version) == ServiceQuery(ps, version)
  {
  }

  /** `service_url(url, version)`: the base, `?`, and the encoded completed
      query. */
  function ServiceUrl(url: string, version: string, codec: UrlCodec): (r: string)
    ensures r == BaseUrl(url, codec).0 + "?" + codec.encode(ServiceQuery(BaseUrl(url, codec).1, version))
  {
    var (base, ps) := BaseUrl(url, codec);
    Split(url, '?')[0] + "?" + codec.encode(ServiceQuery(ps, version))
  }

  /** Completing a query whose values are non-empty with a non-empty
      version keeps every value non-empty. */
  lemma ServiceQueryNonBlank(ps: seq<Pair>, version: string)
    requires NonBlank(ps) && version != ""
    ensures NonBlank(ServiceQuery(ps, version))
  {
    var keys := Keys(ps);
    var added := Default(keys, "service", "WFS") + Default(keys, "request", "GetCapabilities")
                 + Default(keys, "version", version);
    assert ServiceQuery(ps, version) == ps + added;
    assert NonBlank(added);
  }

  /** With `parse_qsl` and `urlencode` as they behave (blank values
      dropped, everything else decoded back, `?` encoded) and a non-empty
      version, completing a service URL twice is completing it once. */
  lemma ServiceUrlIdempotent(url: string, version: string, codec: UrlCodec)
    requires DropsBlanks(codec) && RoundTrips(codec) && QueryFree(codec)
    requires version != ""
    ensures ServiceUrl(ServiceUrl(url, version, codec), version, codec) == ServiceUrl(url, version, codec)
  {
    var (base, ps) := BaseUrl(url, codec);
    assert NonBlank(ps) by {
      if '?' in url {
        assert ps == codec.parse(Split(url[|base| + 1..], '?')[0]);
      }
    }
    ServiceQueryNonBlank(ps, version);
    var query := codec.encode(ServiceQuery(ps, version));
    var once := base + "?" + query;
    SplitNoSep(query, '?');
    SplitNoSep(base, '?');
    SplitAppend(base, query, '?');
    assert once == base + ['?'] + query;
    ServiceQueryIdempotent(ps, version);
  }

  /** The status check of `get_response`: 400 to 450 is a client error,
      500 to 510 a server error, every other code passes. */
  function CheckStatus(code: int, body: string): (r: Result<(), Error>)
    ensures r.Ok? <==> !(400 <= code <= 450) && !(500 <= code <= 510)
    ensures 400 <= code <= 450 ==> r == Err(WfsError("Client Error", code, body))
    ensures 500 <= code <= 510 ==> r == Err(WfsError("Server Error", code, body))
  {
    if 400 <= code < 451 then Err(WfsError("Client Error", code, body))
    else if 500 <= code < 511 then Err(WfsError("Server Error", code, body))
    else Ok(())
  }

  lemma JoinFive(parts: seq<string>, sep: char)
    requires |parts| == 5
    ensures Join(parts, sep) == parts[0] + [sep] + parts[1] + [sep] + parts[2] + [sep] + parts[3] + [sep] + parts[4]
  {
    var t1 := parts[1..];
    var t2 := t1[1..];
    var t3 := t2[1..];
    var t4 := t3[1..];
    assert t4 == [parts[4]];
    assert Join(t3, sep) == parts[3] + [sep] + parts[4];
    assert Join(t2, sep) == parts[2] + [sep] + (parts[3] + [sep] + parts[4]);
    assert Join(t1, sep) == parts[1] + [sep] + (parts[2] + [sep] + (parts[3] + [sep] + parts[4]));
  }

  /** A response of the HTTP layer: status code, text, the Content-Type
      header if sent, and the content parsed as XML (None when it is not
      well-formed). */
  datatype Response = Response(status: int, text: string, contentType: Option<string>, body: Option<Document>)

  /** The content types whose body is searched for an exception report. */
  const XmlContentTypes: seq<string> := ["text/xml", "application/xml", "application/vnd.ogc.se_xml"]

  /** The tags of an exception report, searched among the root's children;
      the last one has no namespace. */
  const ExceptionTags: seq<QName> := [
    QName("http://www.opengis.net/ows", "Exception"),
    QName(OwsNamespace, "Exception"),
    QName(OgcNamespace, "ServiceException"),
    QName("", "ServiceException")]

  /** The truth value of `find`'s result: lxml counts a found element as
      true only when it has children. */
  predicate Truthy(found: Option<Element>)
  {
    found.Some? && |found.value.children| > 0
  }

  /** `any(map(root.find, exceptions))`. */
  predicate ReportsException(root: Element)
  {
    exists i :: 0 <= i < |ExceptionTags| && Truthy(Find(root, [ExceptionTags[i]]))
  }

  /** `get_response` after the request: an error status raises `WFSError`,
      then an XML body is parsed and raises `WFSError("WFS Error", ...)`
      when it holds an exception report; any other response is returned. */
  function GetResponse(resp: Response): (r: Result<Response, Error>)
    ensures CheckStatus(resp.status, resp.text).Err? ==> r == Err(CheckStatus(resp.status, resp.text).error)
    ensures r.Ok? <==> CheckStatus(resp.status, resp.text).Ok?
                       && (resp.contentType.Some? && resp.contentType.value in XmlContentTypes ==>
                             resp.body.Some? && !ReportsException(resp.body.value.root))
    ensures r.Ok? ==> r.value == resp
    ensures r.Err? && CheckStatus(resp.status, resp.text).Ok? && resp.body.Some? ==>
              r.error == WfsError("WFS Error", resp.status, resp.text)
    ensures r.Err? && resp.body.None? && CheckStatus(resp.status, resp.text).Ok? ==> r.error == SyntaxError
  {
    var _ :- CheckStatus(resp.status, resp.text);
    if resp.contentType.Some? && resp.contentType.value in XmlContentTypes then
      if resp.body.None? then Err(SyntaxError)
      else if ReportsException(resp.body.value.root) then Err(WfsError("WFS Error", resp.status, resp.text))
      else Ok(resp)
    else Ok(resp)
  }

  /** An exception report whose `ows:Exception` element has no children
      (no `ExceptionText`) is taken for a normal response. */
  lemma BareExceptionPasses(status: int, text: string)
    requires !(400 <= status <= 450) && !(500 <= status <= 510)
    ensures var bare := Element(OwsNamespace, "Exception", None, map[], []);
            var root := Element(OwsNamespace, "ExceptionReport", None, map[], [bare]);
            var resp := Response(status, text, Some("text/xml"), Some(Document(text, [], root)));
            GetResponse(resp) == Ok(resp)
  {
    var bare := Element(OwsNamespace, "Exception", None, map[], []);
    var root := Element(OwsNamespace, "ExceptionReport", None, map[], [bare]);
    forall i | 0 <= i < |ExceptionTags|
      ensures !Truthy(Find(root, [ExceptionTags[i]]))
    {
      FindAllStep(root, ExceptionTags[i]);
      assert Select(root.children, ExceptionTags[i]) == Select([bare], ExceptionTags[i]);
    }
  }

  /** The same report with an `ExceptionText` child raises. */
  lemma DetailedExceptionRaises(status: int, text: string)
    requires !(400 <= status <= 450) && !(500 <= status <= 510)
    ensures var detail := Element(OwsNamespace, "ExceptionText", Some(text), map[], []);
            var exc := Element(OwsNamespace, "Exception", None, map[], [detail]);
            var root := Element(OwsNamespace, "ExceptionReport", None, map[], [exc]);
            var resp := Response(status, text, Some("text/xml"), Some(Document(text, [], root)));
            GetResponse(resp) == Err(WfsError("WFS Error", status, text))
  {
    var detail := Element(OwsNamespace, "ExceptionText", Some(text), map[], []);
    var exc := Element(OwsNamespace, "Exception", None, map[], [detail]);
    var root := Element(OwsNamespace, "ExceptionReport", None, map[], [exc]);
    FindAllStep(root, ExceptionTags[1]);
    assert Select([exc], ExceptionTags[1]) == [exc];
    assert Truthy(Find(root, [ExceptionTags[1]]));
  }

  /** `"{},{},{},{},{}".format(*args)`: the first five arguments joined by
      commas; fewer than five raise `IndexError`, more are ignored. */
  function Format5(args: seq<string>): (r: Result<string, Error>)
    ensures r.Err? <==> |args| < 5
    ensures r.Err? ==> r.error == IndexError
    ensures r.Ok? ==> r.value == Join(args[..5], ',')
    ensures r.Ok? ==> |r.value| == |args[0]| + |args[1]| + |args[2]| + |args[3]| + |args[4]| + 4
  {
    if |args| < 5 then Err(IndexError)
    else
      JoinFive(args[..5], ',');
      Ok(args[0] + "," + args[1] + "," + args[2] + "," + args[3] + "," + args[4])
  }

  /** `bbox_string(bbox, crs)`, with the coordinates already rendered by
      `str`. A URN CRS with "xy" order keeps the coordinate order, any other
      URN order swaps each pair, and a URI CRS keeps the order; the CRS
      rendering is computed before the string is formatted. */
  function BboxString(bbox: seq<string>, crs: Crs.CRS): (r: Result<string, Error>)
    ensures crs.encoding == Crs.Urn && crs.order == Crs.DefaultOrder && crs.version != Crs.Unset && |bbox| == 4 ==>
              r == Ok(Join(bbox + [Crs.UrnCode(crs).value], ','))
    ensures crs.encoding == Crs.Urn && crs.order != Crs.DefaultOrder && |bbox| >= 4 && crs.version != Crs.Unset ==>
              r == Ok(Join([bbox[1], bbox[0], bbox[3], bbox[2], Crs.UrnCode(crs).value], ','))
    ensures crs.encoding == Crs.Uri && crs.version != Crs.Unset && |bbox| == 4 ==>
              r == Ok(Join(bbox + [Crs.UriCode1(crs).value], ','))
    ensures |bbox| > 4 && crs.version != Crs.Unset && (crs.encoding == Crs.Uri || crs.order == Crs.DefaultOrder) ==>
              r == Ok(Join(bbox[..5], ','))
    ensures |bbox| < 4 && r.Err? ==> r.error == IndexError || crs.version == Crs.Unset
    ensures |bbox| < 4 && crs.version != Crs.Unset ==> r == Err(IndexError)
    ensures crs.version == Crs.Unset ==> r == Err(AttributeError) || (crs.encoding == Crs.Urn && crs.order != Crs.DefaultOrder && r == Err(IndexError))
    ensures r.Ok? ==> |r.value| >= 4
  {
    if crs.encoding == Crs.Urn then
      if crs.order == Crs.DefaultOrder then
        var code :- Crs.UrnCode(crs);
        assert |bbox| == 4 ==> (bbox + [code])[..5] == bbox + [code];
        assert |bbox| > 4 ==> (bbox + [code])[..5] == bbox[..5];
        Format5(bbox + [code])
      else if |bbox| < 4 then Err(IndexError)
      else
        var code :- Crs.UrnCode(crs);
        assert [bbox[1], bbox[0], bbox[3], bbox[2], code][..5] == [bbox[1], bbox[0], bbox[3], bbox[2], code];
        Format5([bbox[1], bbox[0], bbox[3], bbox[2], code])
    else
      var code :- Crs.UriCode1(crs);
      assert |bbox| == 4 ==> (bbox + [code])[..5] == bbox + [code];
      assert |bbox| > 4 ==> (bbox + [code])[..5] == bbox[..5];
      Format5(bbox + [code])
  }

  /** A URN CRS whose axis order is not "xy" gives the string of the
      coordinates with each pair swapped under "xy" order. */
  lemma BboxStringSwap(b0: string, b1: string, b2: string, b3: string, crs: Crs.CRS)
    requires crs.encoding == Crs.Urn && crs.order != Crs.DefaultOrder
    ensures BboxString([b0, b1, b2, b3], crs) == BboxString([b1, b0, b3, b2], crs.(order := Crs.DefaultOrder))
  {
  }

  /** With comma-free coordinates and CRS code, the five comma-separated
      fields of the string are the four coordinates, then the code. */
  lemma BboxStringFields(bbox: seq<string>, crs: Crs.CRS)
    requires |bbox| == 4 && forall i :: 0 <= i < 4 ==> ',' !in bbox[i]
    requires crs.encoding == Crs.Urn && crs.order == Crs.DefaultOrder
    requires Crs.UrnCode(crs).Ok? && ',' !in Crs.UrnCode(crs).value
    ensures BboxString(bbox, crs).Ok?
    ensures Split(BboxString(bbox, crs).value, ',') == bbox + [Crs.UrnCode(crs).value]
  {
    SplitJoin(bbox + [Crs.UrnCode(crs).value], ',');
  }

  /** The parameters of a GetFeature request, in insertion order. */
  function GetFeatureParams(version: string, featureType: string, bbox: string, startIndex: Option<int>): (r: seq<Pair>)
    ensures Keys(r) == ["service", "version", "request", "typenames", "bbox"] + (if startIndex.Some? then ["startindex"] else [])
    ensures r[0] == ("service", "WFS") && r[1] == ("version", version) && r[2] == ("request", "GetFeature")
    ensures r[3] == ("typenames", featureType) && r[4] == ("bbox", bbox)
    ensures startIndex.Some? ==> r[5] == ("startindex", IntToString(startIndex.value))
  {
    [("service", "WFS"), ("version", version), ("request", "GetFeature"), ("typenames", featureType), ("bbox", bbox)]
    + (if startIndex.Some? then [("startindex", IntToString(startIndex.value))] else [])
  }

  /** `create_get_request(url, version, featuretype, bbox, crs, startindex)`:
      the base URL with its query replaced by the GetFeature parameters. */
  function CreateGetRequest(url: string, version: string, featureType: string, bbox: seq<string>, crs: Crs.CRS,
                            startIndex: Option<int>, codec: UrlCodec): (r: Result<string, Error>)
    ensures r.Err? <==> BboxString(bbox, crs).Err?
    ensures r.Err? ==> r.error == BboxString(bbox, crs).error
    ensures r.Ok? ==> r.value == BaseUrl(url, codec).0 + "?"
                                 + codec.encode(GetFeatureParams(version, featureType, BboxString(bbox, crs).value, startIndex))
  {
    var (base, _) := BaseUrl(url, codec);
    var b :- BboxString(bbox, crs);
    Ok(base + "?" + codec.encode(GetFeatureParams(version, featureType, b, startIndex)))
  }

  /** The original query is dropped: the request URL's base is the service
      URL's base, and, with a non-empty version and layer name, its query
      decodes to the GetFeature parameters. */
  lemma CreateGetRequestBase(url: string, version: string, featureType: string, bbox: seq<string>, crs: Crs.CRS,
                             startIndex: Option<int>, codec: UrlCodec)
    requires RoundTrips(codec) && QueryFree(codec)
    requires version != "" && featureType != ""
    requires CreateGetRequest(url, version, featureType, bbox, crs, startIndex, codec).Ok?
    ensures var r := CreateGetRequest(url, version, featureType, bbox, crs, startIndex, codec).value;
            BaseUrl(r, codec) == (BaseUrl(url, codec).0, GetFeatureParams(version, featureType, BboxString(bbox, crs).value, startIndex))
  {
    var base := BaseUrl(url, codec).0;
    var params := GetFeatureParams(version, featureType, BboxString(bbox, crs).value, startIndex);
    assert NonBlank(params) by {
      assert |BboxString(bbox, crs).value| >= 4;
    }
    var query := codec.encode(params);
    SplitNoSep(query, '?');
    SplitNoSep(base, '?');
    SplitAppend(base, query, '?');
    assert base + "?" + query == base + ['?'] + query;
  }

  /** With an empty version the query of the request URL does not decode
      to the GetFeature parameters: `parse_qsl` drops the blank version. */
  lemma BlankVersionDropped(url: string, featureType: string, bbox: seq<string>, crs: Crs.CRS,
                            startIndex: Option<int>, codec: UrlCodec)
    requires DropsBlanks(codec)
    requires CreateGetRequest(url, "", featureType, bbox, crs, startIndex, codec).Ok?
    ensures var r := CreateGetRequest(url, "", featureType, bbox, crs, startIndex, codec).value;
            BaseUrl(r, codec).1 != GetFeatureParams("", featureType, BboxString(bbox, crs).value, startIndex)
  {
    var r := CreateGetRequest(url, "", featureType, bbox, crs, startIndex, codec).value;
    var params := GetFeatureParams("", featureType, BboxString(bbox, crs).value, startIndex);
    assert !NonBlank(params) by { assert params[1].1 == ""; }
    var base := BaseUrl(url, codec).0;
    assert r[|base|] == '?';
    assert '?' in r;
    assert NonBlank(BaseUrl(r, codec).1) by {
      assert BaseUrl(r, codec).1 == codec.parse(Split(r[|BaseUrl(r, codec).0| + 1..], '?')[0]);
    }
  }
}
