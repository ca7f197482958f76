/** The service object (src/wfs20/wfs.py `WebFeatureService`): connecting
    reads the capabilities; `get_data` checks the layer and the projection,
    builds the GetFeature request and reads its response; `to_file` refuses
    to write when nothing was read. The HTTP layer is a function from URL
    to response. */
module Wfs {
  import opened Wrappers
  import opened Errors
  import opened Strings
  import opened Features
  import opened TypeInference
  import opened Capabilities
  import opened Request
  import opened Reader
  import Crs

  datatype Service = Service(
    url: string,
    version: string,
    serviceUrl: string,
    meta: ServiceMeta,
    dataReader: Option<DataReader>)

  /** The HTTP layer: the response to a GET request of a URL. */
  type Fetcher = string -> Response

  const DefaultVersion: string := "2.0.0"

  /** `WebFeatureService(url, version)`: the completed GetCapabilities URL
      is fetched and its content read into the service metadata; no data
      has been read yet. */
  function Connect(url: string, version: string, codec: UrlCodec, fetch: Fetcher, table: Crs.AxisTable,
                   parseFloat: FloatParser): (r: Result<Service, Error>)
    ensures var resp := fetch(ServiceUrl(url, version, codec));
            && (GetResponse(resp).Err? ==> r == Err(GetResponse(resp).error))
            && (GetResponse(resp).Ok? && resp.body.None? ==> r == Err(SyntaxError))
            && (r.Ok? <==> GetResponse(resp).Ok? && resp.body.Some? && BuildServiceMeta(resp.body.value.root, table, parseFloat).Ok?)
            && (r.Ok? ==> r.value == Service(url, version, ServiceUrl(url, version, codec),
                                             BuildServiceMeta(resp.body.value.root, table, parseFloat).value, None))
  {
    var serviceUrl := ServiceUrl(url, version, codec);
    var resp :- GetResponse(fetch(serviceUrl));
    if resp.body.None? then Err(SyntaxError)
    else
      var meta :- BuildServiceMeta(resp.body.value.root, table, parseFloat);
      Ok(Service(url, version, serviceUrl, meta, None))
  }

  /** The checks `get_data` makes before any request is sent: the layer
      must be listed and the EPSG code's CRS must be among the layer's
      projections; the result is that CRS and the layer's metadata. */
  function Admit(svc: Service, featureType: string, epsg: int, table: Crs.AxisTable): (r: Result<(Crs.CRS, FeatureTypeMeta), Error>)
    ensures Some(featureType) !in svc.meta.featureTypes.names ==> r == Err(InternalError("Request Error"))
    ensures r.Ok? <==> Some(featureType) in svc.meta.featureTypes.names
                       && Crs.FromEpsg(IntToString(epsg), None, table).Ok?
                       && Some(featureType) in svc.meta.featureTypes.metas
                       && Crs.Member(Crs.FromEpsg(IntToString(epsg), None, table).value,
                                     svc.meta.featureTypes.metas[Some(featureType)].crs) == Ok(true)
    ensures Some(featureType) in svc.meta.featureTypes.names && Crs.FromEpsg(IntToString(epsg), None, table).Err? ==>
              r == Err(Crs.FromEpsg(IntToString(epsg), None, table).error)
    ensures (Some(featureType) in svc.meta.featureTypes.names && Crs.FromEpsg(IntToString(epsg), None, table).Ok?
             && Some(featureType) !in svc.meta.featureTypes.metas) ==> r == Err(KeyError)
    ensures Some(featureType) in svc.meta.featureTypes.names && Some(featureType) in svc.meta.featureTypes.metas
            && Crs.FromEpsg(IntToString(epsg), None, table).Ok?
            && Crs.Member(Crs.FromEpsg(IntToString(epsg), None, table).value,
                          svc.meta.featureTypes.metas[Some(featureType)].crs).Err? ==>
              r == Err(Crs.Member(Crs.FromEpsg(IntToString(epsg), None, table).value,
                                  svc.meta.featureTypes.metas[Some(featureType)].crs).error)
    ensures r.Ok? ==> Some(featureType) in svc.meta.featureTypes.names
                      && Some(featureType) in svc.meta.featureTypes.metas
                      && r.value.1 == svc.meta.featureTypes.metas[Some(featureType)]
                      && Crs.FromEpsg(IntToString(epsg), None, table) == Ok(r.value.0)
                      && Crs.Member(r.value.0, r.value.1.crs) == Ok(true)
    ensures Some(featureType) in svc.meta.featureTypes.names && Some(featureType) in svc.meta.featureTypes.metas
            && Crs.FromEpsg(IntToString(epsg), None, table).Ok?
            && Crs.Member(Crs.FromEpsg(IntToString(epsg), None, table).value,
                          svc.meta.featureTypes.metas[Some(featureType)].crs) == Ok(false)
            ==> r == Err(InternalError("Request Error"))
  {
    if Some(featureType) !in svc.meta.featureTypes.names then Err(InternalError("Request Error"))
    else
      var crs :- Crs.FromEpsg(IntToString(epsg), None, table);
      if Some(featureType) !in svc.meta.featureTypes.metas then Err(KeyError)
      else
        var meta := svc.meta.featureTypes.metas[Some(featureType)];
        var listed :- Crs.Member(crs, meta.crs);
        if !listed then Err(InternalError("Request Error"))
        else Ok((crs, meta))
  }

  /** The URN `from_epsg(code)` renders: EPSG, empty version. */
  function EpsgUrn(epsg: int): string
  {
    Crs.UrnString(Crs.DefaultNamingAuthority, "EPSG", "", IntToString(epsg))
  }

  /** For a registered layer whose CRS all carry a version, an EPSG code is
      admitted exactly when one of the layer's CRS renders the EPSG URN of
      that code; the admitted CRS is then that EPSG code. */
  lemma AdmitByUrn(svc: Service, featureType: string, epsg: int, table: Crs.AxisTable)
    requires Some(featureType) in svc.meta.featureTypes.names && Some(featureType) in svc.meta.featureTypes.metas
    requires var crss := svc.meta.featureTypes.metas[Some(featureType)].crs;
             forall j :: 0 <= j < |crss| ==> crss[j].version != Crs.Unset
    ensures var crss := svc.meta.featureTypes.metas[Some(featureType)].crs;
            Admit(svc, featureType, epsg, table).Ok? <==>
              exists j :: 0 <= j < |crss| && Crs.UrnCode(crss[j]) == Ok(EpsgUrn(epsg))
    ensures Admit(svc, featureType, epsg, table).Ok? ==>
              var c := Admit(svc, featureType, epsg, table).value.0;
              c.auth == "EPSG" && c.code == IntToString(epsg) && Crs.UrnCode(c) == Ok(EpsgUrn(epsg))
  {
    var crss := svc.meta.featureTypes.metas[Some(featureType)].crs;
    Crs.MemberByUrn(Crs.FromEpsg(IntToString(epsg), None, table).value, crss);
  }

  /** The GetFeature URL `get_data` builds once the checks pass: the
      service's own URL and version, the layer, the bounding box in the
      admitted CRS, no start index. */
  function DataUrl(svc: Service, featureType: string, bbox: seq<string>, epsg: int, table: Crs.AxisTable,
                   codec: UrlCodec): (r: Result<string, Error>)
    ensures Admit(svc, featureType, epsg, table).Err? ==> r == Err(Admit(svc, featureType, epsg, table).error)
    ensures Admit(svc, featureType, epsg, table).Ok? ==>
              r == CreateGetRequest(svc.url, svc.version, featureType, bbox, Admit(svc, featureType, epsg, table).value.0, None, codec)
  {
    var (crs, _) :- Admit(svc, featureType, epsg, table);
    CreateGetRequest(svc.url, svc.version, featureType, bbox, crs, None, codec)
  }

  /** `get_data(featuretype, bbox, epsg)`: after the checks, the GetFeature
      URL is read with the layer's title as keyword; the reader is stored
      in the service, which is otherwise unchanged. */
  function GetData(svc: Service, featureType: string, bbox: seq<string>, epsg: int, table: Crs.AxisTable,
                   codec: UrlCodec, fetch: Fetcher, serialize: Serializer, classify: Classifier,
                   orderOf: Enumerator): (r: Result<Service, Error>)
    requires Sound(orderOf)
    ensures DataUrl(svc, featureType, bbox, epsg, table, codec).Err? ==> r == Err(DataUrl(svc, featureType, bbox, epsg, table, codec).error)
    ensures DataUrl(svc, featureType, bbox, epsg, table, codec).Ok? ==>
              var url := DataUrl(svc, featureType, bbox, epsg, table, codec).value;
              var title := Admit(svc, featureType, epsg, table).value.1.title;
              var rd := Read(url, title, "GET", None, fetch(url), serialize, classify, orderOf);
              && (r.Ok? <==> rd.Ok?)
              && (rd.Err? ==> r == Err(rd.error))
    ensures r.Ok? ==> DataUrl(svc, featureType, bbox, epsg, table, codec).Ok? && r.value.dataReader.Some?
    ensures r.Ok? ==> var url := DataUrl(svc, featureType, bbox, epsg, table, codec).value;
                      var title := Admit(svc, featureType, epsg, table).value.1.title;
                      Read(url, title, "GET", None, fetch(url), serialize, classify, orderOf) == Ok(r.value.dataReader.value)
    ensures r.Ok? ==> r.value == svc.(dataReader := r.value.dataReader)
  {
    var url :- DataUrl(svc, featureType, bbox, epsg, table, codec);
    var title := Admit(svc, featureType, epsg, table).value.1.title;
    var reader :- Read(url, title, "GET", None, fetch(url), serialize, classify, orderOf);
    Ok(svc.(dataReader := Some(reader)))
  }

  /** `get_data` only replaces the stored reader, so calling it again with
      the same arguments (and the same responses) gives the same service. */
  lemma GetDataRepeatable(svc: Service, featureType: string, bbox: seq<string>, epsg: int, table: Crs.AxisTable,
                          codec: UrlCodec, fetch: Fetcher, serialize: Serializer, classify: Classifier,
                          orderOf: Enumerator)
    requires Sound(orderOf)
    requires GetData(svc, featureType, bbox, epsg, table, codec, fetch, serialize, classify, orderOf).Ok?
    ensures var after := GetData(svc, featureType, bbox, epsg, table, codec, fetch, serialize, classify, orderOf).value;
            GetData(after, featureType, bbox, epsg, table, codec, fetch, serialize, classify, orderOf) == Ok(after)
  {
    var after := GetData(svc, featureType, bbox, epsg, table, codec, fetch, serialize, classify, orderOf).value;
    assert Admit(after, featureType, epsg, table) == Admit(svc, featureType, epsg, table);
    assert DataUrl(after, featureType, bbox, epsg, table, codec) == DataUrl(svc, featureType, bbox, epsg, table, codec);
  }

  /** The GetFeature URL keeps the base of the service's URL and, for a
      non-empty version and layer name, carries exactly the GetFeature
      parameters for the admitted CRS. */
  lemma DataUrlBase(svc: Service, featureType: string, bbox: seq<string>, epsg: int, table: Crs.AxisTable, codec: UrlCodec)
    requires RoundTrips(codec) && QueryFree(codec)
    requires svc.version != "" && featureType != ""
    requires DataUrl(svc, featureType, bbox, epsg, table, codec).Ok?
    ensures var crs := Admit(svc, featureType, epsg, table).value.0;
            BaseUrl(DataUrl(svc, featureType, bbox, epsg, table, codec).value, codec)
              == (BaseUrl(svc.url, codec).0, GetFeatureParams(svc.version, featureType, BboxString(bbox, crs).value, None))
  {
    var crs := Admit(svc, featureType, epsg, table).value.0;
    CreateGetRequestBase(svc.url, svc.version, featureType, bbox, crs, None, codec);
  }

  /** Every layer the service lists has its metadata, so the membership
      check is the only way an unknown layer is refused. */
  lemma ListedLayersHaveMeta(root: Xml.Element, table: Crs.AxisTable, parseFloat: FloatParser, name: Option<string>)
    requires BuildServiceMeta(root, table, parseFloat).Ok?
    ensures var reg := BuildServiceMeta(root, table, parseFloat).value.featureTypes;
            name in reg.names <==> name in reg.metas
  {
  }

  /** `to_file(out, driver)` up to the write: it raises unless a reader with
      at least one feature is present. */
  function ToFile(svc: Service): (r: Result<seq<Feature>, Error>)
    ensures r.Err? <==> svc.dataReader.None? || |svc.dataReader.value.features| == 0
    ensures r.Err? ==> r.error == InternalError("Writing to file")
    ensures r.Ok? ==> r.value == svc.dataReader.value.features
  {
    if svc.dataReader.None? || |svc.dataReader.value.features| == 0 then Err(InternalError("Writing to file"))
    else Ok(svc.dataReader.value.features)
  }

  /** A freshly connected service has nothing to write, and after a
      successful `get_data` writing fails exactly when no feature was read. */
  lemma ToFileAfterGetData(svc: Service, featureType: string, bbox: seq<string>, epsg: int, table: Crs.AxisTable,
                           codec: UrlCodec, fetch: Fetcher, serialize: Serializer, classify: Classifier,
                           orderOf: Enumerator)
    requires Sound(orderOf)
    requires GetData(svc, featureType, bbox, epsg, table, codec, fetch, serialize, classify, orderOf).Ok?
    ensures var after := GetData(svc, featureType, bbox, epsg, table, codec, fetch, serialize, classify, orderOf).value;
            ToFile(after).Err? <==> |after.dataReader.value.features| == 0
  {
  }
}
