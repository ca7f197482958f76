# WFS20 in Dafny

A model of the pure logic of the `wfs20` Python package. The package is a client for OGC Web Feature Services, version 2.0. The model covers:

- **CRS identifiers** (`Crs`). A CRS string is parsed in one of its three forms: URN, `/def/crs/` URI, or `#` fragment. The axis order comes from a lookup table, defaulting to `"xy"`. Each CRS renders as a URN and as a URI, and two CRS are equal when their URNs are equal.
- **XML queries** (`Xml`, `Namespaces`). The parsed document is an immutable element tree. `find`, `findall` and `iter(tag)` work over qualified names. `element_key` splits a path on `/`. The response's own namespace is the first one not published by w3.org or opengis.net.
- **Features and layer metadata** (`Features`, `TypeInference`, `LayerMetas`):
  - the field map and geometry of a feature;
  - the header set of a layer, the type of each header, and the ten-character link table;
  - the `|=` merge and `==` of layer metadata.
- **Capabilities** (`Capabilities`): keywords, the GetCapabilities and GetFeature operations, the feature-type registry with each type's CRS list and WGS84 bounding box, and the service constraints.
- **Requests** (`Request`):
  - splitting a URL into base and query;
  - completing the GetCapabilities URL;
  - the status and exception checks on a response;
  - the `bbox` parameter, ordered by encoding and axis order;
  - the GetFeature URL.
- **Reader and service** (`Reader`, `Wfs`):
  - reading a GetFeature response into features and layer metadata;
  - `+=` on readers;
  - connecting to a service;
  - the guards of `get_data` and `to_file`.

Python exceptions are values of `Errors.Error`, returned through `Wrappers.Result`. A dunder method's test `isinstance(self, other.__class__)` is modelled by `Wrappers.Operand`. `Same(x)` is an operand of the receiver's class. `Base` is an instance of a proper base class, which for these plain classes is a bare `object()`: it passes the test, then raises `AttributeError` at the first attribute read from it. `Foreign` is an object whose class the receiver is not an instance of, a subclass instance included.

Code the package calls but does not define is passed in as a function parameter:

- `etree.tostring` is `Features.Serializer`;
- `float` is `Capabilities.FloatParser`;
- `is_type`, which `eval`s the text, is `TypeInference.Classifier`. A missing text classifies as neither int, float nor str, because `eval(None)` raises, the handler keeps `None`, and its type is `NoneType`;
- `parse_qsl` and `urlencode` are `Request.UrlCodec`;
- the HTTP request is `Wfs.Fetcher`, which returns a `Request.Response` whose body is already parsed;
- the axis-order database is `Crs.AxisTable`.

Two pieces of implicit state are made explicit:

- The iteration order of a Python set of headers is an explicit sequence (`LayerMetas.Enumerates`, `Reader.Enumerator`).
- The module global `LOC_NAMESPACE` is a parameter.

Behaviour of the code a reader might not expect, which the model keeps:

- A fragment-form CRS takes its authority from the last path segment (`Crs.ParseFragmentForm`).
- A URI whose version segment is `0` does not equal the EPSG URN of the same code (`Crs.UriZeroVersionNotEpsg`).
- A six-piece URN without a version segment, such as `urn:x-ogc:def:crs:EPSG:4326`, is read from the end, so its authority becomes "crs" (`Crs.LegacyUrn`).
- A `/def/crs/` URI with a trailing "/" has an empty code (`Crs.TrailingSlashUri`).
- With an empty version, `parse_qsl` drops the blank `version` pair, so the GetFeature query does not decode to the parameters it was built from (`Request.BlankVersionDropped`).
- The link table is not injective (`LayerMetas.LinkTableCollision`).
- Readers of different layers merge without complaint (`Reader.CombineWellFormed`).
- `bbox_string` uses the fifth bounding-box value instead of the CRS when more than four values are given under an "xy" URN or a URI. It raises `IndexError` for fewer than four (`Request.BboxString`).
- An exception report whose `Exception` element has no children is not detected, because lxml counts a childless element as false (`Request.BareExceptionPasses`).
- `get_data` reads the response using the layer's *title* as the element keyword (`Wfs.GetData`).

## Model

| member | source | states |
|---|---|---|
| Crs.Parse | src/wfs20/crs.py:33-58 | A string with "urn:" is a URN, and it raises `IndexError` exactly when it has fewer than three ":" pieces. A string with "/def/crs/" is a URI with the naming authority "ogc". A string with "#" is a fragment URI and always parses. Any other string raises `AttributeError`. Only the URN and `/def/crs/` forms set a version, and the order is the table's entry for the code. |
| Crs.UrnRoundTrip | src/wfs20/crs.py:36-42 | Any seven-segment `urn:na:def:crs:a:v:c` parses into na, a, v, c, and `get_urn_code` gives the same string back. |
| Crs.ParseUrnForm | src/wfs20/crs.py:36-42 | Any string containing "urn:" that ends in `:a:v:c` parses with authority a, version v and code c, whatever precedes them. Its naming authority is the second ":" piece. |
| Crs.LegacyUrn | src/wfs20/crs.py:36-42 | The versionless URN `urn:na:def:crs:auth:code` parses with authority "crs", version auth and code code, and renders back as `urn:na:def:crs:crs:auth:code`. |
| Crs.ParseUriForm | src/wfs20/crs.py:43-48 | Any string containing "/def/crs/" but not "urn:" that ends in `/a/v/c` parses with authority `a` upper-cased, version `v` and code `c`, whatever precedes them. |
| Crs.ParseUriCanonical | src/wfs20/crs.py:43-48 | A URI `prefix/def/crs/a/v/c` without "urn:" parses with authority `a` upper-cased, version `v` and code `c`. |
| Crs.TrailingSlashUri | src/wfs20/crs.py:43-48 | The same URI with a trailing "/" is read one segment off: the authority is the version upper-cased, the version is the code, and the code is empty. |
| Crs.ParseFragmentForm | src/wfs20/crs.py:49-53 | A fragment URI takes the upper-cased authority from the last segment's text before its first ".", and the code after the last "#". The version stays unset. |
| Crs.ParseFailure | src/wfs20/crs.py:33-58 | `CRS(s)` raises exactly when s is a URN with fewer than three ":" pieces, or is of none of the three forms. |
| Crs.AxisOrder | src/wfs20/crs.py:55-58 | The lookup gives the table's entry for a code it has, and "xy" for a code it lacks. |
| Crs.AxisOrderDefault | src/wfs20/crs.py:55-58 | The axis order is the lookup's entry for the code, or "xy" when the code has none. |
| Crs.UrnCode | src/wfs20/crs.py:83-87 | Renders `urn:na:def:crs:auth:version:code`. A version of 0 renders as "", and an unset version raises `AttributeError`. |
| Crs.UriCode1 | src/wfs20/crs.py:89-93 | Renders the `/def/crs/auth/version/code` URI. A falsy version renders as "0", and an unset version raises. |
| Crs.WriteBackUrn | src/wfs20/crs.py:83-87 | After `get_urn_code` the version is never the number 0. A CRS whose version was not 0 is unchanged, and no field other than the version ever changes. |
| Crs.WriteBackUri | src/wfs20/crs.py:89-93 | After `get_uri_code1` the version is never "". A CRS whose version was not "" is unchanged, and no field other than the version ever changes. |
| Crs.WriteBackKeepsRenderings | src/wfs20/crs.py:83-93 | The version each rendering writes back changes neither rendering. |
| Crs.ZeroTextNotNormalised | src/wfs20/crs.py:83-93 | A version string "0" gives the same URI as "" but a different URN. |
| Crs.FromEpsg | src/wfs20/crs.py:69-87 | For a code and version without ":", `from_epsg(c, v)` parses back as an EPSG URN with version v ("" when none is given) and code c. Its URN is `urn:ogc:def:crs:EPSG:v:c`. |
| Crs.Equal | src/wfs20/crs.py:63-67 | Two CRS are equal iff their URNs are equal. A CRS is never equal to an object the class test rejects. An unset version raises, and a bare `object()` raises `AttributeError`. |
| Crs.UriZeroVersionNotEpsg | src/wfs20/crs.py:63-67 | The URI `.../EPSG/0/c` does not equal `from_epsg(c)`. |
| Crs.Member | src/wfs20/wfs.py:73 | `x in crss` asks each entry's `__eq__` in order. It is true at the first equal entry, false when none is equal, and raises when an entry raises first. |
| Crs.MemberByUrn | src/wfs20/wfs.py:73 | When x and every entry have a version, `x in crss` never raises, and it is true exactly when some entry has the same URN as x. |
| Namespaces.LocalNamespace | src/wfs20/util.py:97-107 | The first namespace URI containing neither "w3.org" nor "opengis.net", or "" when every URI contains one. |
| Xml.ElementKey | src/wfs20/util.py:110-117 | Every `/`-separated step of the path is placed in the namespace, and joining the steps gives the path back. |
| Xml.ElementKeyPath | src/wfs20/util.py:110-117 | The key of steps joined by `/` is exactly those steps in the namespace. |
| TypeInference.FieldType | src/wfs20/util.py:130-138 | str iff str was observed, else float iff float was observed, else int. This holds for an empty list too. |
| TypeInference.FieldTypeConcat | src/wfs20/util.py:130-138 | Aggregating two batches separately and then together agrees with aggregating all observations at once. |
| TypeInference.FieldTypeIdempotent | src/wfs20/util.py:130-138 | Adding observations already present does not change the type. |
| TypeInference.FieldTypeSingleton | src/wfs20/util.py:130-138 | A single observed type aggregates to itself. |
| Features.Gather | src/wfs20/util.py:286-295 | The loop fails, with `IndexError`, exactly when a geometry-named child has no child. |
| Features.GatherFieldNames | src/wfs20/util.py:287-288 | The field names are the local names of the children with non-blank text. |
| Features.GatherLastText | src/wfs20/util.py:287-288 | A field holds the text of the last child with text under that name. |
| Features.GatherGeometryPresent | src/wfs20/util.py:289-295 | The geometry is present iff some child's lower-cased name is geom, geometry, geometrie or shape. |
| Features.GatherGeometry | src/wfs20/util.py:289-295 | The geometry is the serialised first child of the last such child, which must have one. |
| Features.NewFeature | src/wfs20/util.py:284-295 | `Feature(elem)` over the direct local-namespace children: the failure case, the field names, last-wins texts, and the geometry. |
| Features.FeatureList | src/wfs20/util.py:89-91 | One feature per matched element, in document order. The list fails, with `IndexError`, exactly when some feature fails. |
| LayerMetas.Headers | src/wfs20/util.py:314-327 | The local names of local-namespace elements anywhere in the tree with non-blank text, minus the keyword. |
| LayerMetas.Observations | src/wfs20/util.py:330-331 | The classified text of every element named by the header, in document order. |
| LayerMetas.LinkTable | src/wfs20/util.py:335-349 | Every header has an entry. The header at position i of the iteration order maps to its ten-character prefix, suffixed by the number of earlier headers with that prefix when there are any. |
| LayerMetas.BuildLinkTable | src/wfs20/util.py:335-349 | The counting loop of the constructor computes exactly the link table above. |
| LayerMetas.ShortHeaderKept | src/wfs20/util.py:343-348 | A header shorter than ten characters links to itself. |
| LayerMetas.LinkKeepsNine | src/wfs20/util.py:343-348 | Every link name starts with the header's first nine characters. |
| LayerMetas.LinkLengthBound | src/wfs20/util.py:343-348 | A link name has at most ten characters when at most ten headers share its prefix. |
| LayerMetas.LinkTableCollision | src/wfs20/util.py:344-348 | `abcdefghi1_x` and `abcdefghi1_y` both link to `abcdefghi1`, in either order, so the table is not injective. |
| LayerMetas.NewLayerMeta | src/wfs20/util.py:312-349 | `LayerMeta(t, keyword)`: the headers; one type per header, aggregated over its observations; and the link table of the iteration order. |
| LayerMetas.HeadersOfCombinedPage | src/wfs20/util.py:314-320 | The headers of a page whose children are those of two pages are the union of the two pages' headers. |
| LayerMetas.MergeTypes | src/wfs20/util.py:372-377 | Every key of either side. A key is str iff either side says str, else float iff either side says float, else int. |
| LayerMetas.Merge | src/wfs20/util.py:369-385 | `|=` takes the union of the headers, re-aggregates the types and takes a right-biased union of the links. An operand the class test rejects raises `TypeError`, and a bare `object()` raises `AttributeError`. |
| LayerMetas.MergeWellFormed | src/wfs20/util.py:369-385 | Merging keeps one type and one link per header, and a key on one side only keeps its type. |
| LayerMetas.MergeCommutes | src/wfs20/util.py:369-385 | The headers and types of a merge do not depend on the order of the operands. |
| LayerMetas.MergeTypesAssociative | src/wfs20/util.py:372-377 | Re-aggregating the types of three metas does not depend on the grouping. |
| LayerMetas.MergeAssociative | src/wfs20/util.py:369-385 | Merging three metas is associative. |
| LayerMetas.MergeIdempotent | src/wfs20/util.py:369-385 | Merging a meta with itself gives it back. |
| LayerMetas.Equal | src/wfs20/util.py:354-358 | `==` holds exactly for a meta operand with the same header set, and is false for an object the class test rejects. It raises `AttributeError` exactly for a bare `object()`. Equal well-formed metas have the same type keys and link keys. |
| Capabilities.Assign | src/wfs20/util.py:58-63 | Filling a dict from elements fails iff some entry fails, and then with the first failing entry's error. |
| Capabilities.AssignKeys | src/wfs20/util.py:59-63 | The keys of the dict are the keys of the entries. |
| Capabilities.AssignLastWins | src/wfs20/util.py:59-63 | Each key holds the value of its last entry. |
| Capabilities.MethodEntry | src/wfs20/util.py:60-62 | An HTTP method maps its upper-cased name to its xlink href. A missing href raises `KeyError`. |
| Capabilities.ParameterEntry | src/wfs20/util.py:65-78 | A parameter maps its name to the texts of its allowed values. A missing name raises `KeyError`. |
| Capabilities.BuildOperationMeta | src/wfs20/util.py:54-78 | An operation without a name raises `KeyError`. Otherwise it holds the method table and the parameter table. |
| Capabilities.ReadOperations | src/wfs20/util.py:28-32 | A failure of the operations loop is always `KeyError`. |
| Capabilities.ReadOperationsOk | src/wfs20/util.py:28-32 | The loop succeeds exactly when every operation has a name and every GetCapabilities or GetFeature operation builds its metadata. |
| Capabilities.ReadOperationsEmpty | src/wfs20/util.py:28-32 | The GetCapabilities or GetFeature slot is empty exactly when no operation has that name. |
| Capabilities.ReadOperationsLastWins | src/wfs20/util.py:28-32 | A filled slot holds the last operation with that name. |
| Capabilities.FoundText | src/wfs20/util.py:229-231 | The text of a found element. A missing element raises `AttributeError`. |
| Capabilities.Bbox84 | src/wfs20/util.py:233-244 | None without a bounding box, or when a corner, its text or one of its numbers is missing. Otherwise the lower-corner values followed by the upper-corner values. |
| Capabilities.Bbox84TokenOrder | src/wfs20/util.py:236-242 | The values are the whitespace-separated tokens of the lower corner, then the upper corner, each parsed, in order. |
| Capabilities.ParseFloats | src/wfs20/util.py:240-241 | The numbers of a token list are present exactly when every token parses, and are then the parsed tokens in order. |
| Capabilities.CornerValues | src/wfs20/util.py:237-241 | A corner gives numbers exactly when it and its text are present and every whitespace-separated token parses. |
| Capabilities.ParseText | src/wfs20/util.py:246-252 | The CRS of an element's text. A missing text raises `TypeError`. |
| Capabilities.BuildFeatureType | src/wfs20/util.py:227-265 | A missing Name, Title, Abstract or DefaultCRS raises `AttributeError`, checked in that order. A bad DefaultCRS text then raises its own error. The build succeeds exactly when these four are present and every CRS text and metadata href reads. Name, title and abstract are the texts found. The CRS list is the DefaultCRS followed by every OtherCRS in document order. The formats and metadata URLs are read in document order. |
| Capabilities.Identity | src/wfs20/util.py:229-231 | Name, title and abstract are read exactly when all three elements are present. They are the texts of those elements, and a missing element raises `AttributeError`. |
| Capabilities.CrsList | src/wfs20/util.py:246-252 | The CRS list reads exactly when the default text and every OtherCRS text parse. It is the default CRS followed by the others in order, and a bad default raises its own error first. |
| Capabilities.MetadataUrls | src/wfs20/util.py:263-265 | The URLs read exactly when every element has an xlink href. They are those hrefs in order, and a failure is the failure of some element. |
| Capabilities.DefaultCrsListed | src/wfs20/util.py:246-252 | A layer whose DefaultCRS text is the EPSG URN of a code lists the CRS that `from_epsg` builds for that code. |
| Capabilities.Register | src/wfs20/util.py:34-38 | The registry names are distinct. They are exactly the dict's keys, which are the names of the feature types. |
| Capabilities.RegisterLastWins | src/wfs20/util.py:34-38 | Each name maps to its last feature type. |
| Capabilities.RegisterOrder | src/wfs20/util.py:34-38 | `feature_types` lists the names in order of first appearance. |
| Capabilities.ConstraintEntry | src/wfs20/util.py:40-50 | A constraint with a DefaultValue holds its text, and otherwise the texts of its allowed values. A missing name raises `KeyError`. |
| Capabilities.BuildFeatureTypes | src/wfs20/util.py:35-36 | The feature types build exactly when each one does. They are built in document order, and a failure is that of the first failing one. |
| Capabilities.BuildServiceMeta | src/wfs20/util.py:17-51 | The build succeeds exactly when the operations, the feature types and the constraints all read. Otherwise it raises the first failure, in that order. The keywords and operations are as read. The registry is the feature types registered in document order, and the constraints are as read. |
| Capabilities.ServiceMetaLayer | src/wfs20/util.py:35-38 | A feature type that no later one renames is listed in `feature_types`, and its name maps to its metadata. |
| Request.BaseUrl | src/wfs20/request.py:12-17 | The text before the first "?", plus the pairs parsed from the text between the first and second "?". There are no pairs when the URL has no "?". |
| Request.ServiceQuery | src/wfs20/request.py:22-29 | The existing pairs stay first, in order, and afterwards service, request and version are all present. |
| Request.ServiceQueryAdded | src/wfs20/request.py:23-29 | `("service","WFS")`, `("request","GetCapabilities")` and `("version",v)` are each appended exactly when their key is absent. |
| Request.ServiceQueryLength | src/wfs20/request.py:23-29 | Nothing but the missing defaults is appended. |
| Request.ServiceQueryIdempotent | src/wfs20/request.py:22-29 | Completing a completed query changes nothing. |
| Request.ServiceQueryNonBlank | src/wfs20/request.py:22-29 | With a non-empty version, completing a query whose values are all non-empty keeps them all non-empty. |
| Request.ServiceUrl | src/wfs20/request.py:20-31 | The base, "?", and the encoded completed query. |
| Request.ServiceUrlIdempotent | src/wfs20/request.py:20-31 | Take a codec that drops blank values, decodes everything else back, and encodes "?". Then, with a non-empty version, completing a completed URL changes nothing. |
| Request.CheckStatus | src/wfs20/request.py:66-69 | 400 to 450 raise "Client Error" and 500 to 510 raise "Server Error". Every other code passes. |
| Request.GetResponse | src/wfs20/request.py:66-88 | The status check comes first. An XML body with an exception report then raises "WFS Error". Anything else is returned unchanged. |
| Request.BareExceptionPasses | src/wfs20/request.py:71-85 | A report whose Exception element has no children passes the check. |
| Request.DetailedExceptionRaises | src/wfs20/request.py:76-85 | The same report with an ExceptionText child raises "WFS Error". |
| Request.Format5 | src/wfs20/request.py:98 | `"{},{},{},{},{}".format(*args)` joins the first five arguments with commas. Fewer than five raise `IndexError`. |
| Request.BboxString | src/wfs20/request.py:91-104 | A URN CRS with "xy" order gives `b0,b1,b2,b3,urn`, and any other order gives `b1,b0,b3,b2,urn`. A URI CRS gives `b0,b1,b2,b3,uri`. With more than four values, an "xy" URN or a URI gives the first five values and no CRS. Fewer than four values raise `IndexError`. |
| Request.BboxStringSwap | src/wfs20/request.py:97-102 | Under a non-"xy" URN, a box gives the same string as the pair-swapped box under "xy". |
| Request.BboxStringFields | src/wfs20/request.py:97-98 | Splitting the string on "," gives back the four values and the URN. |
| Request.GetFeatureParams | src/wfs20/request.py:139-144 | The keys service, version, request, typenames and bbox, then startindex only when given, with their values. |
| Request.CreateGetRequest | src/wfs20/request.py:107-145 | The base URL, "?", and the encoded GetFeature parameters. A bbox failure is the only failure. |
| Request.CreateGetRequestBase | src/wfs20/request.py:138-145 | The request URL drops the original query and keeps the service URL's base. With a non-empty version and layer name, its query decodes to the GetFeature parameters. |
| Request.BlankVersionDropped | src/wfs20/request.py:138-145 | With an empty version, the query does not decode to the GetFeature parameters, because `parse_qsl` drops the blank pair. |
| Reader.Read | src/wfs20/reader.py:36-58 | Reading succeeds exactly when the response check passes, the body is XML, a keyword is given and every feature builds. Otherwise the response check's error comes first. A success holds the features of the keyword's elements, and its meta is `LayerMeta(t, keyword)` of the iteration order. |
| Reader.ReadFieldsAreHeaders | src/wfs20/util.py:81-94 | Every field of every feature read, other than the keyword, is one of the layer's headers. |
| Reader.Combine | src/wfs20/reader.py:63-72 | An operand the class test rejects raises `TypeError`, and a bare `object()` raises `AttributeError`; neither changes anything. Otherwise the features are concatenated, the metadata merged via `|=`, and every other field kept. |
| Reader.CombineContents | src/wfs20/reader.py:65-66 | The lengths add up, the order is preserved, and the headers are the union. |
| Reader.CombineWellFormed | src/wfs20/reader.py:63-67 | Readers of any two layers combine into a well-formed reader that keeps the left keyword. |
| Reader.CombineAssociative | src/wfs20/reader.py:63-67 | `+=` is associative. |
| Wfs.Connect | src/wfs20/wfs.py:27-37 | The completed service URL is fetched and checked, and its document read into the service metadata. No reader is present yet. |
| Wfs.Admit | src/wfs20/wfs.py:66-78 | Admission succeeds exactly when the layer is listed and has metadata, and `from_epsg` builds a CRS that is in the layer's CRS list. An unlisted layer raises "Request Error". So does a CRS not in the list. Errors from `from_epsg` and from the membership test propagate. A listed layer without metadata raises `KeyError`. |
| Wfs.AdmitByUrn | src/wfs20/wfs.py:72-78 | For a listed layer whose CRS all have a version, an EPSG code is admitted exactly when some CRS of the layer renders the EPSG URN of that code. The admitted CRS then has authority EPSG and that code. |
| Wfs.DataUrl | src/wfs20/wfs.py:79 | After the checks, the GetFeature URL of the service URL, version, layer, box and admitted CRS. |
| Wfs.DataUrlBase | src/wfs20/wfs.py:79 | For a non-empty version and layer name, the URL has the service URL's base and exactly the GetFeature parameters for the admitted CRS. |
| Wfs.GetData | src/wfs20/wfs.py:66-82 | Once the checks pass, `get_data` succeeds exactly when reading the GetFeature URL, with the layer's title as keyword, succeeds. Otherwise it raises that error. On success the new reader replaces the stored one and nothing else changes. |
| Wfs.GetDataRepeatable | src/wfs20/wfs.py:79-82 | Calling `get_data` again with the same arguments and responses gives the same service. |
| Wfs.ListedLayersHaveMeta | src/wfs20/util.py:34-38 | A name is in `feature_types` exactly when it has feature-type metadata. |
| Wfs.ToFile | src/wfs20/wfs.py:100-103 | Raises "Writing to file" when no reader is present or it has no features. |
| Wfs.ToFileAfterGetData | src/wfs20/wfs.py:100-103 | After a successful `get_data`, writing fails exactly when no feature was read. |

## Left out

- HTTP transport (`requests.request`, timeouts, `read_service`). A `Fetcher` function stands for it. The XML body of a response arrives already parsed, or as None when it is not well-formed.
- lxml parsing and `etree.tostring`. Their results are inputs, or the `Serializer` parameter.
- `eval` in `is_type`. It is the `Classifier` parameter, because arbitrary Python evaluation cannot be modelled.
- The sqlite lookup in `order_from_db`. It is the `AxisTable` map from code to order.
- `float` and `parse_qsl`/`urlencode`. These are the `FloatParser` and `UrlCodec` parameters, because numerics and percent encoding are library code.
- `PostElement` and `create_post_request`. The post path calls methods the element class does not define.
- src/wfs20/io.py (GDAL export), cli.py (argument parsing), thread.py (thread pool) and setup.py. These are I/O, user interface, concurrency and packaging.
- The legacy wfs20/wfs.py and wfs20/reader.py. These are stale copies that refer to undefined names.
- `LayerMeta.__or__`. It returns None for a meta operand and raises for anything else; it is never used.
- Capabilities.BuildOperationMeta: parameters are collected in a map rather than set as attributes with `setattr`. A parameter named like an existing attribute (say `request_methods`) would overwrite it in the source.
- Request.BboxString: the bounding-box values are taken already rendered by `str`.
- Reader.Read: a keyword containing "/" is taken as one local name. In the source it becomes a multi-step tag that matches nothing, which is the same under the model's assumption that local names contain no "/".
- Strings.Upper and Strings.Lower map ASCII letters only, with no Unicode case mapping.
- Xml.ElementKey: local names are assumed to contain neither "/" nor "*".
- LayerMetas.LinkLengthBound: only proved for at most ten headers per prefix. With more, a two-digit suffix makes the name eleven characters long.
- The `gml` field keeps the response text, not the raw bytes.
- lxml counts comment and processing-instruction children of an element, but the element tree here holds elements only. So an `Exception` element whose only children are comments is not representable (`Request.BareExceptionPasses` covers the childless case).
