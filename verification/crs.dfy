/** CRS identifiers (src/wfs20/crs.py): parsing the URN, URI and fragment
    forms, the axis-order lookup, the two canonical renderings with their
    version write-back, URN equality and tuple membership. */
module Crs {
  import opened Wrappers
  import opened Errors
  import opened Strings

  datatype Encoding = Urn | Uri

  /** The `version` attribute: a parsed string, the integer 0 that
      `get_uri_code1` writes back, or never assigned (fragment form). */
  datatype Version = Text(s: string) | Zero | Unset

  datatype CRS = CRS(
    source: string,
    encoding: Encoding,
    na: string,
    auth: string,
    version: Version,
    code: string,
    order: string)

  /** The axis-order table: CRS code to its order column. */
  type AxisTable = map<string, string>

  const DefaultOrder: string := "xy"
  const DefaultNamingAuthority: string := "ogc"
  const UriBase: string := "http://www.opengis.net/def/crs/"

  /** Column 2 of the first row for `code`, or "xy" when no row exists. */
  function AxisOrder(table: AxisTable, code: string): (r: string)
    ensures code in table ==> r == table[code]
    ensures code !in table ==> r == "xy"
  {
    if code in table then table[code] else DefaultOrder
  }

  /** `urn:<na>:def:crs:<auth>:<version>:<code>`. */
  function UrnString(na: string, auth: string, version: string, code: string): string
  {
    "urn:" + na + ":def:crs:" + auth + ":" + version + ":" + code
  }

  /** `http://www.opengis.net/def/crs/<auth>/<version>/<code>`. */
  function UriString(auth: string, version: string, code: string): string
  {
    UriBase + auth + "/" + version + "/" + code
  }

  /** `CRS(s)`: the first recognised form wins. A URN is split on ":" and
      needs three segments; a `/def/crs/` URI is split on "/"; a fragment
      URI takes its authority from the last path segment. Any other string
      leaves `code` unassigned, so the axis lookup raises. */
  function Parse(s: string, table: AxisTable): (r: Result<CRS, Error>)
    ensures r.Ok? ==> r.value.source == s && r.value.order == AxisOrder(table, r.value.code)
    ensures r.Ok? ==> r.value.version != Zero
    ensures r.Ok? ==> (r.value.encoding == Urn <==> Contains(s, "urn:"))
    ensures r.Ok? ==> (r.value.version == Unset <==> !Contains(s, "urn:") && !Contains(s, "/def/crs/"))
    ensures r.Ok? && r.value.encoding == Uri ==> r.value.na == DefaultNamingAuthority
    ensures Contains(s, "urn:") ==> (r.Err? <==> |Split(s, ':')| < 3)
    ensures Contains(s, "urn:") && |Split(s, ':')| < 3 ==> r == Err(IndexError)
    ensures !Contains(s, "urn:") && !Contains(s, "/def/crs/") && '#' in s ==> r.Ok?
    ensures !Contains(s, "urn:") && !Contains(s, "/def/crs/") && '#' !in s ==> r == Err(AttributeError)
  {
    if Contains(s, "urn:") then
      var p := Split(s, ':');
      if |p| < 3 then Err(IndexError)
      else
        var code := p[|p| - 1];
        Ok(CRS(s, Urn, p[1], p[|p| - 3], Text(p[|p| - 2]), code, AxisOrder(table, code)))
    else if Contains(s, "/def/crs/") then
      var p := Split(s, '/');
      if |p| < 3 then Err(IndexError)
      else
        var code := p[|p| - 1];
        Ok(CRS(s, Uri, DefaultNamingAuthority, Upper(p[|p| - 3]), Text(p[|p| - 2]), code,
               AxisOrder(table, code)))
    else if '#' in s then
      var last := LastPiece(s, '/');
      var code := LastPiece(last, '#');
      Ok(CRS(s, Uri, DefaultNamingAuthority, Upper(Split(last, '.')[0]), Unset, code,
             AxisOrder(table, code)))
    else
      Err(AttributeError)
  }

  /** `get_urn_code()`: the version 0 renders as the empty string; an
      unassigned version raises. */
  function UrnCode(c: CRS): (r: Result<string, Error>)
    ensures r.Err? <==> c.version == Unset
    ensures r.Err? ==> r.error == AttributeError
    ensures c.version.Text? ==> r == Ok(UrnString(c.na, c.auth, c.version.s, c.code))
    ensures c.version == Zero ==> r == Ok(UrnString(c.na, c.auth, "", c.code))
  {
    match c.version
    case Unset => Err(AttributeError)
    case Zero => Ok(UrnString(c.na, c.auth, "", c.code))
    case Text(v) => Ok(UrnString(c.na, c.auth, v, c.code))
  }

  /** `get_uri_code1()`: a falsy version (empty string or 0) renders as "0";
      the naming authority is not part of the URI. */
  function UriCode1(c: CRS): (r: Result<string, Error>)
    ensures r.Err? <==> c.version == Unset
    ensures r.Ok? && (c.version == Zero || c.version == Text("")) ==> r.value == UriString(c.auth, "0", c.code)
    ensures r.Ok? && c.version.Text? && c.version.s != "" ==> r.value == UriString(c.auth, c.version.s, c.code)
  {
    match c.version
    case Unset => Err(AttributeError)
    case Zero => Ok(UriString(c.auth, "0", c.code))
    case Text(v) => Ok(UriString(c.auth, if v == "" then "0" else v, c.code))
  }

  /** The state `get_urn_code()` leaves behind: `version == 0` becomes "". */
  function WriteBackUrn(c: CRS): (r: CRS)
    ensures r.version != Zero
    ensures c.version != Zero ==> r == c
    ensures r == c.(version := r.version)
  {
    if c.version == Zero then c.(version := Text("")) else c
  }

  /** The state `get_uri_code1()` leaves behind: a falsy version becomes 0. */
  function WriteBackUri(c: CRS): (r: CRS)
    ensures r.version != Text("")
    ensures c.version != Text("") ==> r == c
    ensures r == c.(version := r.version)
  {
    if c.version == Text("") then c.(version := Zero) else c
  }

  /** The write-back of either rendering changes neither rendering, so the
      URN form (and with it equality) is stable under both calls. */
  lemma WriteBackKeepsRenderings(c: CRS)
    ensures UrnCode(WriteBackUrn(c)) == UrnCode(c) && UriCode1(WriteBackUrn(c)) == UriCode1(c)
    ensures UrnCode(WriteBackUri(c)) == UrnCode(c) && UriCode1(WriteBackUri(c)) == UriCode1(c)
    ensures WriteBackUrn(c).version != Zero && WriteBackUri(c).version != Text("")
  {
  }

  /** A version string "0" is not normalised: it renders the same URI as the
      empty version but a different URN. */
  lemma ZeroTextNotNormalised(c: CRS)
    requires c.version == Text("0")
    ensures UriCode1(c) == UriCode1(c.(version := Text("")))
    ensures UrnCode(c) != UrnCode(c.(version := Text("")))
  {
    assert |UrnCode(c).value| == |UrnCode(c.(version := Text(""))).value| + 1;
  }

  /** `CRS.from_epsg(code, version)` builds `urn:ogc:def:crs:EPSG:<v>:<c>`,
      with "" for a missing version, and reads it back as an EPSG URN. */
  function FromEpsg(code: string, version: Option<string>, table: AxisTable): (r: Result<CRS, Error>)
    ensures ':' !in code && (version.Some? ==> ':' !in version.value) ==>
              var v := if version.None? then "" else version.value;
              && r.Ok? && r.value.encoding == Urn && r.value.auth == "EPSG"
              && r.value.version == Text(v) && r.value.code == code
              && r.value.order == AxisOrder(table, code)
              && UrnCode(r.value) == Ok(UrnString("ogc", "EPSG", v, code))
  {
    var v := if version.None? then "" else version.value;
    if ':' !in code && ':' !in v then
      assert ':' !in DefaultNamingAuthority && ':' !in "EPSG";
      UrnRoundTrip(DefaultNamingAuthority, "EPSG", v, code, table);
      Parse(UrnString(DefaultNamingAuthority, "EPSG", v, code), table)
    else
      Parse(UrnString(DefaultNamingAuthority, "EPSG", v, code), table)
  }

  /** `__eq__`: equal URN strings; never equal to a non-CRS; an unassigned
      version on either side raises, and so does a bare `object()`, which
      passes the class test but has no `get_urn_code`. */
  function Equal(a: CRS, b: Operand<CRS>): (r: Result<bool, Error>)
    ensures b.Foreign? ==> r == Ok(false)
    ensures b.Base? ==> r == Err(AttributeError)
    ensures b.Same? ==> (r.Err? <==> a.version == Unset || b.value.version == Unset)
    ensures b.Same? && r.Ok? ==> (r.value <==> UrnCode(a) == UrnCode(b.value))
  {
    match b
    case Foreign => Ok(false)
    case Base =>
      var _ :- UrnCode(a);
      Err(AttributeError)
    case Same(o) =>
      var ua :- UrnCode(a);
      var ub :- UrnCode(o);
      Ok(ua == ub)
  }

  /** `x in crss` for a tuple: each element's `__eq__` is asked in order,
      so the first element with an unassigned version before any match
      raises. */
  function Member(x: CRS, crss: seq<CRS>): (r: Result<bool, Error>)
    ensures r == Ok(false) <==> forall i :: 0 <= i < |crss| ==> Equal(crss[i], Same(x)) == Ok(false)
    ensures r == Ok(true) <==>
              exists i :: 0 <= i < |crss| && Equal(crss[i], Same(x)) == Ok(true)
                && forall j :: 0 <= j < i ==> Equal(crss[j], Same(x)) == Ok(false)
    ensures r.Err? ==> exists i :: 0 <= i < |crss| && Equal(crss[i], Same(x)).Err?
    decreases |crss|
  {
    if |crss| == 0 then Ok(false)
    else
      var e :- Equal(crss[0], Same(x));
      if e then Ok(true)
      else
        var rest := Member(x, crss[1..]);
        assert forall i :: 1 <= i < |crss| ==> crss[1..][i - 1] == crss[i];
        rest
  }

  // ---------------------------------------------------------------------
  // The recognised forms
  // ---------------------------------------------------------------------

  /** The four fixed-shape pieces at the head of every URN. */
  lemma UrnHeadPieces(na: string)
    requires ':' !in na
    ensures Split("urn:" + na + ":def:crs", ':') == ["urn", na, "def", "crs"]
  {
    assert "urn:" + na + ":def:crs" == "urn" + [':'] + na + [':'] + "def" + [':'] + "crs";
    SplitFour("urn", na, "def", "crs", ':');
  }

  lemma UrnPieces(na: string, auth: string, version: string, code: string)
    requires ':' !in na && ':' !in auth && ':' !in version && ':' !in code
    ensures Split(UrnString(na, auth, version, code), ':') == ["urn", na, "def", "crs", auth, version, code]
  {
    var head := "urn:" + na + ":def:crs";
    assert UrnString(na, auth, version, code) == head + [':'] + auth + [':'] + version + [':'] + code;
    SplitThree(head, auth, version, code, ':');
    UrnHeadPieces(na);
  }

  /** A seven-segment URN parses into its naming authority, authority,
      version and code, and `get_urn_code` gives the string back exactly. */
  lemma {:induction false} UrnRoundTrip(na: string, auth: string, version: string, code: string, table: AxisTable)
    requires ':' !in na && ':' !in auth && ':' !in version && ':' !in code
    ensures var r := Parse(UrnString(na, auth, version, code), table);
            && r == Ok(CRS(UrnString(na, auth, version, code), Urn, na, auth, Text(version), code,
                           AxisOrder(table, code)))
            && UrnCode(r.value) == Ok(UrnString(na, auth, version, code))
  {
    var s := UrnString(na, auth, version, code);
    ContainsPrefix(s, "urn:");
    UrnPieces(na, auth, version, code);
  }

  /** A `/def/crs/` URI seen as a head and three "/"-separated pieces. */
  lemma UriRegroup(prefix: string, a: string, v: string, c: string)
    ensures prefix + "/def/crs/" + a + "/" + v + "/" + c == (prefix + "/def/crs") + ['/'] + a + ['/'] + v + ['/'] + c
  {
  }

  /** The "/" pieces of a `/def/crs/` URI end in authority, version, code. */
  lemma UriPieces(prefix: string, auth: string, version: string, code: string)
    requires '/' !in auth && '/' !in version && '/' !in code
    ensures var s := prefix + "/def/crs/" + auth + "/" + version + "/" + code;
            var p := Split(s, '/');
            && Contains(s, "/def/crs/")
            && |p| >= 3 && p[|p| - 3] == auth && p[|p| - 2] == version && p[|p| - 1] == code
  {
    UriRegroup(prefix, auth, version, code);
    DefCrsInside(prefix, auth + "/" + version + "/" + code);
    assert prefix + "/def/crs/" + auth + "/" + version + "/" + code == prefix + "/def/crs/" + (auth + "/" + version + "/" + code);
    SplitThree(prefix + "/def/crs", auth, version, code, '/');
  }

  /** Any string containing "urn:" that ends in `:<a>:<v>:<c>` is a URN
      with authority `a`, version `v` and code `c`, whatever precedes them;
      its naming authority is the second ":" piece. */
  lemma {:induction false} ParseUrnForm(s: string, pre: string, a: string, v: string, c: string, table: AxisTable)
    requires s == pre + ":" + a + ":" + v + ":" + c
    requires ':' !in a && ':' !in v && ':' !in c
    requires Contains(s, "urn:")
    ensures Split(s, ':') == Split(pre, ':') + [a, v, c]
    ensures Parse(s, table) == Ok(CRS(s, Urn, Split(s, ':')[1], a, Text(v), c, AxisOrder(table, c)))
  {
    assert s == pre + [':'] + a + [':'] + v + [':'] + c;
    SplitThree(pre, a, v, c, ':');
    var p := Split(s, ':');
    assert p[|p| - 3] == a && p[|p| - 2] == v && p[|p| - 1] == c;
  }

  /** A six-piece URN without a version segment, such as the legacy
      `urn:x-ogc:def:crs:EPSG:4326`, is read from the end: the authority
      becomes "crs", the version the real authority, and the URN rendering
      repeats "crs". */
  lemma LegacyUrn(na: string, auth: string, code: string, table: AxisTable)
    requires ':' !in na && ':' !in auth && ':' !in code
    ensures var s := "urn:" + na + ":def:crs:" + auth + ":" + code;
            var r := Parse(s, table);
            && r == Ok(CRS(s, Urn, na, "crs", Text(auth), code, AxisOrder(table, code)))
            && UrnCode(r.value) == Ok("urn:" + na + ":def:crs:crs:" + auth + ":" + code)
  {
    var s := "urn:" + na + ":def:crs:" + auth + ":" + code;
    ContainsPrefix(s, "urn:");
    LegacyUrnPieces(na, auth, code);
    assert UrnString(na, "crs", auth, code) == "urn:" + na + ":def:crs:crs:" + auth + ":" + code;
  }

  lemma LegacyUrnPieces(na: string, auth: string, code: string)
    requires ':' !in na && ':' !in auth && ':' !in code
    ensures Split("urn:" + na + ":def:crs:" + auth + ":" + code, ':') == ["urn", na, "def", "crs", auth, code]
  {
    var head := "urn:" + na + ":def:crs";
    assert "urn:" + na + ":def:crs:" + auth + ":" + code == head + [':'] + (auth + [':'] + code);
    SplitAppend(head, auth + [':'] + code, ':');
    SplitAppend(auth, code, ':');
    SplitNoSep(auth, ':');
    SplitNoSep(code, ':');
    UrnHeadPieces(na);
  }

  /** Any string containing "/def/crs/" but not "urn:" that ends in
      `/<a>/<v>/<c>` is a URI with authority `a` upper-cased, version `v`
      and code `c`, whatever precedes them. */
  lemma {:induction false} ParseUriForm(s: string, pre: string, a: string, v: string, c: string, table: AxisTable)
    requires s == pre + "/" + a + "/" + v + "/" + c
    requires '/' !in a && '/' !in v && '/' !in c
    requires Contains(s, "/def/crs/") && !Contains(s, "urn:")
    ensures Parse(s, table) == Ok(CRS(s, Uri, DefaultNamingAuthority, Upper(a), Text(v), c, AxisOrder(table, c)))
  {
    assert s == pre + ['/'] + a + ['/'] + v + ['/'] + c;
    SplitThree(pre, a, v, c, '/');
    var p := Split(s, '/');
    assert p[|p| - 3] == a && p[|p| - 2] == v && p[|p| - 1] == c;
  }

  /** A `/def/crs/` URI written `/<a>/<v>/<c>` keeps its canonical
      reading. */
  lemma ParseUriCanonical(prefix: string, auth: string, version: string, code: string, table: AxisTable)
    requires '/' !in auth && '/' !in version && '/' !in code
    requires !Contains(prefix + "/def/crs/" + auth + "/" + version + "/" + code, "urn:")
    ensures var s := prefix + "/def/crs/" + auth + "/" + version + "/" + code;
            Parse(s, table) == Ok(CRS(s, Uri, DefaultNamingAuthority, Upper(auth), Text(version), code,
                                      AxisOrder(table, code)))
  {
    UriPieces(prefix, auth, version, code);
  }

  /** A URI with a trailing "/" is read from the end too: the version
      becomes the authority, the code the version, and the code is empty. */
  lemma TrailingSlashUri(prefix: string, auth: string, version: string, code: string, table: AxisTable)
    requires '/' !in auth && '/' !in version && '/' !in code
    requires !Contains(prefix + "/def/crs/" + auth + "/" + version + "/" + code + "/", "urn:")
    ensures var s := prefix + "/def/crs/" + auth + "/" + version + "/" + code + "/";
            Parse(s, table) == Ok(CRS(s, Uri, DefaultNamingAuthority, Upper(version), Text(code), "", AxisOrder(table, "")))
  {
    var s := prefix + "/def/crs/" + auth + "/" + version + "/" + code + "/";
    TrailingRegroup(prefix, auth, version, code);
    DefCrsInside(prefix, auth + "/" + version + "/" + code + "/");
    ParseUriForm(s, prefix + "/def/crs/" + auth, version, code, "", table);
  }

  lemma TrailingRegroup(prefix: string, auth: string, version: string, code: string)
    ensures var s := prefix + "/def/crs/" + auth + "/" + version + "/" + code + "/";
            && s == prefix + "/def/crs/" + (auth + "/" + version + "/" + code + "/")
            && s == (prefix + "/def/crs/" + auth) + "/" + version + "/" + code + "/" + ""
  {
  }

  lemma DefCrsInside(prefix: string, tail: string)
    ensures Contains(prefix + "/def/crs/" + tail, "/def/crs/")
  {
    ContainsPrefix("/def/crs/", "/def/crs/");
    ContainsExtend(prefix, "/def/crs/", tail, "/def/crs/");
  }

  /** `CRS(s)` raises exactly for a URN with fewer than three ":" pieces
      and for a string of none of the three forms; a `/def/crs/` URI always
      has the three segments it reads. */
  lemma ParseFailure(s: string, table: AxisTable)
    ensures Parse(s, table).Err? <==>
              (Contains(s, "urn:") && |Split(s, ':')| < 3)
              || (!Contains(s, "urn:") && !Contains(s, "/def/crs/") && '#' !in s)
  {
    if !Contains(s, "urn:") && Contains(s, "/def/crs/") {
      DefCrsPieces(s);
    }
  }

  /** A string containing "/def/crs/" has at least four "/" pieces. */
  lemma DefCrsPieces(s: string)
    requires Contains(s, "/def/crs/")
    ensures |Split(s, '/')| >= 4
  {
    var k := ContainsAt(s, "/def/crs/");
    assert s == s[..k] + s[k..k + 9] + s[k + 9..];
    assert s[k..k + 9] == ['/'] + "def" + ['/'] + "crs" + ['/'];
    assert s == s[..k] + ['/'] + "def" + ['/'] + "crs" + ['/'] + s[k + 9..];
    SplitThreeSeps(s[..k], "def", "crs", s[k + 9..], '/');
  }

  /** The pieces a fragment URI is cut into. */
  lemma FragmentPieces(dir: string, stem: string, ext: string, code: string)
    requires '/' !in stem && '/' !in ext && '/' !in code
    requires '.' !in stem && '#' !in code
    ensures var file := stem + "." + ext + "#" + code;
            var s := dir + "/" + file;
            && '#' in s
            && LastPiece(s, '/') == file
            && Split(file, '.')[0] == stem
            && LastPiece(file, '#') == code
  {
    var file := stem + "." + ext + "#" + code;
    var s := dir + "/" + file;
    assert s == dir + ['/'] + file;
    assert s[|dir| + 1 + |stem| + 1 + |ext|] == '#';
    SplitAppend(dir, file, '/');
    assert '/' !in file;
    SplitNoSep(file, '/');
    assert file == stem + ['.'] + (ext + "#" + code);
    SplitAppend(stem, ext + "#" + code, '.');
    SplitNoSep(stem, '.');
    assert file == (stem + "." + ext) + ['#'] + code;
    SplitAppend(stem + "." + ext, code, '#');
    SplitNoSep(code, '#');
  }

  /** A fragment URI takes its authority from the last path segment's text
      before its first ".", upper-cased, and its code from after the last
      "#"; its version is never assigned, so neither rendering succeeds. */
  lemma ParseFragmentForm(dir: string, stem: string, ext: string, code: string, table: AxisTable)
    requires '/' !in stem && '/' !in ext && '/' !in code
    requires '.' !in stem && '#' !in code
    requires var s := dir + "/" + (stem + "." + ext + "#" + code);
             !Contains(s, "urn:") && !Contains(s, "/def/crs/")
    ensures var s := dir + "/" + (stem + "." + ext + "#" + code);
            var r := Parse(s, table);
            && r == Ok(CRS(s, Uri, DefaultNamingAuthority, Upper(stem), Unset, code, AxisOrder(table, code)))
            && UrnCode(r.value).Err? && UriCode1(r.value).Err?
  {
    FragmentPieces(dir, stem, ext, code);
  }

  /** Axis order is the table's entry for the parsed code, "xy" without one. */
  lemma AxisOrderDefault(s: string, table: AxisTable)
    requires Parse(s, table).Ok?
    ensures var c := Parse(s, table).value;
            (c.code in table ==> c.order == table[c.code]) && (c.code !in table ==> c.order == "xy")
  {
  }

  /** Over CRS whose versions are all set, `x in crss` never raises and
      holds exactly when some element renders the same URN as `x`. */
  lemma {:induction false} MemberByUrn(x: CRS, crss: seq<CRS>)
    requires x.version != Unset
    requires forall j :: 0 <= j < |crss| ==> crss[j].version != Unset
    ensures Member(x, crss) == Ok(exists j :: 0 <= j < |crss| && UrnCode(crss[j]) == UrnCode(x))
    decreases |crss|
  {
    if |crss| > 0 {
      assert Equal(crss[0], Same(x)) == Ok(UrnCode(crss[0]) == UrnCode(x));
      if UrnCode(crss[0]) != UrnCode(x) {
        MemberByUrn(x, crss[1..]);
        assert forall j :: 1 <= j < |crss| ==> crss[1..][j - 1] == crss[j];
        if exists j :: 0 <= j < |crss| && UrnCode(crss[j]) == UrnCode(x) {
          var j :| 0 <= j < |crss| && UrnCode(crss[j]) == UrnCode(x);
          assert UrnCode(crss[1..][j - 1]) == UrnCode(x);
        }
      }
    }
  }

  /** A URI whose version segment is "0" does not equal the EPSG URN of
      the same code, although both name the same CRS: the string "0" is
      kept as written. */
  lemma UriZeroVersionNotEpsg(code: string, table: AxisTable)
    requires ':' !in code && '/' !in code
    ensures var uri := Parse(UriString("EPSG", "0", code), table);
            var urn := FromEpsg(code, None, table);
            uri.Ok? && urn.Ok? && Equal(uri.value, Same(urn.value)) == Ok(false)
  {
    EpsgUriShape(code);
    NoUrnInUri("EPSG", "0", code);
    ParseUriCanonical("http://www.opengis.net", "EPSG", "0", code, table);
    UpperEpsg();
    ZeroVersionLonger(code);
  }

  lemma EpsgUriShape(code: string)
    ensures UriString("EPSG", "0", code) == "http://www.opengis.net" + "/def/crs/" + "EPSG" + "/" + "0" + "/" + code
    ensures ':' !in "EPSG" && ':' !in "0"
  {
  }

  lemma UpperEpsg()
    ensures Upper("EPSG") == "EPSG"
  {
  }

  lemma ZeroVersionLonger(code: string)
    ensures UrnString(DefaultNamingAuthority, "EPSG", "0", code) != UrnString(DefaultNamingAuthority, "EPSG", "", code)
  {
    assert |UrnString(DefaultNamingAuthority, "EPSG", "0", code)| == |UrnString(DefaultNamingAuthority, "EPSG", "", code)| + 1;
  }

  /** A URI rendering whose parts have no ":" contains no "urn:". */
  lemma NoUrnInUri(auth: string, version: string, code: string)
    requires ':' !in auth && ':' !in version && ':' !in code
    ensures !Contains(UriString(auth, version, code), "urn:")
  {
    assert 'u' !in UriBase;
    NoUrnAcross(UriBase, auth + "/" + version + "/" + code);
    assert UriString(auth, version, code) == UriBase + (auth + "/" + version + "/" + code);
  }

  /** "urn:" cannot start in a part without "u" nor lie in a part without ":". */
  lemma {:induction false} NoUrnAcross(head: string, rest: string)
    requires 'u' !in head && ':' !in rest
    ensures !Contains(head + rest, "urn:")
    decreases |head| + |rest|
  {
    var s := head + rest;
    if |s| >= 4 {
      if |head| > 0 {
        assert s[0] == head[0] && s[0] != "urn:"[0];
        assert s[1..] == head[1..] + rest;
        NoUrnAcross(head[1..], rest);
      } else {
        assert s == rest;
        assert s[..4] != "urn:" by { assert s[3] != ':'; }
        assert s[1..] == [] + rest[1..];
        NoUrnAcross([], rest[1..]);
      }
    }
  }
}
