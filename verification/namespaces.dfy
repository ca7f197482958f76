/** The namespaces of the protocol and the selection of a response's own
    (local) namespace (src/wfs20/util.py `get_localns`). The selected
    namespace is returned instead of being stored in a module global. */
module Namespaces {
  import opened Strings
  import opened Xml

  const WfsNamespace: string := "http://www.opengis.net/wfs/2.0"
  const OwsNamespace: string := "http://www.opengis.net/ows/1.1"
  const OgcNamespace: string := "http://www.opengis.net/ogc"
  const GmlNamespace: string := "http://www.opengis.net/gml/3.2"
  const FesNamespace: string := "http://www.opengis.net/fes/2.0"
  const XsiNamespace: string := "http://www.w3.org/2001/XMLSchema-instance"
  const XlinkNamespace: string := "http://www.w3.org/1999/xlink"

  /** A URI of one of the standard bodies, not of the service itself. */
  predicate WellKnown(uri: string)
  {
    Contains(uri, "w3.org") || Contains(uri, "opengis.net")
  }

  /** Entry `i` is the first whose URI is not well known. */
  predicate FirstLocal(nsmap: seq<NsDecl>, i: nat)
    requires i < |nsmap|
  {
    !WellKnown(nsmap[i].uri) && forall j :: 0 <= j < i ==> WellKnown(nsmap[j].uri)
  }

  /** `get_localns(nsmap)`: the first declared URI that is not well known,
      or "" when every URI is. */
  function LocalNamespace(nsmap: seq<NsDecl>): (loc: string)
    ensures (forall i :: 0 <= i < |nsmap| ==> WellKnown(nsmap[i].uri)) ==> loc == ""
    ensures forall i :: 0 <= i < |nsmap| && FirstLocal(nsmap, i) ==> loc == nsmap[i].uri
    ensures loc == "" || exists i :: 0 <= i < |nsmap| && nsmap[i].uri == loc && !WellKnown(loc)
    decreases |nsmap|
  {
    if |nsmap| == 0 then ""
    else if !WellKnown(nsmap[0].uri) then nsmap[0].uri
    else
      var loc := LocalNamespace(nsmap[1..]);
      assert forall i :: 1 <= i < |nsmap| ==> nsmap[1..][i - 1] == nsmap[i];
      loc
  }
}
