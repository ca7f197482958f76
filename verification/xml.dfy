/** The parsed XML the package walks with lxml, as an immutable tree, and
    the three lxml queries it uses: `findall`/`find` along a path of child
    steps, and `iter(tag)` over all descendants in document order. */
module Xml {
  import opened Wrappers
  import opened Errors
  import opened Strings

  /** A qualified name `{ns}local`; `ns == ""` is the empty namespace and a
      local part of `*` matches every local name in `ns`. */
  datatype QName = QName(ns: string, local: string)

  const Wildcard: string := "*"

  /** An element: namespace, local name, `.text` (None when lxml reports
      no text), attributes keyed by Clark name, children in order. */
  datatype Element = Element(
    ns: string,
    local: string,
    text: Option<string>,
    attrs: map<string, string>,
    children: seq<Element>)

  /** One entry of an element's `nsmap`: prefix (None for the default
      namespace) and URI, in declaration order. */
  datatype NsDecl = NsDecl(prefix: Option<string>, uri: string)

  /** A fetched response: its raw content and its parsed root. */
  datatype Document = Document(content: string, nsmap: seq<NsDecl>, root: Element)

  /** The attribute key lxml uses for a namespaced attribute. */
  function ClarkName(ns: string, local: string): string
  {
    "{" + ns + "}" + local
  }

  predicate Matches(e: Element, q: QName)
  {
    e.ns == q.ns && (q.local == Wildcard || e.local == q.local)
  }

  function Locals(path: seq<QName>): (r: seq<string>)
    ensures |r| == |path|
    ensures forall i :: 0 <= i < |path| ==> r[i] == path[i].local
  {
    seq(|path|, i requires 0 <= i < |path| => path[i].local)
  }

  /** `element_key(ns, sub)`: every `/`-separated step of `sub` placed in
      namespace `ns` (the string `{ns}A/{ns}B`, as lxml reads it). */
  function ElementKey(ns: string, sub: string): (path: seq<QName>)
    ensures |path| >= 1
    ensures forall i :: 0 <= i < |path| ==> path[i].ns == ns && '/' !in path[i].local
    ensures Join(Locals(path), '/') == sub
  {
    var steps := Split(sub, '/');
    var path := seq(|steps|, i requires 0 <= i < |steps| => QName(ns, steps[i]));
    assert Locals(path) == steps;
    path
  }

  /** A step name without `/` is a one-step key. */
  lemma ElementKeyStep(ns: string, name: string)
    requires '/' !in name
    ensures ElementKey(ns, name) == [QName(ns, name)]
  {
    SplitNoSep(name, '/');
  }

  /** The path of the given steps, all in namespace `ns`. */
  function Path(ns: string, steps: seq<string>): (path: seq<QName>)
    ensures |path| == |steps|
    ensures forall i :: 0 <= i < |steps| ==> path[i] == QName(ns, steps[i])
  {
    seq(|steps|, i requires 0 <= i < |steps| => QName(ns, steps[i]))
  }

  /** `element_key(ns, "A/B")` is the path of the steps `A`, `B`. */
  lemma ElementKeyPath(ns: string, steps: seq<string>)
    requires |steps| >= 1
    requires forall i :: 0 <= i < |steps| ==> '/' !in steps[i]
    ensures ElementKey(ns, Join(steps, '/')) == Path(ns, steps)
  {
    SplitJoin(steps, '/');
  }

  /** The elements of `cs` matching `q`, in order. */
  function Select(cs: seq<Element>, q: QName): (r: seq<Element>)
    ensures |r| <= |cs|
    ensures forall x :: x in r <==> x in cs && Matches(x, q)
    decreases |cs|
  {
    if |cs| == 0 then []
    else (if Matches(cs[0], q) then [cs[0]] else []) + Select(cs[1..], q)
  }

  lemma {:induction false} SelectAppend(a: seq<Element>, b: seq<Element>, q: QName)
    ensures Select(a + b, q) == Select(a, q) + Select(b, q)
    decreases |a|
  {
    if |a| > 0 {
      assert (a + b)[1..] == a[1..] + b;
      SelectAppend(a[1..], b, q);
    } else {
      assert a + b == b;
    }
  }

  /** The children matching `q` of each node, node by node. */
  function ChildStep(nodes: seq<Element>, q: QName): seq<Element>
    decreases |nodes|
  {
    if |nodes| == 0 then []
    else Select(nodes[0].children, q) + ChildStep(nodes[1..], q)
  }

  function Descend(nodes: seq<Element>, path: seq<QName>): seq<Element>
    decreases |path|
  {
    if |path| == 0 then nodes else Descend(ChildStep(nodes, path[0]), path[1..])
  }

  /** `e.findall(path)`. */
  function FindAll(e: Element, path: seq<QName>): seq<Element>
  {
    Descend([e], path)
  }

  /** `e.find(path)`: the first match, if any. */
  function Find(e: Element, path: seq<QName>): (r: Option<Element>)
    ensures r.Some? <==> |FindAll(e, path)| > 0
    ensures r.Some? ==> r.value == FindAll(e, path)[0]
  {
    var all := FindAll(e, path);
    if |all| > 0 then Some(all[0]) else None
  }

  /** A one-step query returns the matching direct children. */
  lemma FindAllStep(e: Element, q: QName)
    ensures FindAll(e, [q]) == Select(e.children, q)
  {
    assert [e][1..] == [] && [q][1..] == [];
    var step := ChildStep([e], q);
    assert step == Select(e.children, q) + ChildStep([], q);
    assert FindAll(e, [q]) == Descend(step, []);
  }

  /** `e.iter()`: `e` and all its descendants in document (pre-)order. */
  function Iter(e: Element): (r: seq<Element>)
    ensures |r| >= 1 && r[0] == e
    decreases e, 1
  {
    [e] + IterAll(e.children)
  }

  function IterAll(cs: seq<Element>): seq<Element>
    decreases cs, 0
  {
    if |cs| == 0 then [] else Iter(cs[0]) + IterAll(cs[1..])
  }

  lemma {:induction false} IterAllAppend(a: seq<Element>, b: seq<Element>)
    ensures IterAll(a + b) == IterAll(a) + IterAll(b)
    decreases |a|
  {
    if |a| > 0 {
      assert (a + b)[1..] == a[1..] + b;
      IterAllAppend(a[1..], b);
    } else {
      assert a + b == b;
    }
  }

  /** An element met by `IterAll(cs)` is met by the iteration of one of
      `cs`. */
  lemma {:induction false} IterAllMember(cs: seq<Element>, x: Element) returns (k: nat)
    requires x in IterAll(cs)
    ensures k < |cs| && x in Iter(cs[k])
    decreases |cs|
  {
    if x in Iter(cs[0]) {
      k := 0;
    } else {
      var k' := IterAllMember(cs[1..], x);
      k := k' + 1;
    }
  }

  /** The iteration of each of `cs` is part of `IterAll(cs)`. */
  lemma {:induction false} IterAllCovers(cs: seq<Element>, k: nat, x: Element)
    requires k < |cs| && x in Iter(cs[k])
    ensures x in IterAll(cs)
    decreases |cs|
  {
    if k > 0 {
      assert cs[1..][k - 1] == cs[k];
      IterAllCovers(cs[1..], k - 1, x);
    }
  }

  /** `iter()` is closed under children: a child of an element the
      iteration meets is met too. */
  lemma {:induction false} IterChild(root: Element, e: Element, c: Element)
    requires e in Iter(root) && c in e.children
    ensures c in Iter(root)
    decreases root
  {
    if e == root {
      var k :| 0 <= k < |root.children| && root.children[k] == c;
      IterAllCovers(root.children, k, c);
    } else {
      var k := IterAllMember(root.children, e);
      IterChild(root.children[k], e, c);
      IterAllCovers(root.children, k, c);
    }
  }

  /** `e.iter(tag)`: the elements of `e.iter()` matching `tag`. */
  function IterTag(e: Element, tag: QName): seq<Element>
  {
    Select(Iter(e), tag)
  }

  /** `[x.text for x in es]`. */
  function Texts(es: seq<Element>): (r: seq<Option<string>>)
    ensures |r| == |es|
    ensures forall i :: 0 <= i < |es| ==> r[i] == es[i].text
  {
    seq(|es|, i requires 0 <= i < |es| => es[i].text)
  }

  /** `e.attrib[key]`, raising `KeyError` when absent. */
  function Attr(e: Element, key: string): (r: Result<string, Error>)
    ensures r.Ok? <==> key in e.attrs
    ensures r.Ok? ==> r.value == e.attrs[key]
    ensures r.Err? ==> r.error == KeyError
  {
    if key in e.attrs then Ok(e.attrs[key]) else Err(KeyError)
  }
}
