/** Layer metadata of a GetFeature response (src/wfs20/util.py class
    `LayerMeta`): the set of field headers, a type per header, and a table
    linking each header to a name of at most ten characters for shapefile
    attribute tables; plus the `|=` merge and `==`. */
module LayerMetas {
  import opened Wrappers
  import opened Errors
  import opened Strings
  import opened Xml
  import opened TypeInference
  import opened Features

  datatype LayerMeta = LayerMeta(
    headers: set<string>,
    types: map<string, PyType>,
    links: map<string, string>)

  /** The shape every constructed meta has: one type and one link per
      header, and every type one that `is_field_type` can return. */
  predicate WellFormed(m: LayerMeta)
  {
    m.types.Keys == m.headers && m.links.Keys == m.headers
    && forall h :: h in m.types ==> m.types[h] != Other
  }

  // ---------------------------------------------------------------------
  // Headers and types
  // ---------------------------------------------------------------------

  /** Local names of the elements of `es` in namespace `loc` with text. */
  function Names(es: seq<Element>, loc: string): (r: set<string>)
    ensures forall h :: h in r <==> exists e :: e in es && e.ns == loc && HasText(e.text) && e.local == h
  {
    set e | e in es && e.ns == loc && HasText(e.text) :: e.local
  }

  /** `field_headers`: the local names of the elements of `root.iter()` in
      the local namespace with non-blank text, without `keyword`. */
  function Headers(root: Element, loc: string, keyword: string): (r: set<string>)
    ensures keyword !in r
    ensures forall h :: h in r <==>
              h != keyword && exists e :: e in IterTag(root, QName(loc, Wildcard)) && HasText(e.text) && e.local == h
  {
    var tagged := IterTag(root, QName(loc, Wildcard));
    assert forall e :: e in tagged ==> e.ns == loc;
    Names(tagged, loc) - {keyword}
  }

  /** `map(is_type, t.iter("{loc}h"))`. */
  function Observations(root: Element, loc: string, h: string, classify: Classifier): (r: seq<PyType>)
    ensures |r| == |IterTag(root, QName(loc, h))|
    ensures forall i :: 0 <= i < |r| ==> r[i] == classify(IterTag(root, QName(loc, h))[i].text)
  {
    var es := IterTag(root, QName(loc, h));
    seq(|es|, i requires 0 <= i < |es| => classify(es[i].text))
  }

  // ---------------------------------------------------------------------
  // The link table
  // ---------------------------------------------------------------------

  /** `item[0:10]`. */
  function Prefix(h: string): string
  {
    Take(h, 10)
  }

  /** The name given to a header whose prefix `p` was seen `k` times before. */
  function LinkName(p: string, k: nat): string
  {
    if k >= 1 then DropLast(p) + NatToString(k) else p
  }

  /** How many of `hs` have prefix `p`. */
  function CountPrefix(hs: seq<string>, p: string): (n: nat)
    ensures n <= |hs|
    decreases |hs|
  {
    if |hs| == 0 then 0
    else CountPrefix(hs[..|hs| - 1], p) + (if Prefix(hs[|hs| - 1]) == p then 1 else 0)
  }

  /** `order` lists the elements of `s`, each once: one iteration order of
      a Python set. */
  predicate Enumerates(order: seq<string>, s: set<string>)
  {
    Distinct(order) && s == set h | h in order
  }

  /** The link name of the header at position `i` of the iteration
      order: its prefix, suffixed by the number of earlier headers with the
      same prefix when there are any. */
  function LinkAt(order: seq<string>, i: nat): string
    requires i < |order|
  {
    LinkName(Prefix(order[i]), CountPrefix(order[..i], Prefix(order[i])))
  }

  /** The link table, stated per header. */
  function LinkTable(order: seq<string>): (links: map<string, string>)
    requires Distinct(order)
    ensures forall h :: h in links <==> h in order
    ensures forall i :: 0 <= i < |order| ==> links[order[i]] == LinkAt(order, i)
  {
    Tabulate(order, LinkFn(order), |order|)
  }

  function Prefixes(order: seq<string>): set<string>
  {
    set h | h in order :: Prefix(h)
  }

  /** Counting one more header. */
  lemma CountPrefixStep(hs: seq<string>, i: nat, p: string)
    requires i < |hs|
    ensures CountPrefix(hs[..i + 1], p) == CountPrefix(hs[..i], p) + (if Prefix(hs[i]) == p then 1 else 0)
  {
    assert hs[..i + 1][..i] == hs[..i];
  }

  /** The counters before the first header: zero for every prefix. */
  function ZeroCounts(order: seq<string>): (count: map<string, nat>)
    ensures count.Keys == Prefixes(order)
    ensures forall p :: p in count ==> count[p] == 0
  {
    map p | p in Prefixes(order) :: 0
  }

  /** The counters after the first `i` headers of the loop: for each
      prefix, the number of headers seen with it. */
  function Counts(order: seq<string>, i: nat): map<string, nat>
    requires i <= |order|
  {
    map p | p in Prefixes(order) :: CountPrefix(order[..i], p)
  }

  /** The loop starts from the counters of no header. */
  lemma CountsStart(order: seq<string>)
    ensures ZeroCounts(order) == Counts(order, 0)
  {
    assert order[..0] == [];
    var a, b := ZeroCounts(order), Counts(order, 0);
    forall p | p in Prefixes(order)
      ensures a[p] == b[p]
    {
    }
    assert a.Keys == b.Keys;
  }

  /** One more header increments its prefix's counter. */
  lemma CountsStep(order: seq<string>, i: nat)
    requires i < |order|
    ensures Prefix(order[i]) in Counts(order, i)
    ensures Counts(order, i + 1) == Counts(order, i)[Prefix(order[i]) := Counts(order, i)[Prefix(order[i])] + 1]
  {
    var ab := Prefix(order[i]);
    assert ab in Prefixes(order);
    var a, b := Counts(order, i + 1), Counts(order, i)[ab := Counts(order, i)[ab] + 1];
    forall p | p in Prefixes(order)
      ensures a[p] == b[p]
    {
      CountPrefixStep(order, i, p);
    }
    assert a.Keys == b.Keys;
  }

  /** The map sending each of the first `i` keys to its value under `f`. */
  function Tabulate(keys: seq<string>, f: nat -> string, i: nat): map<string, string>
    requires Distinct(keys) && i <= |keys|
  {
    map j | 0 <= j < i :: keys[j] := f(j)
  }

  /** One more key adds its value. */
  lemma TabulateStep(keys: seq<string>, f: nat -> string, i: nat)
    requires Distinct(keys) && i < |keys|
    ensures Tabulate(keys, f, i + 1) == Tabulate(keys, f, i)[keys[i] := f(i)]
  {
    TabulateStepKeys(keys, f, i);
    TabulateStepValues(keys, f, i);
    SameEntries(Tabulate(keys, f, i + 1), Tabulate(keys, f, i)[keys[i] := f(i)]);
  }

  lemma TabulateStepKeys(keys: seq<string>, f: nat -> string, i: nat)
    requires Distinct(keys) && i < |keys|
    ensures Tabulate(keys, f, i + 1).Keys == Tabulate(keys, f, i).Keys + {keys[i]}
  {
    var a, b := Tabulate(keys, f, i + 1), Tabulate(keys, f, i);
    forall h | h in a
      ensures h in b || h == keys[i]
    {
      var j :| 0 <= j < i + 1 && keys[j] == h;
    }
    forall h | h in b
      ensures h in a
    {
      var j :| 0 <= j < i && keys[j] == h;
    }
  }

  lemma TabulateStepValues(keys: seq<string>, f: nat -> string, i: nat)
    requires Distinct(keys) && i < |keys|
    ensures forall h :: h in Tabulate(keys, f, i + 1) ==>
              Tabulate(keys, f, i + 1)[h] == if h == keys[i] then f(i) else Tabulate(keys, f, i)[h]
  {
    var a := Tabulate(keys, f, i + 1);
    forall h | h in a
      ensures a[h] == if h == keys[i] then f(i) else Tabulate(keys, f, i)[h]
    {
      var j :| 0 <= j < i + 1 && keys[j] == h;
      if j < i {
        assert keys[j] != keys[i];
      }
    }
  }

  /** `LinkAt` as a function of the position alone. */
  function LinkFn(order: seq<string>): nat -> string
  {
    (j: nat) => if j < |order| then LinkAt(order, j) else ""
  }

  /** The link name at position `i` is the one the loop computes from its
      counter. */
  lemma LinkFnAt(order: seq<string>, i: nat)
    requires i < |order|
    ensures Prefix(order[i]) in Counts(order, i)
    ensures LinkFn(order)(i) == LinkName(Prefix(order[i]), Counts(order, i)[Prefix(order[i])])
  {
    assert Prefix(order[i]) in Prefixes(order);
  }

  /** The constructor's loop: a counter per prefix, starting at zero, and
      one table entry per header in iteration order. */
  method CountLinks(order: seq<string>) returns (links: map<string, string>)
    requires Distinct(order)
    ensures links == Tabulate(order, LinkFn(order), |order|)
  {
    var count := ZeroCounts(order);
    links := map[];
    CountsStart(order);
    var i := 0;
    while i < |order|
      invariant 0 <= i <= |order|
      invariant count == Counts(order, i) && links == Tabulate(order, LinkFn(order), i)
    {
      count, links := NameNext(order, i, count, links);
      i := i + 1;
    }
  }

  /** One iteration of the loop: name the header at position `i` from its
      prefix's counter, then count it. */
  method NameNext(order: seq<string>, i: nat, count: map<string, nat>, links: map<string, string>)
    returns (count': map<string, nat>, links': map<string, string>)
    requires Distinct(order) && i < |order|
    requires count == Counts(order, i) && links == Tabulate(order, LinkFn(order), i)
    ensures count' == Counts(order, i + 1) && links' == Tabulate(order, LinkFn(order), i + 1)
  {
    var ab := Prefix(order[i]);
    CountsStep(order, i);
    LinkFnAt(order, i);
    TabulateStep(order, LinkFn(order), i);
    links' := links[order[i] := LinkName(ab, count[ab])];
    count' := count[ab := count[ab] + 1];
  }

  /** The link table the constructor builds for distinct headers is the
      stated one. */
  method BuildLinkTable(order: seq<string>) returns (links: map<string, string>)
    requires Distinct(order)
    ensures links == LinkTable(order)
  {
    links := CountLinks(order);
  }

  /** The header at position `i` has no other header with its prefix
      before it when it is shorter than ten characters. */
  lemma {:induction false} ShortPrefixUnique(order: seq<string>, i: nat, n: nat)
    requires Distinct(order) && i < |order| && n <= i
    requires |order[i]| < 10
    ensures CountPrefix(order[..n], Prefix(order[i])) == 0
    decreases n
  {
    if n > 0 {
      assert order[..n][..n - 1] == order[..n - 1];
      ShortPrefixUnique(order, i, n - 1);
      var h := order[n - 1];
    }
  }

  /** A header shorter than ten characters links to itself. */
  lemma ShortHeaderKept(order: seq<string>, i: nat)
    requires Distinct(order) && i < |order| && |order[i]| < 10
    ensures LinkAt(order, i) == order[i]
  {
    ShortPrefixUnique(order, i, i);
  }

  /** Every link name keeps the header's first nine characters. */
  lemma LinkKeepsNine(order: seq<string>, i: nat)
    requires Distinct(order) && i < |order|
    ensures Take(order[i], 9) <= LinkAt(order, i)
  {
    var h := order[i];
    if |h| < 10 {
      ShortHeaderKept(order, i);
    } else {
      assert DropLast(Prefix(h)) == Take(h, 9);
    }
  }

  /** A link name has at most ten characters when at most ten headers
      share its prefix. */
  lemma LinkLengthBound(order: seq<string>, i: nat)
    requires Distinct(order) && i < |order|
    requires CountPrefix(order, Prefix(order[i])) <= 10
    ensures |LinkAt(order, i)| <= 10
  {
    var p := Prefix(order[i]);
    var k := CountPrefix(order[..i], p);
    CountPrefixStep(order, i, p);
    CountPrefixMonotone(order, i + 1, |order|, p);
    assert order[..|order|] == order;
    if k >= 1 {
      assert |NatToString(k)| == 1;
    }
  }

  /** The three shape guarantees, for the table: every link name keeps the
      header's first nine characters, headers shorter than ten characters
      link to themselves, and a link name has at most ten characters when
      at most ten headers share its prefix. */
  lemma LinkNameShape(order: seq<string>, i: nat)
    requires Distinct(order) && i < |order|
    ensures Take(order[i], 9) <= LinkTable(order)[order[i]]
    ensures |order[i]| < 10 ==> LinkTable(order)[order[i]] == order[i]
    ensures CountPrefix(order, Prefix(order[i])) <= 10 ==> |LinkTable(order)[order[i]]| <= 10
  {
    LinkKeepsNine(order, i);
    if |order[i]| < 10 {
      ShortHeaderKept(order, i);
    }
    if CountPrefix(order, Prefix(order[i])) <= 10 {
      LinkLengthBound(order, i);
    }
  }

  /** Counting over a longer prefix of the order never counts fewer. */
  lemma {:induction false} CountPrefixMonotone(hs: seq<string>, m: nat, n: nat, p: string)
    requires m <= n <= |hs|
    ensures CountPrefix(hs[..m], p) <= CountPrefix(hs[..n], p)
    decreases n - m
  {
    if m < n {
      CountPrefixStep(hs, n - 1, p);
      assert hs[..n][..n - 1] == hs[..n - 1];
      CountPrefixMonotone(hs, m, n - 1, p);
    }
  }

  /** The table is not injective: two headers sharing a ten-character
      prefix that ends in "1" get the same link name, in either order. */
  lemma LinkTableCollision()
    ensures var x, y := "abcdefghi1_x", "abcdefghi1_y";
            && LinkTable([x, y])[x] == LinkTable([x, y])[y] == "abcdefghi1"
            && LinkTable([y, x])[x] == LinkTable([y, x])[y] == "abcdefghi1"
  {
    var x, y := "abcdefghi1_x", "abcdefghi1_y";
    assert Prefix(x) == "abcdefghi1" == Prefix(y);
    LinkPair(x, y);
    LinkPair(y, x);
    assert DropLast("abcdefghi1") + NatToString(1) == "abcdefghi1";
  }

  /** Two headers with the same prefix: the first keeps the prefix, the
      second gets it with the last character replaced by "1". */
  lemma LinkPair(x: string, y: string)
    requires x != y && Prefix(x) == Prefix(y)
    ensures LinkTable([x, y])[x] == Prefix(x)
    ensures LinkTable([x, y])[y] == DropLast(Prefix(x)) + NatToString(1)
  {
    assert [x, y][..0] == [] && [x, y][..1] == [x];
    assert CountPrefix([x], Prefix(x)) == 1 by {
      assert [x][..0] == [];
    }
    assert LinkAt([x, y], 0) == Prefix(x);
    assert LinkAt([x, y], 1) == DropLast(Prefix(x)) + NatToString(1);
  }

  // ---------------------------------------------------------------------
  // Construction, `==` and `|=`
  // ---------------------------------------------------------------------

  /** `LayerMeta(t, keyword)` with local namespace `loc`, the headers
      iterated in `order`. */
  function NewLayerMeta(root: Element, loc: string, keyword: string, classify: Classifier, order: seq<string>): (m: LayerMeta)
    requires Enumerates(order, Headers(root, loc, keyword))
    ensures WellFormed(m)
    ensures m.headers == Headers(root, loc, keyword)
    ensures forall h :: h in m.types ==> m.types[h] == FieldType(Observations(root, loc, h, classify))
    ensures m.links == LinkTable(order)
  {
    var headers := Headers(root, loc, keyword);
    assert LinkTable(order).Keys == headers;
    LayerMeta(
      headers,
      map h | h in headers :: FieldType(Observations(root, loc, h, classify)),
      LinkTable(order))
  }

  /** `==`: equal header sets (the sorted header lists compare equal
      exactly then); never equal to a non-LayerMeta; a bare `object()`
      passes the class test and raises at `other.field_headers`. */
  function Equal(a: LayerMeta, b: Operand<LayerMeta>): (r: Result<bool, Error>)
    ensures r.Err? <==> b.Base?
    ensures r.Err? ==> r.error == AttributeError
    ensures r == Ok(true) <==> b.Same? && forall h :: h in a.headers <==> h in b.value.headers
    ensures r == Ok(true) && WellFormed(a) && WellFormed(b.value) ==>
              a.types.Keys == b.value.types.Keys && a.links.Keys == b.value.links.Keys
  {
    match b
    case Foreign => Ok(false)
    case Base => Err(AttributeError)
    case Same(o) => Ok(a.headers == o.headers)
  }

  /** The types collected for key `k` from `x` then `y`. */
  function Collected(x: map<string, PyType>, y: map<string, PyType>, k: string): (r: seq<PyType>)
    ensures forall t :: t in r <==> (k in x && x[k] == t) || (k in y && y[k] == t)
  {
    (if k in x then [x[k]] else []) + (if k in y then [y[k]] else [])
  }

  /** The type half of `|=`: every key of either side, re-aggregated. */
  function MergeTypes(x: map<string, PyType>, y: map<string, PyType>): (r: map<string, PyType>)
    ensures r.Keys == x.Keys + y.Keys
    ensures forall k :: k in r ==> r[k] != Other
    ensures forall k :: k in r ==> (r[k] == Str <==> (k in x && x[k] == Str) || (k in y && y[k] == Str))
    ensures forall k :: k in r ==>
              (r[k] == Float <==> !(k in x && x[k] == Str) && !(k in y && y[k] == Str)
                                  && ((k in x && x[k] == Float) || (k in y && y[k] == Float)))
  {
    map k | k in x.Keys + y.Keys :: FieldType(Collected(x, y, k))
  }

  /** `self |= other`: union of headers, types re-aggregated, link table
      a right-biased union; a non-LayerMeta raises `TypeError`, and a bare
      `object()` raises `AttributeError` at `other.field_headers`. */
  function Merge(a: LayerMeta, b: Operand<LayerMeta>): (r: Result<LayerMeta, Error>)
    ensures r.Err? <==> !b.Same?
    ensures b.Foreign? ==> r == Err(TypeError)
    ensures b.Base? ==> r == Err(AttributeError)
    ensures r.Ok? ==> r.value.headers == a.headers + b.value.headers
    ensures r.Ok? ==> r.value.types == MergeTypes(a.types, b.value.types)
    ensures r.Ok? ==> r.value.links.Keys == a.links.Keys + b.value.links.Keys
    ensures r.Ok? ==> forall h :: h in r.value.links ==>
              r.value.links[h] == if h in b.value.links then b.value.links[h] else a.links[h]
  {
    match b
    case Foreign => Err(TypeError)
    case Base => Err(AttributeError)
    case Same(o) => Ok(LayerMeta(a.headers + o.headers, MergeTypes(a.types, o.types), a.links + o.links))
  }

  /** Merging keeps the shape, and a key on one side only keeps its type. */
  lemma MergeWellFormed(a: LayerMeta, b: LayerMeta)
    requires WellFormed(a) && WellFormed(b)
    ensures WellFormed(Merge(a, Same(b)).value)
    ensures forall k :: k in a.types && k !in b.types ==> Merge(a, Same(b)).value.types[k] == a.types[k]
    ensures forall k :: k in b.types && k !in a.types ==> Merge(a, Same(b)).value.types[k] == b.types[k]
  {
  }

  /** Merging is commutative on headers and types, and the merge of `a`
      and `b` is `==` to the merge of `b` and `a`; only the link table
      depends on the order. */
  lemma MergeCommutes(a: LayerMeta, b: LayerMeta)
    ensures Merge(a, Same(b)).value.headers == Merge(b, Same(a)).value.headers
    ensures Merge(a, Same(b)).value.types == Merge(b, Same(a)).value.types
    ensures Equal(Merge(a, Same(b)).value, Same(Merge(b, Same(a)).value)) == Ok(true)
  {
    MergeTypesCommute(a.types, b.types);
  }

  lemma MergeTypesCommute(x: map<string, PyType>, y: map<string, PyType>)
    ensures MergeTypes(x, y) == MergeTypes(y, x)
  {
    var l, r := MergeTypes(x, y), MergeTypes(y, x);
    assert l.Keys == r.Keys;
    forall k | k in l
      ensures l[k] == r[k]
    {
    }
    SameEntries(l, r);
  }

  predicate NoOther(x: map<string, PyType>)
  {
    forall k :: k in x ==> x[k] != Other
  }

  lemma MergeTypesAssociative(x: map<string, PyType>, y: map<string, PyType>, z: map<string, PyType>)
    requires NoOther(x) && NoOther(y) && NoOther(z)
    ensures MergeTypes(MergeTypes(x, y), z) == MergeTypes(x, MergeTypes(y, z))
  {
    var l, r := MergeTypes(MergeTypes(x, y), z), MergeTypes(x, MergeTypes(y, z));
    MergeTypesKeys(x, y, z);
    MergeTypesAgree(x, y, z);
    SameEntries(l, r);
  }

  /** Two maps with the same keys and the same value at each are equal. */
  lemma SameEntries<V>(l: map<string, V>, r: map<string, V>)
    requires l.Keys == r.Keys
    requires forall k :: k in l ==> l[k] == r[k]
    ensures l == r
  {
  }

  /** Both groupings have the same keys. */
  lemma MergeTypesKeys(x: map<string, PyType>, y: map<string, PyType>, z: map<string, PyType>)
    ensures MergeTypes(MergeTypes(x, y), z).Keys == MergeTypes(x, MergeTypes(y, z)).Keys
  {
    assert MergeTypes(MergeTypes(x, y), z).Keys == (x.Keys + y.Keys) + z.Keys;
    assert MergeTypes(x, MergeTypes(y, z)).Keys == x.Keys + (y.Keys + z.Keys);
  }

  /** Both groupings agree at every key. */
  lemma MergeTypesAgree(x: map<string, PyType>, y: map<string, PyType>, z: map<string, PyType>)
    requires NoOther(x) && NoOther(y) && NoOther(z)
    ensures forall k :: k in MergeTypes(MergeTypes(x, y), z) ==>
              MergeTypes(MergeTypes(x, y), z)[k] == MergeTypes(x, MergeTypes(y, z))[k]
  {
    var l, r := MergeTypes(MergeTypes(x, y), z), MergeTypes(x, MergeTypes(y, z));
    forall k | k in l
      ensures l[k] == r[k]
    {
      MergeTypesAssociativeAt(x, y, z, k);
    }
  }

  /** Associativity at one key: both sides are str iff some side says str,
      and float iff none says str and some says float. */
  lemma MergeTypesAssociativeAt(x: map<string, PyType>, y: map<string, PyType>, z: map<string, PyType>, k: string)
    requires NoOther(x) && NoOther(y) && NoOther(z)
    requires k in x || k in y || k in z
    ensures k in MergeTypes(MergeTypes(x, y), z) && k in MergeTypes(x, MergeTypes(y, z))
    ensures MergeTypes(MergeTypes(x, y), z)[k] == MergeTypes(x, MergeTypes(y, z))[k]
  {
    var xy, yz := MergeTypes(x, y), MergeTypes(y, z);
    var l, r := MergeTypes(xy, z)[k], MergeTypes(x, yz)[k];
    var str := (k in x && x[k] == Str) || (k in y && y[k] == Str) || (k in z && z[k] == Str);
    var float := (k in x && x[k] == Float) || (k in y && y[k] == Float) || (k in z && z[k] == Float);
    assert k in xy ==> (xy[k] == Str <==> (k in x && x[k] == Str) || (k in y && y[k] == Str));
    assert k in yz ==> (yz[k] == Str <==> (k in y && y[k] == Str) || (k in z && z[k] == Str));
    assert l == Str <==> str;
    assert r == Str <==> str;
    assert l == Float <==> !str && float;
    assert r == Float <==> !str && float;
  }

  lemma MergeTypesIdempotent(x: map<string, PyType>)
    requires NoOther(x)
    ensures MergeTypes(x, x) == x
  {
    var m := MergeTypes(x, x);
    forall k | k in m
      ensures m[k] == x[k]
    {
    }
    assert m.Keys == x.Keys;
  }

  /** Merging well-formed metas is associative. */
  lemma MergeAssociative(a: LayerMeta, b: LayerMeta, c: LayerMeta)
    requires WellFormed(a) && WellFormed(b) && WellFormed(c)
    ensures var ab := Merge(a, Same(b)).value;
            var bc := Merge(b, Same(c)).value;
            Merge(ab, Same(c)) == Merge(a, Same(bc))
  {
    MergeTypesAssociative(a.types, b.types, c.types);
    UnionAssociative(a.links, b.links, c.links);
    var ab := LayerMeta(a.headers + b.headers, MergeTypes(a.types, b.types), a.links + b.links);
    var bc := LayerMeta(b.headers + c.headers, MergeTypes(b.types, c.types), b.links + c.links);
    assert Merge(a, Same(b)) == Ok(ab);
    assert Merge(b, Same(c)) == Ok(bc);
    assert a.headers + b.headers + c.headers == a.headers + (b.headers + c.headers);
  }

  lemma UnionAssociative(x: map<string, string>, y: map<string, string>, z: map<string, string>)
    ensures (x + y) + z == x + (y + z)
  {
    var l, r := (x + y) + z, x + (y + z);
    forall h | h in l
      ensures h in r && l[h] == r[h]
    {
    }
    assert l.Keys == r.Keys;
  }

  /** Merging a meta with itself changes nothing. */
  lemma MergeIdempotent(a: LayerMeta)
    requires WellFormed(a)
    ensures Merge(a, Same(a)) == Ok(a)
  {
    MergeTypesIdempotent(a.types);
    assert a.links + a.links == a.links;
  }

  lemma NamesAppend(x: seq<Element>, y: seq<Element>, loc: string)
    ensures Names(x + y, loc) == Names(x, loc) + Names(y, loc)
  {
    forall h | h in Names(x + y, loc)
      ensures h in Names(x, loc) + Names(y, loc)
    {
      var e :| e in x + y && e.ns == loc && HasText(e.text) && e.local == h;
      assert e in x || e in y;
    }
  }

  /** The headers are the names found, less the keyword. */
  lemma HeadersAreNames(root: Element, loc: string, keyword: string)
    ensures Headers(root, loc, keyword) == Names(IterTag(root, QName(loc, Wildcard)), loc) - {keyword}
  {
  }

  /** The name the root itself contributes, whatever its children. */
  function RootName(w: Element, loc: string): set<string>
  {
    if w.ns == loc && HasText(w.text) then {w.local} else {}
  }

  /** The names found iterating a root with children `cs`: the root's own
      and those found among the descendants. */
  lemma NamesOfRoot(w: Element, cs: seq<Element>, loc: string)
    ensures Names(IterTag(w.(children := cs), QName(loc, Wildcard)), loc)
            == RootName(w, loc) + Names(Select(IterAll(cs), QName(loc, Wildcard)), loc)
  {
    var q := QName(loc, Wildcard);
    var r := w.(children := cs);
    SelectAppend([r], IterAll(cs), q);
    NamesAppend(Select([r], q), Select(IterAll(cs), q), loc);
    assert Names(Select([r], q), loc) == RootName(w, loc);
  }

  /** The local-namespace names found when iterating a root whose children
      are `a + b` are those found with children `a` and with children `b`:
      reading one page holding both parts yields the header set of merging
      the reads of the two parts. */
  lemma HeadersOfCombinedPage(w: Element, a: seq<Element>, b: seq<Element>, loc: string, keyword: string)
    ensures Headers(w.(children := a + b), loc, keyword)
            == Headers(w.(children := a), loc, keyword) + Headers(w.(children := b), loc, keyword)
  {
    var q := QName(loc, Wildcard);
    var sa, sb := Names(Select(IterAll(a), q), loc), Names(Select(IterAll(b), q), loc);
    assert Names(Select(IterAll(a + b), q), loc) == sa + sb by {
      IterAllAppend(a, b);
      SelectAppend(IterAll(a), IterAll(b), q);
      NamesAppend(Select(IterAll(a), q), Select(IterAll(b), q), loc);
    }
    NamesOfRoot(w, a + b, loc);
    NamesOfRoot(w, a, loc);
    NamesOfRoot(w, b, loc);
    HeadersAreNames(w.(children := a + b), loc, keyword);
    HeadersAreNames(w.(children := a), loc, keyword);
    HeadersAreNames(w.(children := b), loc, keyword);
  }
}
