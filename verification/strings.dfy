/** The handful of Python `str` operations the package relies on, written
    out over `seq<char>`: `in`, `split(sep)`, `split()`, `upper`, `lower`,
    `strip` (as a blankness test), slicing, and decimal rendering of
    integers. */
module Strings {

  // ---------------------------------------------------------------------
  // Substring test: Python `sub in s`
  // ---------------------------------------------------------------------

  /** `sub in s`: some window of `s` spells `sub`. */
  predicate Contains(s: string, sub: string)
    decreases |s|
  {
    if |s| < |sub| then false
    else s[..|sub|] == sub || Contains(s[1..], sub)
  }

  /** A string contains each of its prefixes. */
  lemma ContainsPrefix(s: string, sub: string)
    requires sub <= s
    ensures Contains(s, sub)
  {
  }

  /** Where `sub` occurs: a position at which `s` spells it. */
  lemma {:induction false} ContainsAt(s: string, sub: string) returns (k: nat)
    requires Contains(s, sub)
    ensures k + |sub| <= |s| && s[k..k + |sub|] == sub
    decreases |s|
  {
    if s[..|sub|] == sub {
      k := 0;
    } else {
      var k' := ContainsAt(s[1..], sub);
      k := k' + 1;
      assert s[k..k + |sub|] == s[1..][k'..k' + |sub|];
    }
  }

  /** Containment survives putting text in front or behind. */
  lemma {:induction false} ContainsExtend(pre: string, s: string, post: string, sub: string)
    requires Contains(s, sub)
    ensures Contains(pre + s + post, sub)
    decreases |pre|, |s|
  {
    if |pre| > 0 {
      ContainsExtend(pre[1..], s, post, sub);
      assert (pre + s + post)[1..] == pre[1..] + s + post;
    } else if s[..|sub|] == sub {
      assert (pre + s + post)[..|sub|] == sub;
    } else {
      ContainsExtend([], s[1..], post, sub);
      assert (pre + s + post)[1..] == [] + s[1..] + post;
    }
  }

  // ---------------------------------------------------------------------
  // Python `sep.join(parts)` and `s.split(sep)` for a one-character sep
  // ---------------------------------------------------------------------

  /** `sep.join(parts)`. */
  function Join(parts: seq<string>, sep: char): string
    decreases |parts|
  {
    if |parts| == 0 then ""
    else if |parts| == 1 then parts[0]
    else parts[0] + [sep] + Join(parts[1..], sep)
  }

  /** `s.split(sep)`: the maximal `sep`-free pieces between the separators,
      empty pieces included, so there is always at least one piece. */
  function Split(s: string, sep: char): (parts: seq<string>)
    ensures |parts| >= 1
    ensures forall i :: 0 <= i < |parts| ==> sep !in parts[i]
    ensures Join(parts, sep) == s
    decreases |s|
  {
    if |s| == 0 then [""]
    else
      var rest := Split(s[1..], sep);
      if s[0] == sep then
        assert s == [sep] + s[1..];
        [""] + rest
      else
        var parts := [[s[0]] + rest[0]] + rest[1..];
        assert parts[1..] == rest[1..];
        parts
  }

  /** The last piece of a split, Python `s.split(sep)[-1]`. */
  function LastPiece(s: string, sep: char): string
  {
    var parts := Split(s, sep);
    parts[|parts| - 1]
  }

  /** A string without the separator is one piece. */
  lemma {:induction false} SplitNoSep(s: string, sep: char)
    requires sep !in s
    ensures Split(s, sep) == [s]
    decreases |s|
  {
    if |s| > 0 {
      SplitNoSep(s[1..], sep);
    }
  }

  /** Splitting distributes over a separator occurrence. */
  lemma {:induction false} SplitAppend(x: string, y: string, sep: char)
    ensures Split(x + [sep] + y, sep) == Split(x, sep) + Split(y, sep)
    decreases |x|
  {
    var s := x + [sep] + y;
    if |x| == 0 {
      assert s[1..] == y;
    } else {
      assert s[1..] == x[1..] + [sep] + y;
      SplitAppend(x[1..], y, sep);
    }
  }

  /** `sep.join` then `split(sep)` gives back pieces that avoid the separator. */
  lemma {:induction false} SplitJoin(parts: seq<string>, sep: char)
    requires |parts| >= 1
    requires forall i :: 0 <= i < |parts| ==> sep !in parts[i]
    ensures Split(Join(parts, sep), sep) == parts
    decreases |parts|
  {
    SplitNoSep(parts[0], sep);
    if |parts| > 1 {
      SplitJoin(parts[1..], sep);
      SplitAppend(parts[0], Join(parts[1..], sep), sep);
      assert [parts[0]] + parts[1..] == parts;
    }
  }

  /** Three pieces joined by the separator. */
  lemma JoinThree(a: string, b: string, c: string, sep: char)
    ensures Join([a, b, c], sep) == a + [sep] + b + [sep] + c
  {
    assert [b, c][1..] == [c];
    assert Join([c], sep) == c;
    assert Join([b, c], sep) == b + [sep] + c;
    assert [a, b, c][1..] == [b, c];
  }

  /** Regrouping a string built from a head and three tail pieces. */
  lemma RegroupTail(pre: string, a: string, b: string, c: string, sep: char)
    ensures pre + [sep] + a + [sep] + b + [sep] + c == pre + [sep] + (a + [sep] + b + [sep] + c)
  {
  }

  /** Three separator-free pieces at the end of a string split off as
      the last three pieces. */
  lemma SplitThree(pre: string, a: string, b: string, c: string, sep: char)
    requires sep !in a && sep !in b && sep !in c
    ensures Split(pre + [sep] + a + [sep] + b + [sep] + c, sep) == Split(pre, sep) + [a, b, c]
  {
    var tail := a + [sep] + b + [sep] + c;
    RegroupTail(pre, a, b, c, sep);
    SplitAppend(pre, tail, sep);
    JoinThree(a, b, c, sep);
    SplitJoin([a, b, c], sep);
  }

  /** Four separator-free pieces joined by the separator split back. */
  lemma SplitFour(w: string, a: string, b: string, c: string, sep: char)
    requires sep !in w && sep !in a && sep !in b && sep !in c
    ensures Split(w + [sep] + a + [sep] + b + [sep] + c, sep) == [w, a, b, c]
  {
    SplitThree(w, a, b, c, sep);
    SplitNoSep(w, sep);
  }

  /** Three separators give at least four pieces. */
  lemma SplitThreeSeps(x: string, a: string, b: string, y: string, sep: char)
    ensures |Split(x + [sep] + a + [sep] + b + [sep] + y, sep)| >= 4
  {
    assert x + [sep] + a + [sep] + b + [sep] + y == x + [sep] + (a + [sep] + (b + [sep] + y));
    SplitAppend(x, a + [sep] + (b + [sep] + y), sep);
    SplitAppend(a, b + [sep] + y, sep);
    SplitAppend(b, y, sep);
  }

  /** The first piece is the text before the first separator; when there is
      a separator, the remaining pieces are the split of the text after it. */
  lemma SplitHead(s: string, sep: char)
    ensures Split(s, sep)[0] <= s
    ensures |Split(s, sep)| == 1 <==> sep !in s
    ensures |Split(s, sep)| > 1 ==>
              var head := Split(s, sep)[0];
              s[|head|] == sep && Split(s[|head| + 1..], sep) == Split(s, sep)[1..]
  {
    var parts := Split(s, sep);
    if |parts| > 1 {
      assert s == parts[0] + [sep] + Join(parts[1..], sep);
      assert s[|parts[0]| + 1..] == Join(parts[1..], sep);
      SplitJoin(parts[1..], sep);
    }
  }

  // ---------------------------------------------------------------------
  // Whitespace: `str.isspace`, `strip`, `split()`
  // ---------------------------------------------------------------------

  /** The characters Python's `str.isspace` accepts. */
  predicate IsSpace(c: char)
  {
    c == ' ' || ('\t' <= c <= '\r') || ('\U{1c}' <= c <= '\U{1f}')
    || c == '\U{85}' || c == '\U{a0}' || c == '\U{1680}'
    || ('\U{2000}' <= c <= '\U{200a}') || c == '\U{2028}' || c == '\U{2029}'
    || c == '\U{202f}' || c == '\U{205f}' || c == '\U{3000}'
  }

  /** `s.strip() == ""`: nothing but whitespace. */
  predicate Blank(s: string)
  {
    forall i :: 0 <= i < |s| ==> IsSpace(s[i])
  }

  /** Length of the maximal whitespace-free prefix. */
  function WordLength(s: string): (n: nat)
    ensures n <= |s|
    ensures forall i :: 0 <= i < n ==> !IsSpace(s[i])
    ensures n < |s| ==> IsSpace(s[n])
    decreases |s|
  {
    if |s| == 0 || IsSpace(s[0]) then 0 else 1 + WordLength(s[1..])
  }

  /** `s.split()`: the maximal runs of non-whitespace, in order. */
  function Words(s: string): (ws: seq<string>)
    ensures forall i :: 0 <= i < |ws| ==> |ws[i]| > 0 && !HasSpace(ws[i])
    decreases |s|
  {
    if |s| == 0 then []
    else if IsSpace(s[0]) then Words(s[1..])
    else
      var n := WordLength(s);
      [s[..n]] + Words(s[n..])
  }

  predicate HasSpace(s: string)
  {
    exists i :: 0 <= i < |s| && IsSpace(s[i])
  }

  /** Tokens written with single spaces between them split back into the
      same tokens. */
  lemma {:induction false} WordsOfSpaced(tokens: seq<string>)
    requires forall i :: 0 <= i < |tokens| ==> |tokens[i]| > 0 && !HasSpace(tokens[i])
    ensures Words(Join(tokens, ' ')) == tokens
    decreases |tokens|
  {
    if |tokens| == 1 {
      WordLengthOfWord(tokens[0], "");
      assert tokens[0] + "" == tokens[0];
    } else if |tokens| > 1 {
      var rest := Join(tokens[1..], ' ');
      var s := tokens[0] + [' '] + rest;
      WordLengthOfWord(tokens[0], [' '] + rest);
      assert s == tokens[0] + ([' '] + rest);
      assert s[|tokens[0]|..] == [' '] + rest;
      assert s[..|tokens[0]|] == tokens[0];
      assert ([' '] + rest)[1..] == rest;
      WordsOfSpaced(tokens[1..]);
    }
  }

  lemma {:induction false} WordLengthOfWord(w: string, tail: string)
    requires |w| > 0 && !HasSpace(w)
    requires |tail| == 0 || IsSpace(tail[0])
    ensures WordLength(w + tail) == |w|
    decreases |w|
  {
    assert !IsSpace(w[0]);
    assert (w + tail)[1..] == w[1..] + tail;
    if |w| > 1 {
      assert !HasSpace(w[1..]) by {
        forall i | 0 <= i < |w[1..]| ensures !IsSpace(w[1..][i]) {
          assert w[1..][i] == w[i + 1];
        }
      }
      WordLengthOfWord(w[1..], tail);
    } else {
      assert w[1..] + tail == tail;
    }
  }

  // ---------------------------------------------------------------------
  // Case mapping and slicing
  // ---------------------------------------------------------------------

  function UpperChar(c: char): char
  {
    if 'a' <= c <= 'z' then (c as int - 'a' as int + 'A' as int) as char else c
  }

  function LowerChar(c: char): char
  {
    if 'A' <= c <= 'Z' then (c as int - 'A' as int + 'a' as int) as char else c
  }

  /** `s.upper()` on the ASCII letters. */
  function Upper(s: string): (r: string)
    ensures |r| == |s|
    ensures forall i :: 0 <= i < |s| ==> r[i] == UpperChar(s[i])
  {
    seq(|s|, i requires 0 <= i < |s| => UpperChar(s[i]))
  }

  /** `s.lower()` on the ASCII letters. */
  function Lower(s: string): (r: string)
    ensures |r| == |s|
    ensures forall i :: 0 <= i < |s| ==> r[i] == LowerChar(s[i])
  {
    seq(|s|, i requires 0 <= i < |s| => LowerChar(s[i]))
  }

  /** `s[0:n]`: at most the first `n` characters. */
  function Take(s: string, n: nat): (r: string)
    ensures r <= s
    ensures |r| == if |s| < n then |s| else n
  {
    if |s| < n then s else s[..n]
  }

  /** `s[:-1]`: everything but the last character (empty stays empty). */
  function DropLast(s: string): (r: string)
    ensures r <= s
    ensures |r| == if |s| == 0 then 0 else |s| - 1
  {
    if |s| == 0 then s else s[..|s| - 1]
  }

  // ---------------------------------------------------------------------
  // Decimal rendering: `str(n)` / `f"{n}"` for an int
  // ---------------------------------------------------------------------

  predicate IsDigit(c: char)
  {
    '0' <= c <= '9'
  }

  function DigitChar(d: nat): (c: char)
    requires d < 10
    ensures IsDigit(c)
  {
    (d + '0' as int) as char
  }

  /** `str(n)` for a non-negative int. */
  function NatToString(n: nat): (r: string)
    ensures |r| >= 1
    ensures forall i :: 0 <= i < |r| ==> IsDigit(r[i])
    ensures |r| == 1 <==> n < 10
    decreases n
  {
    if n < 10 then [DigitChar(n)] else NatToString(n / 10) + [DigitChar(n % 10)]
  }

  /** Reading decimal digits, the inverse of `NatToString`. */
  function DigitsValue(s: string): nat
    requires forall i :: 0 <= i < |s| ==> IsDigit(s[i])
    decreases |s|
  {
    if |s| == 0 then 0
    else
      assert IsDigit(s[|s| - 1]);
      10 * DigitsValue(s[..|s| - 1]) + (s[|s| - 1] as int - '0' as int)
  }

  lemma {:induction false} NatToStringRoundTrip(n: nat)
    ensures DigitsValue(NatToString(n)) == n
    decreases n
  {
    if n >= 10 {
      NatToStringRoundTrip(n / 10);
      var r := NatToString(n);
      assert r[..|r| - 1] == NatToString(n / 10);
    }
  }

  /** `str(i)` for any int. */
  function IntToString(i: int): (r: string)
    ensures |r| >= 1
    ensures ':' !in r && '/' !in r && '#' !in r && ',' !in r
  {
    if i < 0 then "-" + NatToString(-i) else NatToString(i)
  }
}
