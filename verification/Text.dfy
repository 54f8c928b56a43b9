/** The string operations the JavaScript runtime supplies, on strings as sequences of characters. */
module Text {
  import opened Wrappers

  /** The characters that `\s` matches and `trim` removes. */
  predicate IsSpace(c: char) {
    || '\t' <= c <= '\r' || c == ' '
    || c == '\U{00A0}' || c == '\U{1680}' || '\U{2000}' <= c <= '\U{200A}'
    || c == '\U{2028}' || c == '\U{2029}' || c == '\U{202F}' || c == '\U{205F}'
    || c == '\U{3000}' || c == '\U{FEFF}'
  }

  /** The characters that `.` does not match. */
  predicate IsLineTerminator(c: char) {
    c == '\n' || c == '\r' || c == '\U{2028}' || c == '\U{2029}'
  }

  function TrimStart(s: string): (r: string)
    ensures r != [] ==> !IsSpace(r[0])
    ensures |r| <= |s| && r == s[|s| - |r|..]
  {
    if s != [] && IsSpace(s[0]) then TrimStart(s[1..]) else s
  }

  function TrimEnd(s: string): (r: string)
    ensures r != [] ==> !IsSpace(r[|r| - 1])
    ensures |r| <= |s| && r == s[..|r|]
    ensures s != [] && !IsSpace(s[0]) ==> r != []
  {
    if s != [] && IsSpace(s[|s| - 1]) then TrimEnd(s[..|s| - 1]) else s
  }

  function Trim(s: string): string {
    TrimEnd(TrimStart(s))
  }

  /** The index of the first `c` in `s`, or the length of `s`. */
  function IndexOfChar(s: string, c: char): (i: nat)
    ensures i <= |s|
    ensures i < |s| ==> s[i] == c
    ensures c !in s[..i]
    ensures i == |s| <==> c !in s
  {
    if s == [] || s[0] == c then 0 else 1 + IndexOfChar(s[1..], c)
  }

  lemma {:induction false} IndexAfter(p: string, c: char, rest: string)
    requires c !in p
    ensures IndexOfChar(p + [c] + rest, c) == |p|
  {
    var s := p + [c] + rest;
    if p != [] {
      assert s[1..] == p[1..] + [c] + rest;
      assert s[0] == p[0] && p[0] in p;
      IndexAfter(p[1..], c, rest);
    }
  }

  ghost predicate OccursAt(s: string, part: string, i: int) {
    0 <= i <= |s| && part <= s[i..]
  }

  ghost predicate Contains(s: string, part: string) {
    exists i :: OccursAt(s, part, i)
  }

  function Join(parts: seq<string>, separator: string): string {
    if parts == [] then ""
    else if |parts| == 1 then parts[0]
    else parts[0] + separator + Join(parts[1..], separator)
  }

  predicate Distinct(xs: seq<string>) {
    forall i, j :: 0 <= i < j < |xs| ==> xs[i] != xs[j]
  }

  /** `new Set(xs)`: the first occurrence of each element, in order. */
  function Unique(xs: seq<string>): (r: seq<string>)
    ensures forall x :: x in r <==> x in xs
    ensures Distinct(r)
  {
    if xs == [] then []
    else
      var n := |xs| - 1;
      var rest := Unique(xs[..n]);
      assert xs == xs[..n] + [xs[n]];
      if xs[n] in rest then rest else rest + [xs[n]]
  }

  /** `x` occurs before `y` does. */
  ghost predicate ComesBefore(xs: seq<string>, x: string, y: string) {
    exists a :: 0 <= a < |xs| && xs[a] == x && y !in xs[..a + 1]
  }

  lemma {:induction false} UniqueKeepsOrder(xs: seq<string>, i: nat, j: nat)
    requires i < j < |Unique(xs)|
    ensures ComesBefore(xs, Unique(xs)[i], Unique(xs)[j])
    decreases |xs|
  {
    var n := |xs| - 1;
    var u, rest := Unique(xs), Unique(xs[..n]);
    if j < |rest| {
      UniqueKeepsOrder(xs[..n], i, j);
      var a :| 0 <= a < n && xs[..n][a] == u[i] && u[j] !in xs[..n][..a + 1];
      assert xs[..n][..a + 1] == xs[..a + 1];
      assert xs[a] == u[i] && u[j] !in xs[..a + 1];
    } else {
      assert rest[i] in rest;
      var a :| 0 <= a < n && xs[..n][a] == rest[i];
      assert xs[..a + 1] == xs[..n][..a + 1];
      assert xs[a] == u[i] && u[j] !in xs[..a + 1];
    }
  }

  lemma {:induction false} AtMostOnce(xs: seq<string>, x: string)
    requires Distinct(xs)
    ensures multiset(xs)[x] <= 1
    decreases |xs|
  {
    if xs != [] {
      var n := |xs| - 1;
      AtMostOnce(xs[..n], x);
      assert xs == xs[..n] + [xs[n]];
      if xs[n] == x {
        assert x !in multiset(xs[..n]);
      }
    }
  }

  lemma {:induction false} DistinctByCount(xs: seq<string>)
    requires forall x :: multiset(xs)[x] <= 1
    ensures Distinct(xs)
  {
    forall i, j | 0 <= i < j < |xs| ensures xs[i] != xs[j] {
      assert xs == xs[..j] + xs[j..];
      assert xs[i] in multiset(xs[..j]) && xs[j] in multiset(xs[j..]) by {
        assert xs[..j][i] == xs[i] && xs[j..][0] == xs[j];
      }
      assert multiset(xs)[xs[i]] == multiset(xs[..j])[xs[i]] + multiset(xs[j..])[xs[i]];
    }
  }

  /** The order of JavaScript's `<` on strings. */
  predicate LexLess(a: string, b: string) {
    b != [] && (a == [] || a[0] < b[0] || (a[0] == b[0] && LexLess(a[1..], b[1..])))
  }

  predicate LexLeq(a: string, b: string) {
    a == b || LexLess(a, b)
  }

  lemma {:induction false} LexTotal(a: string, b: string)
    ensures LexLess(a, b) || a == b || LexLess(b, a)
    ensures !(LexLess(a, b) && LexLess(b, a)) && !(a == b && LexLess(a, b))
  {
    if a != [] && b != [] {
      LexTotal(a[1..], b[1..]);
      assert a == [a[0]] + a[1..] && b == [b[0]] + b[1..];
    }
  }

  lemma {:induction false} LexTransitive(a: string, b: string, c: string)
    requires LexLess(a, b) && LexLess(b, c)
    ensures LexLess(a, c)
  {
    if a != [] && a[0] == b[0] == c[0] {
      LexTransitive(a[1..], b[1..], c[1..]);
    }
  }

  lemma {:induction false} LexSamePrefix(p: string, a: string, b: string)
    ensures LexLess(p + a, p + b) == LexLess(a, b)
  {
    if p == [] {
      assert p + a == a && p + b == b;
    } else {
      LexSamePrefix(p[1..], a, b);
      assert (p + a)[1..] == p[1..] + a && (p + b)[1..] == p[1..] + b;
    }
  }

  lemma {:induction false} LexByParts(a: string, a': string, b: string, b': string)
    requires |a| == |b|
    ensures LexLess(a + a', b + b') <==> LexLess(a, b) || (a == b && LexLess(a', b'))
  {
    if a == [] {
      assert a + a' == a' && b + b' == b';
    } else {
      LexByParts(a[1..], a', b[1..], b');
      assert (a + a')[1..] == a[1..] + a' && (b + b')[1..] == b[1..] + b';
      assert a == [a[0]] + a[1..] && b == [b[0]] + b[1..];
    }
  }
}
