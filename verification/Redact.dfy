/** Secret redaction (packages/shared/src/redact.ts): every secret in turn is cut out of the text. */
module Redact {
  import opened Wrappers
  import opened Text
  import opened StableSort

  const REDACTED := "***"
  const MIN_SECRET_LENGTH := 6

  // ---------------------------------------------------------------- which values are secrets

  function TrimAll(values: seq<string>): (r: seq<string>)
    ensures |r| == |values| && forall i :: 0 <= i < |r| ==> r[i] == Trim(values[i])
  {
    seq(|values|, i requires 0 <= i < |values| => Trim(values[i]))
  }

  predicate NotShorter(a: string, b: string) {
    |a| >= |b|
  }

  predicate LongEnough(v: string) {
    |v| >= MIN_SECRET_LENGTH
  }

  function SecretValues(values: seq<string>): seq<string> {
    Sort(Unique(Filter(TrimAll(values), LongEnough)), NotShorter)
  }

  lemma {:induction false} LengthOrderIsTotal()
    ensures TotalPreorder(NotShorter)
  {
  }

  lemma {:induction false} NoRepeatsPermuted(a: seq<string>, b: seq<string>)
    requires multiset(a) == multiset(b) && Distinct(a)
    ensures Distinct(b)
  {
    forall x ensures multiset(b)[x] <= 1 {
      AtMostOnce(a, x);
    }
    DistinctByCount(b);
  }

  /** The secrets are exactly the trimmed values of six characters or more, once each, longest first. */
  lemma {:induction false} SecretsAre(values: seq<string>)
    ensures var secrets := SecretValues(values);
            && (forall s :: s in secrets <==>
                  |s| >= 6 && exists i :: 0 <= i < |values| && Trim(values[i]) == s)
            && (forall i, j :: 0 <= i < j < |secrets| ==> secrets[i] != secrets[j] && |secrets[i]| >= |secrets[j]|)
  {
    var kept := Filter(TrimAll(values), LongEnough);
    SortPermutes(Unique(kept), NotShorter);
    LengthOrderIsTotal();
    SortSorts(Unique(kept), NotShorter);
    NoRepeatsPermuted(Unique(kept), SecretValues(values));
    forall s
      ensures s in SecretValues(values) <==>
              |s| >= MIN_SECRET_LENGTH && exists i :: 0 <= i < |values| && Trim(values[i]) == s
    {
      assert (s in SecretValues(values)) == (s in kept);
      assert (s in TrimAll(values)) == exists i :: 0 <= i < |values| && Trim(values[i]) == s by {
        if i :| 0 <= i < |values| && Trim(values[i]) == s {
          assert TrimAll(values)[i] == s;
        }
      }
    }
  }

  function OfLength(n: nat): string -> bool {
    (v: string) => |v| == n
  }

  /** Values of one length are tried in the order in which they first occur. */
  lemma {:induction false} EqualLengthsKeepOrder(values: seq<string>, n: nat)
    ensures Filter(SecretValues(values), OfLength(n))
         == Filter(Unique(Filter(TrimAll(values), LongEnough)), OfLength(n))
  {
    SortIsStable(Unique(Filter(TrimAll(values), LongEnough)), NotShorter, OfLength(n));
  }

  lemma {:induction false} SameLengthSame(s: string, part: string)
    requires Contains(s, part)
    ensures |part| < |s| || s == part
  {
    var at :| OccursAt(s, part, at);
  }

  /** No secret is tried before a longer one that contains it. */
  lemma {:induction false} LongerSecretsComeFirst(values: seq<string>, i: nat, j: nat)
    requires i < |SecretValues(values)| && j < |SecretValues(values)| && i != j
    requires Contains(SecretValues(values)[j], SecretValues(values)[i])
    ensures j < i
  {
    SecretsAre(values);
    hide SecretValues, Sort, Unique;
    SameLengthSame(SecretValues(values)[j], SecretValues(values)[i]);
  }

  // ---------------------------------------------------------------- cutting one secret out

  lemma {:induction false} OccursInSuffix(text: string, part: string, from: nat, j: int)
    requires from <= |text|
    ensures OccursAt(text[from..], part, j) <==> 0 <= j && OccursAt(text, part, j + from)
  {
    if 0 <= j && j + from <= |text| {
      assert text[from..][j..] == text[j + from..];
    }
  }

  lemma {:induction false} OccursInPrefix(text: string, part: string, to: nat, j: int)
    requires to <= |text|
    ensures OccursAt(text[..to], part, j) ==> OccursAt(text, part, j) && j + |part| <= to
  {
    if 0 <= j <= to {
      assert text[..to][j..] == text[j..][..to - j];
    }
  }

  /** `text.indexOf(part)`. */
  function IndexOf(text: string, part: string): (r: Option<nat>)
    ensures r.Some? ==> r.value + |part| <= |text| && OccursAt(text, part, r.value)
    ensures r.Some? ==> forall j :: 0 <= j < r.value ==> !OccursAt(text, part, j)
    ensures r.None? ==> !Contains(text, part)
  {
    assert text[0..] == text;
    if part <= text then Some(0)
    else if text == [] then None
    else
      var rest := IndexOf(text[1..], part);
      NotBefore(text, part, rest);
      if rest.None? then None else Some(rest.value + 1)
  }

  lemma {:induction false} NotBefore(text: string, part: string, rest: Option<nat>)
    requires text != [] && !OccursAt(text, part, 0)
    ensures rest.Some? && OccursAt(text[1..], part, rest.value) ==> OccursAt(text, part, rest.value + 1)
    ensures rest.Some? && (forall j :: 0 <= j < rest.value ==> !OccursAt(text[1..], part, j)) ==>
              forall j :: 0 <= j < rest.value + 1 ==> !OccursAt(text, part, j)
    ensures !Contains(text[1..], part) ==> !Contains(text, part)
  {
    forall j | 0 < j ensures OccursAt(text, part, j) ==> OccursAt(text[1..], part, j - 1) {
      OccursInSuffix(text, part, 1, j - 1);
    }
    if rest.Some? {
      OccursInSuffix(text, part, 1, rest.value);
    }
  }

  /** `text.split(separator)`. */
  function Split(text: string, separator: string): (parts: seq<string>)
    ensures separator != "" ==> parts != []
    decreases |text|
  {
    if separator == "" then seq(|text|, i requires 0 <= i < |text| => [text[i]])
    else
      var at := IndexOf(text, separator);
      if at.None? then [text] else [text[..at.value]] + Split(text[at.value + |separator|..], separator)
  }

  function CutOut(text: string, secret: string): string {
    if IndexOf(text, secret).Some? then Join(Split(text, secret), REDACTED) else text
  }

  lemma {:induction false} JoinUnfold(first: string, rest: seq<string>, separator: string)
    requires rest != []
    ensures Join([first] + rest, separator) == first + separator + Join(rest, separator)
    ensures Join([first], separator) == first
  {
    assert ([first] + rest)[1..] == rest;
  }

  lemma {:induction false} CutOutUnfold(text: string, secret: string)
    requires secret != ""
    ensures var at := IndexOf(text, secret);
            CutOut(text, secret) ==
            if at.None? then text
            else text[..at.value] + REDACTED + CutOut(text[at.value + |secret|..], secret)
  {
    hide Join, OccursAt, Contains, IndexOf;
    var at := IndexOf(text, secret);
    if at.Some? {
      var rest := text[at.value + |secret|..];
      JoinUnfold(text[..at.value], Split(rest, secret), REDACTED);
      JoinUnfold(rest, Split(rest, secret), REDACTED);
    }
  }

  /** The empty secret is "found" between any two characters. */
  lemma {:induction false} CutOutNothing(text: string)
    ensures CutOut(text, "") == if |text| <= 1 then text else [text[0]] + REDACTED + CutOut(text[1..], "")
  {
    hide Join;
    EmptyOccurs(text);
    if |text| > 1 {
      EmptyOccurs(text[1..]);
      assert Split(text, "") == [[text[0]]] + Split(text[1..], "");
      JoinUnfold([text[0]], Split(text[1..], ""), REDACTED);
    } else if text != "" {
      assert [text[0]] == text;
      assert Split(text, "") == [text];
      JoinUnfold(text, [text], REDACTED);
    } else {
      JoinOfNone(Split(text, ""));
    }
  }

  lemma {:induction false} JoinOfNone(parts: seq<string>)
    requires parts == []
    ensures Join(parts, REDACTED) == ""
  {
  }

  lemma {:induction false} EmptyOccurs(text: string)
    ensures Contains(text, "") && IndexOf(text, "").Some?
  {
    assert OccursAt(text, "", 0);
  }

  function RedactAll(text: string, secrets: seq<string>): string {
    if secrets == [] then text
    else CutOut(RedactAll(text, secrets[..|secrets| - 1]), secrets[|secrets| - 1])
  }

  method RedactSecrets(text: string, secrets: seq<string>) returns (out: string)
    ensures out == RedactAll(text, secrets)
  {
    out := text;
    for i := 0 to |secrets|
      invariant out == RedactAll(text, secrets[..i])
    {
      assert secrets[..i + 1][..i] == secrets[..i];
      if IndexOf(out, secrets[i]).Some? {
        out := Join(Split(out, secrets[i]), REDACTED);
      }
    }
    assert secrets[..|secrets|] == secrets;
  }

  // ---------------------------------------------------------------- what is replaced

  /** The first occurrence of a secret becomes the mask, what precedes it stays, and the search goes on behind it. */
  lemma {:induction false} ReplacesTheFirst(a: string, s: string, b: string)
    requires s != "" && forall i :: 0 <= i < |a| ==> !OccursAt(a + s + b, s, i)
    ensures CutOut(a + s + b, s) == a + "***" + CutOut(b, s)
  {
    var text := a + s + b;
    assert text[|a|..] == s + b;
    assert OccursAt(text, s, |a|);
    hide OccursAt, CutOut;
    assert IndexOf(text, s) == Some(|a|);
    CutOutUnfold(text, s);
    assert text[..|a|] == a && text[|a| + |s|..] == b;
  }

  /** The secrets are cut out one after the other. */
  lemma {:induction false} OneAfterAnother(text: string, secrets: seq<string>, s: string)
    ensures RedactAll(text, []) == text
    ensures RedactAll(text, secrets + [s]) == CutOut(RedactAll(text, secrets), s)
  {
    hide CutOut;
    assert (secrets + [s])[..|secrets|] == secrets;
  }

  // ---------------------------------------------------------------- completeness

  /** A secret that the inserted stars can neither complete nor contain. */
  ghost predicate StarSafe(s: string) {
    s != "" && s[0] != '*' && s[|s| - 1] != '*' && !Contains(s, REDACTED)
  }

  lemma {:induction false} WithoutStarsIsSafe(s: string)
    requires s != "" && '*' !in s
    ensures StarSafe(s)
  {
    forall at ensures !OccursAt(s, REDACTED, at) {
      assert REDACTED[0] == '*';
    }
  }

  lemma {:induction false} StraddlingContainsStars(a: string, b: string, t: string, i: int)
    requires OccursAt(a + REDACTED + b, t, i) && i < |a| && |a| + 3 <= i + |t|
    ensures OccursAt(t, REDACTED, |a| - i)
  {
    var s, n := a + REDACTED + b, |a|;
    assert s[i..][..|t|] == t;
    assert t[n - i..] == s[n..][..|t| - (n - i)];
    assert s[n..] == REDACTED + b;
  }

  /** An occurrence of a safe string in `a + "***" + b` lies in `a` or in `b`. */
  lemma {:induction false} SafeAvoidsStars(a: string, b: string, t: string, i: int)
    requires StarSafe(t) && OccursAt(a + REDACTED + b, t, i)
    ensures OccursAt(a, t, i) || OccursAt(b, t, i - |a| - 3)
  {
    var s, n := a + REDACTED + b, |a|;
    assert s[n] == s[n + 1] == s[n + 2] == '*';
    assert s[i..][0] == s[i] && s[i..][|t| - 1] == s[i + |t| - 1];
    if i < n && n + 3 <= i + |t| {
      StraddlingContainsStars(a, b, t, i);
    } else if i + |t| <= n {
      assert a[i..] == s[i..][..n - i];
    } else {
      assert b[i - n - 3..] == s[i..];
    }
  }

  /** Cutting out one secret never creates an occurrence of a safe string. */
  lemma {:induction false} NothingNew(text: string, secret: string, t: string)
    requires StarSafe(t) && Contains(CutOut(text, secret), t)
    ensures Contains(text, t)
    decreases |text|
  {
    hide OccursAt, CutOut;
    if secret == "" {
      NothingNewFromNothing(text, t);
      return;
    }
    CutOutUnfold(text, secret);
    var at := IndexOf(text, secret);
    if at.Some? {
      var a, from := text[..at.value], at.value + |secret|;
      var cut := CutOut(text[from..], secret);
      var i :| OccursAt(a + REDACTED + cut, t, i);
      SafeAvoidsStars(a, cut, t, i);
      if OccursAt(a, t, i) {
        OccursInPrefix(text, t, at.value, i);
      } else {
        NothingNew(text[from..], secret, t);
        var j :| OccursAt(text[from..], t, j);
        OccursInSuffix(text, t, from, j);
      }
    }
  }

  lemma {:induction false} NothingNewFromNothing(text: string, t: string)
    requires StarSafe(t) && Contains(CutOut(text, ""), t)
    ensures Contains(text, t)
    decreases |text|
  {
    hide OccursAt, CutOut;
    CutOutNothing(text);
    if |text| > 1 {
      var a, cut := text[..1], CutOut(text[1..], "");
      assert a == [text[0]];
      var i :| OccursAt(a + REDACTED + cut, t, i);
      SafeAvoidsStars(a, cut, t, i);
      if OccursAt(a, t, i) {
        OccursInPrefix(text, t, 1, i);
      } else {
        NothingNewFromNothing(text[1..], t);
        var j :| OccursAt(text[1..], t, j);
        OccursInSuffix(text, t, 1, j);
      }
    }
  }

  /** A safe secret is gone after it was cut out. */
  lemma {:induction false} IsGone(text: string, secret: string)
    requires StarSafe(secret)
    ensures !Contains(CutOut(text, secret), secret)
    decreases |text|
  {
    hide OccursAt, CutOut;
    CutOutUnfold(text, secret);
    var at := IndexOf(text, secret);
    if at.Some? {
      var a, rest := text[..at.value], text[at.value + |secret|..];
      IsGone(rest, secret);
      forall i ensures !OccursAt(a + REDACTED + CutOut(rest, secret), secret, i) {
        OccursInPrefix(text, secret, at.value, i);
        if OccursAt(a + REDACTED + CutOut(rest, secret), secret, i) {
          SafeAvoidsStars(a, CutOut(rest, secret), secret, i);
        }
      }
    }
  }

  /** A safe secret does not survive: cutting out a later one never re-creates it, whatever the others are. */
  lemma {:induction false} SafeSecretIsMasked(text: string, secrets: seq<string>, s: string)
    requires s in secrets && StarSafe(s)
    ensures !Contains(RedactAll(text, secrets), s)
    decreases |secrets|
  {
    hide CutOut, StarSafe, Contains;
    var n := |secrets| - 1;
    var before := RedactAll(text, secrets[..n]);
    if s == secrets[n] {
      IsGone(before, s);
    } else {
      assert s in secrets[..n];
      SafeSecretIsMasked(text, secrets[..n], s);
      if Contains(RedactAll(text, secrets), s) {
        NothingNew(before, secrets[n], s);
      }
    }
  }

  lemma {:induction false} ContainsIsTransitive(a: string, b: string, c: string)
    requires Contains(a, b) && Contains(b, c)
    ensures Contains(a, c)
  {
    var i :| OccursAt(a, b, i);
    var j :| OccursAt(b, c, j);
    assert a[i..][j..] == a[i + j..];
    assert OccursAt(a, c, i + j);
  }

  /** The output contains no secret that is safe, or has a safe one inside it. */
  lemma {:induction false} RedactionIsComplete(text: string, secrets: seq<string>, s: string, t: string)
    requires s in secrets && StarSafe(s) && Contains(t, s)
    ensures !Contains(RedactAll(text, secrets), t)
  {
    hide RedactAll, StarSafe, Contains;
    SafeSecretIsMasked(text, secrets, s);
    if Contains(RedactAll(text, secrets), t) {
      ContainsIsTransitive(RedactAll(text, secrets), t, s);
    }
  }

  /** A text without secrets is left alone. */
  lemma {:induction false} CleanTextIsKept(text: string, secrets: seq<string>)
    requires forall i :: 0 <= i < |secrets| ==> !Contains(text, secrets[i])
    ensures RedactAll(text, secrets) == text
    decreases |secrets|
  {
    if secrets != [] {
      CleanTextIsKept(text, secrets[..|secrets| - 1]);
    }
  }

  /** Every secret is star-safe, or has a star-safe one inside it. */
  ghost predicate Guarded(secrets: seq<string>) {
    forall t :: t in secrets ==> exists s :: s in secrets && StarSafe(s) && Contains(t, s)
  }

  /** Then redacting again changes nothing. */
  lemma {:induction false} RedactionIsIdempotent(text: string, secrets: seq<string>)
    requires Guarded(secrets)
    ensures RedactAll(RedactAll(text, secrets), secrets) == RedactAll(text, secrets)
  {
    hide RedactAll, StarSafe, Contains;
    forall i | 0 <= i < |secrets| ensures !Contains(RedactAll(text, secrets), secrets[i]) {
      assert secrets[i] in secrets;
      var s :| s in secrets && StarSafe(s) && Contains(secrets[i], s);
      RedactionIsComplete(text, secrets, s, secrets[i]);
    }
    CleanTextIsKept(RedactAll(text, secrets), secrets);
  }

  /** The pipeline as the deploy log uses it: a star-safe value of the environment is not left readable. */
  lemma {:induction false} EnvironmentValuesAreMasked(text: string, values: seq<string>, i: nat)
    requires i < |values| && |Trim(values[i])| >= MIN_SECRET_LENGTH && StarSafe(Trim(values[i]))
    ensures !Contains(RedactAll(text, SecretValues(values)), Trim(values[i]))
  {
    hide RedactAll, StarSafe, Contains, SecretValues, Trim;
    SecretsAre(values);
    SafeSecretIsMasked(text, SecretValues(values), Trim(values[i]));
  }

  /** In particular one without a star, whatever the other values are. */
  lemma {:induction false} StarlessValuesAreMasked(text: string, values: seq<string>, i: nat)
    requires i < |values| && |Trim(values[i])| >= MIN_SECRET_LENGTH && '*' !in Trim(values[i])
    ensures !Contains(RedactAll(text, SecretValues(values)), Trim(values[i]))
  {
    hide RedactAll, StarSafe, Contains, SecretValues, Trim;
    WithoutStarsIsSafe(Trim(values[i]));
    EnvironmentValuesAreMasked(text, values, i);
  }

  // ---------------------------------------------------------------- when it is not complete

  /** A text from which cutting out an unsafe secret leaves the secret behind. */
  function LeakyText(s: string): string
    requires s != ""
  {
    if s[0] == '*' then s + s[1..]
    else if s[|s| - 1] == '*' then s[..|s| - 1] + s
    else
      var q := IndexOf(s, REDACTED);
      if q.None? then s else s[..q.value] + s + s[q.value + 3..]
  }

  lemma {:induction false} TooShortToOccur(text: string, part: string)
    requires |text| < |part|
    ensures !Contains(text, part)
  {
  }

  lemma {:induction false} CutOutAt(a: string, s: string, b: string)
    requires s != "" && |b| < |s|
    requires forall i :: 0 <= i < |a| ==> !OccursAt(a + s + b, s, i)
    ensures CutOut(a + s + b, s) == a + REDACTED + b
  {
    hide OccursAt, CutOut;
    ReplacesTheFirst(a, s, b);
    TooShortToOccur(b, s);
    CutOutUnfold(b, s);
  }

  lemma {:induction false} LeakFromFirst(s: string)
    requires s != "" && s[0] == '*'
    ensures Contains(CutOut(LeakyText(s), s), s)
  {
    hide CutOut, IndexOf;
    assert "" + s + s[1..] == s + s[1..];
    CutOutAt("", s, s[1..]);
    var out := "" + REDACTED + s[1..];
    assert out[2..] == s;
    assert OccursAt(out, s, 2);
  }

  lemma {:induction false} LeakFromLast(s: string)
    requires s != "" && s[0] != '*' && s[|s| - 1] == '*'
    ensures Contains(CutOut(LeakyText(s), s), s)
  {
    hide CutOut, Contains;
    var n := |s| - 1;
    var u := s[..n];
    var text := u + s + "";
    assert text == u + s;
    forall i | 0 <= i < n ensures !OccursAt(text, s, i) {
      assert text[i..][0] == s[i] && text[i..][n] == s[i];
    }
    CutOutAt(u, s, "");
    var out := u + REDACTED + "";
    assert out[0..] == s + "**";
    OccursMeansContains(out, s, 0);
  }

  lemma {:induction false} OccursMeansContains(text: string, part: string, i: int)
    requires OccursAt(text, part, i)
    ensures Contains(text, part)
  {
  }

  lemma {:induction false} EarlierMask(s: string, q: nat, i: nat)
    requires OccursAt(s, REDACTED, q) && i < q
    requires OccursAt(s[..q] + s + s[q + 3..], s, i)
    ensures OccursAt(s, REDACTED, i)
  {
    var text := s[..q] + s + s[q + 3..];
    assert text[i..][q..] == text[q..][i..];
    assert text[q..] == s + s[q + 3..];
    assert REDACTED <= text[i..][q..];
    assert text[q..][i..][..3] == s[i..][..3];
  }

  lemma {:induction false} RebuiltAround(s: string, q: nat)
    requires OccursAt(s, REDACTED, q)
    ensures Contains(s[..q] + REDACTED + s[q + 3..], s)
  {
    assert s[q..][..3] == REDACTED;
    assert s[..q] + REDACTED + s[q + 3..] == s;
    assert s[0..] == s;
    assert OccursAt(s, s, 0);
  }

  lemma {:induction false} LeakFromMiddle(s: string)
    requires s != "" && s[0] != '*' && s[|s| - 1] != '*' && Contains(s, REDACTED)
    ensures Contains(CutOut(LeakyText(s), s), s)
  {
    hide OccursAt, CutOut;
    var q := IndexOf(s, REDACTED).value;
    var x, y := s[..q], s[q + 3..];
    forall i | 0 <= i < q ensures !OccursAt(x + s + y, s, i) {
      assert !OccursAt(s, REDACTED, i);
      if OccursAt(x + s + y, s, i) {
        EarlierMask(s, q, i);
      }
    }
    CutOutAt(x, s, y);
    RebuiltAround(s, q);
  }

  /**
   * The condition is exact: a secret is masked in every text, whatever other secrets there are, if and only if
   * it neither starts nor ends with a star nor contains the mask.
   */
  lemma {:induction false} MaskedExactlyWhenSafe(s: string)
    ensures (forall text, secrets :: s in secrets ==> !Contains(RedactAll(text, secrets), s)) <==> StarSafe(s)
  {
    hide RedactAll, Contains, StarSafe, LeakyText;
    if StarSafe(s) {
      forall text, secrets | s in secrets ensures !Contains(RedactAll(text, secrets), s) {
        SafeSecretIsMasked(text, secrets, s);
      }
    } else {
      var text, secrets := if s == "" then "" else LeakyText(s), [s];
      Leaks(s);
      assert s in secrets;
      assert Contains(RedactAll(text, secrets), s);
    }
  }

  lemma {:induction false} Leaks(s: string)
    requires !StarSafe(s)
    ensures Contains(RedactAll(if s == "" then "" else LeakyText(s), [s]), s)
  {
    hide LeakyText, CutOut, RedactAll;
    RedactOne(if s == "" then "" else LeakyText(s), s);
    if s == "" {
      EmptyOccurs(CutOut("", s));
    } else if s[0] == '*' {
      LeakFromFirst(s);
    } else if s[|s| - 1] == '*' {
      LeakFromLast(s);
    } else {
      LeakFromMiddle(s);
    }
  }

  lemma {:induction false} RedactOne(text: string, s: string)
    ensures RedactAll(text, [s]) == CutOut(text, s)
  {
    assert [s][..0] == [];
  }

  /** Cutting out shortens a text, or lengthens it, by the difference between the secret and its mask. */
  lemma {:induction false} CutLength(text: string, s: string)
    requires s != ""
    ensures |s| >= 3 ==> |CutOut(text, s)| <= |text|
    ensures |s| <= 3 ==> |CutOut(text, s)| >= |text|
    decreases |text|
  {
    hide CutOut, OccursAt, Contains;
    CutOutUnfold(text, s);
    var at := IndexOf(text, s);
    if at.Some? {
      CutLength(text[at.value + |s|..], s);
    }
  }

  /** Where a secret other than the mask occurs, cutting it out changes the text. */
  lemma {:induction false} CutShows(text: string, s: string)
    requires s != "" && s != REDACTED && Contains(text, s)
    ensures CutOut(text, s) != text
  {
    hide CutOut, Contains, OccursAt;
    CutOutUnfold(text, s);
    var at := IndexOf(text, s).value;
    var rest := text[at + |s|..];
    CutLength(rest, s);
    if |s| == 3 {
      SameLengthCutShows(text, s, at, CutOut(rest, s));
    }
  }

  lemma {:induction false} SameLengthCutShows(text: string, s: string, at: nat, rest: string)
    requires OccursAt(text, s, at) && |s| == 3 && s != REDACTED
    ensures text[..at] + REDACTED + rest != text
  {
    var out := text[..at] + REDACTED + rest;
    assert s == text[at..][..3] && out[at..][..3] == REDACTED;
  }

  lemma {:induction false} CutMask(text: string)
    ensures CutOut(text, REDACTED) == text
    decreases |text|
  {
    hide CutOut;
    CutOutUnfold(text, REDACTED);
    var at := IndexOf(text, REDACTED);
    if at.Some? {
      CutMask(text[at.value + 3..]);
      assert text[at.value..][..3] == REDACTED;
      assert text == text[..at.value] + REDACTED + text[at.value + 3..];
    }
  }

  lemma {:induction false} CutNothingTwice()
    ensures CutOut(CutOut("ab", ""), "") != CutOut("ab", "")
  {
    hide CutOut;
    CutOutNothing("ab");
    CutOutNothing("ab"[1..]);
    var once := CutOut("ab", "");
    assert once == "a***b";
    CutOutNothing(once);
    CutOutNothing(once[1..]);
    var twice := CutOut(once, "");
    assert twice[4] == '*' && once[4] == 'b';
  }

  /** For one secret, redaction is idempotent on every text if and only if it is star-safe or the mask itself. */
  lemma {:induction false} IdempotentExactlyWhen(s: string)
    ensures (forall text :: RedactAll(RedactAll(text, [s]), [s]) == RedactAll(text, [s])) <==>
            StarSafe(s) || s == REDACTED
  {
    hide RedactAll, Contains, StarSafe, LeakyText, CutOut;
    if StarSafe(s) || s == REDACTED {
      forall text ensures RedactAll(RedactAll(text, [s]), [s]) == RedactAll(text, [s]) {
        RedactOne(text, s);
        RedactOne(CutOut(text, s), s);
        if s == REDACTED {
          CutMask(text);
          CutMask(CutOut(text, s));
        } else {
          IsGone(text, s);
          CutsNothing(CutOut(text, s), s);
        }
      }
    } else {
      var text := if s == "" then "ab" else LeakyText(s);
      RedactOne(text, s);
      RedactOne(CutOut(text, s), s);
      if s == "" {
        CutNothingTwice();
      } else {
        Leaks(s);
        CutShows(CutOut(text, s), s);
      }
      assert RedactAll(RedactAll(text, [s]), [s]) != RedactAll(text, [s]);
    }
  }

  lemma {:induction false} CutsNothing(text: string, s: string)
    requires !Contains(text, s)
    ensures CutOut(text, s) == text
  {
  }
}
