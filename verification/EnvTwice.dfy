/**
 * What a second edit of `.env` text does: `setEnvVariable` (packages/shared/src/env.ts) applied to its own result,
 * for any value, also one that holds line breaks.
 */
module EnvTwice {
  import opened Text
  import opened Env

  predicate EndsInCr(line: string) {
    line != "" && line[|line| - 1] == '\r'
  }

  lemma {:induction false} PrefixOfChopped(p: string, t: string)
    requires p != "" && p[|p| - 1] == '=' && EndsInCr(t)
    ensures p <= t <==> p <= t[..|t| - 1]
  {
    if p <= t {
      assert p[|p| - 1] == t[|p| - 1];
    }
  }

  lemma {:induction false} ChopKeepsOwner(line: string, key: string)
    ensures Own(ChopCr(line), key) == Own(line, key)
  {
    hide IsSpace;
    if EndsInCr(line) {
      var front := ChopCr(line);
      forall i | 0 <= i <= |front| ensures SetsAt(line, key, i) <==> SetsAt(front, key, i) {
        ChopKeepsSetter(line, key, i);
      }
      assert line[|line|..] == "";
    }
  }

  lemma {:induction false} ChopKeepsSetter(line: string, key: string, i: nat)
    requires EndsInCr(line) && i < |line|
    ensures SetsAt(line, key, i) <==> SetsAt(ChopCr(line), key, i)
  {
    hide IsSpace;
    var t, front := line[i..], ChopCr(line);
    assert t[..|t| - 1] == front[i..];
    PrefixOfChopped(key + "=", t);
    PrefixOfChopped(BUILD + key + "=", t);
    PrefixOfChopped(BOTH + key + "=", t);
  }

  lemma {:induction false} AssignIsOwn(key: string, value: string)
    requires IsKey(key)
    ensures Own(Assign(key, value), key)
  {
    var s := Assign(key, value);
    assert s[0..] == s && s[..|key| + 1] == key + "=";
    assert SetsAt(s, key, 0);
  }

  /** Exactly one line, the `i`th, belongs to the key. */
  ghost predicate OneOwn(lines: seq<string>, key: string, i: nat) {
    i < |lines| && forall j :: 0 <= j < |lines| ==> (Own(lines[j], key) <==> i == j)
  }

  lemma {:induction false} ForeignAreNotOwn(lines: seq<string>, key: string)
    ensures forall l :: l in Foreign(lines, key) <==> l in lines && !Own(l, key)
    decreases |lines|
  {
    hide Own;
    if lines != [] {
      var n := |lines| - 1;
      ForeignAreNotOwn(lines[..n], key);
      assert lines == lines[..n] + [lines[n]];
    }
  }

  lemma {:induction false} FirstOwnIs(lines: seq<string>, key: string, i: nat)
    requires OneOwn(lines, key, i)
    ensures FirstOwn(lines, key) == i
  {
    hide Own, FirstOwn;
    FirstOwnIsOwn(lines, key);
    var p := FirstOwn(lines, key);
    if p == |lines| {
      NotOwnBefore(lines, key, i);
    }
  }

  lemma {:induction false} OneOwnAround(before: seq<string>, added: string, after: seq<string>, key: string)
    requires Own(added, key)
    requires forall i :: 0 <= i < |before| ==> !Own(before[i], key)
    requires forall i :: 0 <= i < |after| ==> !Own(after[i], key)
    ensures OneOwn(before + [added] + after, key, |before|)
  {
    hide Own;
  }

  lemma {:induction false} EditGivesOneOwn(lines: seq<string>, key: string, value: string) returns (i: nat)
    requires IsKey(key) && FirstOwn(lines, key) < |lines|
    ensures OneOwn(EditLines(lines, key, value).lines, key, i)
    ensures EditLines(lines, key, value).lines[i] == Assign(key, value)
  {
    hide Own, FirstOwn, EditLines, Foreign, IsKey, Assign, OneOwn;
    var p, added := FirstOwn(lines, key), Assign(key, value);
    EditIs(lines, key, value);
    AssignIsOwn(key, value);
    var after := Foreign(lines[p + 1..], key);
    ForeignAreNotOwn(lines[p + 1..], key);
    forall j | 0 <= j < |after| ensures !Own(after[j], key) {
      assert after[j] in after;
    }
    forall j | 0 <= j < p ensures !Own(lines[..p][j], key) {
      NotOwnBefore(lines, key, j);
    }
    OneOwnAround(lines[..p], added, after, key);
    i := p;
    OneOwnFits(lines[..p] + [added] + after, key, i);
  }

  lemma {:induction false} OneOwnFits(lines: seq<string>, key: string, i: nat)
    requires OneOwn(lines, key, i)
    ensures i < |lines|
  {
  }

  lemma {:induction false} PopKeepsOneOwn(lines: seq<string>, key: string, i: nat)
    requires OneOwn(lines, key, i) && lines[i] != ""
    ensures OneOwn(PopBlank(lines), key, i) && PopBlank(lines)[i] == lines[i]
    decreases |lines|
  {
    hide Own;
    if lines[|lines| - 1] == "" {
      PopKeepsOneOwn(lines[..|lines| - 1], key, i);
    }
  }

  lemma {:induction false} PopOfForeign(lines: seq<string>, key: string)
    requires forall j :: 0 <= j < |lines| ==> !Own(lines[j], key)
    ensures forall j :: 0 <= j < |PopBlank(lines)| ==> !Own(PopBlank(lines)[j], key)
  {
    hide Own;
  }

  lemma {:induction false} EditedHasOneOwn(content: string, key: string, value: string) returns (i: nat)
    requires IsKey(key)
    ensures OneOwn(EditedLines(content, key, value), key, i)
    ensures EditedLines(content, key, value)[i] == Assign(key, value)
  {
    hide Own, FirstOwn, EditLines, PopBlank, LinesOf, IsKey;
    var lines, added := LinesOf(content), Assign(key, value);
    var p := FirstOwn(lines, key);
    EditIs(lines, key, value);
    if p < |lines| {
      i := EditGivesOneOwn(lines, key, value);
      PopKeepsOneOwn(EditLines(lines, key, value).lines, key, i);
    } else {
      forall j | 0 <= j < |lines| ensures !Own(lines[j], key) {
        NotOwnBefore(lines, key, j);
      }
      PopOfForeign(lines, key);
      AssignIsOwn(key, value);
      i := |PopBlank(lines)|;
      OneOwnAround(PopBlank(lines), added, [], key);
      assert PopBlank(lines) + [added] + [] == PopBlank(lines) + [added];
      PopKeepsOneOwn(PopBlank(lines) + [added], key, i);
    }
  }

  lemma {:induction false} BlankIsForeign(key: string)
    ensures !Own("", key)
  {
  }

  lemma {:induction false} EditedWhenReplaced(content: string, key: string, value: string)
    requires content != "" && EditLines(SplitLines(content), key, value).replaced
    ensures EditedLines(content, key, value) == PopBlank(EditLines(SplitLines(content), key, value).lines)
  {
    hide EditLines, SplitLines, PopBlank;
  }

  lemma {:induction false} JoinIsInjective(a: seq<string>, b: seq<string>)
    requires a != [] && b != []
    requires forall i :: 0 <= i < |a| ==> '\n' !in a[i]
    requires forall i :: 0 <= i < |b| ==> '\n' !in b[i]
    requires Join(a, "\n") + "\n" == Join(b, "\n") + "\n"
    ensures a == b
    decreases |a|
  {
    hide Join;
    var ra := AfterFirst(a);
    var rb := AfterFirst(b);
    IndexAfter(a[0], '\n', ra);
    IndexAfter(b[0], '\n', rb);
    var s := Join(a, "\n") + "\n";
    assert s == a[0] + ['\n'] + ra == b[0] + ['\n'] + rb;
    assert a[0] == s[..|a[0]|] == b[0];
    assert ra == s[|a[0]| + 1..] == rb;
    if |a| > 1 && |b| > 1 {
      JoinIsInjective(a[1..], b[1..]);
    }
    assert a == [a[0]] + a[1..] && b == [b[0]] + b[1..];
  }

  lemma {:induction false} AfterFirst(lines: seq<string>) returns (rest: string)
    requires lines != []
    ensures Join(lines, "\n") + "\n" == lines[0] + "\n" + rest
    ensures rest == "" <==> |lines| == 1
    ensures |lines| > 1 ==> rest == Join(lines[1..], "\n") + "\n"
  {
    if |lines| == 1 {
      rest := "";
    } else {
      rest := Join(lines[1..], "\n") + "\n";
    }
  }

  lemma {:induction false} ForeignLinesStay(content: string, key: string, value: string, line: string)
    requires line in LinesOf(content) && !Own(line, key) && line != ""
    ensures line in EditedLines(content, key, value)
  {
    hide Own, EditLines, PopBlank, LinesOf, FirstOwn, Foreign;
    var lines := LinesOf(content);
    var p := FirstOwn(lines, key);
    EditIs(lines, key, value);
    var e := EditLines(lines, key, value);
    if p < |lines| {
      FirstOwnIsOwn(lines, key);
      assert lines == lines[..p] + [lines[p]] + lines[p + 1..];
      ForeignAreNotOwn(lines[p + 1..], key);
      assert line in e.lines;
      PopKeeps(e.lines, line);
    } else {
      PopKeeps(lines, line);
      PopKeeps(PopBlank(lines) + [Assign(key, value)], line);
    }
  }

  // ---------------------------------------------------------------- lines, each ended by a line feed

  /** The lines of a text as they are, without taking off carriage returns. */
  function RawLines(s: string): (lines: seq<string>)
    ensures lines != [] && forall i :: 0 <= i < |lines| ==> '\n' !in lines[i]
    decreases |s|
  {
    var i := IndexOfChar(s, '\n');
    if i == |s| then [s] else [s[..i]] + RawLines(s[i + 1..])
  }

  function Ended(lines: seq<string>): string {
    if lines == [] then "" else lines[0] + "\n" + Ended(lines[1..])
  }

  ghost predicate HaveNoNewline(lines: seq<string>) {
    forall i :: 0 <= i < |lines| ==> '\n' !in lines[i]
  }

  lemma {:induction false} JoinedIsEnded(lines: seq<string>)
    requires lines != []
    ensures Join(lines, "\n") + "\n" == Ended(lines)
    decreases |lines|
  {
    if |lines| > 1 {
      JoinedIsEnded(lines[1..]);
    } else {
      assert Ended(lines[1..]) == "";
    }
  }

  lemma {:induction false} EndedAppends(a: seq<string>, b: seq<string>)
    ensures Ended(a + b) == Ended(a) + Ended(b)
    decreases |a|
  {
    if a == [] {
      assert a + b == b;
    } else {
      EndedAppends(a[1..], b);
      assert (a + b)[1..] == a[1..] + b;
    }
  }

  lemma {:induction false} RawLinesEnd(s: string)
    ensures Ended(RawLines(s)) == Ended([s])
    decreases |s|
  {
    hide Ended, RawLines, IndexOfChar;
    var i := IndexOfChar(s, '\n');
    RawLinesUnfold(s);
    if i < |s| {
      var rest := s[i + 1..];
      RawLinesEnd(rest);
      EndedAppends([s[..i]], RawLines(rest));
      EndedOne(s[..i]);
      EndedOne(rest);
      EndedOne(s);
      assert s == s[..i] + "\n" + rest;
    }
  }

  lemma {:induction false} EndedOne(s: string)
    ensures Ended([s]) == s + "\n"
  {
    assert [s][1..] == [];
  }

  lemma {:induction false} EndedIsInjective(a: seq<string>, b: seq<string>)
    requires a != [] && b != [] && HaveNoNewline(a) && HaveNoNewline(b)
    requires Ended(a) == Ended(b)
    ensures a == b
  {
    hide Join, Ended;
    JoinedIsEnded(a);
    JoinedIsEnded(b);
    JoinIsInjective(a, b);
  }

  lemma {:induction false} SplitEnded(lines: seq<string>)
    requires lines != [] && HaveNoNewline(lines)
    ensures SplitLines(Ended(lines)) == ChopAll(lines) + [""]
  {
    hide Join, Ended, SplitLines, ChopAll;
    JoinedIsEnded(lines);
    SplitJoined(lines);
  }

  // ---------------------------------------------------------------- the second edit

  /** The lines of the value after its first, which stand on lines of their own after an edit. */
  function Further(value: string): seq<string> {
    RawLines(value)[1..]
  }

  lemma {:induction false} AssignRawLines(key: string, value: string)
    requires IsKey(key)
    ensures RawLines(Assign(key, value)) == [Assign(key, RawLines(value)[0])] + Further(value)
  {
    hide RawLines, IndexOfChar, IsKey, Assign;
    var s, i := Assign(key, value), IndexOfChar(value, '\n');
    var first, rest := value[..i], value[if i < |value| then i + 1 else i..];
    KeyHasNoNewline(key, first);
    RawLinesUnfold(value);
    RawLinesUnfold(s);
    if i < |value| {
      AssignBroken(key, first, rest);
      assert value == first + "\n" + rest;
      IndexAfter(Assign(key, first), '\n', rest);
      assert s[..|Assign(key, first)|] == Assign(key, first) && s[|Assign(key, first)| + 1..] == rest;
    } else {
      assert first == value;
    }
  }

  lemma {:induction false} AssignBroken(key: string, first: string, rest: string)
    ensures Assign(key, first + "\n" + rest) == Assign(key, first) + ['\n'] + rest
  {
  }

  lemma {:induction false} RawLinesUnfold(s: string)
    ensures var i := IndexOfChar(s, '\n');
            RawLines(s) == if i == |s| then [s] else [s[..i]] + RawLines(s[i + 1..])
  {
  }

  lemma {:induction false} ForeignAppends(a: seq<string>, b: seq<string>, key: string)
    ensures Foreign(a + b, key) == Foreign(a, key) + Foreign(b, key)
    decreases |b|
  {
    hide Own, Foreign;
    ForeignUnfold([], "", key);
    if b == [] {
      assert a + b == a;
    } else {
      var n := |b| - 1;
      ForeignAppends(a, b[..n], key);
      ForeignUnfold(a + b[..n], b[n], key);
      ForeignUnfold(b[..n], b[n], key);
      assert a + b == (a + b[..n]) + [b[n]] && b == b[..n] + [b[n]];
    }
  }

  lemma {:induction false} FirstOwnAt(lines: seq<string>, key: string, i: nat)
    requires i < |lines| && Own(lines[i], key) && forall j :: 0 <= j < i ==> !Own(lines[j], key)
    ensures FirstOwn(lines, key) == i
  {
    hide Own, FirstOwn;
    FirstOwnIsOwn(lines, key);
    if FirstOwn(lines, key) > i {
      NotOwnBefore(lines, key, i);
    }
  }

  lemma {:induction false} PopBehind(a: seq<string>, b: seq<string>)
    requires a != [] && a[|a| - 1] != ""
    ensures PopBlank(a + b) == a + PopBlank(b)
    decreases |b|
  {
    hide PopBlank;
    PopUnfold(a + b);
    PopUnfold(b);
    if b == [] {
      assert a + b == a;
    } else {
      var n := |b| - 1;
      assert (a + b)[..|a + b| - 1] == a + b[..n];
      PopBehind(a, b[..n]);
    }
  }

  lemma {:induction false} PopUnfold(lines: seq<string>)
    ensures PopBlank(lines) == if lines != [] && lines[|lines| - 1] == "" then PopBlank(lines[..|lines| - 1]) else lines
  {
  }

  lemma {:induction false} ChopAppends(a: seq<string>, b: seq<string>)
    ensures ChopAll(a + b) == ChopAll(a) + ChopAll(b)
  {
    hide ChopCr;
  }

  ghost predicate NoneOwn(lines: seq<string>, key: string) {
    forall i :: 0 <= i < |lines| ==> !Own(lines[i], key)
  }

  lemma {:induction false} ChoppedNoneOwn(lines: seq<string>, key: string)
    requires NoneOwn(lines, key)
    ensures NoneOwn(ChopAll(lines), key) && Foreign(ChopAll(lines), key) == ChopAll(lines)
  {
    hide Own, ChopCr, Foreign;
    forall i | 0 <= i < |lines| ensures !Own(ChopAll(lines)[i], key) {
      ChopKeepsOwner(lines[i], key);
    }
    NoneOwnIsForeign(ChopAll(lines), key);
  }

  /** What a second edit leaves behind the assignment: the foreign lines of the value, then those that were there. */
  function LeftBehind(after: seq<string>, key: string, value: string): seq<string> {
    PopBlank(Foreign(ChopAll(Further(value)), key) + ChopAll(after))
  }

  /** The edit of the lines that an edit has written. */
  lemma {:induction false} EditAgain(before: seq<string>, after: seq<string>, key: string, value: string)
    requires IsKey(key) && NoneOwn(before, key) && NoneOwn(after, key) && HaveNoNewline(before) && HaveNoNewline(after)
    ensures var text := Ended(before + RawLines(Assign(key, value)) + after);
            EditedLines(text, key, value) == ChopAll(before) + [Assign(key, value)] + LeftBehind(after, key, value)
  {
    hide Own, Foreign, FirstOwn, EditLines, EditedLines, RawLines, Ended, ChopAll, PopBlank, Assign, IsKey, SplitLines;
    var added := Assign(key, value);
    var raw := RawLines(added);
    var text := Ended(before + raw + after);
    var first := Assign(key, RawLines(value)[0]);
    AssignRawLines(key, value);
    var further := Further(value);
    SplitEnded(before + raw + after);
    ChopAppends(before + raw, after);
    ChopAppends(before, raw);
    ChopAppends([first], further);
    var cb, cf, ca := ChopAll(before), ChopAll(further), ChopAll(after);
    var chopped := ChopCr(first);
    assert ChopAll([first]) == [chopped];
    var lines := cb + [chopped] + (cf + ca + [""]);
    assert SplitLines(text) == lines;
    ChoppedNoneOwn(before, key);
    ChoppedNoneOwn(after, key);
    AssignIsOwn(key, RawLines(value)[0]);
    ChopKeepsOwner(first, key);
    FirstOwnAt(lines, key, |cb|);
    EditIs(lines, key, value);
    assert lines[..|cb|] == cb && lines[|cb| + 1..] == cf + ca + [""];
    ForeignAppends(cf + ca, [""], key);
    ForeignAppends(cf, ca, key);
    BlankIsForeign(key);
    NoneOwnIsForeign([""], key);
    EndedIsNotEmpty(before + raw + after);
    EditedWhenReplaced(text, key, value);
    AssignIsNotEmpty(key, value);
    var left := Foreign(cf, key) + ca;
    assert EditLines(lines, key, value).lines == (cb + [added]) + (left + [""]);
    PopBehind(cb + [added], left + [""]);
    PopUnfold(left + [""]);
    assert (left + [""])[..|left|] == left;
  }

  lemma {:induction false} EndedIsNotEmpty(lines: seq<string>)
    requires lines != []
    ensures Ended(lines) != ""
  {
  }

  /** Where the edited text has the assignment, and what stands before and after it. */
  lemma {:induction false} EditedParts(content: string, key: string, value: string)
    returns (before: seq<string>, after: seq<string>)
    requires IsKey(key)
    ensures EditedLines(content, key, value) == before + [Assign(key, value)] + after
    ensures |before| == FirstOwn(EditedLines(content, key, value), key)
    ensures NoneOwn(before, key) && NoneOwn(after, key) && HaveNoNewline(before) && HaveNoNewline(after)
    ensures after != [] ==> after[|after| - 1] != ""
    ensures Set(content, key, value) == Ended(before + RawLines(Assign(key, value)) + after)
  {
    hide Own, EditedLines, FirstOwn, RawLines, Ended, Assign, IsKey, Join, LinesOf;
    var next, added := EditedLines(content, key, value), Assign(key, value);
    var i := EditedHasOneOwn(content, key, value);
    OneOwnFits(next, key, i);
    FirstOwnIs(next, key, i);
    before, after := next[..i], next[i + 1..];
    assert next == before + [added] + after;
    EditedLinesAre(content, key, value);
    LinesHaveNoNewline(content);
    AssignIsOwn(key, value);
    forall j | 0 <= j < |next| && j != i ensures '\n' !in next[j] && !Own(next[j], key) {
      assert next[j] in next;
    }
    assert after != [] ==> after[|after| - 1] == next[|next| - 1];
    JoinedIsEnded(next);
    EndedAppends(before + [added], after);
    EndedAppends(before, [added]);
    RawLinesEnd(added);
    EndedAppends(before + RawLines(added), after);
    EndedAppends(before, RawLines(added));
  }

  /**
   * Whether an edit settles: no line before the assignment ends in a carriage return, and the lines behind it are
   * what a second edit leaves there.
   */
  ghost predicate Settles(content: string, key: string, value: string) {
    var next := EditedLines(content, key, value);
    var p := FirstOwn(next, key);
    p < |next|
    && (forall i :: 0 <= i < p ==> !EndsInCr(next[i]))
    && next[p + 1..] == LeftBehind(next[p + 1..], key, value)
  }

  lemma {:induction false} SettlesBy(
      content: string, key: string, value: string, before: seq<string>, after: seq<string>)
    requires EditedLines(content, key, value) == before + [Assign(key, value)] + after
    requires |before| == FirstOwn(EditedLines(content, key, value), key)
    ensures Settles(content, key, value) <==> ChopAll(before) == before && after == LeftBehind(after, key, value)
  {
    hide EditedLines, FirstOwn, LeftBehind, Assign;
    var next := EditedLines(content, key, value);
    assert next[|before| + 1..] == after;
    assert forall i :: 0 <= i < |before| ==> next[i] == before[i];
    ChopChanges(before);
  }

  lemma {:induction false} ChopChanges(lines: seq<string>)
    ensures ChopAll(lines) == lines <==> forall i :: 0 <= i < |lines| ==> !EndsInCr(lines[i])
  {
    if forall i :: 0 <= i < |lines| ==> !EndsInCr(lines[i]) {
      assert forall i :: 0 <= i < |lines| ==> ChopAll(lines)[i] == lines[i];
    } else {
      var i :| 0 <= i < |lines| && EndsInCr(lines[i]);
      assert |ChopAll(lines)[i]| < |lines[i]|;
    }
  }

  lemma {:induction false} LeftHasNoNewline(after: seq<string>, key: string, value: string)
    requires HaveNoNewline(after)
    ensures HaveNoNewline(LeftBehind(after, key, value))
  {
    hide Own, Foreign, RawLines, PopBlank;
    var cf := ChopAll(Further(value));
    ForeignAreNotOwn(cf, key);
    ChoppedHaveNoNewline(Further(value));
    ChoppedHaveNoNewline(after);
    var all := Foreign(cf, key) + ChopAll(after);
    forall i | 0 <= i < |all| ensures '\n' !in all[i] {
      if i < |Foreign(cf, key)| {
        assert all[i] in Foreign(cf, key);
      }
    }
  }

  lemma {:induction false} ChoppedHaveNoNewline(lines: seq<string>)
    requires HaveNoNewline(lines)
    ensures HaveNoNewline(ChopAll(lines))
  {
    forall i | 0 <= i < |lines| ensures '\n' !in ChopAll(lines)[i] {
      assert '\n' !in lines[i];
    }
  }

  /** For every text and every value: editing twice is editing once if and only if the edit settles. */
  lemma {:induction false} EditIsIdempotentExactlyWhen(content: string, key: string, value: string)
    requires IsKey(key)
    ensures Set(Set(content, key, value), key, value) == Set(content, key, value) <==> Settles(content, key, value)
  {
    hide Own, EditedLines, FirstOwn, RawLines, Ended, Assign, IsKey, Join, ChopAll, LeftBehind, Settles, Set;
    var before, after := EditedParts(content, key, value);
    var raw, left := RawLines(Assign(key, value)), LeftBehind(after, key, value);
    EditAgain(before, after, key, value);
    var again := ChopAll(before) + [Assign(key, value)] + left;
    SetIsEnded(Set(content, key, value), key, value, ChopAll(before), left);
    SettlesBy(content, key, value, before, after);
    var a, b := before + raw + after, ChopAll(before) + raw + left;
    assert a == b <==> ChopAll(before) == before && after == left by {
      assert a[..|before|] == before && b[..|before|] == ChopAll(before);
      assert a[|before| + |raw|..] == after && b[|before| + |raw|..] == left;
    }
    if Ended(a) == Ended(b) {
      LeftHasNoNewline(after, key, value);
      ChoppedHaveNoNewline(before);
      EndedIsInjective(a, b);
    }
  }

  lemma {:induction false} SetIsEnded(text: string, key: string, value: string, before: seq<string>, after: seq<string>)
    requires EditedLines(text, key, value) == before + [Assign(key, value)] + after
    ensures Set(text, key, value) == Ended(before + RawLines(Assign(key, value)) + after)
  {
    hide EditedLines, RawLines, Ended, Assign, Join;
    var added := Assign(key, value);
    JoinedIsEnded(before + [added] + after);
    EndedAppends(before + [added], after);
    EndedAppends(before, [added]);
    RawLinesEnd(added);
    EndedAppends(before + RawLines(added), after);
    EndedAppends(before, RawLines(added));
  }

  // ---------------------------------------------------------------- when an edit settles

  lemma {:induction false} OneLineLeaves(after: seq<string>, key: string, value: string)
    requires '\n' !in value && (after != [] ==> after[|after| - 1] != "")
    ensures after == LeftBehind(after, key, value) <==> ChopAll(after) == after
  {
    hide ChopAll, PopBlank, RawLines, Foreign;
    RawLinesUnfold(value);
    assert Further(value) == [];
    ForeignUnfold([], "", key);
    assert Foreign(ChopAll(Further(value)), key) + ChopAll(after) == ChopAll(after);
    PopUnfold(after);
    if after == LeftBehind(after, key, value) {
      assert after <= ChopAll(after) && |after| == |ChopAll(after)|;
    }
  }

  /** A value of one line: exactly if no line of another key ends in a carriage return after splitting. */
  lemma {:induction false} OneLineSettlesExactlyWhen(content: string, key: string, value: string)
    requires IsKey(key) && '\n' !in value
    ensures Settles(content, key, value) <==> forall l :: l in LinesOf(content) && !Own(l, key) ==> !EndsInCr(l)
  {
    hide Own, EditedLines, FirstOwn, Assign, IsKey, ChopAll, LeftBehind, Settles, LinesOf, RawLines, Ended, Set;
    var before, after := EditedParts(content, key, value);
    SettlesBy(content, key, value, before, after);
    OneLineLeaves(after, key, value);
    ChopChanges(before);
    ChopChanges(after);
    EditedLinesAre(content, key, value);
    var next := EditedLines(content, key, value);
    AssignIsOwn(key, value);
    assert forall l :: l in next <==> l in before || l == Assign(key, value) || l in after;
    if forall l :: l in LinesOf(content) && !Own(l, key) ==> !EndsInCr(l) {
      forall i | 0 <= i < |before| ensures !EndsInCr(before[i]) {
        assert before[i] in next && !Own(before[i], key);
      }
      forall i | 0 <= i < |after| ensures !EndsInCr(after[i]) {
        assert after[i] in next && !Own(after[i], key);
      }
    } else {
      var l :| l in LinesOf(content) && !Own(l, key) && EndsInCr(l);
      ForeignLinesStay(content, key, value, l);
      assert l in before || l in after;
    }
  }

  ghost predicate AllBlank(lines: seq<string>) {
    forall i :: 0 <= i < |lines| ==> lines[i] == ""
  }

  lemma {:induction false} PopAllBlank(lines: seq<string>)
    ensures PopBlank(lines) == [] <==> AllBlank(lines)
    decreases |lines|
  {
    hide PopBlank;
    PopUnfold(lines);
    if lines != [] && lines[|lines| - 1] == "" {
      PopAllBlank(lines[..|lines| - 1]);
      assert forall i :: 0 <= i < |lines| - 1 ==> lines[i] == lines[..|lines| - 1][i];
    }
  }

  /**
   * Without carriage returns: exactly if every further line of the value sets the key itself, or nothing stands
   * behind the assignment and the further lines that do not set it are blank.
   */
  lemma {:induction false} CrFreeSettlesExactlyWhen(content: string, key: string, value: string)
    requires IsKey(key) && '\r' !in content && '\r' !in value
    ensures var next, foreign := EditedLines(content, key, value), Foreign(Further(value), key);
            Settles(content, key, value) <==>
            foreign == [] || (AllBlank(foreign) && FirstOwn(next, key) == |next| - 1)
  {
    hide Own, EditedLines, FirstOwn, Assign, IsKey, ChopAll, LeftBehind, Settles, LinesOf, RawLines;
    hide Ended, Set, Foreign;
    var before, after := EditedParts(content, key, value);
    SettlesBy(content, key, value, before, after);
    EditedLinesAre(content, key, value);
    LinesHaveNoCr(content);
    AssignIsOwn(key, value);
    var next := EditedLines(content, key, value);
    forall i | 0 <= i < |before| ensures !EndsInCr(before[i]) {
      assert next[i] in next && next[i] == before[i] && !Own(next[i], key);
    }
    forall i | 0 <= i < |after| ensures !EndsInCr(after[i]) {
      assert next[|before| + 1 + i] in next && next[|before| + 1 + i] == after[i] && !Own(after[i], key);
    }
    ChopChanges(before);
    ChopChanges(after);
    RawHaveNoCr(value);
    assert forall i :: 0 <= i < |Further(value)| ==> !EndsInCr(Further(value)[i]);
    ChopChanges(Further(value));
    CrFreeLeaves(after, key, value);
  }

  lemma {:induction false} CrFreeLeaves(after: seq<string>, key: string, value: string)
    requires ChopAll(after) == after && ChopAll(Further(value)) == Further(value)
    requires after != [] ==> after[|after| - 1] != ""
    ensures var foreign := Foreign(Further(value), key);
            after == LeftBehind(after, key, value) <==> foreign == [] || (AllBlank(foreign) && after == [])
  {
    hide ChopAll, PopBlank, Foreign, Further;
    var foreign := Foreign(Further(value), key);
    PopUnfold(foreign + after);
    if after == [] {
      assert foreign + after == foreign;
      PopAllBlank(foreign);
    } else {
      assert (foreign + after)[|foreign + after| - 1] != "";
      assert foreign == [] ==> foreign + after == after;
    }
  }

  lemma {:induction false} LinesHaveNoCr(content: string)
    requires '\r' !in content
    ensures forall l :: l in LinesOf(content) ==> !EndsInCr(l)
  {
    if content != "" {
      SplitHasNoCr(content);
    }
  }

  lemma {:induction false} SplitHasNoCr(content: string)
    requires '\r' !in content
    ensures forall i :: 0 <= i < |SplitLines(content)| ==> !EndsInCr(SplitLines(content)[i])
    decreases |content|
  {
    var i := IndexOfChar(content, '\n');
    if i < |content| {
      SplitHasNoCr(content[i + 1..]);
      assert ChopCr(content[..i]) == content[..i];
    }
  }

  lemma {:induction false} RawHaveNoCr(s: string)
    requires '\r' !in s
    ensures forall i :: 0 <= i < |RawLines(s)| ==> !EndsInCr(RawLines(s)[i])
    decreases |s|
  {
    var i := IndexOfChar(s, '\n');
    if i < |s| {
      RawHaveNoCr(s[i + 1..]);
    }
  }
}
