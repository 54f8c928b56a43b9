/**
 * The ".env" text of an application (packages/shared/src/env.ts): parser, printer for the table
 * editor, and the in-place edit of one variable.
 */
module Env {
  import opened Wrappers
  import opened Text

  datatype Availability = Runtime | Build | Both

  datatype Entry = Entry(key: string, value: string, availability: Availability)

  // ---------------------------------------------------------------- lines

  function ChopCr(line: string): string {
    if line != "" && line[|line| - 1] == '\r' then line[..|line| - 1] else line
  }

  /** `content.split(/\r?\n/)`. */
  function SplitLines(content: string): (lines: seq<string>)
    ensures lines != []
    ensures forall i :: 0 <= i < |lines| ==> '\n' !in lines[i]
    decreases |content|
  {
    var i := IndexOfChar(content, '\n');
    if i == |content| then [content]
    else
      assert forall c :: c in ChopCr(content[..i]) ==> c in content[..i];
      [ChopCr(content[..i])] + SplitLines(content[i + 1..])
  }

  // ---------------------------------------------------------------- one line

  predicate IsKeyStart(c: char) {
    'A' <= c <= 'Z' || 'a' <= c <= 'z' || c == '_'
  }

  predicate IsKeyChar(c: char) {
    IsKeyStart(c) || '0' <= c <= '9'
  }

  /** The length of the longest run of key characters at the front. */
  function KeyLength(s: string): (n: nat)
    ensures n <= |s|
    ensures forall i :: 0 <= i < n ==> IsKeyChar(s[i])
    ensures n < |s| ==> !IsKeyChar(s[n])
  {
    if s == "" || !IsKeyChar(s[0]) then 0 else 1 + KeyLength(s[1..])
  }

  /** `[A-Za-z_][A-Za-z0-9_]*`. */
  predicate IsKey(key: string) {
    key != "" && IsKeyStart(key[0]) && forall i :: 0 <= i < |key| ==> IsKeyChar(key[i])
  }

  predicate OneLine(s: string) {
    forall i :: 0 <= i < |s| ==> !IsLineTerminator(s[i])
  }

  /** `KEY=value` after the optional prefix; `.` matches no line terminator. */
  function MatchAssignment(s: string, availability: Availability): Option<Entry> {
    var n := KeyLength(s);
    if n > 0 && IsKeyStart(s[0]) && n < |s| && s[n] == '=' && OneLine(s[n + 1..])
    then Some(Entry(s[..n], s[n + 1..], availability))
    else None
  }

  const BUILD := "build:"
  const BOTH := "both:"

  function MatchLine(line: string): Option<Entry> {
    if BUILD <= line then MatchAssignment(line[|BUILD|..], Build)
    else if BOTH <= line then MatchAssignment(line[|BOTH|..], Both)
    else MatchAssignment(line, Runtime)
  }

  /** The entry of a line, or none for blanks, comments and anything that is not `KEY=value`. */
  function ParseLine(raw: string): Option<Entry> {
    var line := Trim(raw);
    if line == "" || line[0] == '#' then None else MatchLine(line)
  }

  function ParseLines(lines: seq<string>): seq<Entry> {
    if lines == [] then []
    else
      var n := |lines| - 1;
      var e := ParseLine(lines[n]);
      ParseLines(lines[..n]) + if e.Some? then [e.value] else []
  }

  function Parse(content: string): seq<Entry> {
    ParseLines(SplitLines(content))
  }

  method ParseEnvContent(content: string) returns (entries: seq<Entry>)
    ensures entries == Parse(content)
  {
    hide Trim, MatchLine, SplitLines;
    entries := [];
    var lines := SplitLines(content);
    for i := 0 to |lines|
      invariant entries == ParseLines(lines[..i])
    {
      assert lines[..i + 1][..i] == lines[..i];
      var line := Trim(lines[i]);
      if line == "" || line[0] == '#' { continue; }
      var m := MatchLine(line);
      if m.None? { continue; }
      entries := entries + [m.value];
    }
    assert lines[..|lines|] == lines;
  }

  // ---------------------------------------------------------------- the printer

  function Prefix(a: Availability): string {
    match a case Runtime => "" case Build => BUILD case Both => BOTH
  }

  function Render(e: Entry): string {
    Prefix(e.availability) + e.key + "=" + e.value
  }

  function RenderAll(es: seq<Entry>): (lines: seq<string>)
    ensures |lines| == |es| && forall i :: 0 <= i < |es| ==> lines[i] == Render(es[i])
  {
    seq(|es|, i requires 0 <= i < |es| => Render(es[i]))
  }

  function SerializeEnvEntries(es: seq<Entry>): string {
    if es == [] then "" else Join(RenderAll(es), "\n") + "\n"
  }

  // ---------------------------------------------------------------- what the parser makes of what the printer wrote

  /** An entry the text form can hold. */
  predicate CleanValue(v: string) {
    OneLine(v) && (v != "" ==> !IsSpace(v[|v| - 1]))
  }

  predicate Clean(e: Entry) {
    IsKey(e.key) && CleanValue(e.value)
  }

  lemma {:induction false} KeyLengthOfKey(key: string, rest: string)
    requires forall i :: 0 <= i < |key| ==> IsKeyChar(key[i])
    requires rest != "" && !IsKeyChar(rest[0])
    ensures KeyLength(key + rest) == |key|
  {
    if key == "" {
      assert key + rest == rest;
    } else {
      assert (key + rest)[1..] == key[1..] + rest;
      KeyLengthOfKey(key[1..], rest);
    }
  }

  lemma {:induction false} MatchesAssignment(key: string, value: string, a: Availability)
    requires IsKey(key) && OneLine(value)
    ensures MatchAssignment(key + "=" + value, a) == Some(Entry(key, value, a))
  {
    var s := key + "=" + value;
    assert s == key + ("=" + value);
    KeyLengthOfKey(key, "=" + value);
    assert s[..|key|] == key && s[|key| + 1..] == value && s[|key|] == '=';
  }

  lemma {:induction false} NotAPrefix(p: string, key: string, value: string)
    requires p != "" && p[|p| - 1] == ':' && '=' !in p && IsKey(key)
    ensures !(p <= key + "=" + value)
  {
    var s, last := key + "=" + value, |p| - 1;
    assert s[|key|] == '=';
    assert last < |key| ==> s[last] == key[last] && IsKeyChar(key[last]);
    assert |key| < |p| ==> p[|key|] in p;
  }

  lemma {:induction false} NoPrefix(key: string, value: string)
    requires IsKey(key)
    ensures !(BUILD <= key + "=" + value) && !(BOTH <= key + "=" + value)
  {
    NotAPrefix(BUILD, key, value);
    NotAPrefix(BOTH, key, value);
  }

  lemma {:induction false} TrimKeeps(s: string)
    requires s != "" && !IsSpace(s[0]) && !IsSpace(s[|s| - 1])
    ensures Trim(s) == s
  {
  }

  lemma {:induction false} RenderedEnds(e: Entry)
    requires IsKey(e.key)
    ensures var s := Render(e);
            && s != "" && !IsSpace(s[0]) && s[0] != '#'
            && s[|s| - 1] == (if e.value == "" then '=' else e.value[|e.value| - 1])
  {
    var s := Render(e);
    match e.availability
    case Runtime => assert s[0] == e.key[0];
    case Build => assert s[0] == 'b';
    case Both => assert s[0] == 'b';
  }

  lemma {:induction false} RenderedMatches(e: Entry)
    requires IsKey(e.key) && OneLine(e.value)
    ensures MatchLine(Render(e)) == Some(e)
  {
    hide MatchAssignment, IsKey, OneLine;
    var s, body := Render(e), e.key + "=" + e.value;
    assert s == Prefix(e.availability) + body;
    assert s[|Prefix(e.availability)|..] == body;
    MatchesAssignment(e.key, e.value, e.availability);
    NoPrefix(e.key, e.value);
    match e.availability
    case Runtime => assert s == body;
    case Build => assert BUILD <= s;
    case Both => assert BOTH <= s && s[1] == 'o';
  }

  lemma {:induction false} ParsesRendered(e: Entry)
    requires Clean(e)
    ensures ParseLine(Render(e)) == Some(e)
  {
    hide MatchLine, Render, Trim;
    RenderedEnds(e);
    RenderedMatches(e);
    TrimKeeps(Render(e));
  }

  lemma {:induction false} MatchIsWritten(s: string, a: Availability)
    ensures MatchAssignment(s, a).Some? ==>
              var e := MatchAssignment(s, a).value; s == e.key + "=" + e.value && e.availability == a
  {
    var n := KeyLength(s);
    if MatchAssignment(s, a).Some? {
      assert s == s[..n] + [s[n]] + s[n + 1..];
    }
  }

  lemma {:induction false} MatchIsRendered(line: string)
    ensures MatchLine(line).Some? ==> line == Render(MatchLine(line).value)
  {
    hide MatchAssignment;
    MatchIsWritten(line, Runtime);
    if BUILD <= line {
      MatchIsWritten(line[6..], Build);
      assert line == BUILD + line[6..];
    } else if BOTH <= line {
      MatchIsWritten(line[5..], Both);
      assert line == BOTH + line[5..];
    }
  }

  /**
   * A line holds an entry exactly if, white space around it aside, it is `KEY=value` with an optional prefix, the key a
   * name and the value on one line.
   */
  lemma {:induction false} LineHoldsExactly(raw: string, e: Entry)
    ensures ParseLine(raw) == Some(e) <==>
            && Trim(raw) == (match e.availability case Runtime => "" case Build => "build:" case Both => "both:")
                            + e.key + "=" + e.value
            && e.key != "" && !('0' <= e.key[0] <= '9')
            && (forall i :: 0 <= i < |e.key| ==>
                  var c := e.key[i]; 'a' <= c <= 'z' || 'A' <= c <= 'Z' || '0' <= c <= '9' || c == '_')
            && forall i :: 0 <= i < |e.value| ==> !IsLineTerminator(e.value[i])
  {
    hide MatchLine, Trim, IsSpace, IsLineTerminator;
    MatchIsRendered(Trim(raw));
    ParsedLinesAreClean(raw);
    KeyExactly(e.key);
    if Trim(raw) == Render(e) && IsKey(e.key) && OneLine(e.value) {
      RenderedEnds(e);
      RenderedMatches(e);
    }
  }

  lemma {:induction false} KeyExactly(key: string)
    ensures IsKey(key) <==>
            && key != "" && !('0' <= key[0] <= '9')
            && forall i :: 0 <= i < |key| ==>
                 var c := key[i]; 'a' <= c <= 'z' || 'A' <= c <= 'Z' || '0' <= c <= '9' || c == '_'
  {
  }

  lemma {:induction false} MatchIsClean(s: string, a: Availability)
    requires s != "" ==> !IsSpace(s[|s| - 1])
    ensures MatchAssignment(s, a).Some? ==> Clean(MatchAssignment(s, a).value)
  {
  }

  lemma {:induction false} TrimmedEnd(raw: string)
    ensures Trim(raw) != "" ==> !IsSpace(Trim(raw)[|Trim(raw)| - 1])
  {
    hide IsSpace;
  }

  /** Whatever a line holds, the entry read from it is clean. */
  lemma {:induction false} ParsedLinesAreClean(raw: string)
    ensures ParseLine(raw).Some? ==> Clean(ParseLine(raw).value)
  {
    hide MatchAssignment, Clean;
    hide IsSpace, Trim;
    var line := Trim(raw);
    TrimmedEnd(raw);
    MatchIsClean(line, Runtime);
    if BUILD <= line {
      MatchIsClean(line[|BUILD|..], Build);
    } else if BOTH <= line {
      MatchIsClean(line[|BOTH|..], Both);
    }
  }

  lemma {:induction false} ParsedIsClean(lines: seq<string>)
    ensures forall e :: e in ParseLines(lines) ==> Clean(e)
  {
    hide ParseLine, Clean;
    if lines != [] {
      ParsedIsClean(lines[..|lines| - 1]);
      ParsedLinesAreClean(lines[|lines| - 1]);
    }
  }

  lemma {:induction false} ParseLinesAppend(a: seq<string>, b: seq<string>)
    ensures ParseLines(a + b) == ParseLines(a) + ParseLines(b)
    decreases |b|
  {
    hide ParseLine;
    if b == [] {
      assert a + b == a;
    } else {
      assert (a + b)[..|a + b| - 1] == a + b[..|b| - 1];
      ParseLinesAppend(a, b[..|b| - 1]);
    }
  }

  lemma {:induction false} ParseOneLine(line: string)
    ensures ParseLines([line]) == if ParseLine(line).Some? then [ParseLine(line).value] else []
  {
    hide ParseLine;
    assert [line][..0] == [];
  }

  lemma {:induction false} SplitOneLine(line: string, rest: string)
    requires '\n' !in line
    ensures SplitLines(line + "\n" + rest) == [ChopCr(line)] + SplitLines(rest)
  {
    var s := line + "\n" + rest;
    IndexAfter(line, '\n', rest);
    assert s == line + ['\n'] + rest;
    assert s[..|line|] == line && s[|line| + 1..] == rest;
  }

  /** A text is parsed line by line. */
  lemma {:induction false} ParsesLineByLine(line: string, rest: string)
    requires '\n' !in line
    ensures Parse(line + "\n" + rest) == (if ParseLine(line).Some? then [ParseLine(line).value] else []) + Parse(rest)
    ensures Parse(line) == if ParseLine(line).Some? then [ParseLine(line).value] else []
  {
    hide SplitLines, ParseLine, ParseLines, ChopCr;
    SplitOneLine(line, rest);
    ParseLinesAppend([ChopCr(line)], SplitLines(rest));
    ParseOneLine(ChopCr(line));
    ChopDoesNotMatter(line);
    OnlyLine(line);
    ParseOneLine(line);
  }

  lemma {:induction false} OnlyLine(line: string)
    requires '\n' !in line
    ensures SplitLines(line) == [line]
  {
  }

  function ChopAll(lines: seq<string>): (r: seq<string>)
    ensures |r| == |lines| && forall i :: 0 <= i < |r| ==> r[i] == ChopCr(lines[i])
  {
    seq(|lines|, i requires 0 <= i < |lines| => ChopCr(lines[i]))
  }

  /** Splitting what joining wrote gives the lines back, less a carriage return at their end, and an empty last line. */
  lemma {:induction false} SplitJoined(lines: seq<string>)
    requires lines != [] && forall i :: 0 <= i < |lines| ==> '\n' !in lines[i]
    ensures SplitLines(Join(lines, "\n") + "\n") == ChopAll(lines) + [""]
    decreases |lines|
  {
    hide SplitLines, ChopCr;
    if |lines| == 1 {
      assert lines[0] + "\n" == lines[0] + "\n" + "";
      SplitOneLine(lines[0], "");
      SplitEmpty();
    } else {
      var rest := Join(lines[1..], "\n") + "\n";
      assert Join(lines, "\n") + "\n" == lines[0] + "\n" + rest;
      SplitOneLine(lines[0], rest);
      SplitJoined(lines[1..]);
      assert ChopAll(lines) == [ChopCr(lines[0])] + ChopAll(lines[1..]);
    }
  }

  lemma {:induction false} SplitEmpty()
    ensures SplitLines("") == [""]
  {
  }

  lemma {:induction false} ParseEmptyLine()
    ensures ParseLine("") == None && ParseLines([""]) == []
  {
    ParseOneLine("");
  }

  lemma {:induction false} TrimEndDropsLast(s: string)
    requires s != "" && IsSpace(s[|s| - 1])
    ensures TrimEnd(s) == TrimEnd(s[..|s| - 1])
  {
  }

  lemma {:induction false} TrimStartOfFront(s: string)
    requires s != "" && IsSpace(s[|s| - 1])
    ensures var t := TrimStart(s);
            if t == "" then TrimStart(s[..|s| - 1]) == ""
            else t[|t| - 1] == s[|s| - 1] && TrimStart(s[..|s| - 1]) == t[..|t| - 1]
    decreases |s|
  {
    hide IsSpace, TrimStart;
    var front := s[..|s| - 1];
    TrimStartUnfold(s);
    TrimStartUnfold(front);
    if |s| == 1 {
      assert front == "" && s[1..] == "";
      TrimStartUnfold("");
    } else {
      assert front[0] == s[0];
      if IsSpace(s[0]) {
        var tail := s[1..];
        assert tail[..|tail| - 1] == front[1..] && tail[|tail| - 1] == s[|s| - 1];
        TrimStartOfFront(tail);
      }
    }
  }

  lemma {:induction false} TrimStartUnfold(s: string)
    ensures TrimStart(s) == if s != "" && IsSpace(s[0]) then TrimStart(s[1..]) else s
  {
    hide IsSpace;
  }

  /** A carriage return at the end of a line does not matter to the parser. */
  lemma {:induction false} ChopDoesNotMatter(line: string)
    ensures ParseLine(ChopCr(line)) == ParseLine(line)
  {
    hide MatchLine, Trim;
    if line != "" && line[|line| - 1] == '\r' {
      TrimDropsLast(line);
    }
  }

  lemma {:induction false} TrimDropsLast(s: string)
    requires s != "" && IsSpace(s[|s| - 1])
    ensures Trim(s[..|s| - 1]) == Trim(s)
  {
    hide IsSpace, TrimEnd, TrimStart;
    TrimStartOfFront(s);
    TrimEndOfEmpty();
    if TrimStart(s) != "" {
      TrimEndDropsLast(TrimStart(s));
    }
  }

  lemma {:induction false} TrimEndOfEmpty()
    ensures TrimEnd("") == ""
  {
  }

  lemma {:induction false} ChoppedLinesParseAlike(lines: seq<string>)
    ensures ParseLines(ChopAll(lines)) == ParseLines(lines)
    decreases |lines|
  {
    hide ParseLine, ChopCr;
    if lines != [] {
      var n := |lines| - 1;
      assert ChopAll(lines)[..n] == ChopAll(lines[..n]);
      ChoppedLinesParseAlike(lines[..n]);
      ChopDoesNotMatter(lines[n]);
    }
  }

  lemma {:induction false} RenderHasNoNewline(e: Entry)
    requires IsKey(e.key) && OneLine(e.value)
    ensures '\n' !in Render(e)
  {
    forall i | 0 <= i < |Render(e)| ensures Render(e)[i] != '\n' {
      var p := Prefix(e.availability);
      if i < |p| {
        assert Render(e)[i] == p[i];
      } else if i < |p| + |e.key| {
        assert Render(e)[i] == e.key[i - |p|];
        assert IsKeyChar(e.key[i - |p|]);
      } else if i > |p| + |e.key| {
        assert Render(e)[i] == e.value[i - |p| - |e.key| - 1];
      }
    }
  }

  lemma {:induction false} ParseRendered(es: seq<Entry>)
    requires forall i :: 0 <= i < |es| ==> Clean(es[i])
    ensures ParseLines(RenderAll(es)) == es
    decreases |es|
  {
    hide ParseLine, Clean, Render;
    if es != [] {
      var n := |es| - 1;
      assert RenderAll(es)[..n] == RenderAll(es[..n]);
      ParseRendered(es[..n]);
      ParsesRendered(es[n]);
      assert es == es[..n] + [es[n]];
    }
  }

  /**
   * Parsing what the printer wrote gives the entries back exactly when every key is a name and every
   * value is one line without white space at its end.
   */
  lemma {:induction false} RoundTripExactlyWhenClean(es: seq<Entry>)
    ensures Parse(SerializeEnvEntries(es)) == es <==> forall e :: e in es ==> Clean(e)
  {
    hide ParseLine, ParseLines, SplitLines, Join, RenderAll, Clean, Render;
    if forall e :: e in es ==> Clean(e) {
      if es == [] {
        SplitEmpty();
        ParseEmptyLine();
      } else {
        forall i | 0 <= i < |es| ensures '\n' !in RenderAll(es)[i] {
          assert es[i] in es;
          CleanParts(es[i]);
          RenderHasNoNewline(es[i]);
        }
        SplitJoined(RenderAll(es));
        ParseLinesAppend(ChopAll(RenderAll(es)), [""]);
        ChoppedLinesParseAlike(RenderAll(es));
        ParseRendered(es);
        ParseEmptyLine();
      }
    } else {
      ParsedIsClean(SplitLines(SerializeEnvEntries(es)));
    }
  }

  lemma {:induction false} CleanParts(e: Entry)
    requires Clean(e)
    ensures IsKey(e.key) && OneLine(e.value)
  {
  }

  /** Any text, once parsed and printed, parses to the same entries: printing normalizes. */
  lemma {:induction false} PrintingNormalizes(content: string)
    ensures Parse(SerializeEnvEntries(Parse(content))) == Parse(content)
  {
    ParsedIsClean(SplitLines(content));
    RoundTripExactlyWhenClean(Parse(content));
  }

  // ---------------------------------------------------------------- the editor

  /** Whether a line sets `key`, whatever its prefix and indentation. */
  predicate Own(line: string, key: string) {
    exists i :: 0 <= i <= |line| && SetsAt(line, key, i)
  }

  /** `\s*(?:(?:build|both):)?KEY=` with white space up to `i`. */
  predicate SetsAt(line: string, key: string, i: nat)
    requires i <= |line|
  {
    && (forall j :: 0 <= j < i ==> IsSpace(line[j]))
    && (key + "=" <= line[i..] || BUILD + key + "=" <= line[i..] || BOTH + key + "=" <= line[i..])
  }

  function Assign(key: string, value: string): string {
    key + "=" + value
  }

  datatype Edit = Edit(lines: seq<string>, replaced: bool)

  /** The lines after the loop: the first own line is replaced, further ones are dropped. */
  function EditLines(lines: seq<string>, key: string, value: string): Edit {
    if lines == [] then Edit([], false)
    else
      var before, line := EditLines(lines[..|lines| - 1], key, value), lines[|lines| - 1];
      if !Own(line, key) then before.(lines := before.lines + [line])
      else if before.replaced then before
      else Edit(before.lines + [Assign(key, value)], true)
  }

  function PopBlank(lines: seq<string>): (r: seq<string>)
    ensures r <= lines && (r != [] ==> r[|r| - 1] != "")
    ensures lines != [] && lines[|lines| - 1] != "" ==> r == lines
  {
    if lines != [] && lines[|lines| - 1] == "" then PopBlank(lines[..|lines| - 1]) else lines
  }

  function LinesOf(content: string): seq<string> {
    if content == "" then [] else SplitLines(content)
  }

  function EditedLines(content: string, key: string, value: string): seq<string> {
    var e := EditLines(LinesOf(content), key, value);
    PopBlank(if e.replaced then e.lines else PopBlank(e.lines) + [Assign(key, value)])
  }

  function Set(content: string, key: string, value: string): string {
    Join(EditedLines(content, key, value), "\n") + "\n"
  }

  method SetEnvVariable(content: string, key: string, value: string) returns (r: string)
    ensures r == Set(content, key, value)
  {
    hide Own, Assign, SplitLines, Join, PopBlank;
    var lines := if content == "" then [] else SplitLines(content);
    var replaced := false;
    var next: seq<string> := [];
    for i := 0 to |lines|
      invariant EditLines(lines[..i], key, value) == Edit(next, replaced)
    {
      assert lines[..i + 1][..i] == lines[..i];
      if Own(lines[i], key) {
        if !replaced { next := next + [Assign(key, value)]; }
        replaced := true;
        continue;
      }
      next := next + [lines[i]];
    }
    assert lines[..|lines|] == lines;
    if !replaced {
      next := PopBlankLines(next);
      next := next + [Assign(key, value)];
    }
    next := PopBlankLines(next);
    r := Join(next, "\n") + "\n";
  }

  method PopBlankLines(lines: seq<string>) returns (r: seq<string>)
    ensures r == PopBlank(lines)
  {
    r := lines;
    while |r| > 0 && r[|r| - 1] == ""
      invariant PopBlank(r) == PopBlank(lines)
    {
      r := r[..|r| - 1];
    }
  }

  // ---------------------------------------------------------------- what an edit does to the entries

  function Others(es: seq<Entry>, key: string): seq<Entry> {
    if es == [] then []
    else
      var n := |es| - 1;
      Others(es[..n], key) + if es[n].key == key then [] else [es[n]]
  }

  lemma {:induction false} OthersAppend(a: seq<Entry>, b: seq<Entry>, key: string)
    ensures Others(a + b, key) == Others(a, key) + Others(b, key)
    decreases |b|
  {
    if b == [] {
      assert a + b == a;
    } else {
      assert (a + b)[..|a + b| - 1] == a + b[..|b| - 1];
      OthersAppend(a, b[..|b| - 1], key);
    }
  }

  lemma {:induction false} OthersOfOne(e: Entry, key: string)
    ensures Others([e], key) == if e.key == key then [] else [e]
  {
    assert [e][..0] == [];
  }

  lemma {:induction false} MatchedKey(s: string, a: Availability, key: string)
    requires IsKey(key) && MatchAssignment(s, a).Some?
    ensures MatchAssignment(s, a).value.key == key <==> key + "=" <= s
  {
    var e := MatchAssignment(s, a).value;
    var n := KeyLength(s);
    assert e.key == s[..n] && s[n] == '=';
    assert s[..n + 1] == e.key + "=";
    if key + "=" <= s {
      assert s[|key|] == '=' && s[..|key|] == key;
      var rest := s[|key|..];
      assert s == key + rest && rest[0] == '=';
      KeyLengthOfKey(key, rest);
    }
  }

  lemma {:induction false} TrimEndKeepsPrefix(p: string, s: string)
    requires p != "" && !IsSpace(p[|p| - 1])
    ensures p <= TrimEnd(s) <==> p <= s
    decreases |s|
  {
    if s != "" && IsSpace(s[|s| - 1]) {
      TrimEndKeepsPrefix(p, s[..|s| - 1]);
      if p <= s {
        assert |p| < |s| by { assert p[|p| - 1] == s[|p| - 1]; }
        assert p <= s[..|s| - 1];
      }
    }
  }

  lemma {:induction false} PrefixesDiffer(key: string, t: string)
    requires IsKey(key)
    ensures BUILD <= t ==>
              !(key + "=" <= t) && !(BOTH + key + "=" <= t) && (BUILD + key + "=" <= t <==> key + "=" <= t[6..])
    ensures BOTH <= t ==>
              !(key + "=" <= t) && !(BUILD + key + "=" <= t) && (BOTH + key + "=" <= t <==> key + "=" <= t[5..])
    ensures !(BUILD <= t) ==> !(BUILD + key + "=" <= t)
    ensures !(BOTH <= t) ==> !(BOTH + key + "=" <= t)
  {
    assert BUILD + key + "=" == BUILD + (key + "=") && BOTH + key + "=" == BOTH + (key + "=");
    if key + "=" <= t {
      var rest := t[|key| + 1..];
      assert t[..|key| + 1] == key + "=";
      assert t == key + "=" + rest;
      NoPrefix(key, rest);
    }
    if BUILD <= t {
      assert t[0] == 'b' && t[1] == 'u';
      assert t == BUILD + t[6..];
      assert (BOTH + key + "=")[1] == 'o';
    }
    if BOTH <= t {
      assert t[0] == 'b' && t[1] == 'o';
      assert t == BOTH + t[5..];
      assert (BUILD + key + "=")[1] == 'u';
    }
  }

  lemma {:induction false} TrimStartSplits(line: string)
    ensures var i := |line| - |TrimStart(line)|;
            i >= 0 && TrimStart(line) == line[i..] && forall j :: 0 <= j < i ==> IsSpace(line[j])
    decreases |line|
  {
    hide IsSpace;
    if line != "" && IsSpace(line[0]) {
      TrimStartSplits(line[1..]);
      var i := |line| - |TrimStart(line)|;
      assert forall j :: 1 <= j < i ==> line[j] == line[1..][j - 1];
    }
  }

  lemma {:induction false} TrimStartAt(line: string, i: nat)
    requires i < |line| && !IsSpace(line[i]) && forall j :: 0 <= j < i ==> IsSpace(line[j])
    ensures TrimStart(line) == line[i..]
    decreases i
  {
    hide IsSpace;
    if i > 0 {
      assert forall j :: 0 <= j < i - 1 ==> line[1..][j] == line[j + 1];
      TrimStartAt(line[1..], i - 1);
    }
  }

  /** The lines that an edit takes for the key's. */
  lemma {:induction false} OwnExactly(line: string, key: string)
    requires IsKey(key)
    ensures var t := TrimStart(line);
            Own(line, key) <==> key + "=" <= t || "build:" + key + "=" <= t || "both:" + key + "=" <= t
  {
    hide TrimStart;
    TrimStartSplits(line);
    var n := |line| - |TrimStart(line)|;
    assert SetsAt(line, key, n) ==> Own(line, key);
    if i :| 0 <= i <= |line| && SetsAt(line, key, i) {
      var t := line[i..];
      assert t[0] == line[i];
      assert (key + "=")[0] == key[0] && ("build:" + key + "=")[0] == 'b' && ("both:" + key + "=")[0] == 'b';
      assert t[0] == key[0] || t[0] == 'b';
      TrimStartAt(line, i);
    }
  }

  /** A line that yields an entry is the key's own exactly if the entry is the key's. */
  lemma {:induction false} OwnMeansKey(line: string, key: string)
    requires IsKey(key) && ParseLine(line).Some?
    ensures Own(line, key) <==> ParseLine(line).value.key == key
  {
    hide MatchAssignment, IsKey, Own;
    OwnExactly(line, key);
    var t, full := Trim(line), TrimStart(line);
    PrefixesDiffer(key, t);
    SameOwner(full, key);
    if BUILD <= t {
      MatchedKey(t[6..], Build, key);
    } else if BOTH <= t {
      MatchedKey(t[5..], Both, key);
    } else {
      MatchedKey(t, Runtime, key);
    }
  }

  lemma {:induction false} SameOwner(full: string, key: string)
    ensures var t := TrimEnd(full);
            && (key + "=" <= full <==> key + "=" <= t)
            && (BUILD + key + "=" <= full <==> BUILD + key + "=" <= t)
            && (BOTH + key + "=" <= full <==> BOTH + key + "=" <= t)
  {
    TrimEndKeepsPrefix(key + "=", full);
    TrimEndKeepsPrefix(BUILD + key + "=", full);
    TrimEndKeepsPrefix(BOTH + key + "=", full);
  }

  lemma {:induction false} AssignIsRendered(key: string, value: string)
    ensures Assign(key, value) == Render(Entry(key, value, Runtime))
  {
    assert "" + key + "=" + value == key + "=" + value;
  }

  /** Where the key's first own line is; the number of lines if there is none. */
  function FirstOwn(lines: seq<string>, key: string): (i: nat)
    ensures i <= |lines|
    decreases |lines|
  {
    if lines == [] || Own(lines[0], key) then 0 else 1 + FirstOwn(lines[1..], key)
  }

  lemma {:induction false} FirstOwnIsOwn(lines: seq<string>, key: string)
    ensures FirstOwn(lines, key) < |lines| ==> Own(lines[FirstOwn(lines, key)], key)
    decreases |lines|
  {
    hide Own;
    if lines != [] && !Own(lines[0], key) {
      FirstOwnIsOwn(lines[1..], key);
    }
  }

  function Foreign(lines: seq<string>, key: string): seq<string> {
    if lines == [] then []
    else
      var n := |lines| - 1;
      Foreign(lines[..n], key) + if Own(lines[n], key) then [] else [lines[n]]
  }

  lemma {:induction false} FirstOwnAppend(lines: seq<string>, line: string, key: string)
    ensures FirstOwn(lines + [line], key) ==
            if FirstOwn(lines, key) < |lines| then FirstOwn(lines, key)
            else if Own(line, key) then |lines| else |lines| + 1
    decreases |lines|
  {
    hide Own;
    if lines != [] && !Own(lines[0], key) {
      assert (lines + [line])[1..] == lines[1..] + [line];
      FirstOwnAppend(lines[1..], line, key);
    }
  }

  lemma {:induction false} EditUnfold(front: seq<string>, line: string, key: string, value: string)
    ensures var before := EditLines(front, key, value);
            EditLines(front + [line], key, value) ==
            if !Own(line, key) then before.(lines := before.lines + [line])
            else if before.replaced then before
            else Edit(before.lines + [Assign(key, value)], true)
  {
    hide Own, Assign;
    assert (front + [line])[..|front|] == front;
  }

  lemma {:induction false} ForeignUnfold(front: seq<string>, line: string, key: string)
    ensures Foreign(front + [line], key) == if Own(line, key) then Foreign(front, key) else Foreign(front, key) + [line]
    ensures Foreign([], key) == []
  {
    hide Own;
    assert (front + [line])[..|front|] == front;
  }

  lemma {:induction false} AppendBehind(front: seq<string>, line: string, p: nat, added: seq<string>, tail: seq<string>)
    requires p < |front|
    ensures (front + [line])[p + 1..] == front[p + 1..] + [line]
    ensures front[..p] + added + tail + [line] == (front + [line])[..p] + added + (tail + [line])
    ensures front[..p] + added + tail == (front + [line])[..p] + added + tail
  {
  }

  lemma {:induction false} AppendAtEnd(front: seq<string>, line: string, added: seq<string>)
    ensures (front + [line])[|front| + 1..] == []
    ensures front + added == (front + [line])[..|front|] + added + []
  {
  }

  lemma {:induction false} NothingToEdit(key: string, value: string)
    ensures EditLines([], key, value) == Edit([], false) && FirstOwn([], key) == 0
    ensures Foreign([], key) == [] && ParseLines([]) == [] && Others([], key) == []
  {
  }

  /** The loop keeps all foreign lines in order and puts the new one where the first own line was. */
  lemma {:induction false} EditIs(lines: seq<string>, key: string, value: string)
    ensures var p, e := FirstOwn(lines, key), EditLines(lines, key, value);
            && e.replaced == (p < |lines|)
            && e.lines ==
               if p < |lines| then lines[..p] + [Assign(key, value)] + Foreign(lines[p + 1..], key) else lines
    decreases |lines|
  {
    hide *;
    NothingToEdit(key, value);
    if lines != [] {
      var n := |lines| - 1;
      var front, line := lines[..n], lines[n];
      var p, added := FirstOwn(front, key), [Assign(key, value)];
      assert lines == front + [line];
      EditIs(front, key, value);
      FirstOwnAppend(front, line, key);
      EditUnfold(front, line, key, value);
      if p < n {
        ForeignUnfold(front[p + 1..], line, key);
        AppendBehind(front, line, p, added, Foreign(front[p + 1..], key));
      } else {
        ForeignUnfold([], line, key);
        AppendAtEnd(front, line, added);
      }
    }
  }

  lemma {:induction false} ForeignEntries(lines: seq<string>, key: string)
    requires IsKey(key)
    ensures ParseLines(Foreign(lines, key)) == Others(ParseLines(lines), key)
    decreases |lines|
  {
    hide *;
    NothingToEdit(key, "");
    if lines != [] {
      var n := |lines| - 1;
      var front, line := lines[..n], lines[n];
      ForeignEntries(front, key);
      assert lines == front + [line];
      ForeignUnfold(front, line, key);
      ParseLinesAppend(front, [line]);
      ParseLinesAppend(Foreign(front, key), [line]);
      OthersAppend(ParseLines(front), ParseLines([line]), key);
      ForeignLine(line, key);
      assert ParseLines(Foreign(front, key)) + [] == ParseLines(Foreign(front, key));
    }
  }

  lemma {:induction false} ForeignLine(line: string, key: string)
    requires IsKey(key)
    ensures Others(ParseLines([line]), key) == if Own(line, key) then [] else ParseLines([line])
  {
    hide ParseLine, Own, IsKey, ParseLines, Others;
    ParseOneLine(line);
    OthersOfNone(key);
    if ParseLine(line).Some? {
      OwnMeansKey(line, key);
      OthersOfOne(ParseLine(line).value, key);
    }
  }

  lemma {:induction false} OthersOfNone(key: string)
    ensures Others([], key) == []
  {
  }

  lemma {:induction false} ForeignPrefix(lines: seq<string>, key: string, p: nat)
    requires p <= FirstOwn(lines, key)
    ensures Foreign(lines[..p], key) == lines[..p]
  {
    hide Own, FirstOwn, Foreign;
    var front := lines[..p];
    forall j | 0 <= j < p ensures !Own(front[j], key) {
      NotOwnBefore(lines, key, j);
    }
    NoneOwnIsForeign(front, key);
  }

  lemma {:induction false} NotOwnBefore(lines: seq<string>, key: string, i: nat)
    requires i < FirstOwn(lines, key)
    ensures !Own(lines[i], key)
    decreases i
  {
    hide Own;
    if i > 0 {
      NotOwnBefore(lines[1..], key, i - 1);
    }
  }

  lemma {:induction false} PoppedParsesAlike(lines: seq<string>)
    ensures ParseLines(PopBlank(lines)) == ParseLines(lines)
    decreases |lines|
  {
    hide ParseLine;
    if lines != [] && lines[|lines| - 1] == "" {
      PoppedParsesAlike(lines[..|lines| - 1]);
      ParseEmptyLine();
    }
  }

  /** The entries after an edit, if the value is clean: the others in order, and one new entry in place. */
  ghost function Expected(content: string, key: string, value: string): seq<Entry> {
    var lines := LinesOf(content);
    var p := FirstOwn(lines, key);
    Others(ParseLines(lines[..p]), key) + [Entry(key, value, Runtime)]
    + if p < |lines| then Others(ParseLines(lines[p + 1..]), key) else []
  }

  lemma {:induction false} EditedLinesParse(content: string, key: string, value: string)
    requires IsKey(key) && CleanValue(value)
    ensures ParseLines(EditedLines(content, key, value)) == Expected(content, key, value)
  {
    hide ParseLine, Own, IsKey, CleanValue, FirstOwn, ParseLines, Foreign, EditLines, PopBlank, Others, LinesOf;
    var lines, added := LinesOf(content), Assign(key, value);
    var p, e := FirstOwn(lines, key), EditLines(lines, key, value);
    EditIs(lines, key, value);
    AddedLine(key, value);
    ForeignPrefix(lines, key, p);
    ForeignEntries(lines[..p], key);
    if p < |lines| {
      var rest := Foreign(lines[p + 1..], key);
      ForeignEntries(lines[p + 1..], key);
      ParseLinesAppend(lines[..p], [added]);
      ParseLinesAppend(lines[..p] + [added], rest);
      PoppedParsesAlike(e.lines);
    } else {
      assert lines[..p] == lines;
      PoppedParsesAlike(lines);
      ParseLinesAppend(PopBlank(lines), [added]);
      PoppedParsesAlike(PopBlank(lines) + [added]);
    }
  }

  lemma {:induction false} AddedLine(key: string, value: string)
    requires IsKey(key) && CleanValue(value)
    ensures ParseLines([Assign(key, value)]) == [Entry(key, value, Runtime)]
  {
    hide ParseLine, Render;
    AssignIsRendered(key, value);
    ParsesRendered(Entry(key, value, Runtime));
    ParseOneLine(Assign(key, value));
  }

  lemma {:induction false} KeyHasNoNewline(key: string, value: string)
    requires IsKey(key) && '\n' !in value
    ensures '\n' !in Assign(key, value)
  {
    forall i | 0 <= i < |Assign(key, value)| ensures Assign(key, value)[i] != '\n' {
      assert i < |key| ==> IsKeyChar(key[i]);
    }
  }

  lemma {:induction false} LinesHaveNoNewline(content: string)
    ensures forall i :: 0 <= i < |LinesOf(content)| ==> '\n' !in LinesOf(content)[i]
  {
  }

  lemma {:induction false} EditKeepsLines(lines: seq<string>, key: string, value: string)
    ensures forall l :: l in EditLines(lines, key, value).lines ==>
              l == Assign(key, value) || (l in lines && !Own(l, key))
    decreases |lines|
  {
    hide Own;
    if lines != [] {
      EditKeepsLines(lines[..|lines| - 1], key, value);
    }
  }

  /** The edited lines: the new one, which is there, and foreign ones. */
  lemma {:induction false} EditedLinesAre(content: string, key: string, value: string)
    requires IsKey(key)
    ensures var next := EditedLines(content, key, value);
            && (forall l :: l in next ==> l == Assign(key, value) || (l in LinesOf(content) && !Own(l, key)))
            && Assign(key, value) in next && next[|next| - 1] != ""
  {
    hide Own, EditLines, FirstOwn, Foreign, PopBlank, LinesOf, Assign, IsKey;
    var lines, added := LinesOf(content), Assign(key, value);
    AssignIsNotEmpty(key, value);
    EditKeepsLines(lines, key, value);
    EditIs(lines, key, value);
    var e, p := EditLines(lines, key, value), FirstOwn(lines, key);
    var list := if e.replaced then e.lines else PopBlank(e.lines) + [added];
    assert list[if e.replaced then p else |list| - 1] == added;
    PopKeeps(list, added);
  }

  lemma {:induction false} AssignIsNotEmpty(key: string, value: string)
    ensures Assign(key, value) != ""
  {
  }

  lemma {:induction false} PopKeeps(lines: seq<string>, line: string)
    requires line in lines && line != ""
    ensures line in PopBlank(lines)
    decreases |lines|
  {
    if lines[|lines| - 1] == "" {
      assert line in lines[..|lines| - 1];
      PopKeeps(lines[..|lines| - 1], line);
    }
  }

  lemma {:induction false} EditedLinesSplit(content: string, key: string, value: string)
    requires IsKey(key) && '\n' !in value
    ensures SplitLines(Set(content, key, value)) == ChopAll(EditedLines(content, key, value)) + [""]
  {
    hide Own, SplitLines, Join, EditedLines, Assign;
    EditedLinesAre(content, key, value);
    KeyHasNoNewline(key, value);
    LinesHaveNoNewline(content);
    var next := EditedLines(content, key, value);
    forall i | 0 <= i < |next| ensures '\n' !in next[i] {
      assert next[i] in next;
    }
    SplitJoined(next);
  }

  /**
   * After setting a variable to a clean value, parsing gives the entries of all other keys in their
   * order and one runtime entry for the key, in the place of its first line or at the end.
   */
  lemma {:induction false} SetIsParsed(content: string, key: string, value: string)
    requires IsKey(key) && CleanValue(value)
    ensures Parse(Set(content, key, value)) == Expected(content, key, value)
    ensures Others(Parse(Set(content, key, value)), key) == Others(Parse(content), key)
  {
    hide ParseLine, ParseLines, Own, EditedLines, SplitLines, Set, Expected, Others;
    CleanHasNoNewline(value);
    EditedLinesSplit(content, key, value);
    var next := EditedLines(content, key, value);
    ParseLinesAppend(ChopAll(next), [""]);
    ParseEmptyLine();
    ChoppedLinesParseAlike(next);
    EditedLinesParse(content, key, value);
    ExpectedOthers(content, key, value);
  }

  /** And only then: an unclean value does not come back as it was set. */
  lemma {:induction false} SetIsParsedExactlyWhen(content: string, key: string, value: string)
    requires IsKey(key)
    ensures Parse(Set(content, key, value)) == Expected(content, key, value) <==> CleanValue(value)
  {
    hide ParseLine, ParseLines, SplitLines, Set, Others, LinesOf, FirstOwn;
    if CleanValue(value) {
      SetIsParsed(content, key, value);
    } else {
      ParsedIsClean(SplitLines(Set(content, key, value)));
      assert Entry(key, value, Runtime) in Expected(content, key, value);
    }
  }

  lemma {:induction false} CleanHasNoNewline(value: string)
    requires CleanValue(value)
    ensures '\n' !in value
  {
  }

  lemma {:induction false} OthersTwice(es: seq<Entry>, key: string)
    ensures Others(Others(es, key), key) == Others(es, key)
    ensures forall e :: e in Others(es, key) ==> e.key != key
    decreases |es|
  {
    if es != [] {
      var n := |es| - 1;
      OthersTwice(es[..n], key);
      OthersOfOne(es[n], key);
      OthersAppend(Others(es[..n], key), [es[n]], key);
      assert Others(es[..n], key) + [] == Others(es[..n], key);
    }
  }

  lemma {:induction false} ParseOfLines(content: string)
    ensures Parse(content) == ParseLines(LinesOf(content))
  {
    hide ParseLine;
    if content == "" {
      SplitEmpty();
      ParseEmptyLine();
    }
  }

  lemma {:induction false} ExpectedOthers(content: string, key: string, value: string)
    requires IsKey(key)
    ensures Others(Expected(content, key, value), key) == Others(Parse(content), key)
  {
    hide ParseLine, ParseLines, Own, FirstOwn, Others, LinesOf;
    ParseOfLines(content);
    var lines := LinesOf(content);
    var p := FirstOwn(lines, key);
    var before := ParseLines(lines[..p]);
    var added := Entry(key, value, Runtime);
    OthersTwice(before, key);
    OthersOfOne(added, key);
    OthersAppend(Others(before, key), [added], key);
    if p < |lines| {
      var rest := ParseLines(lines[p + 1..]);
      OthersTwice(rest, key);
      OthersAppend(Others(before, key) + [added], Others(rest, key), key);
      assert lines == lines[..p] + [lines[p]] + lines[p + 1..];
      ParseLinesAppend(lines[..p] + [lines[p]], lines[p + 1..]);
      ParseLinesAppend(lines[..p], [lines[p]]);
      FirstOwnIsOwn(lines, key);
      ForeignLine(lines[p], key);
      OthersAppend(before, ParseLines([lines[p]]), key);
      OthersAppend(before + ParseLines([lines[p]]), rest, key);
    } else {
      assert lines[..p] == lines;
      assert Others(before, key) + [added] + [] == Others(before, key) + [added];
    }
  }

  lemma {:induction false} NoneOwnIsForeign(lines: seq<string>, key: string)
    requires forall i :: 0 <= i < |lines| ==> !Own(lines[i], key)
    ensures Foreign(lines, key) == lines && FirstOwn(lines, key) == |lines|
    decreases |lines|
  {
    hide *;
    NothingToEdit(key, "");
    if lines != [] {
      var n := |lines| - 1;
      NoneOwnIsForeign(lines[..n], key);
      assert lines == lines[..n] + [lines[n]];
      ForeignUnfold(lines[..n], lines[n], key);
      FirstOwnAppend(lines[..n], lines[n], key);
    }
  }

  /**
   * The text after an edit, line by line: the assignment stands where the key's first line was, its other lines are
   * gone and all others stay in order; without one it comes last. Blank lines at the end go.
   */
  lemma {:induction false} EditedLinesExactly(content: string, key: string, value: string, p: nat)
    requires IsKey(key)
    requires var lines := LinesOf(content);
             p <= |lines| && (forall i :: 0 <= i < p ==> !Own(lines[i], key)) && (p < |lines| ==> Own(lines[p], key))
    ensures var lines := LinesOf(content);
            EditedLines(content, key, value)
            == if p < |lines| then PopBlank(lines[..p] + [key + "=" + value] + Foreign(lines[p + 1..], key))
               else PopBlank(lines) + [key + "=" + value]
  {
    hide Own, EditLines, PopBlank, LinesOf, IsKey, Foreign, FirstOwn;
    var lines := LinesOf(content);
    EditIs(lines, key, value);
    FirstOwnIsOwn(lines, key);
    if p < FirstOwn(lines, key) && p < |lines| {
      NotOwnBefore(lines, key, p);
    }
    assert FirstOwn(lines, key) == p;
    assert Assign(key, value) != "" by { assert key + "=" + value != ""; }
  }
}
