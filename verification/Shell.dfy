/** Quoting a word for a shell, and splitting free text into words (packages/shared/src/shell.ts). */
module Shell {
  import opened Wrappers
  import opened Text

  // ---------------------------------------------------------------- the quoter

  function EscapeQuotes(v: string): string {
    if v == [] then ""
    else (if v[0] == '\'' then "'\\''" else [v[0]]) + EscapeQuotes(v[1..])
  }

  function ShellQuote(v: string): string {
    "'" + EscapeQuotes(v) + "'"
  }

  // ---------------------------------------------------------------- the tokenizer

  datatype Quote = Unquoted | Single | Double

  datatype Lexer = Lexer(args: seq<string>, current: string, inWord: bool, quote: Quote)

  const START := Lexer([], "", false, Unquoted)

  datatype OptionsError = UnclosedQuote | ReservedFlag(flag: string)

  const RESERVED_DOCKER_FLAGS: seq<string> := ["--name", "-d", "--detach", "--rm", "--env-file", "--restart"]

  predicate EscapableInDouble(c: char) {
    c == '"' || c == '$' || c == '`'
  }

  /** How many characters the lexer reads next: an escape takes two. */
  function StepLength(quote: Quote, s: string): (n: nat)
    requires s != []
    ensures 1 <= n <= |s|
  {
    if s[0] == '\\' && |s| > 1 && (quote.Unquoted? || (quote.Double? && EscapableInDouble(s[1]))) then 2 else 1
  }

  function Step(st: Lexer, s: string): Lexer
    requires s != []
  {
    var ch := s[0];
    match st.quote
    case Single =>
      if ch == '\'' then st.(quote := Unquoted) else st.(current := st.current + [ch])
    case Double =>
      if ch == '"' then st.(quote := Unquoted) else st.(current := st.current + [s[StepLength(Double, s) - 1]])
    case Unquoted =>
      if ch == '\'' then st.(quote := Single, inWord := true)
      else if ch == '"' then st.(quote := Double, inWord := true)
      else if ch == '\\' && |s| > 1 then st.(current := st.current + [s[1]], inWord := true)
      else if IsSpace(ch) then EndWord(st)
      else st.(current := st.current + [ch], inWord := true)
  }

  function EndWord(st: Lexer): Lexer {
    if st.inWord then Lexer(st.args + [st.current], "", false, st.quote) else st
  }

  function Lex(st: Lexer, s: string): Lexer
    decreases |s|
  {
    if s == [] then st else Lex(Step(st, s), s[StepLength(st.quote, s)..])
  }

  /** One unfolding of `Lex`, for proofs that keep its body hidden. */
  lemma {:induction false} LexUnfold(st: Lexer, s: string)
    ensures Lex(st, s) == if s == [] then st else Lex(Step(st, s), s[StepLength(st.quote, s)..])
  {
  }

  function FlagOf(arg: string): string {
    arg[..IndexOfChar(arg, '=')]
  }

  function CheckReserved(args: seq<string>): (r: Result<seq<string>, OptionsError>)
    ensures r.Ok? ==> r.value == args
    ensures r.Ok? <==> forall i :: 0 <= i < |args| ==> FlagOf(args[i]) !in RESERVED_DOCKER_FLAGS
    ensures r.Err? ==> exists i :: 0 <= i < |args| && r.error == ReservedFlag(FlagOf(args[i]))
                                   && FlagOf(args[i]) in RESERVED_DOCKER_FLAGS
                                   && forall j :: 0 <= j < i ==> FlagOf(args[j]) !in RESERVED_DOCKER_FLAGS
  {
    if args == [] then Ok([])
    else if FlagOf(args[0]) in RESERVED_DOCKER_FLAGS then Err(ReservedFlag(FlagOf(args[0])))
    else
      var rest := CheckReserved(args[1..]);
      if rest.Ok? then
        assert args == [args[0]] + args[1..];
        Ok(args)
      else
        var i :| 0 <= i < |args| - 1 && rest.error == ReservedFlag(FlagOf(args[1..][i]))
                 && FlagOf(args[1..][i]) in RESERVED_DOCKER_FLAGS
                 && forall j :: 0 <= j < i ==> FlagOf(args[1..][j]) !in RESERVED_DOCKER_FLAGS;
        assert FlagOf(args[i + 1]) in RESERVED_DOCKER_FLAGS;
        rest
  }

  function Parse(input: string): Result<seq<string>, OptionsError> {
    var end := Lex(START, input);
    if !end.quote.Unquoted? then Err(UnclosedQuote) else CheckReserved(EndWord(end).args)
  }

  method ParseDockerOptions(input: string) returns (r: Result<seq<string>, OptionsError>)
    ensures r == Parse(input)
  {
    hide Lex, CheckReserved, FlagOf, IsSpace, EscapableInDouble;
    var args: seq<string> := [];
    var current := "";
    var inWord := false;
    var quote := Unquoted;
    var i := 0;
    while i < |input|
      invariant 0 <= i <= |input|
      invariant Lex(START, input) == Lex(Lexer(args, current, inWord, quote), input[i..])
    {
      var ch := input[i];
      assert input[i..][0] == ch;
      LexUnfold(Lexer(args, current, inWord, quote), input[i..]);
      ghost var n := StepLength(quote, input[i..]);
      assert input[i..][n..] == input[i + n..];
      if quote.Single? {
        if ch == '\'' { quote := Unquoted; } else { current := current + [ch]; }
      } else if quote.Double? {
        if ch == '"' {
          quote := Unquoted;
        } else if ch == '\\' && i + 1 < |input| && EscapableInDouble(input[i + 1]) {
          i := i + 1;
          current := current + [input[i]];
        } else {
          current := current + [ch];
        }
      } else if ch == '\'' || ch == '"' {
        quote := if ch == '"' then Double else Single;
        inWord := true;
      } else if ch == '\\' && i + 1 < |input| {
        i := i + 1;
        current := current + [input[i]];
        inWord := true;
      } else if IsSpace(ch) {
        if inWord {
          args := args + [current];
          current := "";
          inWord := false;
        }
      } else {
        current := current + [ch];
        inWord := true;
      }
      i := i + 1;
    }
    LexUnfold(Lexer(args, current, inWord, quote), input[i..]);
    if !quote.Unquoted? { return Err(UnclosedQuote); }
    if inWord { args := args + [current]; }
    for k := 0 to |args|
      invariant forall j :: 0 <= j < k ==> FlagOf(args[j]) !in RESERVED_DOCKER_FLAGS
    {
      var flag := FlagOf(args[k]);
      if flag in RESERVED_DOCKER_FLAGS { return Err(ReservedFlag(flag)); }
    }
    r := Ok(args);
  }

  // ---------------------------------------------------------------- how a word can be written

  /** One way of writing part of a word. */
  datatype Piece =
    | Bare(c: char)
    | Escaped(c: char)
    | SingleQuoted(text: string)
    | DoubleQuoted(body: string) // as it stands between the quotes
    | Posix(text: string) // what the quoter writes

  /** How many characters of a double-quoted text stand for the next one. */
  function BodyStep(s: string): (n: nat)
    requires s != []
    ensures 1 <= n <= |s|
  {
    if |s| > 1 && s[0] == '\\' && s[1] in "\"$`" then 2 else 1
  }

  /** A text that a double quote can follow to close the quotation: no bare quote, and no backslash at the end. */
  predicate IsBody(s: string)
    decreases |s|
  {
    s == [] || ((BodyStep(s) == 2 || (s[0] != '"' && s != "\\")) && IsBody(s[BodyStep(s)..]))
  }

  /** A text that leaves a double quotation open to its end. */
  predicate IsOpenBody(s: string)
    decreases |s|
  {
    s == [] || ((BodyStep(s) == 2 || s[0] != '"') && IsOpenBody(s[BodyStep(s)..]))
  }

  function BodyMeaning(s: string): string
    decreases |s|
  {
    if s == [] then "" else [s[BodyStep(s) - 1]] + BodyMeaning(s[BodyStep(s)..])
  }

  function Written(p: Piece): string {
    match p
    case Bare(c) => [c]
    case Escaped(c) => ['\\', c]
    case SingleQuoted(text) => "'" + text + "'"
    case DoubleQuoted(body) => "\"" + body + "\""
    case Posix(text) => ShellQuote(text)
  }

  function Meaning(p: Piece): string {
    match p
    case Bare(c) => [c]
    case Escaped(c) => [c]
    case SingleQuoted(text) => text
    case DoubleQuoted(body) => BodyMeaning(body)
    case Posix(text) => text
  }

  /** When a piece reads back as its meaning. */
  predicate Readable(p: Piece) {
    match p
    case Bare(c) => c != '\'' && c != '"' && c != '\\' && !IsSpace(c)
    case Escaped(_) => true
    case SingleQuoted(text) => '\'' !in text
    case DoubleQuoted(body) => IsBody(body)
    case Posix(_) => true
  }

  /** Inside single quotes, a text without quotes is copied. */
  lemma {:induction false} LexSingle(st: Lexer, text: string, rest: string)
    requires st.quote.Single? && '\'' !in text
    ensures Lex(st, text + rest) == Lex(st.(current := st.current + text), rest)
    decreases |text|
  {
    hide Lex;
    if text == [] {
      assert text + rest == rest && st.current + text == st.current;
    } else {
      LexUnfold(st, text + rest);
      assert (text + rest)[1..] == text[1..] + rest;
      LexSingle(st.(current := st.current + [text[0]]), text[1..], rest);
      assert st.current + [text[0]] + text[1..] == st.current + text;
    }
  }

  /** The four characters the quoter writes for a quote close the quotation, add a quote and open it again. */
  lemma {:induction false} LexEscapedQuote(st: Lexer, tail: string)
    requires st.quote.Single? && st.inWord
    ensures Lex(st, "'\\''" + tail) == Lex(st.(current := st.current + ['\'']), tail)
  {
    hide Lex;
    var closed := st.(quote := Unquoted);
    LexUnfold(st, "'\\''" + tail);
    assert ("'\\''" + tail)[1..] == "\\''" + tail;
    LexUnfold(closed, "\\''" + tail);
    assert ("\\''" + tail)[2..] == "'" + tail;
    LexUnfold(closed.(current := st.current + ['\'']), "'" + tail);
    assert ("'" + tail)[1..] == tail;
  }

  /** Inside the quotes of the quoter, the escaped text is copied unescaped. */
  lemma {:induction false} LexEscaped(st: Lexer, v: string, rest: string)
    requires st.quote.Single? && st.inWord
    ensures Lex(st, EscapeQuotes(v) + rest) == Lex(st.(current := st.current + v), rest)
    decreases |v|
  {
    hide Lex;
    if v == [] {
      assert EscapeQuotes(v) + rest == rest && st.current + v == st.current;
    } else {
      var st' := st.(current := st.current + [v[0]]);
      var tail := EscapeQuotes(v[1..]) + rest;
      if v[0] == '\'' {
        LexEscapedQuote(st, tail);
        assert EscapeQuotes(v) + rest == "'\\''" + tail;
      } else {
        assert EscapeQuotes(v) + rest == [v[0]] + tail;
        assert ([v[0]] + tail)[1..] == tail;
        LexUnfold(st, [v[0]] + tail);
      }
      LexEscaped(st', v[1..], rest);
      assert st.current + [v[0]] + v[1..] == st.current + v;
    }
  }

  lemma {:induction false} BodyUnfold(s: string)
    requires s != []
    ensures var n := BodyStep(s);
            && (IsBody(s) <==> (n == 2 || (s[0] != '"' && s != "\\")) && IsBody(s[n..]))
            && (IsOpenBody(s) <==> (n == 2 || s[0] != '"') && IsOpenBody(s[n..]))
            && BodyMeaning(s) == [s[n - 1]] + BodyMeaning(s[n..])
  {
  }

  lemma {:induction false} NoBody()
    ensures IsBody("") && IsOpenBody("") && BodyMeaning("") == ""
  {
  }

  /** Inside double quotes a body is read as its meaning, up to the closing quote. */
  lemma {:induction false} LexDouble(st: Lexer, body: string, rest: string)
    requires st.quote.Double? && IsBody(body)
    ensures Lex(st, body + "\"" + rest) == Lex(st.(current := st.current + BodyMeaning(body), quote := Unquoted), rest)
    decreases |body|
  {
    hide Lex, IsBody, IsOpenBody, BodyMeaning;
    var all := body + "\"" + rest;
    LexUnfold(st, all);
    NoBody();
    if body == [] {
      assert all[1..] == rest && st.current + "" == st.current;
    } else {
      BodyUnfold(body);
      var n := BodyStep(body);
      assert all[0] == body[0] && (|body| > 1 ==> all[1] == body[1]);
      assert all[n..] == body[n..] + "\"" + rest;
      LexDouble(st.(current := st.current + [body[n - 1]]), body[n..], rest);
      assert st.current + [body[n - 1]] + BodyMeaning(body[n..]) == st.current + BodyMeaning(body);
    }
  }

  /** A body that is not closed leaves the quotation open. */
  lemma {:induction false} LexOpenDouble(st: Lexer, body: string)
    requires st.quote.Double? && IsOpenBody(body)
    ensures Lex(st, body).quote.Double?
    decreases |body|
  {
    hide Lex, IsBody, IsOpenBody, BodyMeaning;
    LexUnfold(st, body);
    if body != [] {
      BodyUnfold(body);
      var n := BodyStep(body);
      LexOpenDouble(st.(current := st.current + [body[n - 1]]), body[n..]);
    }
  }

  lemma {:induction false} LexSingleQuoted(st: Lexer, text: string, rest: string)
    requires st.quote.Unquoted? && '\'' !in text
    ensures Lex(st, "'" + text + "'" + rest) == Lex(st.(current := st.current + text, inWord := true), rest)
  {
    hide Lex;
    var open, all := st.(quote := Single, inWord := true), "'" + text + "'" + rest;
    LexUnfold(st, all);
    assert all[1..] == text + ("'" + rest);
    LexSingle(open, text, "'" + rest);
    LexUnfold(open.(current := st.current + text), "'" + rest);
    assert ("'" + rest)[1..] == rest;
  }

  lemma {:induction false} LexShellQuoted(st: Lexer, text: string, rest: string)
    requires st.quote.Unquoted?
    ensures Lex(st, ShellQuote(text) + rest) == Lex(st.(current := st.current + text, inWord := true), rest)
  {
    hide Lex;
    var open, all := st.(quote := Single, inWord := true), ShellQuote(text) + rest;
    LexUnfold(st, all);
    assert all[1..] == EscapeQuotes(text) + ("'" + rest);
    LexEscaped(open, text, "'" + rest);
    LexUnfold(open.(current := st.current + text), "'" + rest);
    assert ("'" + rest)[1..] == rest;
  }

  lemma {:induction false} LexDoubleQuoted(st: Lexer, body: string, rest: string)
    requires st.quote.Unquoted? && IsBody(body)
    ensures Lex(st, "\"" + body + "\"" + rest)
         == Lex(st.(current := st.current + BodyMeaning(body), inWord := true), rest)
  {
    hide Lex, IsBody, BodyMeaning;
    var open, all := st.(quote := Double, inWord := true), "\"" + body + "\"" + rest;
    LexUnfold(st, all);
    assert all[1..] == body + "\"" + rest;
    LexDouble(open, body, rest);
  }

  /** A readable piece, whatever follows it, adds its meaning to the current word. */
  lemma {:induction false} LexPiece(st: Lexer, p: Piece, rest: string)
    requires st.quote.Unquoted? && Readable(p)
    ensures Lex(st, Written(p) + rest) == Lex(st.(current := st.current + Meaning(p), inWord := true), rest)
  {
    hide Lex;
    match p
    case Bare(c) =>
      LexUnfold(st, [c] + rest);
      assert ([c] + rest)[1..] == rest;
    case Escaped(c) =>
      LexUnfold(st, ['\\', c] + rest);
      assert (['\\', c] + rest)[2..] == rest;
    case SingleQuoted(text) => LexSingleQuoted(st, text, rest);
    case DoubleQuoted(body) => LexDoubleQuoted(st, body, rest);
    case Posix(text) => LexShellQuoted(st, text, rest);
  }

  type Word = seq<Piece>

  function WrittenWord(w: Word): string {
    if w == [] then "" else Written(w[0]) + WrittenWord(w[1..])
  }

  function WordMeaning(w: Word): string {
    if w == [] then "" else Meaning(w[0]) + WordMeaning(w[1..])
  }

  ghost predicate ReadableWord(w: Word) {
    w != [] && forall i :: 0 <= i < |w| ==> Readable(w[i])
  }

  lemma {:induction false} OnePieceWord(p: Piece)
    ensures WrittenWord([p]) == Written(p) && WordMeaning([p]) == Meaning(p)
  {
    assert [p][1..] == [];
    assert Written(p) + "" == Written(p) && Meaning(p) + "" == Meaning(p);
  }

  lemma {:induction false} WordUnfold(w: Word)
    ensures WrittenWord(w) == if w == [] then "" else Written(w[0]) + WrittenWord(w[1..])
    ensures WordMeaning(w) == if w == [] then "" else Meaning(w[0]) + WordMeaning(w[1..])
  {
  }

  lemma {:induction false} LexWord(st: Lexer, w: Word, rest: string)
    requires st.quote.Unquoted? && forall i :: 0 <= i < |w| ==> Readable(w[i])
    ensures Lex(st, WrittenWord(w) + rest)
         == Lex(st.(current := st.current + WordMeaning(w), inWord := st.inWord || w != []), rest)
    decreases |w|
  {
    hide *;
    WordUnfold(w);
    if w == [] {
      assert WrittenWord(w) + rest == rest && st.current + WordMeaning(w) == st.current;
    } else {
      var first, others := Written(w[0]), WrittenWord(w[1..]);
      assert first + others + rest == first + (others + rest);
      LexPiece(st, w[0], others + rest);
      var st' := st.(current := st.current + Meaning(w[0]), inWord := true);
      LexWord(st', w[1..], rest);
      assert st'.current + WordMeaning(w[1..]) == st.current + (Meaning(w[0]) + WordMeaning(w[1..]));
    }
  }

  ghost predicate AllSpace(s: string) {
    forall i :: 0 <= i < |s| ==> IsSpace(s[i])
  }

  lemma {:induction false} LexSpaces(st: Lexer, gap: string, rest: string)
    requires st.quote.Unquoted? && AllSpace(gap)
    ensures Lex(st, gap + rest) == Lex(if gap == [] then st else EndWord(st), rest)
    decreases |gap|
  {
    hide Lex;
    LexUnfold(st, gap + rest);
    if gap == [] {
      assert gap + rest == rest;
    } else {
      assert (gap + rest)[1..] == gap[1..] + rest;
      LexSpaces(EndWord(st), gap[1..], rest);
    }
  }

  /** A command line: words, each followed by white space that only the last one may lack. */
  datatype Spaced = Spaced(word: Word, gap: string)

  function WrittenLine(line: seq<Spaced>): string {
    if line == [] then "" else WrittenWord(line[0].word) + line[0].gap + WrittenLine(line[1..])
  }

  function LineMeaning(line: seq<Spaced>): seq<string> {
    if line == [] then [] else [WordMeaning(line[0].word)] + LineMeaning(line[1..])
  }

  ghost predicate ReadableLine(line: seq<Spaced>) {
    && (forall i :: 0 <= i < |line| ==> ReadableWord(line[i].word) && AllSpace(line[i].gap))
    && (forall i :: 0 <= i < |line| - 1 ==> line[i].gap != [])
  }

  lemma {:induction false} LexSpacedWord(args: seq<string>, w: Word, gap: string, rest: string)
    requires ReadableWord(w) && AllSpace(gap)
    ensures Lex(Lexer(args, "", false, Unquoted), WrittenWord(w) + gap + rest)
         == Lex(if gap == [] then Lexer(args, WordMeaning(w), true, Unquoted)
                else Lexer(args + [WordMeaning(w)], "", false, Unquoted), rest)
  {
    hide Lex, WrittenWord, WordMeaning;
    assert WrittenWord(w) + gap + rest == WrittenWord(w) + (gap + rest);
    LexWord(Lexer(args, "", false, Unquoted), w, gap + rest);
    assert "" + WordMeaning(w) == WordMeaning(w);
    LexSpaces(Lexer(args, WordMeaning(w), true, Unquoted), gap, rest);
  }

  lemma {:induction false} LexLine(args: seq<string>, line: seq<Spaced>)
    requires ReadableLine(line)
    ensures var end := Lex(Lexer(args, "", false, Unquoted), WrittenLine(line));
            end.quote.Unquoted? && EndWord(end).args == args + LineMeaning(line)
    decreases |line|
  {
    hide Lex, WrittenWord, WordMeaning;
    if line == [] {
      LexUnfold(Lexer(args, "", false, Unquoted), "");
      assert args + LineMeaning(line) == args;
    } else {
      var meaning, rest := WordMeaning(line[0].word), WrittenLine(line[1..]);
      LexSpacedWord(args, line[0].word, line[0].gap, rest);
      assert args + LineMeaning(line) == args + [meaning] + LineMeaning(line[1..]);
      if line[0].gap == [] {
        assert line[1..] == [];
        LexUnfold(Lexer(args, meaning, true, Unquoted), "");
      } else {
        assert forall i :: 0 <= i < |line[1..]| ==> line[1..][i] == line[i + 1];
        LexLine(args + [meaning], line[1..]);
      }
    }
  }

  /**
   * However the words of a line are written (bare, escaped, in either quotes, in any mixture) and
   * spaced, the tokenizer returns their meanings, or names the first reserved flag among them.
   */
  lemma {:induction false} ParseReadsWords(lead: string, line: seq<Spaced>)
    requires AllSpace(lead) && ReadableLine(line)
    ensures Parse(lead + WrittenLine(line)) == CheckReserved(LineMeaning(line))
  {
    hide Lex, WrittenLine, LineMeaning, CheckReserved, ReadableLine, AllSpace;
    LexSpaces(START, lead, WrittenLine(line));
    LexLine([], line);
    assert [] + LineMeaning(line) == LineMeaning(line);
  }

  // ---------------------------------------------------------------- the quoter is undone

  function QuoteAll(words: seq<string>): (r: seq<string>)
    ensures |r| == |words|
  {
    if words == [] then [] else [ShellQuote(words[0])] + QuoteAll(words[1..])
  }

  function QuotedLine(words: seq<string>): string {
    Join(QuoteAll(words), " ")
  }

  function AsLine(words: seq<string>): (line: seq<Spaced>)
    ensures |line| == |words|
  {
    if words == [] then []
    else [Spaced([Posix(words[0])], if |words| == 1 then "" else " ")] + AsLine(words[1..])
  }

  lemma {:induction false} AsLineAt(words: seq<string>, i: nat)
    requires i < |words|
    ensures AsLine(words)[i] == Spaced([Posix(words[i])], if i == |words| - 1 then "" else " ")
  {
    if i > 0 {
      AsLineAt(words[1..], i - 1);
    }
  }

  lemma {:induction false} AsLineIsReadable(words: seq<string>)
    ensures ReadableLine(AsLine(words))
  {
    forall i | 0 <= i < |words|
      ensures AsLine(words)[i] == Spaced([Posix(words[i])], if i == |words| - 1 then "" else " ")
    {
      AsLineAt(words, i);
    }
  }

  lemma {:induction false} AsLineIsQuotedLine(words: seq<string>)
    ensures WrittenLine(AsLine(words)) == QuotedLine(words)
    ensures LineMeaning(AsLine(words)) == words
  {
    if words != [] {
      AsLineIsQuotedLine(words[1..]);
      OnePieceWord(Posix(words[0]));
      assert AsLine(words)[1..] == AsLine(words[1..]);
      assert QuoteAll(words)[1..] == QuoteAll(words[1..]);
      if |words| == 1 {
        assert WrittenLine(AsLine(words)) == ShellQuote(words[0]) + "" + "";
        assert ShellQuote(words[0]) + "" + "" == ShellQuote(words[0]);
      }
    }
  }

  /** The tokenizer undoes the quoter for every list of words, empty and hostile ones included. */
  lemma {:induction false} ParseUndoesQuote(words: seq<string>)
    ensures Parse(QuotedLine(words)) == CheckReserved(words)
  {
    AsLineIsReadable(words);
    AsLineIsQuotedLine(words);
    ParseReadsWords("", AsLine(words));
    assert "" + WrittenLine(AsLine(words)) == QuotedLine(words);
  }

  /** Quoting the words a parse returned and parsing again changes nothing. */
  lemma {:induction false} ReparseIsStable(input: string)
    requires Parse(input).Ok?
    ensures Parse(QuotedLine(Parse(input).value)) == Parse(input)
  {
    ParseUndoesQuote(Parse(input).value);
  }

  // ---------------------------------------------------------------- double quotes

  /** How the shell would have a text written inside double quotes. */
  function EscapeDouble(v: string): string {
    if v == [] then "" else (if v[0] in "\"$`" then ['\\', v[0]] else [v[0]]) + EscapeDouble(v[1..])
  }

  /**
   * Escaped text is a body that means the text, unless it ends in a backslash, which would escape the closing
   * quote.
   */
  lemma {:induction false} EscapedBody(v: string)
    ensures IsBody(EscapeDouble(v)) <==> v == [] || v[|v| - 1] != '\\'
    ensures BodyMeaning(EscapeDouble(v)) == v && IsOpenBody(EscapeDouble(v))
    ensures !IsBody(EscapeDouble(v)) ==> IsOpenBody(EscapeDouble(v) + "\"")
    ensures v != [] ==> EscapeDouble(v) != [] && EscapeDouble(v)[0] !in "\"$`"
    decreases |v|
  {
    hide IsBody, IsOpenBody, BodyMeaning;
    NoBody();
    if v != [] {
      var e, tail := EscapeDouble(v), EscapeDouble(v[1..]);
      var first := if v[0] in "\"$`" then ['\\', v[0]] else [v[0]];
      EscapedBody(v[1..]);
      assert e == first + tail && e[|first|..] == tail && e + "\"" == first + (tail + "\"");
      BodyUnfold(e);
      BodyUnfold(e + "\"");
      assert (e + "\"")[|first|..] == tail + "\"";
      if tail == [] {
        assert v == [v[0]] && e + "\"" == first + "\"";
        if v[0] == '\\' {
          assert (e + "\"")[2..] == "";
        }
      }
    }
  }

  /**
   * Double quotes are not the shell's: after them, a text is read back exactly if it does not end in
   * a backslash, because the escaped closing quote leaves the quotation open.
   */
  lemma {:induction false} DoubleQuotesReadBackExactlyWhen(v: string)
    ensures Parse("\"" + EscapeDouble(v) + "\"") == CheckReserved([v]) <==> v == [] || v[|v| - 1] != '\\'
  {
    hide Parse, IsBody, IsOpenBody, BodyMeaning, CheckReserved;
    EscapedBody(v);
    var body := EscapeDouble(v);
    var p := DoubleQuoted(body);
    if IsBody(body) {
      OnePieceWord(p);
      ParseReadsText(Input("", [], [p], Closed));
      TextOfWord([p], Closed);
      assert WrittenWord([p]) + "" == "\"" + body + "\"";
      assert LineMeaning([]) + [v] == [v];
    } else {
      ParseReadsText(Input("", [], [], OpenDouble(body + "\"")));
      TextOfWord([], OpenDouble(body + "\""));
      WordUnfold([]);
      assert WrittenText(Input("", [], [], OpenDouble(body + "\""))) == "\"" + body + "\"";
    }
  }

  // ---------------------------------------------------------------- every text

  /** How a text ends after its last word. */
  datatype Ending = Closed | OpenSingle(text: string) | OpenDouble(body: string) | LoneBackslash

  /** White space, words that white space follows, the pieces of a last word, and the ending. */
  datatype Input = Input(lead: string, line: seq<Spaced>, last: Word, end: Ending)

  function WrittenEnding(e: Ending): string {
    match e
    case Closed => ""
    case OpenSingle(text) => "'" + text
    case OpenDouble(body) => "\"" + body
    case LoneBackslash => "\\"
  }

  function WrittenText(t: Input): string {
    t.lead + (WrittenLine(t.line) + (WrittenWord(t.last) + WrittenEnding(t.end)))
  }

  ghost predicate ReadableText(t: Input) {
    && AllSpace(t.lead)
    && (forall i :: 0 <= i < |t.line| ==>
          ReadableWord(t.line[i].word) && AllSpace(t.line[i].gap) && t.line[i].gap != [])
    && (forall i :: 0 <= i < |t.last| ==> Readable(t.last[i]))
    && (t.end.OpenSingle? ==> '\'' !in t.end.text)
    && (t.end.OpenDouble? ==> IsOpenBody(t.end.body))
  }

  /** What a text means: its words, or the unclosed quotation it ends in. */
  function TextMeaning(t: Input): Result<seq<string>, OptionsError> {
    match t.end
    case OpenSingle(_) => Err(UnclosedQuote)
    case OpenDouble(_) => Err(UnclosedQuote)
    case LoneBackslash => CheckReserved(LineMeaning(t.line) + [WordMeaning(t.last) + "\\"])
    case Closed => CheckReserved(LineMeaning(t.line) + if t.last == [] then [] else [WordMeaning(t.last)])
  }

  lemma {:induction false} TextOfWord(w: Word, end: Ending)
    ensures WrittenText(Input("", [], w, end)) == WrittenWord(w) + WrittenEnding(end)
    ensures LineMeaning([]) == []
  {
    assert WrittenLine([]) == "";
    assert "" + ("" + (WrittenWord(w) + WrittenEnding(end))) == WrittenWord(w) + WrittenEnding(end);
  }

  lemma {:induction false} LexSpacedLine(args: seq<string>, line: seq<Spaced>, rest: string)
    requires forall i :: 0 <= i < |line| ==> ReadableWord(line[i].word) && AllSpace(line[i].gap) && line[i].gap != []
    ensures Lex(Lexer(args, "", false, Unquoted), WrittenLine(line) + rest)
         == Lex(Lexer(args + LineMeaning(line), "", false, Unquoted), rest)
    decreases |line|
  {
    hide Lex, WrittenWord, WordMeaning, ReadableWord, AllSpace, WrittenLine, LineMeaning;
    LineUnfold(line);
    if line == [] {
      assert WrittenLine(line) + rest == rest && args + LineMeaning(line) == args;
    } else {
      var first, others := line[0], line[1..];
      Regroup(WrittenWord(first.word) + first.gap, WrittenLine(others), rest);
      LexSpacedWord(args, first.word, first.gap, WrittenLine(others) + rest);
      LexSpacedLine(args + [WordMeaning(first.word)], others, rest);
      assert args + LineMeaning(line) == args + [WordMeaning(first.word)] + LineMeaning(others);
    }
  }

  lemma {:induction false} LineUnfold(line: seq<Spaced>)
    ensures line == [] ==> WrittenLine(line) == "" && LineMeaning(line) == []
    ensures line != [] ==>
              && WrittenLine(line) == WrittenWord(line[0].word) + line[0].gap + WrittenLine(line[1..])
              && LineMeaning(line) == [WordMeaning(line[0].word)] + LineMeaning(line[1..])
  {
  }

  lemma {:induction false} Regroup(a: string, b: string, c: string)
    ensures a + b + c == a + (b + c)
  {
  }

  lemma {:induction false} LexEnding(st: Lexer, end: Ending)
    requires st.quote.Unquoted?
    requires end.OpenSingle? ==> '\'' !in end.text
    requires end.OpenDouble? ==> IsOpenBody(end.body)
    ensures var z := Lex(st, WrittenEnding(end));
            match end
            case Closed => z == st
            case OpenSingle(_) => z.quote.Single?
            case OpenDouble(_) => z.quote.Double?
            case LoneBackslash => z == st.(current := st.current + "\\", inWord := true)
  {
    hide Lex, IsOpenBody;
    LexUnfold(st, WrittenEnding(end));
    match end
    case Closed =>
    case OpenSingle(text) =>
      var open := st.(quote := Single, inWord := true);
      assert ("'" + text)[1..] == text && text + "" == text;
      LexSingle(open, text, "");
      LexUnfold(open.(current := open.current + text), "");
    case OpenDouble(body) =>
      assert ("\"" + body)[1..] == body;
      LexOpenDouble(st.(quote := Double, inWord := true), body);
    case LoneBackslash =>
      assert "\\"[1..] == "";
      LexUnfold(st.(current := st.current + "\\", inWord := true), "");
  }

  /** A text is answered by its words, or by the error if it ends in a quotation that is never closed. */
  lemma {:induction false} ParseReadsText(t: Input)
    requires ReadableText(t)
    ensures Parse(WrittenText(t)) == TextMeaning(t)
  {
    hide Lex, WrittenLine, LineMeaning, WrittenWord, WordMeaning, CheckReserved, ReadableWord, AllSpace, IsOpenBody;
    var words, end := LineMeaning(t.line), WrittenEnding(t.end);
    LexSpaces(START, t.lead, WrittenLine(t.line) + (WrittenWord(t.last) + end));
    LexSpacedLine([], t.line, WrittenWord(t.last) + end);
    assert [] + words == words;
    LexWord(Lexer(words, "", false, Unquoted), t.last, end);
    assert "" + WordMeaning(t.last) == WordMeaning(t.last);
    LexEnding(Lexer(words, WordMeaning(t.last), t.last != [], Unquoted), t.end);
    if t.last == [] {
      WordUnfold(t.last);
      assert words + [] == words;
    }
  }

  lemma {:induction false} SplitBody(s: string) returns (closed: bool, body: string, rest: string)
    ensures closed ==> s == body + "\"" + rest && IsBody(body)
    ensures !closed ==> IsOpenBody(s)
    decreases |s|
  {
    hide IsBody, IsOpenBody, BodyMeaning;
    NoBody();
    if s == [] {
      closed, body, rest := false, "", "";
    } else if s[0] == '"' {
      closed, body, rest := true, "", s[1..];
    } else {
      var n := BodyStep(s);
      closed, body, rest := SplitBody(s[n..]);
      BodyUnfold(s);
      if closed {
        var longer := s[..n] + body;
        assert s == longer + "\"" + rest;
        BodyUnfold(longer);
        assert longer[n..] == body;
        assert longer[0] == s[0] && (|longer| > 1 ==> longer[1] == s[1]);
        body := longer;
      }
    }
  }

  /** A piece in front of a text becomes part of its first word. */
  function WithPiece(p: Piece, t: Input): Input {
    if t.lead != [] then Input("", [Spaced([p], t.lead)] + t.line, t.last, t.end)
    else if t.line != [] then
      Input("", [Spaced([p] + t.line[0].word, t.line[0].gap)] + t.line[1..], t.last, t.end)
    else Input("", [], [p] + t.last, t.end)
  }

  lemma {:induction false} PieceInFront(p: Piece, t: Input)
    requires Readable(p) && ReadableText(t)
    ensures ReadableText(WithPiece(p, t)) && WrittenText(WithPiece(p, t)) == Written(p) + WrittenText(t)
  {
    hide Written, ReadableWord, Readable, AllSpace, IsOpenBody, WrittenEnding, WrittenWord, WrittenLine;
    var u := WithPiece(p, t);
    NoSpace();
    var tail := WrittenWord(t.last) + WrittenEnding(t.end);
    if t.lead != [] {
      FrontOfLine(Spaced([p], t.lead), t.line);
      assert forall i :: 1 <= i < |u.line| ==> u.line[i] == t.line[i - 1];
      OnePieceWord(p);
      OneIsReadable(p);
      assert WrittenText(u) == "" + (Written(p) + t.lead + WrittenLine(t.line) + tail);
      assert WrittenText(u) == Written(p) + (t.lead + (WrittenLine(t.line) + tail));
    } else if t.line != [] {
      var first := t.line[0];
      FrontOfLine(first, t.line[1..]);
      FrontOfLine(Spaced([p] + first.word, first.gap), t.line[1..]);
      FrontOfWord(p, first.word);
      MoreIsReadable(p, first.word);
      assert t.line == [first] + t.line[1..];
      assert WrittenText(u) ==
             "" + (Written(p) + WrittenWord(first.word) + first.gap + WrittenLine(t.line[1..]) + tail);
      assert WrittenText(u) == Written(p) + ("" + (WrittenLine(t.line) + tail));
    } else {
      FrontOfWord(p, t.last);
      assert WrittenText(u) == "" + (WrittenLine([]) + (Written(p) + WrittenWord(t.last) + WrittenEnding(t.end)));
      NoLine();
      assert WrittenText(u) == Written(p) + ("" + ("" + tail));
    }
  }

  lemma {:induction false} NoSpace()
    ensures AllSpace("")
  {
  }

  lemma {:induction false} NoLine()
    ensures WrittenLine([]) == ""
  {
  }

  lemma {:induction false} FrontOfLine(first: Spaced, line: seq<Spaced>)
    ensures WrittenLine([first] + line) == WrittenWord(first.word) + first.gap + WrittenLine(line)
  {
    assert ([first] + line)[1..] == line;
  }

  lemma {:induction false} FrontOfWord(p: Piece, w: Word)
    ensures WrittenWord([p] + w) == Written(p) + WrittenWord(w)
  {
    assert ([p] + w)[1..] == w;
  }

  lemma {:induction false} OneIsReadable(p: Piece)
    requires Readable(p)
    ensures ReadableWord([p])
  {
  }

  lemma {:induction false} MoreIsReadable(p: Piece, w: Word)
    requires Readable(p) && ReadableWord(w)
    ensures ReadableWord([p] + w)
  {
    hide Readable;
  }

  lemma {:induction false} SpaceInFront(c: char, t: Input)
    requires IsSpace(c) && ReadableText(t)
    ensures ReadableText(t.(lead := [c] + t.lead)) && WrittenText(t.(lead := [c] + t.lead)) == [c] + WrittenText(t)
  {
    hide IsSpace, WrittenLine, WrittenWord, ReadableWord, Readable, WrittenEnding, IsOpenBody;
  }

  lemma {:induction false} OnlyEnding(end: Ending)
    requires end.OpenSingle? ==> '\'' !in end.text
    requires end.OpenDouble? ==> IsOpenBody(end.body)
    ensures ReadableText(Input("", [], [], end)) && WrittenText(Input("", [], [], end)) == WrittenEnding(end)
  {
    hide IsOpenBody;
    TextOfWord([], end);
    assert WrittenWord([]) == "";
  }

  /** What an input that does not start with white space starts with: a piece, or it is an ending. */
  lemma {:induction false} FirstPiece(input: string) returns (p: Option<Piece>, end: Ending, rest: string)
    requires input == [] || !IsSpace(input[0])
    ensures p.Some? ==> Readable(p.value) && input == Written(p.value) + rest && |rest| < |input|
    ensures p.None? ==> input == WrittenEnding(end)
                        && (end.OpenSingle? ==> '\'' !in end.text) && (end.OpenDouble? ==> IsOpenBody(end.body))
  {
    hide IsBody, IsOpenBody, IsSpace;
    p, end, rest := None, Closed, "";
    if input == [] {
    } else if input[0] == '\'' {
      var text := input[1..];
      var i := IndexOfChar(text, '\'');
      if i == |text| {
        end := OpenSingle(text);
      } else {
        p, rest := Some(SingleQuoted(text[..i])), text[i + 1..];
      }
    } else if input[0] == '"' {
      var closed, body, after := SplitBody(input[1..]);
      if closed {
        p, rest := Some(DoubleQuoted(body)), after;
      } else {
        end := OpenDouble(input[1..]);
      }
    } else if input == "\\" {
      end := LoneBackslash;
    } else if input[0] == '\\' {
      p, rest := Some(Escaped(input[1])), input[2..];
    } else {
      p, rest := Some(Bare(input[0])), input[1..];
    }
  }

  /** Every input is such a text. */
  lemma {:induction false} EveryInputIsText(input: string) returns (t: Input)
    ensures ReadableText(t) && WrittenText(t) == input
    decreases |input|
  {
    hide *;
    if input != [] && IsSpace(input[0]) {
      var rest := EveryInputIsText(input[1..]);
      t := rest.(lead := [input[0]] + rest.lead);
      SpaceInFront(input[0], rest);
      assert input == [input[0]] + input[1..];
    } else {
      var p, end, after := FirstPiece(input);
      if p.Some? {
        var rest := EveryInputIsText(after);
        t := WithPiece(p.value, rest);
        PieceInFront(p.value, rest);
      } else {
        t := Input("", [], [], end);
        OnlyEnding(end);
      }
    }
  }

  /** The unclosed quotation is reported if and only if the input ends in one. */
  lemma {:induction false} UnclosedExactlyWhen(input: string)
    ensures Parse(input) == Err(UnclosedQuote) <==>
            exists t :: ReadableText(t) && WrittenText(t) == input && (t.end.OpenSingle? || t.end.OpenDouble?)
  {
    hide ReadableText, WrittenText, Parse;
    var t := EveryInputIsText(input);
    ParseReadsText(t);
    if t' :| ReadableText(t') && WrittenText(t') == input && (t'.end.OpenSingle? || t'.end.OpenDouble?) {
      ParseReadsText(t');
    }
  }

  predicate Sets(arg: string, flag: string) {
    arg == flag || flag + "=" <= arg
  }

  /** A flag is reserved with or without a value after an equals sign. */
  lemma {:induction false} ReservedExactlyWhen(args: seq<string>)
    ensures CheckReserved(args).Err? <==>
            exists i :: 0 <= i < |args| && (exists flag :: flag in RESERVED_DOCKER_FLAGS && Sets(args[i], flag))
    ensures RESERVED_DOCKER_FLAGS == ["--name", "-d", "--detach", "--rm", "--env-file", "--restart"]
  {
    hide CheckReserved;
    forall i | 0 <= i < |args|
      ensures FlagOf(args[i]) in RESERVED_DOCKER_FLAGS <==>
              exists flag :: flag in RESERVED_DOCKER_FLAGS && Sets(args[i], flag)
    {
      ReservedArg(args[i]);
    }
  }

  lemma {:induction false} ReservedArg(arg: string)
    ensures FlagOf(arg) in RESERVED_DOCKER_FLAGS <==> exists flag :: flag in RESERVED_DOCKER_FLAGS && Sets(arg, flag)
  {
    hide FlagOf, Sets;
    NoEqualsInFlags();
    forall flag | flag in RESERVED_DOCKER_FLAGS ensures FlagOf(arg) == flag <==> Sets(arg, flag) {
      FlagIsBeforeEquals(arg, flag);
    }
  }

  lemma {:induction false} NoEqualsInFlags()
    ensures forall flag :: flag in RESERVED_DOCKER_FLAGS ==> '=' !in flag
  {
  }

  lemma {:induction false} FlagIsBeforeEquals(arg: string, flag: string)
    requires '=' !in flag
    ensures FlagOf(arg) == flag <==> Sets(arg, flag)
  {
    if flag + "=" <= arg {
      IndexAfter(flag, '=', arg[|flag| + 1..]);
      assert arg == flag + ['='] + arg[|flag| + 1..];
    }
    if FlagOf(arg) == flag && |flag| < |arg| {
      assert arg[..|flag|] == flag && arg[|flag|] == '=';
    }
  }
}
