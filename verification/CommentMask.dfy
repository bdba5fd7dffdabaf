/** maskComments and lineForIndex (scripts/check-db-ownership.js): comments blanked in place before a scan. */
module CommentMask {
  import opened Texts

  datatype State = Code | LineComment | BlockComment | Str(quote: char)

  predicate IsQuote(c: char) {
    c == '"' || c == '\'' || c == '`'
  }

  predicate Starts(s: string, a: char, b: char) {
    |s| >= 2 && s[0] == a && s[1] == b
  }

  /** A blanked character: its newline is kept. */
  function Blank(c: char): char {
    if c == '\n' then '\n' else ' '
  }

  /** The lexer's output from a state on the text ahead. */
  function Mask(state: State, s: string): (out: string)
    decreases |s|
  {
    if s == "" then ""
    else
      match state
      case LineComment =>
        [Blank(s[0])] + Mask(if s[0] == '\n' then Code else LineComment, s[1..])
      case BlockComment =>
        if Starts(s, '*', '/') then "  " + Mask(Code, s[2..]) else [Blank(s[0])] + Mask(BlockComment, s[1..])
      case Str(quote) =>
        if s[0] == '\\' then (if |s| > 1 then s[..2] + Mask(state, s[2..]) else s)
        else [s[0]] + Mask(if s[0] == quote then Code else state, s[1..])
      case Code =>
        if Starts(s, '/', '/') then "  " + Mask(LineComment, s[2..])
        else if Starts(s, '/', '*') then "  " + Mask(BlockComment, s[2..])
        else [s[0]] + Mask(if IsQuote(s[0]) then Str(s[0]) else Code, s[1..])
  }

  // ---- What the lexer takes a text to be ----

  datatype Segment =
    | Plain(c: char)
    | Quoted(quote: char, body: string, closed: bool)
    | Line(body: string)
    | Block(body: string, closed: bool)
  {
    predicate IsComment() { Line? || Block? }

    function Text(): string {
      match this
      case Plain(c) => [c]
      case Quoted(quote, body, closed) => [quote] + body + if closed then [quote] else ""
      case Line(body) => "//" + body
      case Block(body, closed) => "/*" + body + if closed then "*/" else ""
    }

    /** Comments blanked, all else as it was. */
    function Shown(): string {
      if IsComment() then BlankAll(Text()) else Text()
    }

    /** The segment is one lexeme when `rest` follows it. */
    ghost predicate Valid(rest: string) {
      match this
      case Plain(c) => !IsQuote(c) && (c == '/' && rest != "" ==> rest[0] != '/' && rest[0] != '*')
      case Quoted(quote, body, closed) => IsQuote(quote) && InString(quote, body, closed) && (closed || rest == "")
      case Line(body) => '\n' !in body && (rest == "" || rest[0] == '\n')
      case Block(body, closed) => NoEnd(body) && (closed || rest == "")
    }
  }

  function BlankAll(s: string): string {
    seq(|s|, i requires 0 <= i < |s| => Blank(s[i]))
  }

  /** What may stand between quotes: no bare quote, and a backslash takes its next character with it. */
  ghost predicate InString(quote: char, body: string, closed: bool)
    decreases |body|
  {
    if body == "" then true
    else if body[0] == '\\' then (if |body| == 1 then !closed else InString(quote, body[2..], closed))
    else body[0] != quote && InString(quote, body[1..], closed)
  }

  ghost predicate NoEnd(body: string) {
    forall i :: 0 <= i < |body| - 1 ==> !(body[i] == '*' && body[i + 1] == '/')
  }

  function Render(segments: seq<Segment>): string {
    if segments == [] then "" else segments[0].Text() + Render(segments[1..])
  }

  function Show(segments: seq<Segment>): string {
    if segments == [] then "" else segments[0].Shown() + Show(segments[1..])
  }

  ghost predicate Lexemes(segments: seq<Segment>) {
    segments == [] || (segments[0].Valid(Render(segments[1..])) && Lexemes(segments[1..]))
  }

  // ---- The mask blanks the comments and nothing else ----

  lemma LineLeft(rest: string)
    requires rest == "" || rest[0] == '\n'
    ensures Mask(LineComment, rest) == Mask(Code, rest)
  {}

  lemma InLine(s: string)
    requires s != "" && s[0] != '\n'
    ensures Mask(LineComment, s) == [Blank(s[0])] + Mask(LineComment, s[1..])
  {}

  lemma {:induction false} LineBlanked(body: string, rest: string)
    requires '\n' !in body && (rest == "" || rest[0] == '\n')
    ensures Mask(LineComment, body + rest) == BlankAll(body) + Mask(Code, rest)
  {
    hide Mask;
    if body == "" {
      assert body + rest == rest && BlankAll(body) + Mask(Code, rest) == Mask(Code, rest);
      LineLeft(rest);
    } else {
      LineBlanked(body[1..], rest);
      InLine(body + rest);
      assert (body + rest)[1..] == body[1..] + rest;
      assert BlankAll(body) == [Blank(body[0])] + BlankAll(body[1..]);
    }
  }

  lemma {:induction false} BlockBlanked(body: string, closed: bool, rest: string)
    requires NoEnd(body) && (closed || rest == "")
    ensures Mask(BlockComment, body + (if closed then "*/" else "") + rest)
         == BlankAll(body + if closed then "*/" else "") + Mask(Code, rest)
  {
    var end := if closed then "*/" else "";
    var s := body + end + rest;
    if body != "" {
      assert !Starts(s, '*', '/') by {
        assert |body| > 1 ==> s[1] == body[1];
      }
      assert s[1..] == body[1..] + end + rest;
      TailHasNoEnd(body);
      BlockBlanked(body[1..], closed, rest);
      assert BlankAll(body + end) == [Blank(body[0])] + BlankAll(body[1..] + end);
    } else if closed {
      assert s == end + rest && s[2..] == rest;
      assert BlankAll(body + end) == "  ";
    } else {
      assert s == "" && BlankAll(body + end) == "";
    }
  }

  lemma TailHasNoEnd(body: string)
    requires NoEnd(body) && body != ""
    ensures NoEnd(body[1..])
  {
    forall i | 0 <= i < |body[1..]| - 1
      ensures !(body[1..][i] == '*' && body[1..][i + 1] == '/')
    {
      assert !(body[i + 1] == '*' && body[i + 2] == '/');
    }
  }

  lemma StringHead(quote: char, s: string, n: nat)
    requires 0 < n <= |s| && s[0] != quote && n == (if s[0] == '\\' then 2 else 1)
    ensures Mask(Str(quote), s) == s[..n] + Mask(Str(quote), s[n..])
  {
    assert n == 1 ==> s[..n] == [s[0]];
  }

  lemma StringStops(quote: char, closed: bool, rest: string)
    requires IsQuote(quote) && (closed || rest == "")
    ensures closed ==> Mask(Str(quote), [quote] + rest) == [quote] + Mask(Code, rest)
    ensures !closed ==> Mask(Str(quote), "") == "" == Mask(Code, rest) && Mask(Str(quote), "\\") == "\\"
  {
    assert ([quote] + rest)[1..] == rest;
  }

  lemma {:induction false} StringKept(quote: char, body: string, closed: bool, rest: string)
    requires IsQuote(quote) && InString(quote, body, closed) && (closed || rest == "")
    ensures Mask(Str(quote), body + (if closed then [quote] else "") + rest)
         == body + (if closed then [quote] else "") + Mask(Code, rest)
    decreases |body|
  {
    var end := if closed then [quote] else "";
    StringStops(quote, closed, rest);
    hide Mask;
    if body == "" {
      assert "" + end + rest == end + rest && "" + end + Mask(Code, rest) == end + Mask(Code, rest);
    } else if body == "\\" {
      assert body + end + rest == body && body + end + Mask(Code, rest) == body;
    } else {
      var n := if body[0] == '\\' then 2 else 1;
      StringKept(quote, body[n..], closed, rest);
      assert body[n..] + end + rest == body[n..] + (end + rest);
      assert body[n..] + end + Mask(Code, rest) == body[n..] + (end + Mask(Code, rest));
      StringJoin(quote, body, n, end + rest, end + Mask(Code, rest));
      assert body + end + rest == body + (end + rest);
      assert body + end + Mask(Code, rest) == body + (end + Mask(Code, rest));
    }
  }

  lemma StringJoin(quote: char, body: string, n: nat, rest: string, out: string)
    requires IsQuote(quote) && 0 < n <= |body| && body[0] != quote && n == (if body[0] == '\\' then 2 else 1)
    requires Mask(Str(quote), body[n..] + rest) == body[n..] + out
    ensures Mask(Str(quote), body + rest) == body + out
  {
    hide Mask;
    StringHead(quote, body + rest, n);
    assert (body + rest)[..n] == body[..n] && (body + rest)[n..] == body[n..] + rest;
    assert body[..n] + (body[n..] + out) == body + out;
  }

  /** Whatever the text is lexed into, its mask is those lexemes with the comments blanked. */
  lemma {:induction false} MaskShows(segments: seq<Segment>)
    requires Lexemes(segments)
    ensures Mask(Code, Render(segments)) == Show(segments)
  {
    if segments != [] {
      MaskShows(segments[1..]);
      FirstShown(segments[0], Render(segments[1..]));
    }
  }

  lemma FirstShown(segment: Segment, rest: string)
    requires segment.Valid(rest)
    ensures Mask(Code, segment.Text() + rest) == segment.Shown() + Mask(Code, rest)
  {
    match segment
    case Plain(c) =>
      assert ([c] + rest)[1..] == rest;
    case Quoted(quote, body, closed) =>
      QuotedShown(quote, body, closed, rest);
    case Line(body) =>
      LineShown(body, rest);
    case Block(body, closed) =>
      BlockShown(body, closed, rest);
  }

  lemma QuoteText(quote: char, inner: string, rest: string)
    requires IsQuote(quote) && Mask(Str(quote), inner + rest) == inner + Mask(Code, rest)
    ensures Mask(Code, [quote] + inner + rest) == [quote] + inner + Mask(Code, rest)
  {
    var s := [quote] + inner + rest;
    assert s[1..] == inner + rest;
    assert Mask(Code, s) == [quote] + Mask(Str(quote), s[1..]);
    hide Mask;
    assert [quote] + (inner + Mask(Code, rest)) == [quote] + inner + Mask(Code, rest);
  }

  lemma QuotedShown(quote: char, body: string, closed: bool, rest: string)
    requires Quoted(quote, body, closed).Valid(rest)
    ensures Mask(Code, Quoted(quote, body, closed).Text() + rest)
         == Quoted(quote, body, closed).Text() + Mask(Code, rest)
  {
    hide Mask, InString;
    StringKept(quote, body, closed, rest);
    var inner := body + if closed then [quote] else "";
    QuoteText(quote, inner, rest);
    assert [quote] + body + (if closed then [quote] else "") == [quote] + inner;
  }

  lemma CommentHead(s: string)
    ensures Starts(s, '/', '/') ==> Mask(Code, s) == "  " + Mask(LineComment, s[2..])
    ensures Starts(s, '/', '*') ==> Mask(Code, s) == "  " + Mask(BlockComment, s[2..])
  {}

  lemma LineShown(body: string, rest: string)
    requires Line(body).Valid(rest)
    ensures Mask(Code, Line(body).Text() + rest) == Line(body).Shown() + Mask(Code, rest)
  {
    hide Mask;
    LineBlanked(body, rest);
    var s := "//" + body + rest;
    CommentHead(s);
    assert s[2..] == body + rest;
    assert BlankAll("//" + body) == "  " + BlankAll(body);
  }

  lemma BlankJoin(a: string, b: string)
    ensures BlankAll(a + b) == BlankAll(a) + BlankAll(b)
  {}

  lemma BlockShown(body: string, closed: bool, rest: string)
    requires Block(body, closed).Valid(rest)
    ensures Mask(Code, Block(body, closed).Text() + rest) == Block(body, closed).Shown() + Mask(Code, rest)
  {
    hide Mask, BlankAll;
    BlockBlanked(body, closed, rest);
    BlockText(body + if closed then "*/" else "", rest);
    assert "/*" + body + (if closed then "*/" else "") == "/*" + (body + if closed then "*/" else "");
  }

  lemma BlockText(inner: string, rest: string)
    requires Mask(BlockComment, inner + rest) == BlankAll(inner) + Mask(Code, rest)
    ensures Mask(Code, "/*" + inner + rest) == BlankAll("/*" + inner) + Mask(Code, rest)
  {
    hide Mask;
    var s := "/*" + inner + rest;
    CommentHead(s);
    assert s[2..] == inner + rest;
    BlankJoin("/*", inner);
    assert BlankAll("/*") == "  ";
    assert "  " + (BlankAll(inner) + Mask(Code, rest)) == "  " + BlankAll(inner) + Mask(Code, rest);
  }

  // ---- Every text has lexemes ----

  lemma {:induction false} LineEnd(s: string) returns (body: string, rest: string)
    ensures s == body + rest && '\n' !in body && (rest == "" || rest[0] == '\n')
  {
    if s == "" || s[0] == '\n' {
      body, rest := "", s;
    } else {
      body, rest := LineEnd(s[1..]);
      body := [s[0]] + body;
    }
  }

  lemma {:induction false} BlockEnd(s: string) returns (body: string, closed: bool, rest: string)
    ensures s == body + (if closed then "*/" else "") + rest && NoEnd(body) && (closed || rest == "")
  {
    if s == "" {
      body, closed, rest := "", false, "";
    } else if Starts(s, '*', '/') {
      body, closed, rest := "", true, s[2..];
    } else {
      var tail: string;
      tail, closed, rest := BlockEnd(s[1..]);
      body := [s[0]] + tail;
      assert forall i :: 0 < i < |body| ==> body[i] == tail[i - 1];
      assert |tail| > 0 ==> tail[0] == s[1];
    }
  }

  lemma {:induction false} StringEnd(quote: char, s: string) returns (body: string, closed: bool, rest: string)
    requires IsQuote(quote)
    ensures s == body + (if closed then [quote] else "") + rest
    ensures InString(quote, body, closed) && (closed || rest == "")
    decreases |s|
  {
    if s == "" || s == "\\" {
      body, closed, rest := s, false, "";
    } else if s[0] == quote {
      body, closed, rest := "", true, s[1..];
    } else {
      var n := if s[0] == '\\' then 2 else 1;
      var tail: string;
      tail, closed, rest := StringEnd(quote, s[n..]);
      body := s[..n] + tail;
      assert body[n..] == tail;
    }
  }

  /** Any text at all is lexed, unterminated comments and strings included. */
  lemma {:induction false} EveryTextHasLexemes(s: string) returns (segments: seq<Segment>)
    ensures Lexemes(segments) && Render(segments) == s
    decreases |s|
  {
    if s == "" {
      segments := [];
    } else {
      var first: Segment, rest: string;
      if Starts(s, '/', '/') {
        var body;
        body, rest := LineEnd(s[2..]);
        first := Line(body);
      } else if Starts(s, '/', '*') {
        var body, closed;
        body, closed, rest := BlockEnd(s[2..]);
        first := Block(body, closed);
      } else if IsQuote(s[0]) {
        var body, closed;
        body, closed, rest := StringEnd(s[0], s[1..]);
        first := Quoted(s[0], body, closed);
      } else {
        first, rest := Plain(s[0]), s[1..];
      }
      assert s == first.Text() + rest;
      var others := EveryTextHasLexemes(rest);
      segments := [first] + others;
      assert segments[1..] == others;
    }
  }

  // ---- Positions ----

  /** The state after the lexeme at the head of `s`, and how much of `s` it takes. */
  function NextState(state: State, s: string): (State, nat)
    requires s != ""
    ensures 0 < NextState(state, s).1 <= |s|
  {
    match state
    case LineComment => (if s[0] == '\n' then Code else LineComment, 1)
    case BlockComment => if Starts(s, '*', '/') then (Code, 2) else (BlockComment, 1)
    case Str(quote) =>
      if s[0] == '\\' then (state, if |s| > 1 then 2 else 1) else (if s[0] == quote then Code else state, 1)
    case Code =>
      if Starts(s, '/', '/') then (LineComment, 2)
      else if Starts(s, '/', '*') then (BlockComment, 2)
      else (if IsQuote(s[0]) then Str(s[0]) else Code, 1)
  }

  function Emitted(state: State, s: string): string
    requires s != ""
  {
    match state
    case LineComment => [Blank(s[0])]
    case BlockComment => if Starts(s, '*', '/') then "  " else [Blank(s[0])]
    case Str(quote) => s[..NextState(state, s).1]
    case Code => if Starts(s, '/', '/') || Starts(s, '/', '*') then "  " else [s[0]]
  }

  lemma MaskStep(state: State, s: string)
    requires s != ""
    ensures Mask(state, s) == Emitted(state, s) + Mask(NextState(state, s).0, s[NextState(state, s).1..])
  {
    if state.Str? {
      assert s[..1] == [s[0]];
      assert |s| == 1 ==> s[..1] == s && s[1..] == "";
    }
  }

  /** Same length, same newlines, and a character is blanked or left alone. */
  lemma {:induction false} MaskKeepsPositions(state: State, s: string)
    ensures |Mask(state, s)| == |s|
    ensures forall i :: 0 <= i < |s| ==> Mask(state, s)[i] == s[i] || Mask(state, s)[i] == Blank(s[i])
    decreases |s|
  {
    if s == "" {
      NothingLeft(state);
    } else {
      MaskStep(state, s);
      EmittedInPlace(state, s);
      hide Mask, NextState, Emitted, Blank;
      var (next, n) := NextState(state, s);
      MaskKeepsPositions(next, s[n..]);
    }
  }

  lemma EmittedInPlace(state: State, s: string)
    requires s != ""
    ensures |Emitted(state, s)| == NextState(state, s).1
    ensures forall i :: 0 <= i < |Emitted(state, s)| ==>
              Emitted(state, s)[i] == s[i] || Emitted(state, s)[i] == Blank(s[i])
  {}

  /** Masking a mask changes nothing: no new comment appears where one was blanked. */
  lemma {:induction false} MaskIsIdempotent(state: State, s: string)
    ensures Mask(if state.Str? then state else Code, Mask(state, s)) == Mask(state, s)
    decreases |s|
  {
    if s != "" {
      var out := Mask(state, s);
      MaskKeepsPositions(state, s);
      match state {
        case LineComment =>
          var next := if s[0] == '\n' then Code else LineComment;
          MaskIsIdempotent(next, s[1..]);
          assert out[1..] == Mask(next, s[1..]);
        case BlockComment =>
          if Starts(s, '*', '/') {
            MaskIsIdempotent(Code, s[2..]);
            BlankStep(out, Mask(Code, s[2..]));
          } else {
            MaskIsIdempotent(BlockComment, s[1..]);
            assert out[1..] == Mask(BlockComment, s[1..]);
          }
        case Str(quote) =>
          StringStep(quote, s);
        case Code =>
          if Starts(s, '/', '/') {
            MaskIsIdempotent(LineComment, s[2..]);
            BlankStep(out, Mask(LineComment, s[2..]));
          } else if Starts(s, '/', '*') {
            MaskIsIdempotent(BlockComment, s[2..]);
            BlankStep(out, Mask(BlockComment, s[2..]));
          } else {
            var next := if IsQuote(s[0]) then Str(s[0]) else Code;
            MaskIsIdempotent(next, s[1..]);
            MaskKeepsPositions(next, s[1..]);
            assert out[1..] == Mask(next, s[1..]);
          }
      }
    }
  }

  lemma BlankStep(out: string, tail: string)
    requires out == "  " + tail && Mask(Code, tail) == tail
    ensures Mask(Code, out) == out
  {
    assert out[1..] == " " + tail && out[1..][1..] == tail;
    assert Mask(Code, out[1..]) == " " + tail;
  }

  lemma StringStep(quote: char, s: string)
    requires s != ""
    ensures Mask(Str(quote), Mask(Str(quote), s)) == Mask(Str(quote), s)
    decreases |s|, 0
  {
    var out := Mask(Str(quote), s);
    if s[0] == '\\' {
      if |s| > 1 {
        MaskIsIdempotent(Str(quote), s[2..]);
        assert out[2..] == Mask(Str(quote), s[2..]) && out[..2] == s[..2];
      }
    } else {
      var next := if s[0] == quote then Code else Str(quote);
      MaskIsIdempotent(next, s[1..]);
      assert out[1..] == Mask(next, s[1..]);
    }
  }

  // ---- Lines ----

  function Lines(s: string): (lines: seq<string>)
    ensures |lines| > 0
  {
    Split(s, '\n')
  }

  function Unlines(lines: seq<string>): string
    requires |lines| > 0
  {
    Join(lines, '\n')
  }

  /** The line number of a match; the slice stops at the text's end. */
  function LineForIndex(text: string, index: nat): nat {
    |Lines(text[..if index < |text| then index else |text|])|
  }

  ghost predicate SameNewlines(s: string, t: string) {
    |s| == |t| && forall i :: 0 <= i < |s| ==> (s[i] == '\n' <==> t[i] == '\n')
  }

  lemma {:induction false} SameLineCount(s: string, t: string)
    requires SameNewlines(s, t)
    ensures |Lines(s)| == |Lines(t)|
  {
    if s != "" {
      assert SameNewlines(s[1..], t[1..]) by {
        assert forall i :: 0 <= i < |s[1..]| ==> s[1..][i] == s[i + 1] && t[1..][i] == t[i + 1];
      }
      SameLineCount(s[1..], t[1..]);
    }
  }

  // ---- Python files: each line from its first hash on ----

  function FirstHash(line: string): (k: nat)
    ensures k <= |line| && (forall i :: 0 <= i < k ==> line[i] != '#') && (k < |line| ==> line[k] == '#')
  {
    if line == "" || line[0] == '#' then 0 else 1 + FirstHash(line[1..])
  }

  function MaskLine(line: string): (out: string)
    ensures |out| == |line|
  {
    var k := FirstHash(line);
    line[..k] + seq(|line| - k, i => ' ')
  }

  function MaskLines(lines: seq<string>): (out: seq<string>)
    ensures |out| == |lines| && forall i :: 0 <= i < |lines| ==> out[i] == MaskLine(lines[i])
  {
    seq(|lines|, i requires 0 <= i < |lines| => MaskLine(lines[i]))
  }

  function MaskPython(s: string): string {
    Unlines(MaskLines(Lines(s)))
  }

  /** A hash stands at or before position i on its line. */
  predicate Hashed(s: string, i: nat)
    requires i < |s|
  {
    s[i] != '\n' && (s[i] == '#' || (i > 0 && Hashed(s, i - 1)))
  }

  /** What comes out of the rest of a line that is already blanked (or is not) and of the lines after it. */
  function Hashes(on: bool, s: string): (out: string)
    ensures |out| == |s|
    decreases |s|
  {
    if s == "" then ""
    else
      var here := s[0] != '\n' && (on || s[0] == '#');
      [if here then ' ' else s[0]] + Hashes(here, s[1..])
  }

  lemma {:induction false} HashesAt(on: bool, s: string, i: nat)
    requires i < |s|
    ensures Hashes(on, s)[i] == if Hashed(s, i) || (on && '\n' !in s[..i + 1]) then ' ' else s[i]
    decreases |s|
  {
    if i > 0 {
      var here := s[0] != '\n' && (on || s[0] == '#');
      HashesAt(here, s[1..], i - 1);
      HashedLater(s, i);
      assert s[..i + 1] == [s[0]] + s[1..][..i];
    }
  }

  lemma {:induction false} HashedLater(s: string, i: nat)
    requires 0 < i < |s|
    ensures Hashed(s, i) <==> Hashed(s[1..], i - 1) || (s[0] == '#' && '\n' !in s[..i + 1])
  {
    assert s[..i + 1] == s[..i] + [s[i]];
    if i > 1 {
      HashedLater(s, i - 1);
    } else {
      assert s[..i] == [s[0]];
    }
  }

  /** A line whose start `on` says is already inside a comment. */
  function Rest(on: bool, line: string): string {
    if on then seq(|line|, i => ' ') else MaskLine(line)
  }

  lemma {:induction false} JoinHashes(on: bool, s: string)
    ensures Unlines([Rest(on, Lines(s)[0])] + MaskLines(Lines(s)[1..])) == Hashes(on, s)
    decreases |s|
  {
    if s == "" {
      assert MaskLines(Lines(s)[1..]) == [] && Rest(on, "") == "";
    } else {
      var after := Lines(s[1..]);
      JoinHashes(s[0] != '\n' && (on || s[0] == '#'), s[1..]);
      if s[0] == '\n' {
        JoinNewline(on, after);
      } else {
        RestHead(on, s[0], after[0]);
        var here := on || s[0] == '#';
        JoinHead(if here then ' ' else s[0], Rest(here, after[0]), MaskLines(after[1..]));
      }
    }
  }

  lemma JoinNewline(on: bool, after: seq<string>)
    requires |after| > 0
    ensures Unlines([Rest(on, "")] + MaskLines(after))
         == "\n" + Unlines([Rest(false, after[0])] + MaskLines(after[1..]))
  {
    assert Rest(on, "") == "";
    JoinFirst("", MaskLines(after), '\n');
    assert MaskLines(after) == [Rest(false, after[0])] + MaskLines(after[1..]);
    hide Rest, MaskLines, Join;
    assert "" + ['\n'] + Join(MaskLines(after), '\n') == "\n" + Unlines(MaskLines(after));
  }

  lemma RestHead(on: bool, c: char, line: string)
    ensures Rest(on, [c] + line) == [if on || c == '#' then ' ' else c] + Rest(on || c == '#', line)
  {
    MaskLineHead(c, line);
  }

  lemma MaskLineHead(c: char, line: string)
    ensures MaskLine([c] + line) == if c == '#' then [' '] + seq(|line|, i => ' ') else [c] + MaskLine(line)
  {
    assert ([c] + line)[1..] == line;
  }

  lemma JoinHead(c: char, line: string, lines: seq<string>)
    ensures Unlines([[c] + line] + lines) == [c] + Unlines([line] + lines)
  {
    assert ([[c] + line] + lines)[1..] == lines && ([line] + lines)[1..] == lines;
    if lines != [] {
      assert [c] + line + "\n" + Unlines(lines) == [c] + (line + "\n" + Unlines(lines));
    }
  }

  /** A character of a Python file is blanked exactly when a hash stands at or before it on its line. */
  lemma PythonBlanksFromHash(s: string)
    ensures |MaskPython(s)| == |s|
    ensures forall i :: 0 <= i < |s| ==> MaskPython(s)[i] == if Hashed(s, i) then ' ' else s[i]
  {
    var lines := Lines(s);
    JoinHashes(false, s);
    assert [MaskLine(lines[0])] + MaskLines(lines[1..]) == MaskLines(lines);
    forall i | 0 <= i < |s|
      ensures Hashes(false, s)[i] == if Hashed(s, i) then ' ' else s[i]
    {
      HashesAt(false, s, i);
    }
  }

  lemma {:induction false} NoHashLeft(s: string, t: string, i: nat)
    requires i < |s| == |t| && forall k :: 0 <= k < |s| ==> t[k] == if Hashed(s, k) then ' ' else s[k]
    ensures !Hashed(t, i)
  {
    if i > 0 {
      NoHashLeft(s, t, i - 1);
    }
  }

  lemma PythonMaskIsIdempotent(s: string)
    ensures MaskPython(MaskPython(s)) == MaskPython(s)
  {
    hide MaskPython, Hashed;
    var t := MaskPython(s);
    PythonBlanksFromHash(s);
    PythonBlanksFromHash(t);
    forall i | 0 <= i < |t|
      ensures MaskPython(t)[i] == t[i]
    {
      NoHashLeft(s, t, i);
    }
  }

  /** In a Python file a hash inside a string counts as a comment: the string's contents are lost. */
  lemma PythonStringsNotKept(body: string)
    requires body != "" && '\n' !in body && body[0] != ' '
    ensures MaskPython("'#" + body + "'") != "'#" + body + "'"
  {
    var s := "'#" + body + "'";
    PythonBlanksFromHash(s);
    assert s[1] == '#' && Hashed(s, 1);
  }

  // ---- maskComments ----

  function Masked(text: string, python: bool): string {
    if python then MaskPython(text) else Mask(Code, text)
  }

  /** Length and newlines are kept and masking twice is masking once, for either kind of file. */
  lemma MaskedKeeps(text: string, python: bool)
    ensures SameNewlines(Masked(text, python), text)
    ensures Masked(Masked(text, python), python) == Masked(text, python)
  {
    hide MaskPython, Mask;
    if python {
      PythonBlanksFromHash(text);
      PythonMaskIsIdempotent(text);
    } else {
      MaskKeepsPositions(Code, text);
      MaskIsIdempotent(Code, text);
    }
  }

  /** A match found in the masked text is reported on its line of the original. */
  lemma MatchLineIsOriginalLine(text: string, python: bool, index: nat)
    ensures LineForIndex(Masked(text, python), index) == LineForIndex(text, index)
  {
    hide Masked, Split;
    MaskedKeeps(text, python);
    var n := if index < |text| then index else |text|;
    SameLineCount(Masked(text, python)[..n], text[..n]);
  }

  lemma NothingLeft(state: State)
    ensures Mask(state, "") == ""
  {}

  lemma StepJoin(before: string, lexeme: string, after: string)
    ensures before + (lexeme + after) == before + lexeme + after
  {}

  method MaskPythonLines(text: string) returns (out: string)
    ensures out == MaskPython(text)
  {
    var lines := Lines(text);
    var masked: seq<string> := [];
    for k := 0 to |lines|
      invariant masked == MaskLines(lines[..k])
    {
      var idx := FirstHash(lines[k]);
      masked := masked + [lines[k][..idx] + seq(|lines[k]| - idx, i => ' ')];
    }
    assert lines[..|lines|] == lines;
    out := Unlines(masked);
  }

  method MaskScript(text: string) returns (out: string)
    ensures out == Mask(Code, text)
  {
    hide Mask, Emitted, NextState;
    out := "";
    var i, state := 0, Code;
    assert text[0..] == text && "" + Mask(Code, text) == Mask(Code, text);
    while i < |text|
      invariant i <= |text| && out + Mask(state, text[i..]) == Mask(Code, text)
    {
      ghost var ahead, before, was, from := text[i..], out, state, i;
      var lexeme;
      lexeme, state, i := NextLexeme(text, i, state);
      out := out + lexeme;
      MaskStep(was, ahead);
      assert ahead[i - from..] == text[i..];
      StepJoin(before, lexeme, Mask(state, text[i..]));
    }
    NothingLeft(state);
    assert text[i..] == "";
    assert out + "" == out;
  }

  /** One turn of the loop. */
  method NextLexeme(text: string, i0: nat, state0: State) returns (out: string, state: State, i: nat)
    requires i0 < |text|
    ensures i0 < i <= |text| && (state, i - i0) == NextState(state0, text[i0..]) && out == Emitted(state0, text[i0..])
  {
    i, state := i0, state0;
    var ch := text[i];
    if state == LineComment {
      if ch == '\n' {
        out, state := "\n", Code;
      } else {
        out := " ";
      }
      i := i + 1;
    } else if state == BlockComment {
      if ch == '*' && i + 1 < |text| && text[i + 1] == '/' {
        out, i, state := "  ", i + 2, Code;
      } else {
        out, i := if ch == '\n' then "\n" else " ", i + 1;
      }
    } else if state.Str? {
      out := [ch];
      if ch == '\\' {
        if i + 1 < |text| {
          out, i := out + [text[i + 1]], i + 2;
        } else {
          i := i + 1;
        }
      } else {
        if ch == state.quote {
          state := Code;
        }
        i := i + 1;
      }
    } else if ch == '/' && i + 1 < |text| && text[i + 1] == '/' {
      out, i, state := "  ", i + 2, LineComment;
    } else if ch == '/' && i + 1 < |text| && text[i + 1] == '*' {
      out, i, state := "  ", i + 2, BlockComment;
    } else {
      if IsQuote(ch) {
        state := Str(ch);
      }
      out, i := [ch], i + 1;
    }
  }

  method MaskComments(text: string, file: string) returns (out: string)
    ensures out == Masked(text, |file| >= 3 && file[|file| - 3..] == ".py")
  {
    if |file| >= 3 && file[|file| - 3..] == ".py" {
      out := MaskPythonLines(text);
    } else {
      out := MaskScript(text);
    }
  }
}
