/** Net brace counts of a line of Go (contract/runtime.go): literals and comments are
    skipped. */
module Braces {

  // ----------------------------------------------------- the scanners, as functions

  predicate IsQuote(c: char) {
    c == '"' || c == '`' || c == '\''
  }

  predicate IsBlank(c: char) {
    c == ' ' || c == '\t' || c == '\r' || c == '\n'
  }

  /** Past the end of the literal whose quote was opened before i. */
  function EndOfString(src: string, i: nat, quote: char): (j: nat)
    ensures j >= i
    decreases |src| - i
  {
    if i >= |src| then i
    else if src[i] == '\\' && quote != '`' then EndOfString(src, i + 2, quote)
    else if src[i] == quote then i + 1
    else EndOfString(src, i + 1, quote)
  }

  function EndOfLine(src: string, i: nat): (j: nat)
    ensures j >= i
    decreases |src| - i
  {
    if i < |src| && src[i] != '\n' then EndOfLine(src, i + 1) else i
  }

  /** Past the end of the block comment whose text starts at i. */
  function EndOfBlock(src: string, i: nat): (j: nat)
    ensures j >= i + 2
    decreases |src| - i
  {
    if i + 1 < |src| && (src[i] != '*' || src[i + 1] != '/') then EndOfBlock(src, i + 1) else i + 2
  }

  predicate CommentAt(src: string, i: nat) {
    i + 1 < |src| && src[i] == '/' && (src[i + 1] == '/' || src[i + 1] == '*')
  }

  function EndOfComment(src: string, i: nat): (j: nat)
    requires CommentAt(src, i)
    ensures j > i
  {
    if src[i + 1] == '/' then EndOfLine(src, i + 2) else EndOfBlock(src, i + 2)
  }

  /** Past blanks, comments and literals. */
  function Ignored(src: string, i: nat): (j: nat)
    ensures j >= i
    decreases |src| - i
  {
    if i >= |src| then i
    else if IsBlank(src[i]) then Ignored(src, i + 1)
    else if CommentAt(src, i) then Ignored(src, EndOfComment(src, i))
    else if IsQuote(src[i]) then Ignored(src, EndOfString(src, i + 1, src[i]))
    else i
  }

  /** Opening minus closing braces from i on, literals and comments left out. */
  function DeltaFrom(src: string, i: nat): int
    decreases |src| - i
  {
    if i >= |src| then 0
    else if IsQuote(src[i]) then DeltaFrom(src, EndOfString(src, i + 1, src[i]))
    else if CommentAt(src, i) then
      var j := Ignored(src, EndOfComment(src, i));
      DeltaFrom(src, if j < |src| && src[j] == '\n' then j + 1 else j)
    else BraceValue(src[i]) + DeltaFrom(src, i + 1)
  }

  function BraceValue(c: char): int {
    if c == '{' then 1 else if c == '}' then -1 else 0
  }

  // ------------------------------------------------------ the scanners, as they run

  method SkipStringLiteral(src: string, start: nat) returns (i: nat)
    requires start < |src|
    ensures i == EndOfString(src, start + 1, src[start])
  {
    var quote := src[start];
    i := start + 1;
    while i < |src|
      invariant i >= start + 1
      invariant EndOfString(src, i, quote) == EndOfString(src, start + 1, quote)
      decreases |src| - i
    {
      var c := src[i];
      if c == '\\' && quote != '`' {
        i := i + 2;
        continue;
      }
      if c == quote {
        return i + 1;
      }
      i := i + 1;
    }
  }

  method SkipLineComment(src: string, start: nat) returns (i: nat)
    requires CommentAt(src, start) && src[start + 1] == '/'
    ensures i == EndOfComment(src, start)
  {
    i := start;
    while i < |src| && src[i] != '\n'
      invariant i >= start
      invariant EndOfLine(src, i) == EndOfLine(src, start)
      decreases |src| - i
    {
      i := i + 1;
    }
  }

  method SkipBlockComment(src: string, start: nat) returns (i: nat)
    requires CommentAt(src, start) && src[start + 1] == '*'
    ensures i == EndOfComment(src, start)
  {
    i := start + 2;
    while i + 1 < |src| && (src[i] != '*' || src[i + 1] != '/')
      invariant i >= start + 2
      invariant EndOfBlock(src, i) == EndOfBlock(src, start + 2)
      decreases |src| - i
    {
      i := i + 1;
    }
    i := i + 2;
  }

  method SkipIgnored(src: string, start: nat) returns (i: nat)
    ensures i == Ignored(src, start)
  {
    i := start;
    while i < |src|
      invariant i >= start
      invariant Ignored(src, i) == Ignored(src, start)
      decreases |src| - i
    {
      if IsBlank(src[i]) {
        i := i + 1;
      } else if src[i] == '/' {
        if i + 1 >= |src| {
          return;
        }
        if src[i + 1] == '/' {
          i := SkipLineComment(src, i);
        } else if src[i + 1] == '*' {
          i := SkipBlockComment(src, i);
        } else {
          return;
        }
      } else if IsQuote(src[i]) {
        i := SkipStringLiteral(src, i);
      } else {
        return;
      }
    }
  }

  method BraceDelta(line: string) returns (delta: int)
    ensures delta == DeltaFrom(line, 0)
  {
    delta := 0;
    var i := 0;
    while i < |line|
      invariant delta + DeltaFrom(line, i) == DeltaFrom(line, 0)
      decreases |line| - i
    {
      if IsQuote(line[i]) {
        i := SkipStringLiteral(line, i);
        continue;
      }
      if line[i] == '/' {
        if i + 1 < |line| && (line[i + 1] == '/' || line[i + 1] == '*') {
          i := SkipIgnored(line, i);
          if i < |line| && line[i] == '\n' {
            i := i + 1;
          }
          continue;
        }
      } else if line[i] == '{' {
        delta := delta + 1;
      } else if line[i] == '}' {
        delta := delta - 1;
      }
      i := i + 1;
    }
  }

  // ---------------------------------------------------- what the count is a count of

  /** A character of a quoted literal: itself, or behind a backslash. */
  datatype Unit = Plain(c: char) | Escaped(c: char)

  datatype Token =
    | Code(c: char)
    | Quoted(quote: char, units: seq<Unit>)   // "..." or '...'
    | Raw(body: string)                       // `...`
    | Block(body: string)                     // /*...*/
    | Line(body: string)                      // //... to the end of the line

  predicate UnitOk(u: Unit, quote: char) {
    u.Plain? ==> u.c != quote && u.c != '\\'
  }

  predicate TokenOk(t: Token) {
    match t
    case Code(c) => !IsQuote(c)
    case Quoted(quote, units) =>
      (quote == '"' || quote == '\'') && forall i :: 0 <= i < |units| ==> UnitOk(units[i], quote)
    case Raw(body) => forall i :: 0 <= i < |body| ==> body[i] != '`'
    case Block(body) => forall i :: 0 <= i < |body| - 1 ==> body[i] != '*' || body[i + 1] != '/'
    case Line(body) => forall i :: 0 <= i < |body| ==> body[i] != '\n'
  }

  function UnitText(u: Unit): string {
    match u
    case Plain(c) => [c]
    case Escaped(c) => ['\\', c]
  }

  function UnitsText(us: seq<Unit>): string {
    if us == [] then "" else UnitText(us[0]) + UnitsText(us[1..])
  }

  function TokenText(t: Token): string {
    match t
    case Code(c) => [c]
    case Quoted(quote, units) => [quote] + UnitsText(units) + [quote]
    case Raw(body) => "`" + body + "`"
    case Block(body) => "/*" + body + "*/"
    case Line(body) => "//" + body
  }

  function Text(ts: seq<Token>): string {
    if ts == [] then "" else TokenText(ts[0]) + Text(ts[1..])
  }

  /** Tokens that read back as themselves: a slash in code starts no comment, and
      nothing follows a line comment. */
  ghost predicate Lexed(ts: seq<Token>) {
    ts == [] || (
      && TokenOk(ts[0])
      && (ts[0] == Code('/') ==> Text(ts[1..]) == "" || (Text(ts[1..])[0] != '/' && Text(ts[1..])[0] != '*'))
      && (ts[0].Line? ==> ts[1..] == [])
      && Lexed(ts[1..]))
  }

  /** The net braces among the code tokens. */
  function CodeDelta(ts: seq<Token>): int {
    if ts == [] then 0 else (if ts[0].Code? then BraceValue(ts[0].c) else 0) + CodeDelta(ts[1..])
  }

  lemma {:induction false} DeltaSkipsIgnored(src: string, i: nat)
    ensures DeltaFrom(src, i) == DeltaFrom(src, Ignored(src, i))
    decreases |src| - i
  {
    if i < |src| {
      if IsBlank(src[i]) {
        DeltaSkipsIgnored(src, i + 1);
      } else if CommentAt(src, i) {
        IgnoredStops(src, EndOfComment(src, i));
      } else if IsQuote(src[i]) {
        DeltaSkipsIgnored(src, EndOfString(src, i + 1, src[i]));
      }
    }
  }

  lemma {:induction false} IgnoredStops(src: string, i: nat)
    ensures Ignored(src, i) < |src| ==> !IsBlank(src[Ignored(src, i)])
    decreases |src| - i
  {
    if i < |src| {
      if IsBlank(src[i]) {
        IgnoredStops(src, i + 1);
      } else if CommentAt(src, i) {
        IgnoredStops(src, EndOfComment(src, i));
      } else if IsQuote(src[i]) {
        IgnoredStops(src, EndOfString(src, i + 1, src[i]));
      }
    }
  }

  /** A comment contributes nothing: the count goes on right behind it. */
  lemma DeltaSkipsComment(src: string, i: nat)
    requires CommentAt(src, i)
    ensures DeltaFrom(src, i) == DeltaFrom(src, EndOfComment(src, i))
  {
    IgnoredStops(src, EndOfComment(src, i));
    DeltaSkipsIgnored(src, EndOfComment(src, i));
  }

  /** text stands in src at position i. */
  predicate At(src: string, i: nat, text: string) {
    i + |text| <= |src| && src[i..i + |text|] == text
  }

  lemma AtHead(src: string, i: nat, text: string)
    requires At(src, i, text) && text != ""
    ensures i < |src| && src[i] == text[0]
    ensures |text| > 1 ==> src[i + 1] == text[1]
  {
    assert src[i..i + |text|][0] == text[0];
    assert |text| > 1 ==> src[i..i + |text|][1] == text[1];
  }

  lemma AtSplit(src: string, i: nat, a: string, b: string)
    requires At(src, i, a + b)
    ensures At(src, i, a) && At(src, i + |a|, b)
  {
    var whole := src[i..i + |a + b|];
    assert whole[..|a|] == (a + b)[..|a|] == a;
    assert whole[|a|..] == (a + b)[|a|..] == b;
  }

  lemma {:induction false} QuotedEnds(src: string, i: nat, us: seq<Unit>, quote: char)
    requires quote != '`' && quote != '\\'
    requires forall k :: 0 <= k < |us| ==> UnitOk(us[k], quote)
    requires At(src, i, UnitsText(us)) && At(src, i + |UnitsText(us)|, [quote])
    ensures EndOfString(src, i, quote) == i + |UnitsText(us)| + 1
    decreases |us|
  {
    if us == [] {
      AtHead(src, i, [quote]);
    } else {
      AtSplit(src, i, UnitText(us[0]), UnitsText(us[1..]));
      AtHead(src, i, UnitText(us[0]));
      QuotedEnds(src, i + |UnitText(us[0])|, us[1..], quote);
    }
  }

  lemma {:induction false} RawEnds(src: string, i: nat, body: string)
    requires forall k :: 0 <= k < |body| ==> body[k] != '`'
    requires At(src, i, body) && At(src, i + |body|, "`")
    ensures EndOfString(src, i, '`') == i + |body| + 1
    decreases |body|
  {
    if body == "" {
      AtHead(src, i, "`");
    } else {
      AtHead(src, i, body);
      assert body == [body[0]] + body[1..];
      AtSplit(src, i, [body[0]], body[1..]);
      RawEnds(src, i + 1, body[1..]);
    }
  }

  lemma {:induction false} BlockEnds(src: string, i: nat, body: string)
    requires forall k :: 0 <= k < |body| - 1 ==> body[k] != '*' || body[k + 1] != '/'
    requires At(src, i, body) && At(src, i + |body|, "*/")
    ensures EndOfBlock(src, i) == i + |body| + 2
    decreases |body|
  {
    AtHead(src, i + |body|, "*/");
    if body != "" {
      AtHead(src, i, body);
      assert body == [body[0]] + body[1..];
      AtSplit(src, i, [body[0]], body[1..]);
      BlockEnds(src, i + 1, body[1..]);
    }
  }

  lemma {:induction false} LineEnds(src: string, i: nat, body: string)
    requires forall k :: 0 <= k < |body| ==> body[k] != '\n'
    requires At(src, i, body) && i + |body| == |src|
    ensures EndOfLine(src, i) == |src|
    decreases |body|
  {
    if body != "" {
      AtHead(src, i, body);
      assert body == [body[0]] + body[1..];
      AtSplit(src, i, [body[0]], body[1..]);
      LineEnds(src, i + 1, body[1..]);
    }
  }

  lemma CharDelta(src: string, i: nat)
    requires i < |src| && !IsQuote(src[i]) && !CommentAt(src, i)
    ensures DeltaFrom(src, i) == BraceValue(src[i]) + DeltaFrom(src, i + 1)
  {
  }

  lemma QuotedDelta(src: string, i: nat, quote: char, units: seq<Unit>)
    requires TokenOk(Quoted(quote, units)) && At(src, i, TokenText(Quoted(quote, units)))
    ensures DeltaFrom(src, i) == DeltaFrom(src, i + |TokenText(Quoted(quote, units))|)
  {
    AtSplit(src, i, [quote] + UnitsText(units), [quote]);
    AtSplit(src, i, [quote], UnitsText(units));
    AtHead(src, i, [quote]);
    QuotedEnds(src, i + 1, units, quote);
    hide DeltaFrom, EndOfString;
  }

  lemma RawDelta(src: string, i: nat, body: string)
    requires TokenOk(Raw(body)) && At(src, i, TokenText(Raw(body)))
    ensures DeltaFrom(src, i) == DeltaFrom(src, i + |TokenText(Raw(body))|)
  {
    AtSplit(src, i, "`" + body, "`");
    AtSplit(src, i, "`", body);
    AtHead(src, i, "`");
    RawEnds(src, i + 1, body);
    hide DeltaFrom, EndOfString;
  }

  lemma BlockDelta(src: string, i: nat, body: string)
    requires TokenOk(Block(body)) && At(src, i, TokenText(Block(body)))
    ensures DeltaFrom(src, i) == DeltaFrom(src, i + |TokenText(Block(body))|)
  {
    AtSplit(src, i, "/*" + body, "*/");
    AtSplit(src, i, "/*", body);
    AtHead(src, i, "/*");
    BlockEnds(src, i + 2, body);
    hide DeltaFrom, EndOfBlock;
    DeltaSkipsComment(src, i);
  }

  lemma LineDelta(src: string, i: nat, body: string)
    requires TokenOk(Line(body)) && At(src, i, TokenText(Line(body)))
    requires i + |TokenText(Line(body))| == |src|
    ensures DeltaFrom(src, i) == DeltaFrom(src, |src|)
  {
    AtSplit(src, i, "//", body);
    AtHead(src, i, "//");
    LineEnds(src, i + 2, body);
    hide DeltaFrom, EndOfLine;
    DeltaSkipsComment(src, i);
  }

  /** A token adds its brace if it is code, and nothing otherwise. */
  lemma TokenDelta(src: string, i: nat, t: Token)
    requires TokenOk(t) && At(src, i, TokenText(t))
    requires t == Code('/') ==> i + 1 >= |src| || (src[i + 1] != '/' && src[i + 1] != '*')
    requires t.Line? ==> i + |TokenText(t)| == |src|
    ensures DeltaFrom(src, i) == (if t.Code? then BraceValue(t.c) else 0) + DeltaFrom(src, i + |TokenText(t)|)
  {
    hide DeltaFrom, BraceValue;
    match t
    case Code(c) =>
      AtHead(src, i, [c]);
      CharDelta(src, i);
    case Quoted(quote, units) => QuotedDelta(src, i, quote, units);
    case Raw(body) => RawDelta(src, i, body);
    case Block(body) => BlockDelta(src, i, body);
    case Line(body) => LineDelta(src, i, body);
  }

  lemma CodeText(c: char)
    ensures TokenText(Code(c)) == [c]
  {
  }

  lemma DeltaAtEnd(src: string)
    ensures DeltaFrom(src, |src|) == 0
  {
  }

  lemma {:induction false} TokensDelta(src: string, i: nat, ts: seq<Token>)
    requires Lexed(ts) && At(src, i, Text(ts)) && i + |Text(ts)| == |src|
    ensures DeltaFrom(src, i) == CodeDelta(ts)
    decreases |ts|
  {
    hide TokenOk, BraceValue, DeltaFrom, TokenText;
    if ts == [] {
      assert DeltaFrom(src, |src|) == 0 by { DeltaAtEnd(src); }
    } else {
      var here, rest := TokenText(ts[0]), Text(ts[1..]);
      AtSplit(src, i, here, rest);
      if rest != "" {
        AtHead(src, i + |here|, rest);
      }
      if ts[0].Line? {
        assert rest == "";
      }
      if ts[0] == Code('/') {
        CodeText('/');
      }
      TokenDelta(src, i, ts[0]);
      TokensDelta(src, i + |here|, ts[1..]);
    }
  }

  /** On a line made of code, literals and comments, the count is the net number
      of opening braces in the code. */
  lemma DeltaCountsCode(ts: seq<Token>)
    requires Lexed(ts)
    ensures DeltaFrom(Text(ts), 0) == CodeDelta(ts)
  {
    assert At(Text(ts), 0, Text(ts));
    TokensDelta(Text(ts), 0, ts);
  }

  /** The characters of the code. */
  function CodeChars(ts: seq<Token>): string {
    if ts == [] then "" else (if ts[0].Code? then [ts[0].c] else "") + CodeChars(ts[1..])
  }

  lemma {:induction false} CodeDeltaIsNet(ts: seq<Token>)
    ensures CodeDelta(ts) + multiset(CodeChars(ts))['}'] == multiset(CodeChars(ts))['{']
  {
    if ts != [] {
      CodeDeltaIsNet(ts[1..]);
      var head := if ts[0].Code? then [ts[0].c] else "";
      assert multiset(head + CodeChars(ts[1..])) == multiset(head) + multiset(CodeChars(ts[1..]));
    }
  }

  /** The count is how many more opening than closing braces the code has. */
  lemma DeltaIsNetOfCode(ts: seq<Token>)
    requires Lexed(ts)
    ensures DeltaFrom(Text(ts), 0) + multiset(CodeChars(ts))['}'] == multiset(CodeChars(ts))['{']
  {
    DeltaCountsCode(ts);
    CodeDeltaIsNet(ts);
  }
}
