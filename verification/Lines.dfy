/** Lines of a text with their newlines (strings.SplitAfter) and TOON key lines
    (chunk/chunk.go). */
module Lines {

  /** The position of the first newline from i on, or the length. */
  function NewlineFrom(s: string, i: nat): (r: nat)
    requires i <= |s|
    ensures i <= r <= |s|
    ensures r < |s| ==> s[r] == '\n'
    ensures forall k :: i <= k < r ==> s[k] != '\n'
    decreases |s| - i
  {
    if i < |s| && s[i] != '\n' then NewlineFrom(s, i + 1) else i
  }

  /** strings.SplitAfter(s, "\n"): the last piece may be empty. */
  function SplitAfter(s: string): (r: seq<string>)
    ensures |r| > 0
    decreases |s|
  {
    var i := NewlineFrom(s, 0);
    if i == |s| then [s] else [s[..i + 1]] + SplitAfter(s[i + 1..])
  }

  /** The lines one after the other. */
  function Text(lines: seq<string>): string {
    if lines == [] then "" else Text(lines[..|lines| - 1]) + lines[|lines| - 1]
  }

  lemma {:induction false} TextAppend(a: seq<string>, b: seq<string>)
    ensures Text(a + b) == Text(a) + Text(b)
  {
    if b == [] {
      assert a + b == a;
    } else {
      var n := |b| - 1;
      assert a + b == a + b[..n] + [b[n]];
      TextAppend(a, b[..n]);
    }
  }

  /** A newline can only be the last character. */
  predicate IsLine(line: string) {
    forall k :: 0 <= k < |line| - 1 ==> line[k] != '\n'
  }

  /** A line that is not the last of its text. */
  predicate IsEnded(line: string) {
    IsLine(line) && line != "" && line[|line| - 1] == '\n'
  }

  lemma TextCons(line: string, lines: seq<string>)
    ensures Text([line] + lines) == line + Text(lines)
  {
    assert [] + [line] == [line];
    TextAppend([line], lines);
  }

  /** The lines make up the text. */
  lemma {:induction false} SplitAfterText(s: string)
    ensures Text(SplitAfter(s)) == s
    decreases |s|
  {
    var i := NewlineFrom(s, 0);
    if i == |s| {
      TextCons(s, []);
      assert [s] + [] == [s];
    } else {
      SplitAfterText(s[i + 1..]);
      TextCons(s[..i + 1], SplitAfter(s[i + 1..]));
      assert s == s[..i + 1] + s[i + 1..];
    }
  }

  /** All lines but the last end with their only newline. */
  lemma {:induction false} SplitAfterLines(s: string)
    ensures forall j :: 0 <= j < |SplitAfter(s)| - 1 ==> IsEnded(SplitAfter(s)[j])
    ensures IsLine(SplitAfter(s)[|SplitAfter(s)| - 1])
    ensures if s == "" then SplitAfter(s) == [""] else SplitAfter(s)[0] != ""
    decreases |s|
  {
    var i := NewlineFrom(s, 0);
    if i < |s| {
      SplitAfterLines(s[i + 1..]);
      assert IsEnded(s[..i + 1]);
    }
  }

  // ------------------------------------------------------------------- key lines

  predicate IsLetter(c: char) {
    'A' <= c <= 'Z' || 'a' <= c <= 'z' || c == '_'
  }

  predicate IsDigit(c: char) {
    '0' <= c <= '9'
  }

  predicate IsKeyChar(c: char) {
    IsLetter(c) || IsDigit(c) || c == '.'
  }

  /** The end of the longest run of key characters from i on. */
  function KeyRun(s: string, i: nat): (r: nat)
    requires i <= |s|
    ensures i <= r <= |s|
    ensures forall k :: i <= k < r ==> IsKeyChar(s[k])
    ensures r < |s| ==> !IsKeyChar(s[r])
    decreases |s| - i
  {
    if i < |s| && IsKeyChar(s[i]) then KeyRun(s, i + 1) else i
  }

  function DigitRun(s: string, i: nat): (r: nat)
    requires i <= |s|
    ensures i <= r <= |s|
    ensures forall k :: i <= k < r ==> IsDigit(s[k])
    ensures r < |s| ==> !IsDigit(s[r])
    decreases |s| - i
  {
    if i < |s| && IsDigit(s[i]) then DigitRun(s, i + 1) else i
  }

  predicate IsAt(s: string, i: nat, c: char) {
    i < |s| && s[i] == c
  }

  /** Whether a line starts with a TOON key, by the longest runs. */
  predicate IsKeyLine(s: string) {
    && s != "" && IsLetter(s[0])
    && var k := KeyRun(s, 1);
       || IsAt(s, k, ':')
       || (IsAt(s, k, '[') && var d := DigitRun(s, k + 1); d > k + 1 && IsAt(s, d, ']') && IsAt(s, d + 1, ':'))
  }

  ghost predicate BracketedAt(s: string, k: int, d: int) {
    && 0 <= k && IsAt(s, k, '[') && k + 1 < d < |s| && (forall i :: k < i < d ==> IsDigit(s[i]))
    && IsAt(s, d, ']') && IsAt(s, d + 1, ':')
  }

  ghost predicate KeyTo(s: string, k: int) {
    0 < k < |s| && IsLetter(s[0]) && forall i :: 0 < i < k ==> IsKeyChar(s[i])
  }

  /** The pattern ^[A-Za-z_][A-Za-z0-9_.]*(\[\d+\])?: as a statement about s. */
  ghost predicate MatchesKeyPattern(s: string) {
    exists k: int :: KeyTo(s, k) && (IsAt(s, k, ':') || exists d: int :: BracketedAt(s, k, d))
  }

  /** The longest runs find a match whenever there is one. */
  lemma KeyLineIsMatch(s: string)
    ensures IsKeyLine(s) <==> MatchesKeyPattern(s)
  {
    if MatchesKeyPattern(s) {
      var k: int :| KeyTo(s, k) && (IsAt(s, k, ':') || exists d: int :: BracketedAt(s, k, d));
      assert KeyRun(s, 1) == k;
      if !IsAt(s, k, ':') {
        var d: int :| BracketedAt(s, k, d);
        assert DigitRun(s, k + 1) == d;
      }
    }
    if IsKeyLine(s) {
      var k := KeyRun(s, 1);
      assert KeyTo(s, k);
      if !IsAt(s, k, ':') {
        assert BracketedAt(s, k, DigitRun(s, k + 1));
      }
    }
  }

  /** A plain key, one with a count, one with other key characters. */
  lemma KeyLines()
    ensures IsKeyLine("a:") && IsKeyLine("a[3]:") && IsKeyLine("_.9: x")
  {
    assert KeyTo("a:", 1) && IsAt("a:", 1, ':');
    assert KeyTo("a[3]:", 1) && BracketedAt("a[3]:", 1, 3);
    assert KeyTo("_.9: x", 3) && IsAt("_.9: x", 3, ':');
    hide IsKeyLine, KeyTo, BracketedAt;
    KeyLineIsMatch("a:");
    KeyLineIsMatch("a[3]:");
    KeyLineIsMatch("_.9: x");
  }

  /** Not an indented one, a number, a name without a colon or with an empty count. */
  lemma OtherLines()
    ensures !IsKeyLine(" a:") && !IsKeyLine("9a:") && !IsKeyLine("a") && !IsKeyLine("a[]:") && !IsKeyLine("a[3]")
  {}

  /** The character classes of the pattern. */
  lemma KeyCharsAre(c: char)
    ensures IsLetter(c) <==> 65 <= c as int <= 90 || 97 <= c as int <= 122 || c as int == 95
    ensures IsKeyChar(c) <==> IsLetter(c) || 48 <= c as int <= 57 || c as int == 46
    ensures IsDigit(c) <==> 48 <= c as int <= 57
  {}
}
