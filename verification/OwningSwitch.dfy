/** Finding the switch a case clause belongs to (contract/runtime.go): a backward scan
    over net brace counts, against a forward stack of open lines. */
module OwningSwitch {
  import opened Options
  import opened Braces

  // ------------------------------------------------------------- the switch line

  /** White space as strings.TrimSpace sees it. */
  predicate IsSpace(c: char) {
    c == ' ' || '\t' <= c <= '\r' || c == '\U{85}' || c == '\U{A0}' || c == '\U{1680}'
    || '\U{2000}' <= c <= '\U{200A}' || c == '\U{2028}' || c == '\U{2029}' || c == '\U{202F}'
    || c == '\U{205F}' || c == '\U{3000}'
  }

  function TrimSpace(s: string): (r: string)
    ensures r != "" ==> !IsSpace(r[0]) && !IsSpace(r[|r| - 1])
    ensures forall c :: c in r ==> c in s
  {
    if s == "" then ""
    else if IsSpace(s[0]) then TrimSpace(s[1..])
    else if IsSpace(s[|s| - 1]) then TrimSpace(s[..|s| - 1])
    else s
  }

  /** The text before the first opening brace, if there is one. */
  function CutAtBrace(s: string): (r: Option<string>)
    ensures r.Some? ==> r.value + "{" <= s && '{' !in r.value
    ensures r.None? ==> '{' !in s
  {
    if s == "" then None
    else if s[0] == '{' then Some("")
    else match CutAtBrace(s[1..])
      case None => None
      case Some(rest) => Some([s[0]] + rest)
  }

  /** The subject of a switch statement on the line. */
  function SwitchSubject(line: string): (r: Option<string>)
    ensures r.Some? ==> r.value != "" && '{' !in r.value
  {
    var trimmed := TrimSpace(line);
    if !("switch" <= trimmed) then None
    else match CutAtBrace(trimmed[|"switch"|..])
      case None => None
      case Some(rest) =>
        var subject := TrimSpace(rest);
        if subject == "" then None else Some(subject)
  }

  ghost predicate AllSpace(s: string) {
    forall c :: c in s ==> IsSpace(c)
  }

  /** Neither end is white space. */
  ghost predicate Trimmed(s: string) {
    s != "" ==> !IsSpace(s[0]) && !IsSpace(s[|s| - 1])
  }

  /** The line starts with the letters of the keyword, and rest follows. */
  ghost predicate LettersThen(line: string, rest: string) {
    exists w :: AllSpace(w) && line == w + "switch" + rest
  }

  ghost predicate StartsWithLetters(line: string) {
    exists rest :: LettersThen(line, rest)
  }

  /** What can go on with an identifier: letters, digits and underscore. */
  predicate IsWordPart(c: char) {
    'a' <= c <= 'z' || 'A' <= c <= 'Z' || '0' <= c <= '9' || c == '_' || (c as int >= 0x80 && !IsSpace(c))
  }

  /** The line starts with the keyword as a whole word. */
  ghost predicate SwitchLine(line: string) {
    exists rest :: LettersThen(line, rest) && (rest == "" || !IsWordPart(rest[0]))
  }

  /** x stands, trimmed, before the first brace. */
  ghost predicate BeforeBrace(rest: string, x: string) {
    exists u, v, tail :: AllSpace(u) && AllSpace(v) && Trimmed(x) && '{' !in x && rest == u + x + v + "{" + tail
  }

  /** The letters, then x, then a brace. */
  ghost predicate TextIs(line: string, x: string) {
    exists rest :: LettersThen(line, rest) && BeforeBrace(rest, x)
  }

  ghost predicate SubjectIs(line: string, x: string) {
    x != "" && TextIs(line, x)
  }

  ghost predicate HasSubject(line: string) {
    exists x :: SubjectIs(line, x)
  }

  /** switch { */
  ghost predicate Tagless(line: string) {
    TextIs(line, "")
  }

  // ---------------------------------------------------------- what a line is taken for

  /** t without white space around it is what stands between u and v. */
  ghost predicate TrimsTo(s: string, u: string, t: string, v: string) {
    AllSpace(u) && AllSpace(v) && s == u + t + v
  }

  lemma TrimsLonger(c: char, s: string, d: char, u: string, t: string, v: string)
    requires TrimsTo(s, u, t, v)
    ensures IsSpace(c) ==> TrimsTo([c] + s, [c] + u, t, v)
    ensures IsSpace(d) ==> TrimsTo(s + [d], u, t, v + [d])
  {
    assert [c] + s == [c] + u + t + v;
    assert s + [d] == u + t + (v + [d]);
  }

  lemma TrimStep(s: string)
    ensures s != "" && IsSpace(s[0]) ==> TrimSpace(s) == TrimSpace(s[1..])
    ensures s != "" && !IsSpace(s[0]) && IsSpace(s[|s| - 1]) ==> TrimSpace(s) == TrimSpace(s[..|s| - 1])
    ensures s != "" && !IsSpace(s[0]) && !IsSpace(s[|s| - 1]) ==> TrimSpace(s) == s
    ensures s == "" ==> TrimSpace(s) == ""
  {
    hide IsSpace;
  }

  /** Trimming takes white space off both ends, and all of it. */
  lemma {:induction false} TrimSplits(s: string) returns (u: string, v: string)
    ensures TrimsTo(s, u, TrimSpace(s), v) && Trimmed(TrimSpace(s))
    decreases |s|
  {
    hide TrimSpace, TrimsTo, IsSpace, Trimmed;
    TrimStep(s);
    var n := |s| - 1;
    if s != "" && IsSpace(s[0]) {
      u, v := TrimSplits(s[1..]);
      TrimsLonger(s[0], s[1..], s[0], u, TrimSpace(s[1..]), v);
      assert s == [s[0]] + s[1..];
      u := [s[0]] + u;
    } else if s != "" && IsSpace(s[n]) {
      u, v := TrimSplits(s[..n]);
      TrimsLonger(s[n], s[..n], s[n], u, TrimSpace(s[..n]), v);
      assert s == s[..n] + [s[n]];
      v := v + [s[n]];
    } else {
      u, v := "", "";
      NothingTrimmed(s);
    }
  }

  lemma NothingTrimmed(s: string)
    requires s != "" ==> !IsSpace(s[0]) && !IsSpace(s[|s| - 1])
    ensures TrimsTo(s, "", s, "") && Trimmed(s)
  {
    assert s == "" + s + "";
  }

  lemma {:induction false} TrimHead(u: string, s: string)
    requires AllSpace(u)
    ensures TrimSpace(u + s) == TrimSpace(s)
  {
    if u == "" {
      assert u + s == s;
    } else {
      assert (u + s)[0] == u[0] && u[0] in u;
      assert (u + s)[1..] == u[1..] + s;
      TrimHead(u[1..], s);
    }
  }

  lemma {:induction false} TrimTail(x: string, v: string)
    requires AllSpace(v) && Trimmed(x) && x != ""
    ensures TrimSpace(x + v) == x
  {
    if v == "" {
      assert x + v == x;
    } else {
      var n := |v| - 1;
      assert (x + v)[0] == x[0] && (x + v)[|x| + n] == v[n] && v[n] in v;
      assert (x + v)[..|x| + n] == x + v[..n];
      TrimTail(x, v[..n]);
    }
  }

  lemma TrimmedIs(u: string, x: string, v: string)
    requires AllSpace(u) && AllSpace(v) && Trimmed(x)
    ensures TrimSpace(u + x + v) == x
  {
    hide AllSpace;
    assert u + x + v == u + (x + v);
    TrimHead(u, x + v);
    if x == "" {
      assert x + v == v + "";
      TrimHead(v, "");
    } else {
      TrimTail(x, v);
    }
  }

  ghost predicate IsCut(s: string, c: string) {
    '{' !in c && |c| < |s| && s == c + "{" + s[|c| + 1..]
  }

  lemma CutLonger(x: char, s: string, c: string)
    requires IsCut(s, c) && x != '{'
    ensures IsCut([x] + s, [x] + c)
  {
    assert ([x] + s)[|[x] + c| + 1..] == s[|c| + 1..];
    assert [x] + (c + "{" + s[|c| + 1..]) == [x] + c + "{" + s[|c| + 1..];
  }

  lemma {:induction false} CutSplits(s: string)
    ensures CutAtBrace(s).Some? ==> IsCut(s, CutAtBrace(s).value)
    ensures CutAtBrace(s).Some? <==> '{' in s
  {
    if s != "" {
      assert s == [s[0]] + s[1..];
      if s[0] == '{' {
        assert s == "" + "{" + s[1..];
      } else {
        CutSplits(s[1..]);
        if CutAtBrace(s[1..]).Some? {
          CutLonger(s[0], s[1..], CutAtBrace(s[1..]).value);
        }
      }
    }
  }

  lemma {:induction false} CutIs(c: string, tail: string)
    requires '{' !in c
    ensures CutAtBrace(c + "{" + tail) == Some(c)
  {
    if c != "" {
      assert (c + "{" + tail)[0] == c[0] && (c + "{" + tail)[1..] == c[1..] + "{" + tail;
      assert c == [c[0]] + c[1..];
      CutIs(c[1..], tail);
    }
  }

  /** The trimmed text before the first brace, read off. */
  lemma BeforeBraceIs(rest: string, x: string)
    ensures BeforeBrace(rest, x) <==> CutAtBrace(rest).Some? && TrimSpace(CutAtBrace(rest).value) == x
  {
    if BeforeBrace(rest, x) {
      var u, v, tail :| AllSpace(u) && AllSpace(v) && Trimmed(x) && '{' !in x && rest == u + x + v + "{" + tail;
      CutIs(u + x + v, tail);
      TrimmedIs(u, x, v);
    }
    if CutAtBrace(rest).Some? && TrimSpace(CutAtBrace(rest).value) == x {
      CutSplits(rest);
      var c := CutAtBrace(rest).value;
      var u, v := TrimSplits(c);
      assert rest == u + x + v + "{" + rest[|c| + 1..];
    }
  }

  lemma LettersUnique(line: string, r: string, t: string)
    requires LettersThen(line, r) && LettersThen(line, t)
    ensures r == t
  {
    var w :| AllSpace(w) && line == w + "switch" + r;
    var z :| AllSpace(z) && line == z + "switch" + t;
    forall i | 0 <= i < |w|
      ensures line[i] in w && IsSpace(line[i])
    {
    }
    forall i | 0 <= i < |z|
      ensures line[i] in z && IsSpace(line[i])
    {
    }
    assert line[|w|] == 's' && line[|z|] == 's';
    assert |w| == |z|;
    assert line[|w| + 6..] == r && line[|z| + 6..] == t;
  }

  lemma SpaceAhead(u: string, s: string)
    requires AllSpace(u)
    ensures u != "" ==> IsSpace((u + s)[0])
  {}

  lemma SpaceBehind(s: string, v: string, i: nat)
    requires AllSpace(v) && i < |s + v|
    ensures i >= |s| ==> IsSpace((s + v)[i])
  {}

  /** Trimming such a line keeps the letters and drops white space behind them. */
  lemma LettersTrimmed(w: string, rest: string) returns (kept: string, v: string)
    requires AllSpace(w)
    ensures AllSpace(v) && rest == kept + v
    ensures TrimSpace(w + "switch" + rest) == "switch" + kept
  {
    hide TrimSpace, AllSpace;
    var y := "switch" + rest;
    var u;
    u, v := TrimSplits(y);
    var t := TrimSpace(y);
    assert y[0] == 's';
    SpaceAhead(u, t + v);
    assert y == u + (t + v);
    assert y == t + v;
    SwitchStays(t, v, rest);
    kept := t[6..];
    TrimmedIs(w, t, v);
    assert w + "switch" + rest == w + t + v;
  }

  lemma SwitchStays(t: string, v: string, rest: string)
    requires t + v == "switch" + rest && AllSpace(v)
    ensures "switch" <= t && rest == t[6..] + v
  {
    var y := t + v;
    assert y[5] == 'h';
    SpaceBehind(t, v, 5);
    assert y[..6] == "switch" && y[6..] == rest;
    assert t[..6] == y[..6];
  }

  /** What the code takes for the subject is the text between the letters and the
      first brace behind them. */
  lemma SubjectFound(line: string)
    ensures forall x :: SwitchSubject(line) == Some(x) <==> SubjectIs(line, x)
    ensures SwitchSubject(line).Some? <==> HasSubject(line)
  {
    hide CutAtBrace, TrimSpace, AllSpace, BeforeBrace;
    forall x
      ensures SwitchSubject(line) == Some(x) <==> SubjectIs(line, x)
    {
      if SubjectIs(line, x) {
        var rest :| LettersThen(line, rest) && BeforeBrace(rest, x);
        SubjectRead(line, rest, x);
      }
      if SwitchSubject(line) == Some(x) {
        SubjectStands(line, x);
      }
    }
    if SwitchSubject(line).Some? {
      assert SubjectIs(line, SwitchSubject(line).value);
    }
  }

  lemma SubjectRead(line: string, rest: string, x: string)
    requires LettersThen(line, rest) && BeforeBrace(rest, x) && x != ""
    ensures SwitchSubject(line) == Some(x)
  {
    hide CutAtBrace, TrimSpace, BeforeBrace;
    var w :| AllSpace(w) && line == w + "switch" + rest;
    var kept, v := LettersTrimmed(w, rest);
    BeforeBraceIs(rest, x);
    CutSplits(rest);
    var c := CutAtBrace(rest).value;
    assert rest[|c|] == '{';
    SpaceBehind(kept, v, |c|);
    assert kept == c + "{" + kept[|c| + 1..];
    CutIs(c, kept[|c| + 1..]);
    assert ("switch" + kept)[6..] == kept;
  }

  lemma SubjectStands(line: string, x: string)
    requires SwitchSubject(line) == Some(x)
    ensures SubjectIs(line, x)
  {
    hide CutAtBrace, TrimSpace, BeforeBrace;
    var t := TrimSpace(line);
    var r := t[6..];
    var u, v := TrimSplits(line);
    assert t == "switch" + r;
    assert line == u + "switch" + (r + v);
    assert LettersThen(line, r + v);
    CutStays(r, v);
    BeforeBraceIs(r + v, x);
  }

  lemma CutStays(r: string, v: string)
    requires CutAtBrace(r).Some?
    ensures CutAtBrace(r + v) == CutAtBrace(r)
  {
    hide CutAtBrace;
    CutSplits(r);
    var c := CutAtBrace(r).value;
    assert r + v == c + "{" + (r[|c| + 1..] + v);
    CutIs(c, r[|c| + 1..] + v);
  }

  /** A line with a brace that starts with the letters has a subject or is tagless, not
      both; a tagless one starts with the keyword. */
  lemma KindsOfLine(line: string)
    requires '{' in line
    ensures StartsWithLetters(line) <==> Tagless(line) || HasSubject(line)
    ensures !(Tagless(line) && HasSubject(line))
    ensures Tagless(line) ==> SwitchLine(line)
  {
    hide BeforeBrace, CutAtBrace, TrimSpace;
    if rest :| LettersThen(line, rest) {
      BraceBehind(line, rest);
      CutSplits(rest);
      var x := TrimSpace(CutAtBrace(rest).value);
      BeforeBraceIs(rest, x);
      forall r, y | LettersThen(line, r) && BeforeBrace(r, y)
        ensures y == x
      {
        LettersUnique(line, r, rest);
        BeforeBraceIs(rest, y);
      }
      if x == "" {
        BraceFirst(rest);
        assert Tagless(line);
      } else {
        assert SubjectIs(line, x);
      }
    }
  }

  lemma BraceBehind(line: string, rest: string)
    requires LettersThen(line, rest) && '{' in line
    ensures '{' in rest
  {
    var w :| AllSpace(w) && line == w + "switch" + rest;
    assert forall i :: 0 <= i < 6 ==> "switch"[i] != '{';
  }

  lemma BraceFirst(rest: string)
    requires BeforeBrace(rest, "")
    ensures rest != "" && !IsWordPart(rest[0])
  {
    var u, v, tail :| AllSpace(u) && AllSpace(v) && rest == u + "" + v + "{" + tail;
    SpaceAhead(u + v, "{" + tail);
    assert rest == (u + v) + ("{" + tail);
  }

  // ------------------------------------------------------ the forward stack machine

  function Repeat(x: nat, n: nat): (r: seq<nat>)
    ensures |r| == n && forall i :: 0 <= i < n ==> r[i] == x
  {
    seq(n, _ => x)
  }

  /** The stack without its top n entries. */
  function Drop(stack: seq<nat>, n: nat): (r: seq<nat>)
    ensures r <= stack
  {
    if n <= |stack| then stack[..|stack| - n] else []
  }

  /** The lines still open before line n, one entry for each open brace, the last
      opened on top: a net opening line pushes, a net closing line pops. */
  function OpenLines(lines: seq<string>, n: nat): (stack: seq<nat>)
    requires n <= |lines|
    ensures forall i :: 0 <= i < |stack| ==> stack[i] < n
  {
    if n == 0 then []
    else
      var before, delta := OpenLines(lines, n - 1), DeltaFrom(lines[n - 1], 0);
      if delta >= 0 then before + Repeat(n - 1, delta) else Drop(before, -delta)
  }

  /** The topmost open line that p holds of. */
  ghost function Topmost(lines: seq<string>, stack: seq<nat>, p: string -> bool): (top: Option<nat>)
    requires forall i :: 0 <= i < |stack| ==> stack[i] < |lines|
    ensures top.Some? ==> top.value < |lines| && p(lines[top.value])
  {
    if stack == [] then None
    else
      var top := stack[|stack| - 1];
      if p(lines[top]) then Some(top) else Topmost(lines, stack[..|stack| - 1], p)
  }

  /** Entry i of the stack is line top, of which p holds, and of no entry above it. */
  ghost predicate IsTopmost(lines: seq<string>, stack: seq<nat>, p: string -> bool, i: int, top: nat) {
    && (forall k :: 0 <= k < |stack| ==> stack[k] < |lines|)
    && 0 <= i < |stack| && stack[i] == top && p(lines[top])
    && forall j :: i < j < |stack| ==> !p(lines[stack[j]])
  }

  ghost predicate NoneOpen(lines: seq<string>, stack: seq<nat>, p: string -> bool) {
    forall k :: 0 <= k < |stack| ==> stack[k] < |lines| && !p(lines[stack[k]])
  }

  lemma NoneAbove(lines: seq<string>, stack: seq<nat>, p: string -> bool)
    requires stack != [] && stack[|stack| - 1] < |lines| && !p(lines[stack[|stack| - 1]])
    ensures NoneOpen(lines, stack[..|stack| - 1], p) ==> NoneOpen(lines, stack, p)
    ensures forall i, top :: IsTopmost(lines, stack[..|stack| - 1], p, i, top) ==> IsTopmost(lines, stack, p, i, top)
  {
    var below := stack[..|stack| - 1];
    assert stack == below + [stack[|stack| - 1]];
  }

  lemma {:induction false} TopmostFound(lines: seq<string>, stack: seq<nat>, p: string -> bool)
    requires forall i :: 0 <= i < |stack| ==> stack[i] < |lines|
    ensures match Topmost(lines, stack, p)
            case None => NoneOpen(lines, stack, p)
            case Some(top) => exists i :: IsTopmost(lines, stack, p, i, top)
  {
    if stack != [] {
      var n := |stack| - 1;
      if p(lines[stack[n]]) {
        assert Topmost(lines, stack, p) == Some(stack[n]);
        assert IsTopmost(lines, stack, p, n, stack[n]);
      } else {
        TopmostFound(lines, stack[..n], p);
        NoneAbove(lines, stack, p);
        assert Topmost(lines, stack, p) == Topmost(lines, stack[..n], p);
        if Topmost(lines, stack[..n], p).Some? {
          var top := Topmost(lines, stack[..n], p).value;
          var i :| IsTopmost(lines, stack[..n], p, i, top);
          assert IsTopmost(lines, stack, p, i, top);
        }
      }
    }
  }

  lemma {:induction false} SkipsOthers(lines: seq<string>, stack: seq<nat>, p: string -> bool, x: nat, n: nat)
    requires (forall i :: 0 <= i < |stack| ==> stack[i] < |lines|) && x < |lines| && !p(lines[x])
    ensures Topmost(lines, stack + Repeat(x, n), p) == Topmost(lines, stack, p)
  {
    if n == 0 {
      assert stack + Repeat(x, 0) == stack;
    } else {
      SkipsOthers(lines, stack, p, x, n - 1);
      assert (stack + Repeat(x, n))[..|stack| + n - 1] == stack + Repeat(x, n - 1);
    }
  }

  /** One step back of the scan: what is open below depth closing braces. */
  lemma StepBack(lines: seq<string>, i: nat, depth: nat)
    requires i < |lines|
    ensures var delta, stack := DeltaFrom(lines[i], 0), OpenLines(lines, i);
            Drop(OpenLines(lines, i + 1), depth) ==
              if depth - delta >= 0 then Drop(stack, depth - delta) else stack + Repeat(i, delta - depth)
  {
    hide DeltaFrom;
    var delta, stack := DeltaFrom(lines[i], 0), OpenLines(lines, i);
    if delta >= 0 {
      assert stack + Repeat(i, 0) == stack;
      assert Drop(stack, 0) == stack;
    }
  }

  /** Lines that the scan takes for a switch. */
  ghost function Taken(): (p: string -> bool)
    ensures forall line :: p(line) <==> HasSubject(line)
  {
    line => HasSubject(line)
  }

  /** The line the scan answers for. */
  ghost function Owner(lines: seq<string>, caseIdx: nat): Option<nat>
    requires caseIdx <= |lines|
  {
    Topmost(lines, OpenLines(lines, caseIdx), Taken())
  }

  /** The backward scan answers with the topmost line of the forward stack that has a
      subject. */
  method OwningSwitchSubject(lines: seq<string>, caseIdx: nat) returns (subject: Option<string>)
    requires caseIdx <= |lines|
    ensures subject.None? <==> Owner(lines, caseIdx).None?
    ensures subject.Some? ==> SubjectIs(lines[Owner(lines, caseIdx).value], subject.value)
  {
    hide DeltaFrom, SwitchSubject, SubjectIs, HasSubject, OpenLines, Topmost, Drop;
    ghost var p := Taken();
    var depth := 0;
    var i := caseIdx;
    DropNone(OpenLines(lines, caseIdx));
    while i > 0
      invariant 0 <= i <= caseIdx && depth >= 0
      invariant Topmost(lines, Drop(OpenLines(lines, i), depth), p) == Owner(lines, caseIdx)
    {
      i := i - 1;
      var delta := BraceDelta(lines[i]);
      StepBack(lines, i, depth);
      depth := depth - delta;
      if depth >= 0 {
        continue;
      }
      var found := SwitchSubject(lines[i]);
      SubjectFound(lines[i]);
      if found.Some? {
        OnTop(lines, OpenLines(lines, i), p, i, -depth);
        return found;
      }
      SkipsOthers(lines, OpenLines(lines, i), p, i, -depth);
      depth := 0;
      DropNone(OpenLines(lines, i));
    }
    NothingOpen(lines, p, depth);
    return None;
  }

  lemma DropNone(stack: seq<nat>)
    ensures Drop(stack, 0) == stack
  {
  }

  lemma NothingOpen(lines: seq<string>, p: string -> bool, depth: nat)
    ensures Topmost(lines, Drop(OpenLines(lines, 0), depth), p) == None
  {
  }

  lemma OnTop(lines: seq<string>, stack: seq<nat>, p: string -> bool, x: nat, n: nat)
    requires (forall i :: 0 <= i < |stack| ==> stack[i] < |lines|) && x < |lines| && n > 0 && p(lines[x])
    ensures Topmost(lines, stack + Repeat(x, n), p) == Some(x)
  {
  }

  // ------------------------------------------------------------ which switch was meant

  lemma {:induction false} PositiveHasBrace(src: string, i: nat)
    requires DeltaFrom(src, i) > 0
    ensures '{' in src
    decreases |src| - i
  {
    hide EndOfString, EndOfComment, Ignored;
    if IsQuote(src[i]) {
      PositiveHasBrace(src, EndOfString(src, i + 1, src[i]));
    } else if CommentAt(src, i) {
      var j := Ignored(src, EndOfComment(src, i));
      PositiveHasBrace(src, if j < |src| && src[j] == '\n' then j + 1 else j);
    } else if src[i] != '{' {
      PositiveHasBrace(src, i + 1);
    }
  }

  /** Every open line has a brace. */
  lemma {:induction false} OpenHaveBrace(lines: seq<string>, n: nat)
    requires n <= |lines|
    ensures forall k :: 0 <= k < |OpenLines(lines, n)| ==> '{' in lines[OpenLines(lines, n)[k]]
  {
    if n > 0 {
      hide DeltaFrom;
      OpenHaveBrace(lines, n - 1);
      if DeltaFrom(lines[n - 1], 0) > 0 {
        PositiveHasBrace(lines[n - 1], 0);
      }
    }
  }

  ghost function Switches(): (p: string -> bool)
    ensures forall line :: p(line) <==> SwitchLine(line)
  {
    line => SwitchLine(line)
  }

  ghost function Lettered(): (p: string -> bool)
    ensures forall line :: p(line) <==> StartsWithLetters(line)
  {
    line => StartsWithLetters(line)
  }

  /** The topmost open switch line, unless it has no subject. */
  ghost function MeantOwner(lines: seq<string>, caseIdx: nat): Option<nat>
    requires caseIdx <= |lines|
  {
    var top := Topmost(lines, OpenLines(lines, caseIdx), Switches());
    if top.Some? && Tagless(lines[top.value]) then None else top
  }

  /** The topmost open line that starts with the letters, if any, starts with the
      keyword; and if it is tagless, no open line has a subject. */
  ghost predicate Clear(lines: seq<string>, caseIdx: nat)
    requires caseIdx <= |lines|
  {
    var stack := OpenLines(lines, caseIdx);
    var top := Topmost(lines, stack, Lettered());
    top.Some? ==>
      && SwitchLine(lines[top.value])
      && (Tagless(lines[top.value]) ==> NoneOpen(lines, stack, Taken()))
  }

  /** Where p holds of the topmost line of q, and q of all that p does, they share it. */
  lemma {:induction false} TopmostShared(lines: seq<string>, stack: seq<nat>, p: string -> bool, q: string -> bool)
    requires forall i :: 0 <= i < |stack| ==> stack[i] < |lines|
    requires forall i :: 0 <= i < |stack| && p(lines[stack[i]]) ==> q(lines[stack[i]])
    ensures Topmost(lines, stack, q) == None ==> Topmost(lines, stack, p) == None
    ensures Topmost(lines, stack, q).Some? && p(lines[Topmost(lines, stack, q).value]) ==>
              Topmost(lines, stack, p) == Topmost(lines, stack, q)
  {
    if stack != [] {
      TopmostShared(lines, stack[..|stack| - 1], p, q);
    }
  }

  lemma WordHasLetters(line: string)
    ensures SwitchLine(line) ==> StartsWithLetters(line)
  {}

  /** The scan answers for the switch that was meant if and only if the lines are
      clear. */
  lemma OwnerIsMeantIff(lines: seq<string>, caseIdx: nat)
    requires caseIdx <= |lines|
    ensures Owner(lines, caseIdx) == MeantOwner(lines, caseIdx) <==> Clear(lines, caseIdx)
  {
    hide SwitchLine, StartsWithLetters, HasSubject, Tagless, OpenLines, Topmost;
    var stack := OpenLines(lines, caseIdx);
    OpenHaveBrace(lines, caseIdx);
    forall i | 0 <= i < |stack|
      ensures var line := lines[stack[i]];
              && (HasSubject(line) ==> StartsWithLetters(line)) && (SwitchLine(line) ==> StartsWithLetters(line))
    {
      KindsOfLine(lines[stack[i]]);
      WordHasLetters(lines[stack[i]]);
    }
    TopmostShared(lines, stack, Taken(), Lettered());
    TopmostShared(lines, stack, Switches(), Lettered());
    TopmostFound(lines, stack, Taken());
    TopmostFound(lines, stack, Lettered());
    var top := Topmost(lines, stack, Lettered());
    if top.Some? {
      KindsOfLine(lines[top.value]);
    }
  }

  // --------------------------------------------------------------- where it is not meant

  /** No quotes, braces or slashes. */
  ghost predicate Plain(s: string) {
    forall c :: c in s ==> !IsQuote(c) && c != '{' && c != '}' && c != '/'
  }

  lemma {:induction false} PlainDelta(s: string, tail: string, i: nat)
    requires i <= |s| && Plain(s) && (tail == "" || tail == "{")
    ensures DeltaFrom(s + tail, i) == |tail|
    decreases |s| - i
  {
    var src := s + tail;
    if i < |s| {
      assert src[i] in s;
      PlainDelta(s, tail, i + 1);
    }
  }

  function InnerSwitch(x: string, clause: string): (lines: seq<string>)
    ensures |lines| == 3
  {
    ["switch " + x + " {", clause, "switch {"]
  }

  lemma InnerOpen(x: string, clause: string)
    requires Plain(x) && Plain(clause)
    ensures OpenLines(InnerSwitch(x, clause), 3) == [0, 2]
  {
    hide DeltaFrom;
    var lines := InnerSwitch(x, clause);
    assert Plain("switch " + x + " ") && Plain("switch ");
    assert lines[0] == "switch " + x + " " + "{" && lines[1] == clause + "" && lines[2] == "switch " + "{";
    PlainDelta("switch " + x + " ", "{", 0);
    PlainDelta(clause, "", 0);
    PlainDelta("switch ", "{", 0);
    assert OpenLines(lines, 1) == [0];
    assert OpenLines(lines, 2) == [0];
    assert OpenLines(lines, 3) == [0, 2];
  }

  lemma InnerLines(x: string, clause: string)
    requires Plain(x) && Trimmed(x) && x != ""
    ensures SubjectIs(InnerSwitch(x, clause)[0], x) && SwitchLine(InnerSwitch(x, clause)[0])
    ensures Tagless(InnerSwitch(x, clause)[2]) && '{' in InnerSwitch(x, clause)[2]
  {
    var lines := InnerSwitch(x, clause);
    var rest := " " + x + " {";
    assert lines[0] == "" + "switch" + rest && LettersThen(lines[0], rest);
    assert rest == " " + x + " " + "{" + "";
    assert BeforeBrace(rest, x);
    assert lines[2][7] == '{';
    assert lines[2] == "" + "switch" + " {" && LettersThen(lines[2], " {");
    assert " {" == " " + "" + "" + "{" + "";
    assert BeforeBrace(" {", "");
  }

  /** A clause of a tagless switch inside a switch on x is given to the one on x. */
  lemma TaglessIsPassedOver(x: string, clause: string)
    requires Plain(x) && Trimmed(x) && x != "" && Plain(clause)
    ensures Owner(InnerSwitch(x, clause), 3) == Some(0)
    ensures Topmost(InnerSwitch(x, clause), OpenLines(InnerSwitch(x, clause), 3), Switches()) == Some(2)
    ensures MeantOwner(InnerSwitch(x, clause), 3) == None
  {
    hide OpenLines, SubjectIs, Tagless, SwitchLine, InnerSwitch;
    var lines := InnerSwitch(x, clause);
    InnerOpen(x, clause);
    InnerLines(x, clause);
    KindsOfLine(lines[2]);
    var stack: seq<nat> := [0, 2];
    assert stack[..1] == [0];
    assert HasSubject(lines[0]);
    assert Topmost(lines, stack[..1], Taken()) == Some(0);
    assert Topmost(lines, stack, Taken()) == Some(0);
  }

  /** A name that goes on from the letters is taken for the keyword and a subject. */
  lemma LongerWordIsTaken(x: string)
    requires x != "" && Trimmed(x) && '{' !in x && IsWordPart(x[0])
    ensures SubjectIs("switch" + x + "{", x) && !SwitchLine("switch" + x + "{")
  {
    var line, rest := "switch" + x + "{", x + "{";
    assert line == "" + "switch" + rest && LettersThen(line, rest);
    assert rest == "" + x + "" + "{" + "";
    assert BeforeBrace(rest, x);
    forall r | LettersThen(line, r)
      ensures r == rest
    {
      LettersUnique(line, r, rest);
    }
    assert rest[0] == x[0];
  }

  /** switchboard := T{ */
  lemma SwitchboardIsTaken()
    ensures SwitchSubject("switchboard := T{") == Some("board := T") && !SwitchLine("switchboard := T{")
  {
    hide SwitchSubject, SubjectIs, SwitchLine;
    LongerWordIsTaken("board := T");
    assert "switch" + "board := T" + "{" == "switchboard := T{";
    SubjectFound("switchboard := T{");
  }

  // --------------------------------------------------------------------- characters

  /** White space as Unicode has it. */
  lemma SpaceIs(c: char)
    ensures IsSpace(c) <==>
              || c as int in {9, 10, 11, 12, 13, 32, 0x85, 0xA0, 0x1680, 0x2028, 0x2029, 0x202F, 0x205F, 0x3000}
              || 0x2000 <= c as int <= 0x200A
  {}

  /** Tabs and blanks before the keyword and after the subject are trimmed. */
  lemma IndentedSubject(x: string)
    requires Trimmed(x) && x != "" && '{' !in x
    ensures SwitchSubject("\t switch " + x + " {") == Some(x)
  {
    var line, rest := "\t switch " + x + " {", " " + x + " {";
    assert line == "\t " + "switch" + rest && LettersThen(line, rest);
    assert rest == " " + x + " " + "{" + "";
    assert BeforeBrace(rest, x);
    SubjectFound(line);
  }

  // ------------------------------------------------------------------ closed blocks

  lemma CloseDelta()
    ensures DeltaFrom("}", 0) == -1
  {}

  lemma SwitchOpens(x: string)
    requires Plain(x) && Trimmed(x) && x != ""
    ensures HasSubject("switch " + x + " {") && DeltaFrom("switch " + x + " {", 0) == 1
  {
    hide SubjectIs, SwitchLine, Tagless;
    InnerLines(x, "");
    assert InnerSwitch(x, "")[0] == "switch " + x + " {";
    assert HasSubject("switch " + x + " {");
    assert "switch " + x + " {" == "switch " + x + " " + "{";
    PlainDelta("switch " + x + " ", "{", 0);
  }

  /** A switch that has been closed owns nothing; one around a closed block does. */
  lemma ClosedBlocks(x: string, y: string)
    requires Plain(x) && Trimmed(x) && x != "" && Plain(y)
    ensures Owner(["switch " + x + " {", "}"], 2) == None
    ensures Owner(["switch " + x + " {", y + "{", "}"], 3) == Some(0)
  {
    hide DeltaFrom, HasSubject, Plain, OpenLines;
    var line := "switch " + x + " {";
    SwitchOpens(x);
    PlainDelta(y, "{", 0);
    CloseDelta();
    ClosedStacks(line, y);
    var stack: seq<nat> := [0];
    assert stack[..0] == [];
    assert Topmost([line, y + "{", "}"], stack, Taken()) == Some(0);
  }

  lemma ClosedStacks(line: string, y: string)
    requires DeltaFrom(line, 0) == 1 && DeltaFrom(y + "{", 0) == 1 && DeltaFrom("}", 0) == -1
    ensures OpenLines([line, "}"], 2) == [] && OpenLines([line, y + "{", "}"], 3) == [0]
  {
    hide DeltaFrom;
    var a, b := [line, "}"], [line, y + "{", "}"];
    assert OpenLines(a, 1) == [0];
    assert OpenLines(b, 1) == [0];
    assert OpenLines(b, 2) == [0, 1];
  }
}
