/** Escaping user text for SQL LIKE (store/store.go), against the LIKE of the
    database: % is any text, _ any one character, the escape character makes the
    next one literal, and ASCII letters match without regard to case. */
module Like {

  const ESCAPE: char := '\\'

  // ------------------------------------------------------------------ the matcher

  predicate IsUpper(c: char) {
    'A' <= c <= 'Z'
  }

  predicate IsLetter(c: char) {
    'A' <= c <= 'Z' || 'a' <= c <= 'z'
  }

  /** An ASCII letter in lower case; any other character itself. */
  function Fold(c: char): char {
    if IsUpper(c) then c + 32 as char else c
  }

  function FoldAll(s: string): (r: string)
    ensures |r| == |s| && forall i :: 0 <= i < |s| ==> r[i] == Fold(s[i])
  {
    seq(|s|, i requires 0 <= i < |s| => Fold(s[i]))
  }

  /** t LIKE p ESCAPE '\'. */
  ghost predicate Matches(p: string, t: string) {
    if p == "" then t == ""
    else if p[0] == '%' then exists k :: 0 <= k <= |t| && Matches(p[1..], t[k..])
    else if p[0] == ESCAPE then
      |p| >= 2 && t != "" && Fold(t[0]) == Fold(p[1]) && Matches(p[2..], t[1..])
    else t != "" && (p[0] == '_' || Fold(t[0]) == Fold(p[0])) && Matches(p[1..], t[1..])
  }

  // ----------------------------------------------------------------- the escaping

  /** strings.ReplaceAll for a one-character old text. */
  function ReplaceAll(s: string, c: char, with: string): string {
    if s == "" then "" else (if s[0] == c then with else [s[0]]) + ReplaceAll(s[1..], c, with)
  }

  function EscapeLike(s: string): string {
    var a := ReplaceAll(s, ESCAPE, [ESCAPE, ESCAPE]);
    var b := ReplaceAll(a, '%', [ESCAPE, '%']);
    ReplaceAll(b, '_', [ESCAPE, '_'])
  }

  function LikePattern(user: string): string {
    "%" + EscapeLike(user) + "%"
  }

  predicate Special(c: char) {
    c == ESCAPE || c == '%' || c == '_'
  }

  function EscapeChar(c: char): string {
    if Special(c) then [ESCAPE, c] else [c]
  }

  function EscapeEach(s: string): string {
    if s == "" then "" else EscapeChar(s[0]) + EscapeEach(s[1..])
  }

  lemma {:induction false} ReplaceAllConcat(s: string, t: string, c: char, with: string)
    ensures ReplaceAll(s + t, c, with) == ReplaceAll(s, c, with) + ReplaceAll(t, c, with)
  {
    if s == "" {
      assert s + t == t;
    } else {
      ReplaceAllConcat(s[1..], t, c, with);
      assert (s + t)[1..] == s[1..] + t;
      var head := if s[0] == c then with else [s[0]];
      assert head + (ReplaceAll(s[1..], c, with) + ReplaceAll(t, c, with))
          == head + ReplaceAll(s[1..], c, with) + ReplaceAll(t, c, with);
    }
  }

  lemma ReplaceOne(x: char, c: char, with: string)
    ensures ReplaceAll([x], c, with) == if x == c then with else [x]
  {
    assert [x][1..] == "";
  }

  lemma ReplaceTwo(x: char, y: char, c: char, with: string)
    ensures ReplaceAll([x, y], c, with) == (if x == c then with else [x]) + (if y == c then with else [y])
  {
    ReplaceOne(y, c, with);
    assert [x, y][1..] == [y];
  }

  lemma EscapeOne(c: char)
    ensures EscapeLike([c]) == EscapeChar(c)
  {
    ReplaceOne(c, ESCAPE, [ESCAPE, ESCAPE]);
    ReplaceOne(c, '%', [ESCAPE, '%']);
    ReplaceOne(c, '_', [ESCAPE, '_']);
    ReplaceTwo(ESCAPE, c, '%', [ESCAPE, '%']);
    ReplaceTwo(ESCAPE, c, '_', [ESCAPE, '_']);
  }

  lemma EscapeLikeConcat(s: string, t: string)
    ensures EscapeLike(s + t) == EscapeLike(s) + EscapeLike(t)
  {
    hide ReplaceAll;
    ReplaceAllConcat(s, t, ESCAPE, [ESCAPE, ESCAPE]);
    var a, a' := ReplaceAll(s, ESCAPE, [ESCAPE, ESCAPE]), ReplaceAll(t, ESCAPE, [ESCAPE, ESCAPE]);
    ReplaceAllConcat(a, a', '%', [ESCAPE, '%']);
    var b, b' := ReplaceAll(a, '%', [ESCAPE, '%']), ReplaceAll(a', '%', [ESCAPE, '%']);
    ReplaceAllConcat(b, b', '_', [ESCAPE, '_']);
  }

  /** The three replacements in sequence escape each special character once. */
  lemma {:induction false} EscapeLikeIsEscapeEach(s: string)
    ensures EscapeLike(s) == EscapeEach(s)
  {
    if s != "" {
      EscapeLikeIsEscapeEach(s[1..]);
      EscapeLikeConcat([s[0]], s[1..]);
      EscapeOne(s[0]);
      assert s == [s[0]] + s[1..];
    }
  }

  // ------------------------------------------------------------- what it matches

  predicate StartsWith(t: string, u: string) {
    |u| <= |t| && t[..|u|] == u
  }

  ghost predicate Contains(t: string, u: string) {
    exists k :: 0 <= k <= |t| && StartsWith(t[k..], u)
  }

  lemma FoldTail(t: string, k: nat)
    requires k <= |t|
    ensures FoldAll(t[k..]) == FoldAll(t)[k..]
  {
  }

  /** An escaped character matches itself, in either case. */
  lemma EscapedChar(c: char, q: string, t: string)
    ensures Matches(EscapeChar(c) + q, t) <==> t != "" && Fold(t[0]) == Fold(c) && Matches(q, t[1..])
  {
    var p := EscapeChar(c) + q;
    if Special(c) {
      assert p[2..] == q;
    } else {
      assert p[1..] == q;
    }
  }

  /** An escaped text followed by more pattern matches that text, then the rest. */
  lemma {:induction false} EscapedPrefix(u: string, q: string, t: string)
    ensures Matches(EscapeEach(u) + q, t) <==> StartsWith(FoldAll(t), FoldAll(u)) && Matches(q, t[|u|..])
  {
    hide Matches, EscapeChar;
    if u == "" {
      assert EscapeEach(u) + q == q;
      assert t[0..] == t;
    } else {
      var rest := EscapeEach(u[1..]) + q;
      assert EscapeEach(u) + q == EscapeChar(u[0]) + rest;
      EscapedChar(u[0], rest, t);
      if t != "" {
        EscapedPrefix(u[1..], q, t[1..]);
        assert |u| <= |t| ==> t[1..][|u[1..]|..] == t[|u|..];
      }
    }
  }

  lemma AnythingMatches(t: string)
    ensures Matches("%", t)
  {
    assert Matches("%"[1..], t[|t|..]);
  }

  /** escapeLike(u) + "%" matches the texts that start with u, letter case aside. */
  lemma PrefixPattern(u: string, t: string)
    ensures Matches(EscapeLike(u) + "%", t) <==> StartsWith(FoldAll(t), FoldAll(u))
  {
    EscapeLikeIsEscapeEach(u);
    EscapedPrefix(u, "%", t);
    if |u| <= |t| {
      AnythingMatches(t[|u|..]);
    }
  }

  /** likePattern(u) matches the texts that contain u, letter case aside. */
  lemma ContainsPattern(u: string, t: string)
    ensures Matches(LikePattern(u), t) <==> Contains(FoldAll(t), FoldAll(u))
  {
    var p := EscapeLike(u) + "%";
    assert LikePattern(u)[1..] == p;
    forall k | 0 <= k <= |t|
      ensures Matches(p, t[k..]) <==> StartsWith(FoldAll(t)[k..], FoldAll(u))
    {
      PrefixPattern(u, t[k..]);
      FoldTail(t, k);
    }
  }

  // ------------------------------------------------------------------- letter case

  predicate HasLetter(u: string) {
    exists i :: 0 <= i < |u| && IsLetter(u[i])
  }

  function SwapCase(c: char): char {
    if 'A' <= c <= 'Z' then c + 32 as char
    else if 'a' <= c <= 'z' then c - 32 as char
    else c
  }

  /** The match is on the literal text exactly for the patterns without letters:
      any letter also matches in the other case. */
  lemma LiteralIffNoLetters(u: string)
    ensures (forall t :: Matches(LikePattern(u), t) <==> Contains(t, u)) <==> !HasLetter(u)
  {
    if !HasLetter(u) {
      forall t ensures Matches(LikePattern(u), t) <==> Contains(t, u) {
        ContainsPattern(u, t);
        if Contains(FoldAll(t), FoldAll(u)) {
          var k :| 0 <= k <= |FoldAll(t)| && StartsWith(FoldAll(t)[k..], FoldAll(u));
          FoldTail(t, k);
        }
        if Contains(t, u) {
          LiteralFolds(t, u);
        }
      }
    } else {
      var t := OtherCase(u);
      assert StartsWith(FoldAll(t)[0..], FoldAll(u));
      ContainsPattern(u, t);
      assert !Contains(t, u) by {
        forall k | 0 <= k <= |t| ensures !StartsWith(t[k..], u) {
          assert t[0..] == t && t != u;
          assert k == 0 ==> t[..|u|] == t;
        }
      }
    }
  }

  /** The text differs from u but folds to the same. */
  lemma OtherCase(u: string) returns (t: string)
    requires HasLetter(u)
    ensures |t| == |u| && t != u && FoldAll(t) == FoldAll(u)
  {
    var i :| 0 <= i < |u| && IsLetter(u[i]);
    t := u[i := SwapCase(u[i])];
  }

  /** The same for the prefix pattern. */
  lemma PrefixIsLiteralIffNoLetters(u: string)
    ensures (forall t :: Matches(EscapeLike(u) + "%", t) <==> StartsWith(t, u)) <==> !HasLetter(u)
  {
    hide Matches, EscapeLike;
    if !HasLetter(u) {
      forall t
        ensures Matches(EscapeLike(u) + "%", t) <==> StartsWith(t, u)
      {
        PrefixPattern(u, t);
        StartFolds(t, u);
      }
    } else {
      var t := OtherCase(u);
      PrefixPattern(u, t);
      assert FoldAll(t)[..|u|] == FoldAll(u);
      assert t[..|u|] == t;
    }
  }

  /** Without letters the start of a text is literal exactly when it is folded. */
  lemma StartFolds(t: string, u: string)
    requires !HasLetter(u)
    ensures StartsWith(FoldAll(t), FoldAll(u)) <==> StartsWith(t, u)
  {
    if StartsWith(FoldAll(t), FoldAll(u)) {
      forall i | 0 <= i < |u|
        ensures t[i] == u[i]
      {
        assert FoldAll(t)[..|u|][i] == FoldAll(u)[i];
      }
    }
    if StartsWith(t, u) {
      assert FoldAll(t[..|u|]) == FoldAll(t)[..|u|];
    }
  }

  lemma LiteralFolds(t: string, u: string)
    requires Contains(t, u)
    ensures Contains(FoldAll(t), FoldAll(u))
  {
    var k :| 0 <= k <= |t| && StartsWith(t[k..], u);
    assert FoldAll(t[k..])[..|u|] == FoldAll(u);
    FoldTail(t, k);
  }

  /** Escaping the escape character last would break its own escapes. */
  lemma EscapeFirstMatters()
    ensures ReplaceAll(ReplaceAll("%", '%', [ESCAPE, '%']), ESCAPE, [ESCAPE, ESCAPE]) != EscapeEach("%")
  {
    ReplaceOne('%', '%', [ESCAPE, '%']);
    ReplaceTwo(ESCAPE, '%', ESCAPE, [ESCAPE, ESCAPE]);
    assert EscapeEach("%") == [ESCAPE, '%'] + EscapeEach("%"[1..]);
    assert |EscapeEach("%")| == 2;
  }

  // ------------------------------------------------------------------ what LIKE means

  /** Upper case ASCII letters fold to the lower case ones, 32 places on; nothing else
      changes. */
  lemma FoldMeans(c: char)
    ensures Fold(c) as int == if 65 <= c as int <= 90 then c as int + 32 else c as int
    ensures IsLetter(c) <==> 65 <= c as int <= 90 || 97 <= c as int <= 122
  {}

  lemma OneCharacter(t: string)
    ensures t != "" ==> (t[1..] == "" <==> |t| == 1) && (|t| == 1 ==> t == [t[0]])
  {}

  lemma PatternStep(c: char, t: string)
    requires c != '%' && c != ESCAPE
    ensures Matches([c], t) <==> t != "" && (c == '_' || Fold(t[0]) == Fold(c)) && t[1..] == ""
  {
    assert [c][1..] == "";
  }

  /** A bare % matches any text. */
  lemma PercentMatchesAny(t: string)
    ensures Matches(['%'], t)
  {
    assert ['%'][1..] == "" && t[|t|..] == "";
    assert Matches("", t[|t|..]);
  }

  /** A bare _ matches any one character, a letter itself in either case. */
  lemma WildcardsMean(t: string)
    ensures Matches(['%'], t)
    ensures Matches(['_'], t) <==> |t| == 1
    ensures Matches(['a'], t) <==> t == ['a'] || t == ['A']
  {
    hide Matches;
    PercentMatchesAny(t);
    PatternStep('_', t);
    PatternStep('a', t);
    OneCharacter(t);
  }

  /** Escaped, a special character matches only itself. */
  lemma EscapedMatch(c: char, t: string)
    requires !IsLetter(c)
    ensures Matches(['\\', c], t) <==> t == [c]
  {
    OneCharacter(t);
    assert ['\\', c][2..] == "";
    hide IsLetter, IsUpper;
    if t != "" {
      FoldMeans(t[0]);
      FoldMeans(c);
    }
  }

  /** The special characters are escaped with a backslash, nothing else is. */
  lemma EscapesMean(c: char)
    ensures EscapeLike([c]) == if c as int in {37, 92, 95} then [92 as char, c] else [c]
  {
    EscapeOne(c);
  }
}
