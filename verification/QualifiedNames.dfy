/** Names of methods with the receiver in parentheses and their stored form
    (store/store.go, lines 96 to 110). */
module QualifiedNames {

  predicate IsParen(c: char) {
    c == '(' || c == ')'
  }

  ghost predicate NoParens(s: string) {
    forall c :: c in s ==> !IsParen(c)
  }

  /** How many characters stand before the first parenthesis. */
  function Run(s: string): (n: nat)
    ensures n <= |s| && NoParens(s[..n])
    ensures n < |s| ==> IsParen(s[n])
  {
    if s == "" || IsParen(s[0]) then 0
    else
      var n := Run(s[1..]);
      assert s[..n + 1] == [s[0]] + s[1..][..n];
      n + 1
  }

  /** s starts with text between parentheses and a dot, as [^()]+ in the pattern
      \.\(\*?([^()]+)\)\. asks. */
  predicate Wrapped(s: string) {
    && s != "" && s[0] == '('
    && var n := Run(s[1..]); n > 0 && |s| > n + 2 && s[n + 1] == ')' && s[n + 2] == '.'
  }

  /** A match of the pattern starts s. */
  predicate Wrapper(s: string) {
    s != "" && s[0] == '.' && Wrapped(s[1..])
  }

  /** What the group captures: a star in front is left out unless it stands alone. */
  function Captured(s: string): (x: string)
    requires NoParens(s) && s != ""
    ensures NoParens(x) && x != ""
  {
    if s[0] == '*' && |s| > 1 then s[1..] else s
  }

  /** The text between the parentheses. */
  function Inside(s: string): (x: string)
    requires Wrapper(s)
    ensures NoParens(x) && x != ""
  {
    s[2..][..Run(s[2..])]
  }

  /** What follows the match. */
  function Behind(s: string): (r: string)
    requires Wrapper(s)
    ensures |r| < |s|
  {
    s[Run(s[2..]) + 4..]
  }

  /** Every match, from the left, replaced by the captured text between dots. */
  function ReplaceAll(s: string): string
    decreases |s|
  {
    if s == "" then ""
    else if Wrapper(s) then "." + Captured(Inside(s)) + "." + ReplaceAll(Behind(s))
    else [s[0]] + ReplaceAll(s[1..])
  }

  function NormalizeQualifiedName(qn: string): string {
    if '(' !in qn then qn else ReplaceAll(qn)
  }

  // ------------------------------------------------------------------ one pass

  /** The test for a parenthesis only saves work. */
  lemma {:induction false} NoOpening(s: string)
    requires '(' !in s
    ensures ReplaceAll(s) == s
    decreases |s|
  {
    if s != "" {
      assert |s| > 1 ==> s[1] in s;
      assert s == [s[0]] + s[1..];
      NoOpening(s[1..]);
    }
  }

  lemma NormalizeIsReplaceAll(s: string)
    ensures NormalizeQualifiedName(s) == ReplaceAll(s)
  {
    if '(' !in s {
      NoOpening(s);
    }
  }

  /** The pattern matches somewhere. */
  predicate HasWrapper(s: string)
    decreases |s|
  {
    s != "" && (Wrapper(s) || HasWrapper(s[1..]))
  }

  lemma {:induction false} RunIs(x: string, rest: string)
    requires NoParens(x) && (rest == "" || IsParen(rest[0]))
    ensures Run(x + rest) == |x|
  {
    if x == "" {
      assert x + rest == rest;
    } else {
      assert x[0] in x;
      assert (x + rest)[1..] == x[1..] + rest;
      RunIs(x[1..], rest);
    }
  }

  lemma WrapperParts(s: string)
    requires Wrapper(s)
    ensures s == ".(" + Inside(s) + ")." + Behind(s)
  {
    var n := Run(s[2..]);
    assert s[1..][1..] == s[2..];
    assert s[2..] == s[2..][..n] + s[2..][n..];
    assert s[2..][n..] == [s[n + 2]] + [s[n + 3]] + s[n + 4..];
  }

  /** A match written out. */
  lemma WrapperIs(x: string, rest: string)
    requires NoParens(x) && x != ""
    ensures Wrapper(".(" + x + ")." + rest)
    ensures Inside(".(" + x + ")." + rest) == x && Behind(".(" + x + ")." + rest) == rest
  {
    var s := ".(" + x + ")." + rest;
    assert s[1..][1..] == s[2..] && s[2..] == x + (")." + rest);
    RunIs(x, ")." + rest);
    assert s[|x| + 4..] == rest;
  }

  /** A name changes exactly when the pattern matches, and then it gets shorter. */
  lemma {:induction false} ChangesIff(s: string)
    ensures !HasWrapper(s) ==> ReplaceAll(s) == s
    ensures HasWrapper(s) ==> |ReplaceAll(s)| < |s|
    ensures |ReplaceAll(s)| <= |s|
    decreases |s|
  {
    if s != "" {
      if Wrapper(s) {
        WrapperParts(s);
        ChangesIff(Behind(s));
      } else {
        ChangesIff(s[1..]);
        assert s == [s[0]] + s[1..];
      }
    }
  }

  // ---------------------------------------------------------------- a second pass

  /** u goes on with text and whole matches up to a closing parenthesis and a dot; some
      says whether there was text already. */
  predicate Closes(u: string, some: bool)
    decreases |u|
  {
    if u == "" then false
    else if Wrapper(u) then Closes(Behind(u), true)
    else if u[0] == '(' then false
    else if u[0] == ')' then some && |u| > 1 && u[1] == '.'
    else Closes(u[1..], true)
  }

  predicate Opens(s: string) {
    s != "" && s[0] == '(' && Closes(s[1..], false)
  }

  /** Behind a dot, which may be the last of a match, stands an opening parenthesis, and
      then text and whole matches up to a closing one and a dot. */
  predicate LeavesWrapper(s: string)
    decreases |s|
  {
    && s != ""
    && if Wrapper(s) then Opens(Behind(s)) || LeavesWrapper(Behind(s))
       else (s[0] == '.' && Opens(s[1..])) || LeavesWrapper(s[1..])
  }

  /** t goes on with text up to a closing parenthesis and a dot. */
  predicate ClosesPlain(t: string, some: bool) {
    var n := Run(t);
    (n > 0 || some) && |t| > n + 1 && t[n] == ')' && t[n + 1] == '.'
  }

  lemma ClosesBehindText(y: string, t: string, some: bool)
    requires NoParens(y) && y != ""
    ensures ClosesPlain(y + t, some) <==> ClosesPlain(t, true)
  {
    var n := Run(t);
    RunIs(y + t[..n], t[n..]);
    assert y + t == (y + t[..n]) + t[n..];
  }

  lemma FirstKept(u: string)
    ensures ReplaceAll(u) == "" <==> u == ""
    ensures u != "" ==> ReplaceAll(u)[0] == u[0]
  {
    if u != "" && Wrapper(u) {
      assert ReplaceAll(u)[0] == '.';
    }
  }

  lemma {:induction false} ClosesKept(u: string, some: bool)
    ensures Closes(u, some) <==> ClosesPlain(ReplaceAll(u), some)
    decreases |u|
  {
    if u != "" {
      if Wrapper(u) {
        var y := "." + Captured(Inside(u)) + ".";
        ClosesKept(Behind(u), true);
        ClosesBehindText(y, ReplaceAll(Behind(u)), some);
      } else if !IsParen(u[0]) {
        ClosesKept(u[1..], true);
        ClosesBehindText([u[0]], ReplaceAll(u[1..]), some);
      } else {
        FirstKept(u[1..]);
      }
    }
  }

  lemma OpensKept(s: string)
    ensures Opens(s) <==> Wrapped(ReplaceAll(s))
  {
    FirstKept(s);
    if s != "" && s[0] == '(' {
      ClosesKept(s[1..], false);
      assert ReplaceAll(s) == "(" + ReplaceAll(s[1..]);
      assert ReplaceAll(s)[1..] == ReplaceAll(s[1..]);
    }
  }

  lemma {:induction false} WrapperBehindText(y: string, t: string)
    requires NoParens(y)
    ensures HasWrapper(y + "." + t) <==> Wrapped(t) || HasWrapper(t)
  {
    var s := y + "." + t;
    if y == "" {
      assert s[1..] == t;
    } else {
      assert s[1] == (if |y| > 1 then y[1] else '.') && (|y| > 1 ==> y[1] in y);
      assert s[1..] == y[1..] + "." + t;
      WrapperBehindText(y[1..], t);
    }
  }

  /** Whether the pattern still matches what one pass makes of a name can be read off
      the name. */
  lemma {:induction false} LeavesWrapperIff(s: string)
    ensures HasWrapper(ReplaceAll(s)) <==> LeavesWrapper(s)
    decreases |s|
  {
    if s != "" {
      if Wrapper(s) {
        var t := ReplaceAll(Behind(s));
        OpensKept(Behind(s));
        LeavesWrapperIff(Behind(s));
        WrapperBehindText("." + Captured(Inside(s)), t);
      } else {
        var t := ReplaceAll(s[1..]);
        OpensKept(s[1..]);
        LeavesWrapperIff(s[1..]);
        assert ([s[0]] + t)[1..] == t;
      }
    }
  }

  /** Normalising twice is normalising once exactly when one pass leaves no match. */
  lemma IdempotentIff(s: string)
    ensures NormalizeQualifiedName(NormalizeQualifiedName(s)) == NormalizeQualifiedName(s) <==> !LeavesWrapper(s)
  {
    var t := ReplaceAll(s);
    NormalizeIsReplaceAll(s);
    NormalizeIsReplaceAll(t);
    LeavesWrapperIff(s);
    ChangesIff(t);
  }

  /** A name is in the stored form exactly when the pattern does not match it. */
  lemma StoredIff(s: string)
    ensures NormalizeQualifiedName(s) == s <==> !HasWrapper(s)
  {
    NormalizeIsReplaceAll(s);
    ChangesIff(s);
  }

  // ------------------------------------------------------------------ names of methods

  lemma HeadKept(c: char, t: string)
    requires t != "" && t[0] != '('
    ensures ReplaceAll([c] + t) == [c] + ReplaceAll(t)
  {
    assert ([c] + t)[1..] == t;
  }

  lemma {:induction false} PathKept(p: string, s: string)
    requires NoParens(p) && s != "" && s[0] == '.'
    ensures ReplaceAll(p + s) == p + ReplaceAll(s)
  {
    hide ReplaceAll;
    if p == "" {
      assert p + s == s;
    } else {
      PathKept(p[1..], s);
      var t := p[1..] + s;
      assert p == [p[0]] + p[1..] && p + s == [p[0]] + t;
      assert |p| > 1 ==> p[1] in p;
      assert t[0] == if |p| > 1 then p[1] else '.';
      HeadKept(p[0], t);
    }
  }

  lemma NoParensStored(s: string)
    requires NoParens(s)
    ensures NormalizeQualifiedName(s) == s
  {}

  function WithReceiver(p: string, x: string, rest: string): string {
    p + ".(" + x + ")." + rest
  }

  function WithoutReceiver(p: string, x: string, rest: string): string
    requires NoParens(x) && x != ""
  {
    p + "." + Captured(x) + "." + rest
  }

  lemma FirstPass(p: string, x: string, rest: string)
    requires NoParens(p) && NoParens(x) && x != ""
    ensures NormalizeQualifiedName(WithReceiver(p, x, rest)) == WithoutReceiver(p, x, ReplaceAll(rest))
  {
    hide NormalizeQualifiedName, Captured, Behind, Inside, Wrapper;
    var s := ".(" + x + ")." + rest;
    NormalizeIsReplaceAll(WithReceiver(p, x, rest));
    WrapperIs(x, rest);
    PathKept(p, s);
    assert WithReceiver(p, x, rest) == p + s;
    assert p + ("." + Captured(x) + "." + ReplaceAll(rest)) == WithoutReceiver(p, x, ReplaceAll(rest));
  }

  /** One receiver in parentheses is written out, and that is the stored form. */
  lemma OneReceiver(p: string, x: string, m: string)
    requires NoParens(p) && NoParens(x) && x != "" && NoParens(m)
    ensures NormalizeQualifiedName(WithReceiver(p, x, m)) == WithoutReceiver(p, x, m)
    ensures NormalizeQualifiedName(WithoutReceiver(p, x, m)) == WithoutReceiver(p, x, m)
  {
    FirstPass(p, x, m);
    NoOpening(m);
    NoParensStored(WithoutReceiver(p, x, m));
  }

  lemma ReceiverShorter(p: string, x: string, m: string)
    requires NoParens(x) && x != ""
    ensures WithoutReceiver(p, x, m) != WithReceiver(p, x, m)
  {
    assert |WithoutReceiver(p, x, m)| < |WithReceiver(p, x, m)|;
  }

  /** Of two receivers in a row the second is left, since the match of the first takes
      the dot between them. */
  lemma TwoReceivers(p: string, x: string, y: string, m: string)
    requires NoParens(p) && NoParens(x) && x != "" && NoParens(y) && y != "" && NoParens(m)
    ensures var s, q := WithReceiver(p, x, "(" + y + ")." + m), p + "." + Captured(x);
            && NormalizeQualifiedName(s) == WithReceiver(q, y, m)
            && NormalizeQualifiedName(WithReceiver(q, y, m)) == WithoutReceiver(q, y, m)
            && LeavesWrapper(s)
  {
    hide NormalizeQualifiedName, LeavesWrapper;
    var s, q := WithReceiver(p, x, "(" + y + ")." + m), p + "." + Captured(x);
    FirstPass(p, x, "(" + y + ")." + m);
    SecondKept(y, m);
    SecondLeft(p + "." + Captured(x), y, m);
    OneReceiver(q, y, m);
    ReceiverShorter(q, y, m);
    IdempotentIff(s);
  }

  lemma SecondLeft(q: string, y: string, m: string)
    ensures q + "." + ("(" + y + ")." + m) == WithReceiver(q, y, m)
  {}

  lemma SecondKept(y: string, m: string)
    requires NoParens(y) && NoParens(m)
    ensures ReplaceAll("(" + y + ")." + m) == "(" + y + ")." + m
  {
    var s := "(" + y + ")." + m;
    assert s[1..] == y + ")." + m;
    assert s == [s[0]] + s[1..];
    assert ")."[0] == ')' && ")."[1] == '.';
    NoOpening(s[1..]);
  }

  /** p.(A).(B).M takes two passes. */
  lemma TwoReceiversInARow()
    ensures NormalizeQualifiedName("p.(A).(B).M") == "p.A.(B).M"
    ensures NormalizeQualifiedName("p.A.(B).M") == "p.A.B.M"
    ensures LeavesWrapper("p.(A).(B).M")
  {
    hide NormalizeQualifiedName, LeavesWrapper;
    TwoReceivers("p", "A", "B", "M");
    assert WithReceiver("p", "A", "(" + "B" + ")." + "M") == "p.(A).(B).M";
    assert "p" + "." + Captured("A") == "p.A";
    assert WithReceiver("p.A", "B", "M") == "p.A.(B).M";
    assert WithoutReceiver("p.A", "B", "M") == "p.A.B.M";
  }

  /** A star before the receiver is left out, unless it stands alone. */
  lemma StarLeftOut(x: string)
    requires x != "" && NoParens("*" + x)
    ensures Captured("*" + x) == x && Captured("*") == "*"
    ensures NoParens(x) && (x[0] != '*' ==> Captured(x) == x)
  {
    assert ("*" + x)[1..] == x;
  }

  /** p.(*T).M and p.(T).M are p.T.M. */
  lemma PointerReceiver()
    ensures NormalizeQualifiedName("p.(*T).M") == "p.T.M" && NormalizeQualifiedName("p.(T).M") == "p.T.M"
  {
    hide NormalizeQualifiedName;
    OneReceiver("p", "*T", "M");
    OneReceiver("p", "T", "M");
    assert WithReceiver("p", "*T", "M") == "p.(*T).M" && WithReceiver("p", "T", "M") == "p.(T).M";
    assert Captured("*T") == "T" && Captured("T") == "T";
    assert WithoutReceiver("p", "T", "M") == "p.T.M" && WithoutReceiver("p", "*T", "M") == "p.T.M";
  }
}
