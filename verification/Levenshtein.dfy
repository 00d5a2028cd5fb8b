/** Edit distance (fuse/fuse.go): the two-row dynamic program computes the
    length of a shortest chain of single-character edits. */
module Levenshtein {

  // ------------------------------------------------------------- the recurrence

  function Min3(x: nat, y: nat, z: nat): nat {
    if x <= y && x <= z then x else if y <= z then y else z
  }

  function Cost(x: char, y: char): nat {
    if x == y then 0 else 1
  }

  function Lev(a: string, b: string): nat {
    if a == [] then |b|
    else if b == [] then |a|
    else
      var a', b' := a[..|a| - 1], b[..|b| - 1];
      Min3(Lev(a', b) + 1, Lev(a, b') + 1, Lev(a', b') + Cost(a[|a| - 1], b[|b| - 1]))
  }

  lemma LevUnfold(a: string, b: string)
    requires a != [] && b != []
    ensures var a', b' := a[..|a| - 1], b[..|b| - 1];
            Lev(a, b) == Min3(Lev(a', b) + 1, Lev(a, b') + 1, Lev(a', b') + Cost(a[|a| - 1], b[|b| - 1]))
  {
  }

  lemma PrefixStep(s: string, i: nat)
    requires i < |s|
    ensures s[..i + 1][..i] == s[..i] && s[..i + 1][i] == s[i]
  {
  }

  /** One entry of the table from its three neighbours. */
  lemma LevCell(a: string, b: string, i: nat, j: nat)
    requires 0 < i <= |a| && 0 < j <= |b|
    ensures Lev(a[..i], b[..j])
         == Min3(Lev(a[..i - 1], b[..j]) + 1, Lev(a[..i], b[..j - 1]) + 1,
                 Lev(a[..i - 1], b[..j - 1]) + Cost(a[i - 1], b[j - 1]))
  {
    hide Lev;
    PrefixStep(a, i - 1);
    PrefixStep(b, j - 1);
    LevUnfold(a[..i], b[..j]);
  }

  /** The first m entries of row i of the table. */
  ghost predicate Row(a: string, b: string, i: nat, m: nat, row: seq<nat>) {
    && i <= |a| && m <= |row| == |b| + 1
    && forall k :: 0 <= k < m ==> row[k] == Lev(a[..i], b[..k])
  }

  lemma RowStep(a: string, b: string, i: nat, j: nat, prev: seq<nat>, row: seq<nat>)
    requires 0 < i <= |a| && 0 < j <= |b|
    requires Row(a, b, i - 1, |b| + 1, prev) && Row(a, b, i, j, row)
    ensures Row(a, b, i, j + 1,
                row[j := Min3(prev[j] + 1, row[j - 1] + 1, prev[j - 1] + Cost(a[i - 1], b[j - 1]))])
  {
    LevCell(a, b, i, j);
  }

  method EditDistance(a: string, b: string) returns (d: nat)
    ensures d == Lev(a, b)
  {
    if |a| == 0 {
      return |b|;
    }
    if |b| == 0 {
      return |a|;
    }
    hide Lev, Row;
    var prev := new nat[|b| + 1];
    var curr := new nat[|b| + 1];
    var j := 0;
    while j < prev.Length
      invariant 0 <= j <= prev.Length
      invariant forall k :: 0 <= k < j ==> prev[k] == k
    {
      prev[j] := j;
      j := j + 1;
    }
    var i := 1;
    while i <= |a|
      invariant 1 <= i <= |a| + 1
      invariant prev != curr && prev.Length == curr.Length == |b| + 1
      invariant fresh(prev) && fresh(curr)
      invariant Row(a, b, i - 1, |b| + 1, prev[..])
    {
      curr[0] := i;
      j := 1;
      ghost var above := prev[..];
      while j <= |b|
        invariant 1 <= j <= |b| + 1
        invariant prev[..] == above
        invariant Row(a, b, i, j, curr[..])
      {
        var cost := 1;
        if a[i - 1] == b[j - 1] {
          cost := 0;
        }
        RowStep(a, b, i, j, prev[..], curr[..]);
        curr[j] := Min3(prev[j] + 1, curr[j - 1] + 1, prev[j - 1] + cost);
        j := j + 1;
      }
      prev, curr := curr, prev;
      i := i + 1;
    }
    LastEntry(a, b, prev[..]);
    return prev[|b|];
  }

  lemma LastEntry(a: string, b: string, row: seq<nat>)
    requires Row(a, b, |a|, |b| + 1, row)
    ensures row[|b|] == Lev(a, b)
  {
    assert a[..|a|] == a && b[..|b|] == b;
  }

  // ------------------------------------------------------- chains of single edits

  ghost predicate Inserts(s: string, t: string) {
    exists k, c :: 0 <= k <= |s| && t == s[..k] + [c] + s[k..]
  }

  ghost predicate Substitutes(s: string, t: string) {
    exists k, c :: 0 <= k < |s| && t == s[..k] + [c] + s[k + 1..]
  }

  ghost predicate OneEdit(s: string, t: string) {
    Inserts(s, t) || Inserts(t, s) || Substitutes(s, t)
  }

  /** A chain of texts, each one edit away from the next. */
  ghost predicate EditChain(p: seq<string>, a: string, b: string) {
    && p != [] && p[0] == a && p[|p| - 1] == b
    && forall i :: 0 <= i < |p| - 1 ==> OneEdit(p[i], p[i + 1])
  }

  /** Going on to t costs at most one edit more than stopping at s. */
  ghost predicate AtMostOneMore(s: string, t: string) {
    forall a :: Lev(a, t) <= Lev(a, s) + 1
  }

  lemma {:induction false} AppendedOneMore(a: string, s: string, c: char)
    ensures Lev(a, s + [c]) <= Lev(a, s) + 1
    ensures Lev(a, s) <= Lev(a, s + [c]) + 1
  {
    if a != [] {
      AppendedOneMore(a[..|a| - 1], s, c);
    }
  }

  lemma {:induction false} SubstitutedOneMore(a: string, s: string, c: char, d: char)
    ensures Lev(a, s + [d]) <= Lev(a, s + [c]) + 1
  {
    if a != [] {
      SubstitutedOneMore(a[..|a| - 1], s, c, d);
    }
  }

  lemma LevAppended(a: string, s: string, z: char)
    requires a != []
    ensures var a' := a[..|a| - 1];
            Lev(a, s + [z]) == Min3(Lev(a', s + [z]) + 1, Lev(a, s) + 1, Lev(a', s) + Cost(a[|a| - 1], z))
  {
    assert (s + [z])[..|s|] == s;
    hide Lev;
    LevUnfold(a, s + [z]);
  }

  lemma LevOfEmpty(s: string)
    ensures Lev("", s) == |s|
  {}

  lemma {:induction false} SameSuffixChar(a: string, s: string, t: string, z: char)
    requires AtMostOneMore(s, t)
    ensures Lev(a, t + [z]) <= Lev(a, s + [z]) + 1
  {
    hide Lev;
    assert Lev(a, t) <= Lev(a, s) + 1;
    if a != [] {
      var a' := a[..|a| - 1];
      SameSuffixChar(a', s, t, z);
      assert Lev(a', t) <= Lev(a', s) + 1;
      LevAppended(a, s, z);
      LevAppended(a, t, z);
    } else {
      LevOfEmpty(s);
      LevOfEmpty(t);
      LevOfEmpty(s + [z]);
      LevOfEmpty(t + [z]);
    }
  }

  lemma {:induction false} SameSuffix(s: string, t: string, y: string)
    requires AtMostOneMore(s, t)
    ensures AtMostOneMore(s + y, t + y)
    decreases |y|
  {
    if y == [] {
      assert s + y == s && t + y == t;
    } else {
      SameSuffix(s + [y[0]], t + [y[0]], y[1..]) by {
        forall a ensures Lev(a, t + [y[0]]) <= Lev(a, s + [y[0]]) + 1 {
          SameSuffixChar(a, s, t, y[0]);
        }
      }
      assert s + [y[0]] + y[1..] == s + y && t + [y[0]] + y[1..] == t + y;
    }
  }

  lemma InsertedOneMore(s: string, k: nat, c: char)
    requires k <= |s|
    ensures AtMostOneMore(s, s[..k] + [c] + s[k..]) && AtMostOneMore(s[..k] + [c] + s[k..], s)
  {
    hide Lev;
    var x := s[..k];
    forall a
      ensures Lev(a, x + [c]) <= Lev(a, x) + 1 && Lev(a, x) <= Lev(a, x + [c]) + 1
    {
      AppendedOneMore(a, x, c);
    }
    assert AtMostOneMore(x, x + [c]) && AtMostOneMore(x + [c], x);
    hide AtMostOneMore;
    SameSuffix(x, x + [c], s[k..]);
    SameSuffix(x + [c], x, s[k..]);
    assert s == x + s[k..];
  }

  lemma ReplacedOneMore(s: string, k: nat, c: char)
    requires k < |s|
    ensures AtMostOneMore(s, s[..k] + [c] + s[k + 1..])
  {
    hide Lev;
    var x := s[..k];
    forall a
      ensures Lev(a, x + [c]) <= Lev(a, x + [s[k]]) + 1
    {
      SubstitutedOneMore(a, x, s[k], c);
    }
    assert AtMostOneMore(x + [s[k]], x + [c]);
    hide AtMostOneMore;
    SameSuffix(x + [s[k]], x + [c], s[k + 1..]);
    assert s == x + [s[k]] + s[k + 1..];
  }

  lemma EditOneMore(s: string, t: string)
    requires OneEdit(s, t)
    ensures AtMostOneMore(s, t)
  {
    hide AtMostOneMore;
    if Inserts(s, t) {
      var k, c :| 0 <= k <= |s| && t == s[..k] + [c] + s[k..];
      InsertedOneMore(s, k, c);
    } else if Inserts(t, s) {
      var k, c :| 0 <= k <= |t| && s == t[..k] + [c] + t[k..];
      InsertedOneMore(t, k, c);
    } else {
      var k, c :| 0 <= k < |s| && t == s[..k] + [c] + s[k + 1..];
      ReplacedOneMore(s, k, c);
    }
  }

  lemma {:induction false} LevSelf(a: string)
    ensures Lev(a, a) == 0
  {
    if a != [] { LevSelf(a[..|a| - 1]); }
  }

  /** No chain of single edits from a to b is shorter than the distance. */
  lemma {:induction false} NoShorterChain(p: seq<string>, a: string, b: string)
    requires EditChain(p, a, b)
    ensures Lev(a, b) <= |p| - 1
  {
    if |p| == 1 {
      LevSelf(a);
    } else {
      var q := p[..|p| - 1];
      NoShorterChain(q, a, q[|q| - 1]);
      EditOneMore(p[|p| - 2], p[|p| - 1]);
      assert Lev(a, b) <= Lev(a, p[|p| - 2]) + 1;
    }
  }

  lemma EditWithSuffix(s: string, t: string, z: char)
    requires OneEdit(s, t)
    ensures OneEdit(s + [z], t + [z])
  {
    if Inserts(s, t) {
      var k, c :| 0 <= k <= |s| && t == s[..k] + [c] + s[k..];
      assert t + [z] == (s + [z])[..k] + [c] + (s + [z])[k..];
    } else if Inserts(t, s) {
      var k, c :| 0 <= k <= |t| && s == t[..k] + [c] + t[k..];
      assert s + [z] == (t + [z])[..k] + [c] + (t + [z])[k..];
    } else {
      var k, c :| 0 <= k < |s| && t == s[..k] + [c] + s[k + 1..];
      assert t + [z] == (s + [z])[..k] + [c] + (s + [z])[k + 1..];
    }
  }

  lemma {:induction false} ChainWithSuffix(p: seq<string>, a: string, b: string, z: char) returns (q: seq<string>)
    requires EditChain(p, a, b)
    ensures EditChain(q, a + [z], b + [z]) && |q| == |p|
  {
    if |p| == 1 {
      q := [a + [z]];
    } else {
      var r := ChainWithSuffix(p[1..], p[1], b, z);
      EditWithSuffix(p[0], p[1], z);
      q := [a + [z]] + r;
    }
  }

  lemma DropLast(s: string)
    requires s != []
    ensures OneEdit(s[..|s| - 1], s) && OneEdit(s, s[..|s| - 1])
  {
    var t := s[..|s| - 1];
    assert s == t[..|t|] + [s[|t|]] + t[|t|..];
  }

  lemma ChangeLast(s: string, x: char, y: char)
    ensures OneEdit(s + [x], s + [y])
  {
    var t := s + [x];
    assert s + [y] == t[..|s|] + [y] + t[|s| + 1..];
  }

  lemma ChainThen(p: seq<string>, a: string, b: string, c: string)
    requires EditChain(p, a, b) && OneEdit(b, c)
    ensures EditChain(p + [c], a, c)
  {
  }

  lemma ThenChain(p: seq<string>, a: string, b: string, c: string)
    requires OneEdit(a, b) && EditChain(p, b, c)
    ensures EditChain([a] + p, a, c)
  {
  }

  lemma LevCases(a: string, b: string)
    ensures a == [] && b == [] ==> Lev(a, b) == 0
    ensures a != [] && b == [] ==> Lev(a, b) == Lev(a[..|a| - 1], b) + 1
    ensures a == [] && b != [] ==> Lev(a, b) == Lev(a, b[..|b| - 1]) + 1
    ensures a != [] && b != [] ==>
              var a', b' := a[..|a| - 1], b[..|b| - 1];
              || Lev(a, b) == Lev(a', b) + 1 || Lev(a, b) == Lev(a, b') + 1
              || Lev(a, b) == Lev(a', b') + Cost(a[|a| - 1], b[|b| - 1])
  {}

  /** Some chain of single edits from a to b is as short as the distance. */
  lemma {:induction false} ChainOfLev(a: string, b: string) returns (p: seq<string>)
    ensures EditChain(p, a, b) && |p| - 1 == Lev(a, b)
  {
    hide Lev, EditChain, OneEdit, Inserts, Substitutes;
    LevCases(a, b);
    if a == [] && b == [] {
      p := SingleChain(a);
    } else if b == [] || (a != [] && Lev(a, b) == Lev(a[..|a| - 1], b) + 1) {
      var q := ChainOfLev(a[..|a| - 1], b);
      DropLast(a);
      ThenChain(q, a, a[..|a| - 1], b);
      p := [a] + q;
    } else if a == [] || Lev(a, b) == Lev(a, b[..|b| - 1]) + 1 {
      var q := ChainOfLev(a, b[..|b| - 1]);
      DropLast(b);
      ChainThen(q, a, b[..|b| - 1], b);
      p := q + [b];
    } else {
      var a', b', x, y := a[..|a| - 1], b[..|b| - 1], a[|a| - 1], b[|b| - 1];
      var q := ChainOfLev(a', b');
      p := ChainWithSuffix(q, a', b', x);
      assert a == a' + [x] && b == b' + [y];
      if x != y {
        ChangeLast(b', x, y);
        ChainThen(p, a, b' + [x], b);
        p := p + [b];
      }
    }
  }

  lemma SingleChain(a: string) returns (p: seq<string>)
    ensures EditChain(p, a, a) && |p| == 1
  {
    p := [a];
  }

  /** The distance is never below the length difference. */
  lemma {:induction false} LevAtLeastLengthDiff(a: string, b: string)
    ensures Lev(a, b) >= |a| - |b| && Lev(a, b) >= |b| - |a|
  {
    if a != [] && b != [] {
      LevAtLeastLengthDiff(a[..|a| - 1], b);
      LevAtLeastLengthDiff(a, b[..|b| - 1]);
      LevAtLeastLengthDiff(a[..|a| - 1], b[..|b| - 1]);
    }
  }
}
