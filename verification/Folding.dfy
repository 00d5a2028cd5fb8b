/** Folding small sections into the following one (chunk/chunk.go, lines 188 to 213). */
module Folding {
  import opened Sections

  const MIN_CHUNK: nat := 512

  /** A small section and its neighbour that fit together. */
  predicate Joinable(a: Section, b: Section, limit: int) {
    |a.content| < MIN_CHUNK && |a.content| + |b.content| <= limit
  }

  function Join(a: Section, b: Section): Section {
    Section(b.title, a.content + b.content)
  }

  /** One pass from left to right; a joined section is looked at again. */
  function Merged(s: seq<Section>, limit: int): (r: seq<Section>)
    ensures |r| <= |s|
    decreases |s|
  {
    if |s| < 2 then s
    else if Joinable(s[0], s[1], limit) then Merged([Join(s[0], s[1])] + s[2..], limit)
    else [s[0]] + Merged(s[1..], limit)
  }

  /** No section could still be joined to the one after it. */
  ghost predicate Settled(s: seq<Section>, limit: int) {
    forall k :: 0 <= k < |s| - 1 ==> !Joinable(s[k], s[k + 1], limit)
  }

  /** The first section can only grow. */
  lemma {:induction false} FirstGrows(s: seq<Section>, limit: int)
    requires s != []
    ensures Merged(s, limit) != [] && |Merged(s, limit)[0].content| >= |s[0].content|
    decreases |s|
  {
    if |s| > 1 && Joinable(s[0], s[1], limit) {
      FirstGrows([Join(s[0], s[1])] + s[2..], limit);
    }
  }

  /** After one pass nothing is left to join. */
  lemma {:induction false} OnePassSettles(s: seq<Section>, limit: int)
    ensures Settled(Merged(s, limit), limit)
    decreases |s|
  {
    if |s| > 1 {
      if Joinable(s[0], s[1], limit) {
        OnePassSettles([Join(s[0], s[1])] + s[2..], limit);
      } else {
        OnePassSettles(s[1..], limit);
        FirstGrows(s[1..], limit);
      }
    }
  }

  /** A pass over settled sections changes nothing. */
  lemma {:induction false} SettledStays(s: seq<Section>, limit: int)
    requires Settled(s, limit)
    ensures Merged(s, limit) == s
    decreases |s|
  {
    if |s| > 1 {
      assert !Joinable(s[0], s[0 + 1], limit);
      forall k | 0 <= k < |s| - 2
        ensures !Joinable(s[1..][k], s[1..][k + 1], limit)
      {
        assert !Joinable(s[k + 1], s[k + 1 + 1], limit);
      }
      SettledStays(s[1..], limit);
    }
  }

  lemma JoinKeepsText(a: Section, b: Section, rest: seq<Section>)
    ensures Concat([Join(a, b)] + rest) == Concat([a] + ([b] + rest))
  {
    ConcatCons(Join(a, b), rest);
    ConcatCons(b, rest);
    ConcatCons(a, [b] + rest);
  }

  /** Joining loses no text. */
  lemma {:induction false} MergedKeepsText(s: seq<Section>, limit: int)
    ensures Concat(Merged(s, limit)) == Concat(s)
    decreases |s|
  {
    hide Concat;
    if |s| > 1 {
      if Joinable(s[0], s[1], limit) {
        MergedKeepsText([Join(s[0], s[1])] + s[2..], limit);
        JoinKeepsText(s[0], s[1], s[2..]);
        assert s == [s[0]] + ([s[1]] + s[2..]);
      } else {
        MergedKeepsText(s[1..], limit);
        assert s == [s[0]] + s[1..];
        ConcatCons(s[0], s[1..]);
        ConcatCons(s[0], Merged(s[1..], limit));
      }
    }
  }

  /** The first k sections as one, with the title of the last of them. */
  function Front(s: seq<Section>, k: nat): Section
    requires 0 < k <= |s|
  {
    Section(s[k - 1].title, Concat(s[..k]))
  }

  lemma FrontGrows(s: seq<Section>, k: nat)
    requires 0 < k < |s|
    ensures Front(s, k + 1) == Join(Front(s, k), s[k])
  {
    assert s[..k + 1] == s[..k] + [s[k]];
    ConcatSnoc(s[..k], s[k]);
  }

  /** The first i sections are small and fit together with the next one. */
  ghost predicate GoesOn(s: seq<Section>, i: nat, limit: int) {
    i < |s| && |Concat(s[..i])| < 512 && |Concat(s[..i + 1])| <= limit
  }

  lemma FrontJoins(s: seq<Section>, k: nat, limit: int)
    requires 0 < k < |s|
    ensures Joinable(Front(s, k), s[k], limit) <==> GoesOn(s, k, limit)
  {
    hide Concat;
    assert s[..k + 1] == s[..k] + [s[k]];
    ConcatSnoc(s[..k], s[k]);
  }

  lemma {:induction false} FrontFolds(s: seq<Section>, k: nat, limit: int) returns (e: nat)
    requires 0 < k <= |s|
    ensures k <= e <= |s| && !GoesOn(s, e, limit)
    ensures forall i :: k <= i < e ==> GoesOn(s, i, limit)
    ensures Merged([Front(s, k)] + s[k..], limit) == [Front(s, e)] + Merged(s[e..], limit)
    decreases |s| - k
  {
    hide Merged, Front, Joinable;
    var t := [Front(s, k)] + s[k..];
    MergedStep(t, limit);
    if k == |s| {
      hide GoesOn;
      e := k;
      assert s[k..] == [] && t == [Front(s, k)];
      MergedStep(s[k..], limit);
      EndStops(s, limit);
    } else {
      hide GoesOn;
      assert t[0] == Front(s, k) && t[1] == s[k] && t[2..] == s[k + 1..] && t[1..] == s[k..];
      FrontJoins(s, k, limit);
      if GoesOn(s, k, limit) {
        FrontGrows(s, k);
        e := FrontFolds(s, k + 1, limit);
      } else {
        e := k;
      }
    }
  }

  lemma EndStops(s: seq<Section>, limit: int)
    ensures !GoesOn(s, |s|, limit)
  {}

  lemma MergedStep(t: seq<Section>, limit: int)
    ensures |t| < 2 ==> Merged(t, limit) == t
    ensures |t| >= 2 && Joinable(t[0], t[1], limit) ==> Merged(t, limit) == Merged([Join(t[0], t[1])] + t[2..], limit)
    ensures |t| >= 2 && !Joinable(t[0], t[1], limit) ==> Merged(t, limit) == [t[0]] + Merged(t[1..], limit)
  {}

  lemma FrontOfOne(s: seq<Section>)
    requires s != []
    ensures [Front(s, 1)] + s[1..] == s
  {
    hide Concat;
    assert s[..1] == [s[0]];
    ConcatOne(s[0]);
    assert Front(s, 1) == s[0];
  }

  /** The first section made is the first ones joined, as many as it takes to have 512
      bytes or as fit, under the title of the last one; the rest goes on likewise. */
  lemma FirstRun(s: seq<Section>, limit: int) returns (e: nat)
    requires s != []
    ensures 0 < e <= |s| && !GoesOn(s, e, limit)
    ensures forall i :: 0 < i < e ==> GoesOn(s, i, limit)
    ensures Merged(s, limit) == [Section(s[e - 1].title, Concat(s[..e]))] + Merged(s[e..], limit)
  {
    hide Merged, GoesOn, Concat;
    FrontOfOne(s);
    e := FrontFolds(s, 1, limit);
  }

  /** Every section has text, and at most limit bytes of it. */
  ghost predicate Sized(s: seq<Section>, limit: int) {
    forall k :: 0 <= k < |s| ==> 0 < |s[k].content| <= limit
  }

  lemma {:induction false} MergedSized(s: seq<Section>, limit: int)
    requires Sized(s, limit)
    ensures Sized(Merged(s, limit), limit)
    decreases |s|
  {
    if |s| > 1 {
      if Joinable(s[0], s[1], limit) {
        MergedSized([Join(s[0], s[1])] + s[2..], limit);
      } else {
        MergedSized(s[1..], limit);
      }
    }
  }

  /** The passes of the source over its slice: a holds the sections, the first n
      elements are the result. Sections are joined and moved within a; the second
      pass is the last. */
  method MergeSmall(a: array<Section>, limit: int) returns (n: nat, ghost passes: nat)
    modifies a
    ensures n <= a.Length && a[..n] == Merged(old(a[..]), limit)
    ensures passes <= 2
  {
    n := a.Length;
    passes := 0;
    ghost var before := a[..];
    assert a[..n] == before;
    while true
      invariant n <= a.Length
      invariant passes == 0 ==> a[..n] == before
      invariant passes > 0 ==> a[..n] == Merged(before, limit)
      invariant passes <= 1
      decreases 1 - passes
    {
      var merged, m := Pass(a, n, limit);
      if passes == 1 {
        OnePassSettles(before, limit);
        SettledStays(Merged(before, limit), limit);
      }
      passes := passes + 1;
      if !merged {
        n := m;
        return;
      }
      n := m;
    }
  }

  lemma MoveStep(front: seq<Section>, rest: seq<Section>, limit: int)
    requires |rest| > 0 && !(|rest| > 1 && Joinable(rest[0], rest[1], limit))
    ensures front + [rest[0]] + Merged(rest[1..], limit) == front + Merged(rest, limit)
  {
    assert Merged(rest, limit) == [rest[0]] + Merged(rest[1..], limit);
  }

  /** One pass over the first n elements. */
  method Pass(a: array<Section>, n: nat, limit: int) returns (merged: bool, w: nat)
    requires n <= a.Length
    modifies a
    ensures w <= n && a[..w] == Merged(old(a[..n]), limit)
    ensures merged <==> w < n
    ensures a[n..] == old(a[n..])
  {
    hide Merged;
    merged := false;
    w := 0;
    ghost var before := a[..n];
    assert a[0..n] == before && a[..0] + Merged(before, limit) == Merged(before, limit);
    for i := 0 to n
      invariant w <= i && (merged <==> w < i)
      invariant a[..w] + Merged(a[i..n], limit) == Merged(before, limit)
      invariant a[n..] == old(a[n..])
    {
      var cur := a[i];
      ghost var front, rest := a[..w], a[i..n];
      MergedStep(rest, limit);
      if |cur.content| < MIN_CHUNK && i + 1 < n && |cur.content| + |a[i + 1].content| <= limit {
        a[i + 1] := Section(a[i + 1].title, cur.content + a[i + 1].content);
        merged := true;
        assert a[i + 1..n] == [Join(rest[0], rest[1])] + rest[2..];
        assert a[..w] == front;
      } else {
        MoveStep(front, rest, limit);
        a[w] := cur;
        w := w + 1;
        assert a[..w] == front + [rest[0]];
        assert a[i + 1..n] == rest[1..];
      }
    }
    assert a[n..n] == [];
  }
}
