/** How many cycles DetectCycles lists, and what the Truncated flag says
    (query/query.go, lines 2016 to 2048). */
module CycleCount {
  import opened Cycles
  import opened Sequences

  /** The sequences of n nodes. */
  ghost function Seqs(nodes: set<string>, n: nat): set<seq<string>> {
    if n == 0 then {[]} else set s, x | s in Seqs(nodes, n - 1) && x in nodes :: s + [x]
  }

  ghost function SeqsUpTo(nodes: set<string>, n: nat): set<seq<string>> {
    if n == 0 then Seqs(nodes, 0) else SeqsUpTo(nodes, n - 1) + Seqs(nodes, n)
  }

  lemma {:induction false} InSeqs(nodes: set<string>, s: seq<string>)
    requires forall x :: x in s ==> x in nodes
    ensures s in Seqs(nodes, |s|)
  {
    if s != [] {
      var n := |s| - 1;
      InSeqs(nodes, s[..n]);
      assert s == s[..n] + [s[n]];
    }
  }

  lemma {:induction false} InSeqsUpTo(nodes: set<string>, s: seq<string>, n: nat)
    requires (forall x :: x in s ==> x in nodes) && |s| <= n
    ensures s in SeqsUpTo(nodes, n)
  {
    if |s| == n {
      InSeqs(nodes, s);
    } else {
      InSeqsUpTo(nodes, s, n - 1);
    }
  }

  ghost function Nodes(edges: seq<Edge>): set<string> {
    set e | e in edges :: e.fromRef
  }

  /** The keys of all simple cycles: the number of different cycles is its size. */
  ghost function CycleKeys(edges: seq<Edge>): set<string> {
    set c | c in SeqsUpTo(Nodes(edges), |Nodes(edges)| + 1) && SimpleCycle(edges, c) :: CycleKey(c)
  }

  lemma {:induction false} DistinctSize(s: seq<string>)
    requires Distinct(s)
    ensures |set x | x in s| == |s|
  {
    if s != [] {
      var n := |s| - 1;
      DistinctSize(s[..n]);
      assert s == s[..n] + [s[n]];
      assert (set x | x in s) == (set x | x in s[..n]) + {s[n]};
      assert s[n] !in s[..n];
    }
  }

  lemma SubsetSize(a: set<string>, b: set<string>)
    requires a <= b
    ensures |a| <= |b|
  {
    assert b == a + (b - a);
  }

  /** Every simple cycle has its key among them. */
  lemma CycleHasKey(edges: seq<Edge>, c: seq<string>)
    requires SimpleCycle(edges, c)
    ensures CycleKey(c) in CycleKeys(edges)
  {
    hide CycleKey;
    var nodes, front := Nodes(edges), c[..|c| - 1];
    forall x | x in c
      ensures x in nodes
    {
      CycleNodes(edges, c, x);
      var y :| Edge(x, y) in edges;
      assert Edge(x, y).fromRef in nodes;
    }
    DistinctSize(front);
    SubsetSize((set x | x in front), nodes);
    InSeqsUpTo(nodes, c, |nodes| + 1);
  }

  lemma KeysAreKeys(edges: seq<Edge>, result: seq<Cycle>)
    requires Detected(edges, result)
    ensures (set k | k in Keys(result)) <= CycleKeys(edges)
    ensures |result| < MAX_CYCLES ==> (set k | k in Keys(result)) == CycleKeys(edges)
  {
    hide SimpleCycle, CycleKey, CycleKeys;
    forall k | k in Keys(result)
      ensures k in CycleKeys(edges)
    {
      var i :| 0 <= i < |result| && Keys(result)[i] == k;
      assert result[i] in result;
      CycleHasKey(edges, result[i].path);
    }
    if |result| < MAX_CYCLES {
      KeyOfCycle(edges, result);
    }
  }

  lemma KeyOfCycle(edges: seq<Edge>, result: seq<Cycle>)
    requires forall c :: SimpleCycle(edges, c) ==> CycleKey(c) in Keys(result)
    ensures forall k :: k in CycleKeys(edges) ==> k in Keys(result)
  {
    hide SimpleCycle, CycleKey, SeqsUpTo;
  }

  /** As many results as there are different cycles, up to the cap. */
  lemma ResultCount(edges: seq<Edge>, result: seq<Cycle>)
    requires Detected(edges, result)
    ensures |result| == if |CycleKeys(edges)| < MAX_CYCLES then |CycleKeys(edges)| else MAX_CYCLES
  {
    hide SimpleCycle, CycleKey, CycleKeys;
    KeysAreKeys(edges, result);
    DistinctSize(Keys(result));
    SubsetSize((set k | k in Keys(result)), CycleKeys(edges));
  }

  ghost predicate SomeFlagged(result: seq<Cycle>) {
    exists i :: 0 <= i < |result| && result[i].truncated
  }

  /** The last result is flagged exactly when there are 1000 different cycles or more. */
  lemma FlaggedIff(edges: seq<Edge>, result: seq<Cycle>)
    requires Detected(edges, result)
    ensures SomeFlagged(result) <==> |CycleKeys(edges)| >= MAX_CYCLES
    ensures SomeFlagged(result) ==> result[|result| - 1].truncated
  {
    ResultCount(edges, result);
    hide SimpleCycle, CycleKey, CycleKeys;
    assert |result| == MAX_CYCLES ==> result[MAX_CYCLES - 1].truncated;
  }

  /** The flag means that there are more cycles than were listed, as documented, if and
      only if there are not exactly 1000. */
  lemma FlagMeansMoreIff(edges: seq<Edge>, result: seq<Cycle>)
    requires Detected(edges, result)
    ensures (SomeFlagged(result) <==> |CycleKeys(edges)| > |result|) <==> |CycleKeys(edges)| != MAX_CYCLES
  {
    hide Detected, CycleKeys, SomeFlagged;
    FlaggedIff(edges, result);
    ResultCount(edges, result);
  }

  // ----------------------------------------------------------------- n self-edges

  function Name(i: nat): (s: string)
    ensures |s| == i && forall k :: 0 <= k < i ==> s[k] == 'a'
  {
    seq(i, _ => 'a')
  }

  function SelfEdges(n: nat): seq<Edge> {
    seq(n, i requires 0 <= i < n => Edge(Name(i), Name(i)))
  }

  function Loop(x: string): seq<string> {
    [x, x]
  }

  lemma FirstTwo(edges: seq<Edge>, c: seq<string>)
    requires SimpleCycle(edges, c)
    ensures |c| > 2 ==> c[0] != c[1]
  {
    if |c| > 2 {
      assert c[..|c| - 1][0] != c[..|c| - 1][1];
    }
  }

  lemma SelfCycles(n: nat, c: seq<string>)
    ensures SimpleCycle(SelfEdges(n), c) <==> exists i :: 0 <= i < n && c == Loop(Name(i))
  {
    var edges := SelfEdges(n);
    if SimpleCycle(edges, c) {
      assert Edge(c[0], c[0 + 1]) in edges;
      var i :| 0 <= i < n && edges[i] == Edge(c[0], c[1]);
      FirstTwo(edges, c);
      assert c == Loop(Name(i));
    }
    if exists i :: 0 <= i < n && c == Loop(Name(i)) {
      var i :| 0 <= i < n && c == Loop(Name(i));
      assert edges[i] == Edge(c[0], c[1]);
      assert Walk(edges, c);
    }
  }

  lemma SelfEdgesNulFree(n: nat)
    ensures NulFreeEdges(SelfEdges(n))
  {
  }

  lemma LoopKeysDiffer(n: nat, i: nat, j: nat)
    requires i < j < n
    ensures CycleKey(Loop(Name(i))) != CycleKey(Loop(Name(j)))
  {
    var c, d := Loop(Name(i)), Loop(Name(j));
    SelfEdgesNulFree(n);
    SelfCycles(n, c);
    SelfCycles(n, d);
    NulFreeKeysSeparate(SelfEdges(n));
    hide CycleKey, SimpleCycle, KeysSeparate;
    assert c[..1] == [Name(i)] && d[..1] == [Name(j)];
    assert !SameCycle(c, d) by {
      assert |Name(i)| != |Name(j)|;
      forall k | 0 <= k <= 1
        ensures Rotate([Name(i)], k) == [Name(i)]
      {
      }
    }
    KeysApart(SelfEdges(n), c, d);
  }

  lemma KeysApart(edges: seq<Edge>, c: seq<string>, d: seq<string>)
    requires KeysSeparate(edges) && SimpleCycle(edges, c) && SimpleCycle(edges, d) && !SameCycle(c, d)
    ensures CycleKey(c) != CycleKey(d)
  {
    hide SimpleCycle, CycleKey, SameCycle;
  }

  /** n packages that each import themselves make n different cycles. */
  lemma SelfEdgesCount(n: nat)
    ensures |CycleKeys(SelfEdges(n))| == n
  {
    var edges := SelfEdges(n);
    var keys := seq(n, i requires 0 <= i < n => CycleKey(Loop(Name(i))));
    forall i, j | 0 <= i < j < n
      ensures keys[i] != keys[j]
    {
      LoopKeysDiffer(n, i, j);
    }
    DistinctSize(keys);
    hide CycleKey, SimpleCycle, SeqsUpTo;
    forall k
      ensures k in keys <==> k in CycleKeys(edges)
    {
      if k in keys {
        var i :| 0 <= i < n && keys[i] == k;
        SelfCycles(n, Loop(Name(i)));
        CycleHasKey(edges, Loop(Name(i)));
      }
      if k in CycleKeys(edges) {
        var c :| SimpleCycle(edges, c) && CycleKey(c) == k;
        SelfCycles(n, c);
        var i :| 0 <= i < n && c == Loop(Name(i));
        assert keys[i] == k;
      }
    }
    assert (set k | k in keys) == CycleKeys(edges);
  }

  /** With 1000 packages that import themselves the last cycle is flagged although no
      other cycle exists. */
  lemma ThousandLoopsFlagged(result: seq<Cycle>)
    requires Detected(SelfEdges(1000), result)
    ensures SomeFlagged(result) && |CycleKeys(SelfEdges(1000))| == |result|
  {
    hide Detected, CycleKeys, SomeFlagged, SelfEdges;
    SelfEdgesCount(1000);
    FlaggedIff(SelfEdges(1000), result);
    ResultCount(SelfEdges(1000), result);
  }
}
