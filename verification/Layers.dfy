/** Layering of the package import graph: the worklist behind DependencyLayers
    (query/query.go, lines 2763 to 2814), which queues packages again and lets
    their levels rise. */
module Layers {
  import opened Ordering
  import opened ImportGraph
  import opened Worklist

  // ------------------------------------------------------------ longest chains

  ghost function LongestChain(graph: Graph, nodes: set<string>, p: string): nat
    requires Closed(graph, nodes) && Acyclic(graph)
    decreases |Below(graph, nodes, p)|, |Deps(graph, p)| + 1
  {
    LongestFrom(graph, nodes, p, 0)
  }

  /** The longest chain that starts with an import of p listed at i or later. */
  ghost function LongestFrom(graph: Graph, nodes: set<string>, p: string, i: nat): (n: nat)
    requires Closed(graph, nodes) && Acyclic(graph)
    requires i <= |Deps(graph, p)|
    decreases |Below(graph, nodes, p)|, |Deps(graph, p)| - i
  {
    if i == |Deps(graph, p)| then 0
    else
      var d := Deps(graph, p)[i];
      BelowShrinks(graph, nodes, p, d);
      var here, rest := 1 + LongestChain(graph, nodes, d), LongestFrom(graph, nodes, p, i + 1);
      if here > rest then here else rest
  }

  lemma {:induction false} LongestFromDeps(graph: Graph, nodes: set<string>, p: string, i: nat)
    requires Closed(graph, nodes) && Acyclic(graph) && i <= |Deps(graph, p)|
    ensures forall d :: d in Deps(graph, p)[i..] ==>
              LongestFrom(graph, nodes, p, i) >= 1 + LongestChain(graph, nodes, d)
    ensures i < |Deps(graph, p)| ==>
              exists d :: d in Deps(graph, p)[i..]
                && LongestFrom(graph, nodes, p, i) == 1 + LongestChain(graph, nodes, d)
    decreases |Deps(graph, p)| - i
  {
    var ds := Deps(graph, p);
    if i < |ds| {
      LongestFromDeps(graph, nodes, p, i + 1);
      assert ds[i..] == [ds[i]] + ds[i + 1..];
      var here := 1 + LongestChain(graph, nodes, ds[i]);
      if here > LongestFrom(graph, nodes, p, i + 1) {
        assert LongestFrom(graph, nodes, p, i) == here;
        assert ds[i] in ds[i..];
      } else if i + 1 < |ds| {
        var d :| d in ds[i + 1..] && LongestFrom(graph, nodes, p, i + 1) == 1 + LongestChain(graph, nodes, d);
        assert d in ds[i..];
      }
    }
  }

  /** A level is 0 without imports, else one more than the highest import. */
  lemma LevelEquation(graph: Graph, nodes: set<string>, p: string)
    requires Closed(graph, nodes) && Acyclic(graph)
    ensures Deps(graph, p) == [] ==> LongestChain(graph, nodes, p) == 0
    ensures forall d :: d in Deps(graph, p) ==>
              LongestChain(graph, nodes, p) >= 1 + LongestChain(graph, nodes, d)
    ensures Deps(graph, p) != [] ==>
              exists d :: d in Deps(graph, p)
                && LongestChain(graph, nodes, p) == 1 + LongestChain(graph, nodes, d)
  {
    LongestFromDeps(graph, nodes, p, 0);
    assert Deps(graph, p)[0..] == Deps(graph, p);
  }

  /** No import chain from p is longer than its level. */
  lemma {:induction false} NoLongerChain(graph: Graph, nodes: set<string>, s: seq<string>)
    requires Closed(graph, nodes) && Acyclic(graph)
    requires s != [] && Walk(graph, s)
    ensures |s| - 1 <= LongestChain(graph, nodes, s[0])
  {
    if |s| > 1 {
      assert s[1] in Deps(graph, s[0]);
      LevelEquation(graph, nodes, s[0]);
      forall i | 0 <= i < |s[1..]| - 1 ensures s[1..][i + 1] in Deps(graph, s[1..][i]) {
        assert s[i + 2] in Deps(graph, s[i + 1]);
      }
      NoLongerChain(graph, nodes, s[1..]);
    }
  }

  /** Some import chain from p is as long as its level. */
  lemma {:induction false} ChainOfLevel(graph: Graph, nodes: set<string>, p: string) returns (s: seq<string>)
    requires Closed(graph, nodes) && Acyclic(graph)
    ensures s != [] && s[0] == p && Walk(graph, s)
    ensures |s| - 1 == LongestChain(graph, nodes, p)
    decreases |Below(graph, nodes, p)|
  {
    LevelEquation(graph, nodes, p);
    if Deps(graph, p) == [] {
      s := [p];
    } else {
      var d :| d in Deps(graph, p) && LongestChain(graph, nodes, p) == 1 + LongestChain(graph, nodes, d);
      BelowShrinks(graph, nodes, p, d);
      var t := ChainOfLevel(graph, nodes, d);
      s := [p] + t;
      forall i | 0 <= i < |s| - 1 ensures s[i + 1] in Deps(graph, s[i]) {
        if i > 0 {
          assert t[i] in Deps(graph, t[i - 1]);
        }
      }
    }
  }

  // --------------------------------------------------------------- acyclic graphs

  /** A done package that is not queued again has pushed its level onwards. */
  ghost predicate Pushed(reverse: Graph, level: map<string, nat>, done: set<string>, queue: seq<string>) {
    forall p, d :: p in done && p !in queue && d in Deps(reverse, p) ==>
      p in level && d in level && level[d] >= level[p] + 1
  }

  ghost predicate NotAbove(graph: Graph, nodes: set<string>, level: map<string, nat>)
    requires Closed(graph, nodes) && Acyclic(graph)
  {
    forall p :: p in level ==> level[p] <= LongestChain(graph, nodes, p)
  }

  /** What the worklist loop keeps on an acyclic graph. */
  ghost predicate LoopInvariant(graph: Graph, reverse: Graph, nodes: set<string>, s: State, done: set<string>)
    requires Closed(graph, nodes) && Acyclic(graph)
  {
    && Looked(graph, reverse, nodes, s, done)
    && Pushed(reverse, s.level, done, s.queue)
    && NotAbove(graph, nodes, s.level)
  }

  lemma StepNotAbove(graph: Graph, reverse: Graph, nodes: set<string>, s: State)
    requires Closed(graph, nodes) && Acyclic(graph) && Reverses(graph, reverse)
    requires s.queue != [] && s.queue[0] in s.level && NotAbove(graph, nodes, s.level)
    ensures NotAbove(graph, nodes, Next(graph, reverse, s).level)
  {
    hide Closed, Acyclic, ReadyOnes;
    var t := Next(graph, reverse, s);
    forall p | p in t.level
      ensures t.level[p] <= LongestChain(graph, nodes, p)
    {
      LevelEquation(graph, nodes, p);
    }
  }

  lemma RaiseFacts(level: map<string, nat>, ds: seq<string>, candidate: nat)
    ensures var r := Raise(level, ds, candidate);
            && (forall p :: p in ds ==> p in r && r[p] >= candidate)
            && (forall p :: p in level ==> p in r && r[p] >= level[p] && (p !in ds ==> r[p] == level[p]))
  {
  }

  lemma StepPushed(graph: Graph, reverse: Graph, s: State, done: set<string>)
    requires s.queue != [] && s.queue[0] in s.level && s.queue[0] !in Deps(reverse, s.queue[0])
    requires Started(graph, s.level, done, s.queue) && Pushed(reverse, s.level, done, s.queue)
    ensures Pushed(reverse, Next(graph, reverse, s).level, done + {s.queue[0]}, Next(graph, reverse, s).queue)
  {
    hide Ready, Raise;
    var t, ds := Next(graph, reverse, s), Deps(reverse, s.queue[0]);
    NextKeepsLevels(graph, reverse, s);
    RaiseFacts(s.level, ds, LevelOf(s.level, s.queue[0]) + 1);
    assert s.queue == [s.queue[0]] + s.queue[1..];
    forall p, d | p in done + {s.queue[0]} && p !in t.queue && d in Deps(reverse, p)
      ensures p in t.level && d in t.level && t.level[d] >= t.level[p] + 1
    {
      if p != s.queue[0] {
        ReadyStays(graph, s.level, t.level, p);
        assert p !in ds && p !in s.queue;
      }
    }
  }

  lemma HeadHasLevel(graph: Graph, s: State, done: set<string>)
    requires s.queue != [] && Started(graph, s.level, done, s.queue)
    ensures s.queue[0] in s.level
  {
    assert s.queue[0] in s.queue;
  }

  lemma SelfEdge(graph: Graph, p: string)
    requires Acyclic(graph)
    ensures p !in Deps(graph, p)
  {
    if p in Deps(graph, p) {
      ReachesEdge(graph, p, p);
    }
  }

  /** One turn of the worklist keeps the invariant. */
  lemma StepKeeps(graph: Graph, reverse: Graph, nodes: set<string>, s: State, done: set<string>)
    requires Closed(graph, nodes) && Acyclic(graph) && Reverses(graph, reverse)
    requires s.queue != [] && LoopInvariant(graph, reverse, nodes, s, done)
    ensures LoopInvariant(graph, reverse, nodes, Next(graph, reverse, s), done + {s.queue[0]})
  {
    SelfEdge(graph, s.queue[0]);
    hide Scheduled, Pushed, Started, Touched, NotAbove, Next, Closed, Acyclic;
    HeadHasLevel(graph, s, done);
    StepScheduled(graph, reverse, nodes, s, done);
    StepStarted(graph, reverse, s, done);
    StepTouched(graph, reverse, s, done);
    StepNotAbove(graph, reverse, nodes, s);
    StepPushed(graph, reverse, s, done);
  }

  lemma {:induction false} RunKeeps(graph: Graph, reverse: Graph, nodes: set<string>, s: State, n: nat)
    requires Closed(graph, nodes) && Acyclic(graph) && Reverses(graph, reverse) && IsStart(graph, nodes, s)
    ensures LoopInvariant(graph, reverse, nodes, After(graph, reverse, s, n), Popped(graph, reverse, s, n))
  {
    if n == 0 {
      StartLooked(graph, reverse, nodes, s);
    } else {
      hide Closed, Acyclic, Reverses, IsStart, LoopInvariant, Next;
      RunKeeps(graph, reverse, nodes, s, n - 1);
      var before, done := After(graph, reverse, s, n - 1), Popped(graph, reverse, s, n - 1);
      if before.queue != [] {
        StepKeeps(graph, reverse, nodes, before, done);
      } else {
        NextOfEmpty(graph, reverse, before);
        assert done + {} == done;
      }
    }
  }

  /** Once the queue is empty every level is the longest chain. */
  lemma {:induction false} LevelsExact(graph: Graph, reverse: Graph, nodes: set<string>, s: State,
                                       done: set<string>, p: string)
    requires Closed(graph, nodes) && Acyclic(graph) && Reverses(graph, reverse)
    requires LoopInvariant(graph, reverse, nodes, s, done) && s.queue == [] && p in nodes
    ensures p in done && p in s.level && s.level[p] == LongestChain(graph, nodes, p)
    decreases |Below(graph, nodes, p)|
  {
    forall d | d in Deps(graph, p)
      ensures d in done && d in s.level && s.level[d] == LongestChain(graph, nodes, d)
    {
      BelowShrinks(graph, nodes, p, d);
      LevelsExact(graph, reverse, nodes, s, done, d);
    }
    LevelEquation(graph, nodes, p);
    if Deps(graph, p) != [] {
      var d :| d in Deps(graph, p) && LongestChain(graph, nodes, p) == 1 + LongestChain(graph, nodes, d);
      assert p in Deps(reverse, d);
    }
  }

  /** On an acyclic graph no ring of imports exists. */
  lemma {:induction false} RingIsCyclic(graph: Graph, nodes: set<string>, ring: set<string>, c: string)
    requires Closed(graph, nodes) && Acyclic(graph) && c in ring
    requires forall x :: x in ring ==> ImportedWithin(graph, ring, x)
    ensures false
    decreases |Above(graph, nodes, c)|
  {
    var d :| d in ring && c in Deps(graph, d);
    AboveShrinks(graph, nodes, d, c);
    RingIsCyclic(graph, nodes, ring, d);
  }

  /** Whatever order the reversed edges come in, the queue empties. */
  ghost predicate Ends(graph: Graph, nodes: set<string>) {
    forall reverse, s :: Mirrors(graph, reverse) && IsStart(graph, nodes, s) ==> !Endless(graph, reverse, s)
  }

  lemma AcyclicMeetsNoRing(graph: Graph, reverse: Graph, nodes: set<string>, s: State)
    requires Closed(graph, nodes) && Acyclic(graph)
    ensures !MeetsRing(graph, reverse, s)
  {
    hide Closed, Acyclic, ImportedWithin, Ready, After;
    if MeetsRing(graph, reverse, s) {
      var n: nat :| HasRing(graph, After(graph, reverse, s, n));
      var t := After(graph, reverse, s, n);
      var ring :| RingQueued(graph, t, ring);
      var c :| c in ring && c in t.queue;
      RingIsCyclic(graph, nodes, ring, c);
    }
  }

  /** On an acyclic graph the worklist ends. */
  lemma AcyclicEnds(graph: Graph, nodes: set<string>)
    requires Closed(graph, nodes) && Acyclic(graph)
    ensures Ends(graph, nodes)
  {
    hide Closed, Acyclic, Mirrors, IsStart, Endless, MeetsRing;
    forall reverse, s | Mirrors(graph, reverse) && IsStart(graph, nodes, s)
      ensures !Endless(graph, reverse, s)
    {
      MirrorReverses(graph, reverse);
      AcyclicMeetsNoRing(graph, reverse, nodes, s);
      EndlessIffRing(graph, reverse, nodes, s);
    }
  }

  // -------------------------------------------------------------------- the methods

  /** How often q is listed under p. */
  ghost function Count(graph: Graph, p: string, q: string): nat {
    multiset(Deps(graph, p))[q]
  }

  /** The edges of all packages but those of rest are reversed, and of from only the
      edges to tos. */
  ghost predicate ReversedTo(graph: Graph, reverse: Graph, rest: set<string>, from: string, tos: seq<string>) {
    forall p, d :: Count(reverse, d, p) ==
                   if p == from then multiset(tos)[d] else if p in rest then 0 else Count(graph, p, d)
  }

  ghost predicate Reversed(graph: Graph, reverse: Graph, rest: set<string>) {
    forall p, d :: Count(reverse, d, p) == if p in rest then 0 else Count(graph, p, d)
  }

  lemma ReverseOne(graph: Graph, reverse: Graph, rest: set<string>, from: string, tos: seq<string>, to: string)
    requires ReversedTo(graph, reverse, rest, from, tos)
    ensures ReversedTo(graph, reverse[to := Deps(reverse, to) + [from]], rest, from, tos + [to])
  {
    var more := reverse[to := Deps(reverse, to) + [from]];
    forall p, d
      ensures Count(more, d, p) == if p == from then multiset(tos + [to])[d]
                                   else if p in rest then 0 else Count(graph, p, d)
    {
      assert Count(more, d, p) == Count(reverse, d, p) + if p == from && d == to then 1 else 0;
    }
  }

  lemma ReverseStarts(graph: Graph, reverse: Graph, rest: set<string>, from: string)
    requires Reversed(graph, reverse, rest) && from in rest
    ensures ReversedTo(graph, reverse, rest, from, [])
  {
    hide Count;
  }

  lemma ReverseEnds(graph: Graph, reverse: Graph, rest: set<string>, from: string)
    requires ReversedTo(graph, reverse, rest, from, Deps(graph, from))
    ensures Reversed(graph, reverse, rest - {from})
  {
    assert forall d :: Count(graph, from, d) == multiset(Deps(graph, from))[d];
    hide Count;
  }

  method BuildReverseGraph(graph: Graph) returns (reverse: Graph)
    ensures Mirrors(graph, reverse)
  {
    reverse := map[];
    var rest := graph.Keys;
    assert Reversed(graph, reverse, rest);
    while rest != {}
      invariant rest <= graph.Keys && Reversed(graph, reverse, rest)
      decreases rest
    {
      hide Reversed, ReversedTo;
      var from :| from in rest;
      var tos := graph[from];
      ReverseStarts(graph, reverse, rest, from);
      assert tos[..0] == [];
      var i := 0;
      while i < |tos|
        invariant 0 <= i <= |tos| && ReversedTo(graph, reverse, rest, from, tos[..i])
      {
        ReverseOne(graph, reverse, rest, from, tos[..i], tos[i]);
        reverse := reverse[tos[i] := Deps(reverse, tos[i]) + [from]];
        assert tos[..i + 1] == tos[..i] + [tos[i]];
        i := i + 1;
      }
      assert tos[..i] == tos;
      ReverseEnds(graph, reverse, rest, from);
      rest := rest - {from};
    }
    AllReversed(graph, reverse);
  }

  lemma AllReversed(graph: Graph, reverse: Graph)
    requires Reversed(graph, reverse, {})
    ensures Mirrors(graph, reverse)
  {
    forall p, d
      ensures multiset(Deps(reverse, d))[p] == multiset(Deps(graph, p))[d]
    {
      assert Count(reverse, d, p) == Count(graph, p, d);
    }
  }

  method DepsReady(pkg: string, graph: Graph, level: map<string, nat>) returns (ready: bool)
    ensures ready <==> Ready(graph, level, pkg)
  {
    var deps := Deps(graph, pkg);
    var i := 0;
    while i < |deps|
      invariant 0 <= i <= |deps|
      invariant forall k :: 0 <= k < i ==> deps[k] in level
    {
      if deps[i] !in level {
        return false;
      }
      i := i + 1;
    }
    return true;
  }

  lemma RaiseNone(level: map<string, nat>, candidate: nat)
    ensures Raise(level, [], candidate) == level
  {
  }

  lemma RaiseOne(level: map<string, nat>, ds: seq<string>, d: string, candidate: nat)
    ensures var before := Raise(level, ds, candidate);
            Raise(level, ds + [d], candidate) ==
              if d !in before || candidate > before[d] then before[d := candidate] else before
  {
    var before := Raise(level, ds, candidate);
    assert Raise(level, ds + [d], candidate).Keys == before.Keys + {d};
  }

  method RaiseLevels(level0: map<string, nat>, ds: seq<string>, candidate: nat) returns (level: map<string, nat>)
    ensures level == Raise(level0, ds, candidate)
  {
    hide Raise;
    level := level0;
    RaiseNone(level0, candidate);
    assert ds[..0] == [];
    var i := 0;
    while i < |ds|
      invariant 0 <= i <= |ds|
      invariant level == Raise(level0, ds[..i], candidate)
    {
      var d := ds[i];
      RaiseOne(level0, ds[..i], d, candidate);
      assert ds[..i + 1] == ds[..i] + [d];
      if d !in level || candidate > level[d] {
        level := level[d := candidate];
      }
      i := i + 1;
    }
    assert ds[..i] == ds;
  }

  lemma ReadyNone(graph: Graph, level: map<string, nat>)
    ensures ReadyOnes(graph, level, []) == []
  {
  }

  lemma ReadyOneMore(graph: Graph, level: map<string, nat>, ds: seq<string>, i: nat)
    requires i < |ds|
    ensures ReadyOnes(graph, level, ds[..i + 1]) ==
            ReadyOnes(graph, level, ds[..i]) + if Ready(graph, level, ds[i]) then [ds[i]] else []
  {
    hide Ready;
    assert ds[..i + 1][..i] == ds[..i];
  }

  method EnqueueReady(graph: Graph, level: map<string, nat>, queue0: seq<string>, ds: seq<string>)
    returns (queue: seq<string>)
    ensures queue == queue0 + ReadyOnes(graph, level, ds)
  {
    hide ReadyOnes, Ready;
    queue := queue0;
    ReadyNone(graph, level);
    assert ds[..0] == [];
    var i := 0;
    while i < |ds|
      invariant 0 <= i <= |ds|
      invariant queue == queue0 + ReadyOnes(graph, level, ds[..i])
    {
      ReadyOneMore(graph, level, ds, i);
      var ready := DepsReady(ds[i], graph, level);
      if ready {
        queue := queue + [ds[i]];
      }
      i := i + 1;
    }
    assert ds[..i] == ds;
  }

  /** Packages without imports get level 0 and start the queue, in order. */
  method StartLeaves(projectSet: set<string>, graph: Graph) returns (level: map<string, nat>, queue: seq<string>)
    ensures IsStart(graph, projectSet, State(level, queue))
  {
    level, queue := map[], [];
    var rest := projectSet;
    while rest != {}
      invariant rest <= projectSet
      invariant forall p :: p in queue <==> p in projectSet && p !in rest && Deps(graph, p) == []
      invariant forall p :: p in level <==> p in queue
      invariant forall p :: p in level ==> level[p] == 0
      decreases rest
    {
      var p :| p in rest;
      if |Deps(graph, p)| == 0 {
        level := level[p := 0];
        queue := queue + [p];
      }
      rest := rest - {p};
    }
    queue := SortCompact(queue);
  }

  /** The levels with 0 for every package that has none. */
  function Filled(level: map<string, nat>, nodes: set<string>): map<string, nat> {
    map p | p in level.Keys + nodes :: LevelOf(level, p)
  }

  /** Packages left without a level get 0. */
  lemma FilledMeans(level: map<string, nat>, nodes: set<string>, p: string)
    ensures p in Filled(level, nodes) <==> p in level || p in nodes
    ensures p in level ==> Filled(level, nodes)[p] == level[p]
    ensures p in nodes && p !in level ==> Filled(level, nodes)[p] == 0
  {}

  method FillMissing(projectSet: set<string>, level0: map<string, nat>) returns (level: map<string, nat>)
    ensures level == Filled(level0, projectSet)
  {
    level := level0;
    var rest := projectSet;
    while rest != {}
      invariant rest <= projectSet
      invariant level == Filled(level0, projectSet - rest)
      decreases rest
    {
      var p :| p in rest;
      if p !in level {
        level := level[p := 0];
      }
      rest := rest - {p};
    }
    assert projectSet - rest == projectSet;
  }

  /** The worklist ran from the start until the queue was empty, and then the packages
      left over got 0. */
  ghost predicate LayeredBy(graph: Graph, nodes: set<string>, reverse: Graph, s: State, n: nat,
                            level: map<string, nat>) {
    && Mirrors(graph, reverse) && IsStart(graph, nodes, s)
    && After(graph, reverse, s, n).queue == []
    && level == Filled(After(graph, reverse, s, n).level, nodes)
  }

  ghost predicate Layered(graph: Graph, nodes: set<string>, level: map<string, nat>) {
    exists reverse, s, n :: LayeredBy(graph, nodes, reverse, s, n, level)
  }

  /** The worklist on any graph on which it ends. */
  method KahnLayers(projectSet: set<string>, graph: Graph) returns (level: map<string, nat>)
    requires Ends(graph, projectSet)
    ensures Layered(graph, projectSet, level)
  {
    hide Mirrors, IsStart, Ends, Next, After, Filled, Raise, ReadyOnes;
    var reverse := BuildReverseGraph(graph);
    var queue: seq<string>;
    level, queue := StartLeaves(projectSet, graph);
    ghost var s := State(level, queue);
    ghost var total := LastTurn(graph, projectSet, reverse, s);
    ghost var n: nat := 0;
    FirstState(graph, reverse, s);
    TurnsLeft(graph, reverse, s, n, total);
    while queue != []
      invariant State(level, queue) == After(graph, reverse, s, n)
      invariant queue != [] ==> n < total
      decreases total - n
    {
      var current := queue[0];
      var candidate := LevelOf(level, current) + 1;
      var raised := RaiseLevels(level, Deps(reverse, current), candidate);
      var queue' := EnqueueReady(graph, raised, queue[1..], Deps(reverse, current));
      TurnIs(graph, reverse, State(level, queue), raised, queue');
      NextState(graph, reverse, s, n);
      level, queue, n := raised, queue', n + 1;
      TurnsLeft(graph, reverse, s, n, total);
    }
    level := FillMissing(projectSet, level);
    assert LayeredBy(graph, projectSet, reverse, s, n, level);
  }

  lemma TurnIs(graph: Graph, reverse: Graph, s: State, level: map<string, nat>, queue: seq<string>)
    requires s.queue != []
    requires level == Raise(s.level, Deps(reverse, s.queue[0]), LevelOf(s.level, s.queue[0]) + 1)
    requires queue == s.queue[1..] + ReadyOnes(graph, level, Deps(reverse, s.queue[0]))
    ensures State(level, queue) == Next(graph, reverse, s)
  {
    hide Raise, ReadyOnes, LevelOf;
  }

  lemma FirstState(graph: Graph, reverse: Graph, s: State)
    ensures After(graph, reverse, s, 0) == s
  {
  }

  lemma NextState(graph: Graph, reverse: Graph, s: State, n: nat)
    ensures After(graph, reverse, s, n + 1) == Next(graph, reverse, After(graph, reverse, s, n))
  {
  }

  lemma LastTurn(graph: Graph, nodes: set<string>, reverse: Graph, s: State) returns (total: nat)
    requires Ends(graph, nodes) && Mirrors(graph, reverse) && IsStart(graph, nodes, s)
    ensures After(graph, reverse, s, total).queue == []
  {
    hide Mirrors, IsStart, After;
    total :| After(graph, reverse, s, total).queue == [];
  }

  lemma TurnsLeft(graph: Graph, reverse: Graph, s: State, n: nat, total: nat)
    requires After(graph, reverse, s, total).queue == []
    ensures After(graph, reverse, s, n).queue != [] ==> n < total
  {
    if n >= total {
      StaysEmpty(graph, reverse, s, total, n);
    }
  }

  lemma {:induction false} LevelsWithin(graph: Graph, reverse: Graph, nodes: set<string>, s: State, n: nat)
    requires Closed(graph, nodes) && Reverses(graph, reverse) && IsStart(graph, nodes, s)
    ensures After(graph, reverse, s, n).level.Keys <= nodes
  {
    if n > 0 {
      LevelsWithin(graph, reverse, nodes, s, n - 1);
      var before := After(graph, reverse, s, n - 1);
      if before.queue != [] {
        var ds := Deps(reverse, before.queue[0]);
        assert forall d :: d in ds ==> before.queue[0] in Deps(graph, d);
        assert forall d :: d in ds ==> d in graph;
      }
    }
  }

  /** On an acyclic graph the worklist ends and gives each package exactly the longest
      chain of imports from it. */
  lemma LevelsAreChains(graph: Graph, nodes: set<string>, level: map<string, nat>)
    requires Closed(graph, nodes) && Acyclic(graph) && Layered(graph, nodes, level)
    ensures level.Keys == nodes
    ensures forall p :: p in nodes ==> level[p] == LongestChain(graph, nodes, p)
  {
    hide Closed, Acyclic, Mirrors, IsStart, LoopInvariant, After;
    var reverse, s, n :| LayeredBy(graph, nodes, reverse, s, n, level);
    MirrorReverses(graph, reverse);
    RunKeeps(graph, reverse, nodes, s, n);
    LevelsWithin(graph, reverse, nodes, s, n);
    forall p | p in nodes
      ensures level[p] == LongestChain(graph, nodes, p)
    {
      LevelsExact(graph, reverse, nodes, After(graph, reverse, s, n), Popped(graph, reverse, s, n), p);
    }
  }
}
