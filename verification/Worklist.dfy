/** The worklist that lets import levels rise (query/query.go, lines 2773 to 2787):
    its runs on any graph, and when they never end. */
module Worklist {
  import opened Ordering
  import opened ImportGraph
  import opened Sequences

  /** The levels given so far and the packages still to be looked at. */
  datatype State = State(level: map<string, nat>, queue: seq<string>)

  /** reverse lists p under d as often as graph lists d under p. */
  ghost predicate Mirrors(graph: Graph, reverse: Graph) {
    forall p, d :: multiset(Deps(reverse, d))[p] == multiset(Deps(graph, p))[d]
  }

  ghost predicate Reverses(graph: Graph, reverse: Graph) {
    forall p, d :: p in Deps(reverse, d) <==> d in Deps(graph, p)
  }

  lemma MirrorReverses(graph: Graph, reverse: Graph)
    requires Mirrors(graph, reverse)
    ensures Reverses(graph, reverse)
  {
    forall p, d
      ensures p in Deps(reverse, d) <==> d in Deps(graph, p)
    {
      assert p in Deps(reverse, d) <==> multiset(Deps(reverse, d))[p] > 0;
      assert d in Deps(graph, p) <==> multiset(Deps(graph, p))[d] > 0;
    }
  }

  predicate Ready(graph: Graph, level: map<string, nat>, p: string) {
    forall d :: d in Deps(graph, p) ==> d in level
  }

  lemma ReadyStays(graph: Graph, level: map<string, nat>, level': map<string, nat>, p: string)
    requires Ready(graph, level, p) && level.Keys <= level'.Keys
    ensures Ready(graph, level', p)
  {
  }

  /** level[p], where a missing key reads as 0. */
  function LevelOf(level: map<string, nat>, p: string): nat {
    if p in level then level[p] else 0
  }

  /** Every package of ds at candidate or higher. */
  function Raise(level: map<string, nat>, ds: seq<string>, candidate: nat): map<string, nat> {
    map p | p in level.Keys + (set d | d in ds) ::
      if p in ds && (p !in level || candidate > level[p]) then candidate else level[p]
  }

  /** The packages of ds with all imports on some level, in order. */
  function ReadyOnes(graph: Graph, level: map<string, nat>, ds: seq<string>): (r: seq<string>)
    ensures |r| <= |ds|
    ensures forall p :: p in r <==> p in ds && Ready(graph, level, p)
  {
    if ds == [] then []
    else
      var n := |ds| - 1;
      assert ds == ds[..n] + [ds[n]];
      if Ready(graph, level, ds[n]) then ReadyOnes(graph, level, ds[..n]) + [ds[n]]
      else ReadyOnes(graph, level, ds[..n])
  }

  /** One turn: the dependents of the head are raised, and the ready ones queued. */
  function Next(graph: Graph, reverse: Graph, s: State): State {
    if s.queue == [] then s
    else
      var ds := Deps(reverse, s.queue[0]);
      var level := Raise(s.level, ds, LevelOf(s.level, s.queue[0]) + 1);
      State(level, s.queue[1..] + ReadyOnes(graph, level, ds))
  }

  /** The state after n turns; with an empty queue nothing changes any more. */
  function After(graph: Graph, reverse: Graph, s: State, n: nat): State {
    if n == 0 then s else Next(graph, reverse, After(graph, reverse, s, n - 1))
  }

  ghost predicate Endless(graph: Graph, reverse: Graph, s: State) {
    forall n: nat :: After(graph, reverse, s, n).queue != []
  }

  /** Packages without imports are on level 0 and queued in order. */
  ghost predicate IsStart(graph: Graph, nodes: set<string>, s: State) {
    && (forall p :: p in s.queue <==> p in nodes && Deps(graph, p) == [])
    && (forall p :: p in s.level <==> p in s.queue)
    && (forall p :: p in s.level ==> s.level[p] == 0)
    && StrictlySorted(s.queue)
  }

  lemma {:induction false} AfterNext(graph: Graph, reverse: Graph, s: State, n: nat)
    ensures After(graph, reverse, Next(graph, reverse, s), n) == After(graph, reverse, s, n + 1)
  {
    hide Next;
    if n > 0 {
      AfterNext(graph, reverse, s, n - 1);
    }
  }

  lemma {:induction false} StaysEmpty(graph: Graph, reverse: Graph, s: State, m: nat, n: nat)
    requires m <= n && After(graph, reverse, s, m).queue == []
    ensures After(graph, reverse, s, n).queue == []
    decreases n - m
  {
    if m < n {
      StaysEmpty(graph, reverse, s, m, n - 1);
    }
  }

  // ------------------------------------------------------------------ ready rings

  ghost predicate ImportedWithin(graph: Graph, ring: set<string>, c: string) {
    exists d :: d in ring && c in Deps(graph, d)
  }

  /** Every package of ring is ready and imported by one of ring, and one is queued. */
  ghost predicate RingQueued(graph: Graph, s: State, ring: set<string>) {
    && (forall c :: c in ring ==> ImportedWithin(graph, ring, c) && Ready(graph, s.level, c))
    && exists c :: c in ring && c in s.queue
  }

  ghost predicate HasRing(graph: Graph, s: State) {
    exists ring :: RingQueued(graph, s, ring)
  }

  lemma RingHasQueue(graph: Graph, s: State, ring: set<string>)
    requires RingQueued(graph, s, ring)
    ensures s.queue != []
  {
    hide ImportedWithin, Ready;
  }

  lemma NextKeepsLevels(graph: Graph, reverse: Graph, s: State)
    ensures s.level.Keys <= Next(graph, reverse, s).level.Keys
  {
  }

  lemma SomeQueued(graph: Graph, reverse: Graph, s: State, ring: set<string>, c: string)
    requires Reverses(graph, reverse) && c in ring && c in s.queue && ImportedWithin(graph, ring, c)
    requires forall d :: d in ring ==> Ready(graph, Next(graph, reverse, s).level, d)
    ensures exists d :: d in ring && d in Next(graph, reverse, s).queue
  {
    hide Ready, Raise;
    var t := Next(graph, reverse, s);
    if c == s.queue[0] {
      var d :| d in ring && c in Deps(graph, d);
      assert d in Deps(reverse, c);
      assert d in t.queue;
    } else {
      assert s.queue == [s.queue[0]] + s.queue[1..];
      assert c in t.queue;
    }
  }

  lemma RingStaysQueued(graph: Graph, reverse: Graph, s: State, ring: set<string>)
    requires Reverses(graph, reverse) && RingQueued(graph, s, ring)
    ensures RingQueued(graph, Next(graph, reverse, s), ring)
  {
    hide Ready, ImportedWithin, Next, Reverses;
    NextKeepsLevels(graph, reverse, s);
    forall c | c in ring
      ensures Ready(graph, Next(graph, reverse, s).level, c)
    {
      ReadyStays(graph, s.level, Next(graph, reverse, s).level, c);
    }
    var c :| c in ring && c in s.queue;
    SomeQueued(graph, reverse, s, ring, c);
  }

  /** A ring that is ready and has a package queued keeps the queue from emptying. */
  lemma {:induction false} RingNeverDrains(graph: Graph, reverse: Graph, s: State, m: nat, n: nat, ring: set<string>)
    requires Reverses(graph, reverse) && m <= n && RingQueued(graph, After(graph, reverse, s, m), ring)
    ensures RingQueued(graph, After(graph, reverse, s, n), ring)
    decreases n - m
  {
    hide RingQueued, Reverses, Next;
    if m < n {
      RingNeverDrains(graph, reverse, s, m, n - 1, ring);
      RingStaysQueued(graph, reverse, After(graph, reverse, s, n - 1), ring);
    }
  }

  // ------------------------------------------------- how each package came to be queued

  /** path leads to p from import to importer, through ready packages, none twice. */
  ghost predicate Trace(graph: Graph, nodes: set<string>, level: map<string, nat>, path: seq<string>, p: string) {
    && path != [] && path[|path| - 1] == p
    && (forall x :: x in path ==> x in nodes && Ready(graph, level, x))
    && (forall i, j :: 0 <= i && j == i + 1 < |path| ==> path[i] in Deps(graph, path[j]))
    && Distinct(path)
  }

  ghost predicate Traced(graph: Graph, nodes: set<string>, s: State, paths: seq<seq<string>>) {
    |paths| == |s.queue| && forall i :: 0 <= i < |paths| ==> Trace(graph, nodes, s.level, paths[i], s.queue[i])
  }

  lemma TraceStays(graph: Graph, nodes: set<string>, level: map<string, nat>, level': map<string, nat>,
                   path: seq<string>, p: string)
    requires Trace(graph, nodes, level, path, p) && level.Keys <= level'.Keys
    ensures Trace(graph, nodes, level', path, p)
  {
    hide Ready;
    forall x | x in path
      ensures Ready(graph, level', x)
    {
      ReadyStays(graph, level, level', x);
    }
  }

  lemma TraceGrows(graph: Graph, nodes: set<string>, level: map<string, nat>, path: seq<string>, p: string, d: string)
    requires Trace(graph, nodes, level, path, p) && p in Deps(graph, d) && d in nodes && Ready(graph, level, d)
    requires d !in path
    ensures Trace(graph, nodes, level, path + [d], d)
  {
    hide Ready;
  }

  /** The packages of a path from position i on. */
  function Suffix(path: seq<string>, i: nat): set<string> {
    set k | i <= k < |path| :: path[k]
  }

  lemma SuffixImported(graph: Graph, path: seq<string>, i: nat, k: nat)
    requires i <= k < |path| && path[|path| - 1] in Deps(graph, path[i])
    requires forall m, n :: 0 <= m && n == m + 1 < |path| ==> path[m] in Deps(graph, path[n])
    ensures ImportedWithin(graph, Suffix(path, i), path[k])
  {
    if k + 1 < |path| {
      assert path[k] in Deps(graph, path[k + 1]);
      assert path[k + 1] in Suffix(path, i);
    } else {
      assert path[i] in Suffix(path, i);
    }
  }

  /** A path that comes back to one of its packages holds a ring. */
  lemma TraceCloses(graph: Graph, nodes: set<string>, s: State, path: seq<string>, p: string, d: string)
    requires Trace(graph, nodes, s.level, path, p) && p in Deps(graph, d) && d in path && d in s.queue
    ensures HasRing(graph, s)
  {
    hide Ready, ImportedWithin;
    var i :| 0 <= i < |path| && path[i] == d;
    var ring := Suffix(path, i);
    forall c | c in ring
      ensures ImportedWithin(graph, ring, c) && Ready(graph, s.level, c)
    {
      var k :| i <= k < |path| && path[k] == c;
      SuffixImported(graph, path, i, k);
    }
    assert path[i] in ring;
    assert RingQueued(graph, s, ring);
  }

  /** The paths after a turn: each package queued anew extends the path of the head. */
  function NextPaths(paths: seq<seq<string>>, added: seq<string>): seq<seq<string>>
    requires paths != []
  {
    paths[1..] + seq(|added|, i requires 0 <= i < |added| => paths[0] + [added[i]])
  }

  /** What one turn queues. */
  function Added(graph: Graph, reverse: Graph, s: State): seq<string>
    requires s.queue != []
  {
    ReadyOnes(graph, Next(graph, reverse, s).level, Deps(reverse, s.queue[0]))
  }

  /** Either a turn gives a queued ring, or every queued package still has its path. */
  lemma NextTraced(graph: Graph, reverse: Graph, nodes: set<string>, s: State, paths: seq<seq<string>>)
    requires Closed(graph, nodes) && Reverses(graph, reverse) && s.queue != [] && Traced(graph, nodes, s, paths)
    requires !HasRing(graph, Next(graph, reverse, s))
    ensures Traced(graph, nodes, Next(graph, reverse, s), NextPaths(paths, Added(graph, reverse, s)))
  {
    var t, added := Next(graph, reverse, s), Added(graph, reverse, s);
    assert t.queue == s.queue[1..] + added;
    NextKeepsLevels(graph, reverse, s);
    forall i | 0 < i < |paths|
      ensures Trace(graph, nodes, t.level, paths[i], s.queue[i])
    {
      TraceStays(graph, nodes, s.level, t.level, paths[i], s.queue[i]);
    }
    forall i | 0 <= i < |added|
      ensures Trace(graph, nodes, t.level, paths[0] + [added[i]], added[i])
    {
      AddedTraced(graph, reverse, nodes, s, paths[0], added[i]);
    }
    hide Next, Added, Trace, HasRing, Closed, Reverses;
    TracedJoin(graph, nodes, t, paths, s.queue, added);
  }

  lemma TracedJoin(graph: Graph, nodes: set<string>, t: State, paths: seq<seq<string>>, queue: seq<string>,
                   added: seq<string>)
    requires |paths| == |queue| > 0 && t.queue == queue[1..] + added
    requires forall i :: 0 < i < |paths| ==> Trace(graph, nodes, t.level, paths[i], queue[i])
    requires forall i :: 0 <= i < |added| ==> Trace(graph, nodes, t.level, paths[0] + [added[i]], added[i])
    ensures Traced(graph, nodes, t, NextPaths(paths, added))
  {
    hide Trace;
    var more, n := NextPaths(paths, added), |paths| - 1;
    forall i | 0 <= i < |more|
      ensures Trace(graph, nodes, t.level, more[i], t.queue[i])
    {
      if i < n {
        assert more[i] == paths[i + 1] && t.queue[i] == queue[i + 1];
      } else {
        assert more[i] == paths[0] + [added[i - n]] && t.queue[i] == added[i - n];
      }
    }
  }

  lemma AddedTraced(graph: Graph, reverse: Graph, nodes: set<string>, s: State, path: seq<string>, d: string)
    requires Closed(graph, nodes) && Reverses(graph, reverse) && s.queue != []
    requires Trace(graph, nodes, s.level, path, s.queue[0]) && d in Added(graph, reverse, s)
    requires !HasRing(graph, Next(graph, reverse, s))
    ensures Trace(graph, nodes, Next(graph, reverse, s).level, path + [d], d)
  {
    var t := Next(graph, reverse, s);
    NextKeepsLevels(graph, reverse, s);
    assert s.queue[0] in Deps(graph, d) && d in t.queue && d in nodes;
    hide Next, Trace, HasRing, Ready;
    TraceStays(graph, nodes, s.level, t.level, path, s.queue[0]);
    assert d !in path by {
      if d in path {
        TraceCloses(graph, nodes, t, path, s.queue[0], d);
      }
    }
    TraceGrows(graph, nodes, t.level, path, s.queue[0], d);
  }

  // ------------------------------------------------------------- how long a run can be

  function Pow(b: nat, k: nat): (p: nat)
    ensures b > 0 ==> p > 0
  {
    if k == 0 then 1 else b * Pow(b, k - 1)
  }

  /** Work left: a path can still grow to n packages, each time b ways. */
  function Work(paths: seq<seq<string>>, b: nat, n: nat): nat {
    if paths == [] then 0
    else
      var last := paths[|paths| - 1];
      Work(paths[..|paths| - 1], b, n) + Pow(b + 1, if |last| <= n then n - |last| else 0)
  }

  lemma {:induction false} WorkAdds(a: seq<seq<string>>, c: seq<seq<string>>, b: nat, n: nat)
    ensures Work(a + c, b, n) == Work(a, b, n) + Work(c, b, n)
  {
    if c == [] {
      assert a + c == a;
    } else {
      var k := |c| - 1;
      WorkAdds(a, c[..k], b, n);
      assert (a + c)[..|a| + k] == a + c[..k];
    }
  }

  lemma {:induction false} WorkOfSameLength(c: seq<seq<string>>, b: nat, n: nat, k: nat)
    requires k <= n && forall i :: 0 <= i < |c| ==> |c[i]| == k
    ensures Work(c, b, n) == |c| * Pow(b + 1, n - k)
  {
    if c != [] {
      WorkOfSameLength(c[..|c| - 1], b, n, k);
    }
  }

  /** A turn leaves less work, if paths stay within n packages. */
  lemma WorkShrinks(paths: seq<seq<string>>, added: seq<string>, b: nat, n: nat)
    requires paths != [] && |paths[0]| <= n && |added| <= b && (added != [] ==> |paths[0]| < n)
    ensures Work(NextPaths(paths, added), b, n) < Work(paths, b, n)
  {
    var k := |paths[0]|;
    var grown := seq(|added|, i requires 0 <= i < |added| => paths[0] + [added[i]]);
    WorkAdds(paths[1..], grown, b, n);
    WorkAdds([paths[0]], paths[1..], b, n);
    assert paths == [paths[0]] + paths[1..];
    WorkOfSameLength([paths[0]], b, n, k);
    assert Pow(b + 1, n - k) > 0;
    if added != [] {
      WorkOfSameLength(grown, b, n, k + 1);
      var small := Pow(b + 1, n - k - 1);
      assert Pow(b + 1, n - k) == (b + 1) * small;
      ProductAtMost(|added|, b, small);
    } else {
      assert grown == [];
    }
  }

  lemma ProductAtMost(x: nat, b: nat, y: nat)
    requires x <= b && y > 0
    ensures x * y < (b + 1) * y
  {
    assert (b + 1) * y == x * y + (b + 1 - x) * y;
    assert (b + 1 - x) * y >= y;
  }

  lemma TraceWithin(graph: Graph, nodes: set<string>, level: map<string, nat>, path: seq<string>, p: string)
    requires Trace(graph, nodes, level, path, p)
    ensures |path| <= |nodes|
  {
    hide Ready;
    DistinctWithin(path, nodes);
  }

  /** No package has more than b dependents. */
  ghost predicate FanOut(reverse: Graph, b: nat) {
    forall c :: |Deps(reverse, c)| <= b
  }

  lemma SomeFanOut(reverse: Graph) returns (b: nat)
    ensures FanOut(reverse, b)
  {
    b := 0;
    var rest := reverse.Keys;
    while rest != {}
      invariant rest <= reverse.Keys
      invariant forall c :: c !in rest ==> |Deps(reverse, c)| <= b
      decreases rest
    {
      var c :| c in rest;
      b := if |reverse[c]| > b then |reverse[c]| else b;
      rest := rest - {c};
    }
  }

  lemma WorkLeft(graph: Graph, nodes: set<string>, s: State, paths: seq<seq<string>>, b: nat)
    requires Traced(graph, nodes, s, paths)
    ensures s.queue != [] ==> paths != [] && Work(paths, b, |nodes|) > 0
  {
    hide Trace;
  }

  lemma AfterOne(graph: Graph, reverse: Graph, s: State)
    ensures After(graph, reverse, s, 0) == s && After(graph, reverse, s, 1) == Next(graph, reverse, s)
  {
  }

  lemma TurnShrinks(graph: Graph, reverse: Graph, nodes: set<string>, s: State, paths: seq<seq<string>>, b: nat)
    requires Closed(graph, nodes) && Reverses(graph, reverse) && FanOut(reverse, b)
    requires s.queue != [] && Traced(graph, nodes, s, paths)
    requires !HasRing(graph, Next(graph, reverse, s))
    ensures Work(NextPaths(paths, Added(graph, reverse, s)), b, |nodes|) < Work(paths, b, |nodes|)
  {
    var added := Added(graph, reverse, s);
    assert |added| <= |Deps(reverse, s.queue[0])| <= b;
    hide Added, Work, Next, HasRing, Trace, NextPaths;
    TraceWithin(graph, nodes, s.level, paths[0], s.queue[0]);
    if added != [] {
      AddedTraced(graph, reverse, nodes, s, paths[0], added[0]);
      TraceWithin(graph, nodes, Next(graph, reverse, s).level, paths[0] + [added[0]], added[0]);
    }
    WorkShrinks(paths, added, b, |nodes|);
  }

  /** Within as many turns as there is work, the queue empties or a ring is queued. */
  lemma {:induction false} EmptiesOrRings(graph: Graph, reverse: Graph, nodes: set<string>, s: State,
                                          paths: seq<seq<string>>, b: nat) returns (n: nat)
    requires Closed(graph, nodes) && Reverses(graph, reverse) && FanOut(reverse, b) && Traced(graph, nodes, s, paths)
    ensures n <= Work(paths, b, |nodes|)
    ensures After(graph, reverse, s, n).queue == [] || HasRing(graph, After(graph, reverse, s, n))
    decreases Work(paths, b, |nodes|)
  {
    hide Next, After, Work, HasRing, FanOut, Traced, NextPaths, Added, Closed, Reverses;
    AfterOne(graph, reverse, s);
    WorkLeft(graph, nodes, s, paths, b);
    if s.queue == [] {
      n := 0;
    } else {
      var t, added := Next(graph, reverse, s), Added(graph, reverse, s);
      if HasRing(graph, t) {
        n := 1;
      } else {
        NextTraced(graph, reverse, nodes, s, paths);
        TurnShrinks(graph, reverse, nodes, s, paths, b);
        var m := EmptiesOrRings(graph, reverse, nodes, t, NextPaths(paths, added), b);
        AfterNext(graph, reverse, s, m);
        n := m + 1;
      }
    }
  }

  lemma StartTraced(graph: Graph, nodes: set<string>, s: State) returns (paths: seq<seq<string>>)
    requires IsStart(graph, nodes, s)
    ensures Traced(graph, nodes, s, paths)
  {
    paths := seq(|s.queue|, i requires 0 <= i < |s.queue| => [s.queue[i]]);
    forall i | 0 <= i < |paths|
      ensures Trace(graph, nodes, s.level, paths[i], s.queue[i])
    {
      assert s.queue[i] in s.queue;
    }
  }

  /** Some state of the run has a ready ring with a package queued. */
  ghost predicate MeetsRing(graph: Graph, reverse: Graph, s: State) {
    exists n: nat :: HasRing(graph, After(graph, reverse, s, n))
  }

  /** On any closed graph the queue never empties if and only if, after some number of
      turns, every package of a ring of imports is ready and one of them is queued. */
  lemma EndlessIffRing(graph: Graph, reverse: Graph, nodes: set<string>, s: State)
    requires Closed(graph, nodes) && Reverses(graph, reverse) && IsStart(graph, nodes, s)
    ensures Endless(graph, reverse, s) <==> MeetsRing(graph, reverse, s)
  {
    hide After, RingQueued, Reverses, Closed, IsStart;
    if MeetsRing(graph, reverse, s) {
      var m: nat :| HasRing(graph, After(graph, reverse, s, m));
      var ring :| RingQueued(graph, After(graph, reverse, s, m), ring);
      forall n: nat
        ensures After(graph, reverse, s, n).queue != []
      {
        RingKeepsQueue(graph, reverse, s, m, n, ring);
      }
    } else {
      var b := SomeFanOut(reverse);
      var paths := StartTraced(graph, nodes, s);
      var n := EmptiesOrRings(graph, reverse, nodes, s, paths, b);
      assert !HasRing(graph, After(graph, reverse, s, n));
    }
  }

  lemma RingKeepsQueue(graph: Graph, reverse: Graph, s: State, m: nat, n: nat, ring: set<string>)
    requires Reverses(graph, reverse) && RingQueued(graph, After(graph, reverse, s, m), ring)
    ensures After(graph, reverse, s, n).queue != []
  {
    var k := if m <= n then n else m;
    RingNeverDrains(graph, reverse, s, m, k, ring);
    RingHasQueue(graph, After(graph, reverse, s, k), ring);
    if n < m && After(graph, reverse, s, n).queue == [] {
      StaysEmpty(graph, reverse, s, n, m);
    }
  }

  // ----------------------------------------------------------- what a run has looked at

  /** The packages taken from the queue in the first n turns. */
  ghost function Popped(graph: Graph, reverse: Graph, s: State, n: nat): set<string> {
    if n == 0 then {}
    else
      var before := After(graph, reverse, s, n - 1);
      Popped(graph, reverse, s, n - 1) + if before.queue == [] then {} else {before.queue[0]}
  }

  /** Every package whose imports are all done is done or queued. */
  ghost predicate Scheduled(graph: Graph, nodes: set<string>, done: set<string>, queue: seq<string>) {
    forall p :: p in nodes && (forall d :: d in Deps(graph, p) ==> d in done) ==> p in done || p in queue
  }

  ghost predicate Started(graph: Graph, level: map<string, nat>, done: set<string>, queue: seq<string>) {
    forall p :: p in done || p in queue ==> p in level && Ready(graph, level, p)
  }

  /** The dependents of a done package have a level. */
  ghost predicate Touched(reverse: Graph, level: map<string, nat>, done: set<string>) {
    forall p, d :: p in done && d in Deps(reverse, p) ==> d in level
  }

  ghost predicate Looked(graph: Graph, reverse: Graph, nodes: set<string>, s: State, done: set<string>) {
    && Scheduled(graph, nodes, done, s.queue)
    && Started(graph, s.level, done, s.queue)
    && Touched(reverse, s.level, done)
  }

  lemma StepScheduled(graph: Graph, reverse: Graph, nodes: set<string>, s: State, done: set<string>)
    requires Reverses(graph, reverse) && s.queue != []
    requires Started(graph, s.level, done, s.queue) && Scheduled(graph, nodes, done, s.queue)
    ensures Scheduled(graph, nodes, done + {s.queue[0]}, Next(graph, reverse, s).queue)
  {
    hide Raise, ReadyOnes;
    var t := Next(graph, reverse, s);
    NextKeepsLevels(graph, reverse, s);
    assert s.queue == [s.queue[0]] + s.queue[1..];
    forall p | p in nodes && (forall d :: d in Deps(graph, p) ==> d in done + {s.queue[0]})
      ensures p in done + {s.queue[0]} || p in t.queue
    {
      if s.queue[0] in Deps(graph, p) {
        assert Ready(graph, t.level, p);
        assert p in Deps(reverse, s.queue[0]);
      } else {
        assert p in done || p in s.queue;
      }
    }
  }

  lemma StepStarted(graph: Graph, reverse: Graph, s: State, done: set<string>)
    requires s.queue != [] && Started(graph, s.level, done, s.queue)
    ensures Started(graph, Next(graph, reverse, s).level, done + {s.queue[0]}, Next(graph, reverse, s).queue)
  {
    var t := Next(graph, reverse, s);
    assert s.queue == [s.queue[0]] + s.queue[1..];
    NextKeepsLevels(graph, reverse, s);
    forall p | p in done + {s.queue[0]} || p in t.queue
      ensures p in t.level && Ready(graph, t.level, p)
    {
      if p in done || p in s.queue {
        ReadyStays(graph, s.level, t.level, p);
      }
    }
  }

  lemma StepTouched(graph: Graph, reverse: Graph, s: State, done: set<string>)
    requires s.queue != [] && Touched(reverse, s.level, done)
    ensures Touched(reverse, Next(graph, reverse, s).level, done + {s.queue[0]})
  {
    NextKeepsLevels(graph, reverse, s);
  }

  lemma StartLooked(graph: Graph, reverse: Graph, nodes: set<string>, s: State)
    requires IsStart(graph, nodes, s)
    ensures Looked(graph, reverse, nodes, s, {})
  {
    assert forall p :: Deps(graph, p) != [] ==> Deps(graph, p)[0] in Deps(graph, p);
  }

  lemma {:induction false} RunLooked(graph: Graph, reverse: Graph, nodes: set<string>, s: State, n: nat)
    requires Reverses(graph, reverse) && IsStart(graph, nodes, s)
    ensures Looked(graph, reverse, nodes, After(graph, reverse, s, n), Popped(graph, reverse, s, n))
  {
    hide Next, IsStart, Reverses, Scheduled, Started, Touched;
    if n == 0 {
      StartLooked(graph, reverse, nodes, s);
    } else {
      RunLooked(graph, reverse, nodes, s, n - 1);
      var before, done := After(graph, reverse, s, n - 1), Popped(graph, reverse, s, n - 1);
      if before.queue != [] {
        StepScheduled(graph, reverse, nodes, before, done);
        StepStarted(graph, reverse, before, done);
        StepTouched(graph, reverse, before, done);
      } else {
        assert Next(graph, reverse, before) == before by { NextOfEmpty(graph, reverse, before); }
        assert done + {} == done;
      }
    }
  }

  lemma NextOfEmpty(graph: Graph, reverse: Graph, s: State)
    requires s.queue == []
    ensures Next(graph, reverse, s) == s
  {
  }

  // -------------------------------------------------------------- cycles that do not end

  /** Neither d nor anything below it is on a cycle. */
  ghost predicate Grounded(graph: Graph, d: string) {
    !Reaches(graph, d, d) && forall q :: Reaches(graph, d, q) ==> !Reaches(graph, q, q)
  }

  /** When the queue is empty every package that reaches no cycle is done. */
  lemma {:induction false} GroundedDone(graph: Graph, nodes: set<string>, done: set<string>, d: string)
    requires Closed(graph, nodes) && Scheduled(graph, nodes, done, []) && d in nodes && Grounded(graph, d)
    ensures d in done
    decreases |Below(graph, nodes, d)|
  {
    forall e | e in Deps(graph, d)
      ensures e in done
    {
      ReachesEdge(graph, d, e);
      forall q | Reaches(graph, e, q)
        ensures !Reaches(graph, q, q)
      {
        ReachesTransitive(graph, d, e, q);
      }
      BelowShrinks(graph, nodes, d, e);
      GroundedDone(graph, nodes, done, e);
    }
  }

  /** A ring of imports whose packages each also import something outside it, and
      outside it only what reaches no cycle. */
  ghost predicate GroundedRing(graph: Graph, ring: set<string>) {
    && ring != {}
    && (forall c :: c in ring ==> ImportedWithin(graph, ring, c))
    && (forall c, d :: c in ring && d in Deps(graph, c) && d !in ring ==> Grounded(graph, d))
    && (forall c :: c in ring ==> exists d :: d in Deps(graph, c) && d !in ring)
  }

  ghost predicate OutsideDone(graph: Graph, ring: set<string>, done: set<string>) {
    forall c, d :: c in ring && d in Deps(graph, c) && d !in ring ==> d in done
  }

  /** The turn that completes the imports outside a ring makes it ready and queues one
      of its packages. */
  lemma RingGetsQueued(graph: Graph, reverse: Graph, nodes: set<string>, s: State, done: set<string>,
                       ring: set<string>)
    requires Reverses(graph, reverse) && s.queue != [] && Looked(graph, reverse, nodes, s, done)
    requires GroundedRing(graph, ring)
    requires !OutsideDone(graph, ring, done) && OutsideDone(graph, ring, done + {s.queue[0]})
    ensures RingQueued(graph, Next(graph, reverse, s), ring)
  {
    hide GroundedRing, OutsideDone, ImportedWithin, Ready, Next, Looked, Reverses;
    var t, h := Next(graph, reverse, s), s.queue[0];
    NextKeepsLevels(graph, reverse, s);
    RingLeveled(graph, reverse, nodes, s, done, ring);
    DoneLeveled(graph, reverse, nodes, s, done);
    RingImported(graph, ring);
    forall c | c in ring
      ensures Ready(graph, t.level, c)
    {
      RingReady(graph, s.level, t.level, done, h, ring, c);
    }
    var c := NewlyDone(graph, ring, done, h);
    DependentQueued(graph, reverse, s, c);
  }

  lemma DoneLeveled(graph: Graph, reverse: Graph, nodes: set<string>, s: State, done: set<string>)
    requires s.queue != [] && Looked(graph, reverse, nodes, s, done)
    ensures done + {s.queue[0]} <= s.level.Keys
  {
    hide Ready;
    assert s.queue[0] in s.queue;
  }

  lemma RingImported(graph: Graph, ring: set<string>)
    requires GroundedRing(graph, ring)
    ensures forall c :: c in ring ==> ImportedWithin(graph, ring, c)
  {
  }

  lemma NewlyDone(graph: Graph, ring: set<string>, done: set<string>, h: string) returns (c: string)
    requires !OutsideDone(graph, ring, done) && OutsideDone(graph, ring, done + {h})
    ensures c in ring && h in Deps(graph, c)
  {
    var d;
    c, d :| c in ring && d in Deps(graph, c) && d !in ring && d !in done;
  }

  lemma DependentQueued(graph: Graph, reverse: Graph, s: State, c: string)
    requires Reverses(graph, reverse) && s.queue != [] && s.queue[0] in Deps(graph, c)
    requires Ready(graph, Next(graph, reverse, s).level, c)
    ensures c in Next(graph, reverse, s).queue
  {
    assert c in Deps(reverse, s.queue[0]);
  }

  lemma RingLeveled(graph: Graph, reverse: Graph, nodes: set<string>, s: State, done: set<string>, ring: set<string>)
    requires Reverses(graph, reverse) && s.queue != [] && Looked(graph, reverse, nodes, s, done)
    requires GroundedRing(graph, ring) && OutsideDone(graph, ring, done + {s.queue[0]})
    ensures forall c :: c in ring ==> c in Next(graph, reverse, s).level
  {
    hide ImportedWithin, Grounded, Next, Scheduled, Started;
    StepTouched(graph, reverse, s, done);
    forall c | c in ring
      ensures c in Next(graph, reverse, s).level
    {
      var d :| d in Deps(graph, c) && d !in ring;
      assert d in done + {s.queue[0]};
      assert c in Deps(reverse, d);
    }
  }

  lemma RingReady(graph: Graph, level: map<string, nat>, level': map<string, nat>, done: set<string>, h: string,
                  ring: set<string>, c: string)
    requires c in ring && OutsideDone(graph, ring, done + {h})
    requires done + {h} <= level.Keys <= level'.Keys
    requires forall p :: p in ring ==> p in level'
    ensures Ready(graph, level', c)
  {
  }

  lemma {:induction false} OutsideDoneRings(graph: Graph, reverse: Graph, nodes: set<string>, s: State, n: nat,
                                            ring: set<string>)
    requires Reverses(graph, reverse) && IsStart(graph, nodes, s) && GroundedRing(graph, ring)
    requires OutsideDone(graph, ring, Popped(graph, reverse, s, n))
    ensures RingQueued(graph, After(graph, reverse, s, n), ring)
  {
    hide Next, IsStart, Reverses, ImportedWithin, Looked, Grounded, RingQueued;
    if n > 0 {
      var before, done := After(graph, reverse, s, n - 1), Popped(graph, reverse, s, n - 1);
      RunLooked(graph, reverse, nodes, s, n - 1);
      if OutsideDone(graph, ring, done) {
        OutsideDoneRings(graph, reverse, nodes, s, n - 1, ring);
        RingStaysQueued(graph, reverse, before, ring);
      } else {
        RingGetsQueued(graph, reverse, nodes, before, done, ring);
      }
    } else {
      SomethingOutside(graph, ring);
    }
  }

  lemma SomethingOutside(graph: Graph, ring: set<string>)
    requires GroundedRing(graph, ring)
    ensures !OutsideDone(graph, ring, {})
  {
    hide ImportedWithin, Grounded;
    var c :| c in ring;
    var d :| d in Deps(graph, c) && d !in ring;
  }

  /** From the code's start, every such ring keeps the worklist going for ever. */
  lemma GroundedRingIsEndless(graph: Graph, reverse: Graph, nodes: set<string>, s: State, ring: set<string>)
    requires Closed(graph, nodes) && Reverses(graph, reverse) && IsStart(graph, nodes, s)
    requires GroundedRing(graph, ring)
    ensures Endless(graph, reverse, s)
  {
    hide Next, IsStart, Reverses, ImportedWithin, RingQueued;
    forall n: nat
      ensures After(graph, reverse, s, n).queue != []
    {
      var t, done := After(graph, reverse, s, n), Popped(graph, reverse, s, n);
      if t.queue == [] {
        RunLooked(graph, reverse, nodes, s, n);
        forall c, d | c in ring && d in Deps(graph, c) && d !in ring
          ensures d in done
        {
          GroundedDone(graph, nodes, done, d);
        }
        OutsideDoneRings(graph, reverse, nodes, s, n, ring);
        RingHasQueue(graph, t, ring);
      }
    }
  }

  /** A package that imports itself, at least one other package, and otherwise only
      packages that reach no cycle. */
  ghost predicate SelfImporter(graph: Graph, p: string) {
    && p in Deps(graph, p)
    && (exists d :: d in Deps(graph, p) && d != p)
    && forall d :: d in Deps(graph, p) && d != p ==> Grounded(graph, d)
  }

  lemma SelfImportIsEndless(graph: Graph, reverse: Graph, nodes: set<string>, s: State, p: string)
    requires Closed(graph, nodes) && Reverses(graph, reverse) && IsStart(graph, nodes, s)
    requires SelfImporter(graph, p)
    ensures Endless(graph, reverse, s)
  {
    hide Grounded, Endless;
    assert p in {p};
    assert ImportedWithin(graph, {p}, p);
    GroundedRingIsEndless(graph, reverse, nodes, s, {p});
  }

  lemma LeafIsGrounded(graph: Graph, d: string)
    requires Deps(graph, d) == []
    ensures Grounded(graph, d)
  {
    forall q
      ensures !Reaches(graph, d, q)
    {
      forall w | |w| >= 2 && w[0] == d
        ensures !Walk(graph, w)
      {
        assert w[0 + 1] !in Deps(graph, w[0]);
      }
    }
  }

  /** A cycle of two packages, one of which also imports a leaf. */
  function UnreadyCycle(): Graph {
    map["p" := ["q", "w"], "q" := ["p"]]
  }

  /** That cycle never becomes ready: one turn ends the run, and the package with an
      import outside the cycle has got level 1. */
  lemma UnreadyCycleEnds(reverse: Graph, s: State)
    requires Mirrors(UnreadyCycle(), reverse) && IsStart(UnreadyCycle(), {"p", "q", "w"}, s)
    ensures After(UnreadyCycle(), reverse, s, 1) == State(map["w" := 0, "p" := 1], [])
  {
    hide Mirrors, Raise, Ready, ReadyOnes;
    UnreadyStart(s);
    WDependents(reverse);
    RaiseP();
    PNotReady();
    NoneReady(UnreadyCycle(), map["w" := 0, "p" := 1], ["p"]);
    AfterOne(UnreadyCycle(), reverse, s);
    hide After, UnreadyCycle;
    assert ["w"][1..] == [];
  }

  lemma UnreadyStart(s: State)
    requires IsStart(UnreadyCycle(), {"p", "q", "w"}, s)
    ensures s == State(map["w" := 0], ["w"])
  {
    OnlyMember(s.queue, "w");
    assert s.level == map["w" := 0];
  }

  lemma RaiseP()
    ensures Raise(map["w" := 0], ["p"], 1) == map["w" := 0, "p" := 1]
  {
    assert "p"[0] != "w"[0];
  }

  lemma PNotReady()
    ensures !Ready(UnreadyCycle(), map["w" := 0, "p" := 1], "p")
  {
    assert Deps(UnreadyCycle(), "p") == ["q", "w"] && ["q", "w"][0] == "q";
    assert "q"[0] != "w"[0] && "q"[0] != "p"[0];
    assert "q" in Deps(UnreadyCycle(), "p") && "q" !in map["w" := 0, "p" := 1];
  }

  lemma {:induction false} NoneReady(graph: Graph, level: map<string, nat>, ds: seq<string>)
    requires forall p :: p in ds ==> !Ready(graph, level, p)
    ensures ReadyOnes(graph, level, ds) == []
  {
    hide Ready;
    if ds != [] {
      NoneReady(graph, level, ds[..|ds| - 1]);
    }
  }

  lemma NotTwice(s: seq<string>)
    requires StrictlySorted(s)
    ensures |s| > 1 ==> s[0] != s[1]
  {
    if |s| > 1 {
      LessIrreflexive(s[0]);
      assert Less(s[0], s[1]);
    }
  }

  lemma OnlyMember(s: seq<string>, x: string)
    requires StrictlySorted(s) && x in s && forall y :: y in s ==> y == x
    ensures s == [x]
  {
    NotTwice(s);
    assert forall i :: 0 <= i < |s| ==> s[i] in s;
  }

  lemma WDependents(reverse: Graph)
    requires Mirrors(UnreadyCycle(), reverse)
    ensures Deps(reverse, "w") == ["p"]
  {
    var ds := Deps(reverse, "w");
    forall p
      ensures multiset(ds)[p] == multiset{"p"}[p]
    {
      assert multiset(ds)[p] == multiset(Deps(UnreadyCycle(), p))["w"];
    }
    assert multiset(ds) == multiset{"p"};
    assert |ds| == |multiset(ds)| == 1;
    assert ds[0] in multiset(ds);
  }
}
