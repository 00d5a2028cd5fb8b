/** PageRank over the symbol graph (query/query.go), in real arithmetic. */
module PageRank {

  // -------------------------------------------------------------------- sums

  function Abs(x: real): (a: real)
    ensures a >= 0.0 && a >= x && a >= -x
  {
    if x < 0.0 then -x else x
  }

  ghost function Sum(f: int -> real, n: nat): real {
    if n == 0 then 0.0 else Sum(f, n - 1) + f(n - 1)
  }

  lemma {:induction false} SumSame(f: int -> real, g: int -> real, n: nat)
    requires forall j :: 0 <= j < n ==> f(j) == g(j)
    ensures Sum(f, n) == Sum(g, n)
  {
    if n > 0 { SumSame(f, g, n - 1); }
  }

  lemma {:induction false} SumAtMost(f: int -> real, g: int -> real, n: nat)
    requires forall j :: 0 <= j < n ==> f(j) <= g(j)
    ensures Sum(f, n) <= Sum(g, n)
  {
    if n > 0 { SumAtMost(f, g, n - 1); }
  }

  ghost function Plus(f: int -> real, g: int -> real): int -> real {
    j => f(j) + g(j)
  }

  ghost function Const(c: real): int -> real {
    _ => c
  }

  ghost function Indicator(t: int, c: real): int -> real {
    j => if j == t then c else 0.0
  }

  lemma {:induction false} SumPlus(f: int -> real, g: int -> real, n: nat)
    ensures Sum(Plus(f, g), n) == Sum(f, n) + Sum(g, n)
  {
    if n > 0 { SumPlus(f, g, n - 1); }
  }

  lemma {:induction false} SumConst(c: real, n: nat)
    ensures Sum(Const(c), n) == c * n as real
  {
    if n > 0 {
      SumConst(c, n - 1);
      var m := (n - 1) as real;
      assert n as real == m + 1.0;
      assert c * (m + 1.0) == c * m + c;
      assert c * n as real == c * m + c;
      assert Sum(Const(c), n) == Sum(Const(c), n - 1) + c;
    }
  }

  lemma {:induction false} SumIndicator(t: int, c: real, n: nat)
    requires 0 <= t
    ensures Sum(Indicator(t, c), n) == if t < n then c else 0.0
  {
    if n > 0 { SumIndicator(t, c, n - 1); }
  }

  lemma {:induction false} TermAtMostSum(f: int -> real, n: nat, i: nat)
    requires i < n && forall j :: 0 <= j < n ==> f(j) >= 0.0
    ensures 0.0 <= f(i) <= Sum(f, n)
  {
    SumNonNegative(f, n - 1);
    if i < n - 1 { TermAtMostSum(f, n - 1, i); }
  }

  lemma {:induction false} SumNonNegative(f: int -> real, n: nat)
    requires forall j :: 0 <= j < n ==> f(j) >= 0.0
    ensures Sum(f, n) >= 0.0
  {
    if n > 0 { SumNonNegative(f, n - 1); }
  }

  // ------------------------------------------------------------------ the graph

  type Adjacency = map<nat, seq<nat>>

  /** adj[i], where a missing key reads as an empty slice. */
  function Out(adj: Adjacency, i: nat): seq<nat> {
    if i in adj then adj[i] else []
  }

  /** Every node's degree is its number of out-edges, all inside the graph. */
  ghost predicate GraphOk(n: nat, adj: Adjacency, outdeg: seq<nat>) {
    && |outdeg| == n
    && (forall i :: 0 <= i < n ==> outdeg[i] == |Out(adj, i)|)
    && (forall i, k :: 0 <= i < n && 0 <= k < |Out(adj, i)| ==> Out(adj, i)[k] < n)
  }

  datatype Edge = Edge(fromRef: string, toRef: string)

  /** The first index of each name, as nodeIdx records it. */
  ghost predicate Indexes(nodes: seq<string>, nodeIdx: map<string, nat>) {
    && (forall x :: x in nodeIdx ==> nodeIdx[x] < |nodes| && nodes[nodeIdx[x]] == x)
    && (forall i :: 0 <= i < |nodes| ==> nodes[i] in nodeIdx && nodeIdx[nodes[i]] == i)
  }

  /** The targets of node i's edges among es, in order, outside names dropped. */
  function Targets(es: seq<Edge>, nodeIdx: map<string, nat>, i: nat): seq<nat> {
    if es == [] then []
    else
      var e, rest := es[|es| - 1], Targets(es[..|es| - 1], nodeIdx, i);
      if e.fromRef in nodeIdx && e.toRef in nodeIdx && nodeIdx[e.fromRef] == i
      then rest + [nodeIdx[e.toRef]] else rest
  }

  lemma {:induction false} TargetsInRange(es: seq<Edge>, nodes: seq<string>, nodeIdx: map<string, nat>, i: nat)
    requires Indexes(nodes, nodeIdx)
    ensures forall k :: 0 <= k < |Targets(es, nodeIdx, i)| ==> Targets(es, nodeIdx, i)[k] < |nodes|
  {
    if es != [] { TargetsInRange(es[..|es| - 1], nodes, nodeIdx, i); }
  }

  method IndexSymbols(allSyms: seq<string>) returns (nodes: seq<string>, nodeIdx: map<string, nat>)
    ensures Indexes(nodes, nodeIdx)
    ensures forall x :: x in nodeIdx <==> x in allSyms
  {
    nodeIdx, nodes := map[], [];
    var i := 0;
    while i < |allSyms|
      invariant 0 <= i <= |allSyms|
      invariant Indexes(nodes, nodeIdx)
      invariant forall x :: x in nodeIdx <==> x in allSyms[..i]
    {
      assert allSyms[..i + 1] == allSyms[..i] + [allSyms[i]];
      if allSyms[i] !in nodeIdx {
        nodeIdx := nodeIdx[allSyms[i] := |nodes|];
        nodes := nodes + [allSyms[i]];
      }
      i := i + 1;
    }
    assert allSyms[..i] == allSyms;
  }

  /** The edges es, grouped by source index and counted. */
  ghost predicate Collected(n: nat, es: seq<Edge>, nodeIdx: map<string, nat>, adj: Adjacency, outdeg: seq<nat>) {
    && |outdeg| == n
    && (forall k: nat :: k < n ==> Out(adj, k) == Targets(es, nodeIdx, k) && outdeg[k] == |Out(adj, k)|)
  }

  lemma TargetsStep(es: seq<Edge>, i: nat, nodeIdx: map<string, nat>, k: nat)
    requires i < |es|
    ensures Targets(es[..i + 1], nodeIdx, k) ==
              if es[i].fromRef in nodeIdx && es[i].toRef in nodeIdx && nodeIdx[es[i].fromRef] == k
              then Targets(es[..i], nodeIdx, k) + [nodeIdx[es[i].toRef]] else Targets(es[..i], nodeIdx, k)
  {
    assert es[..i + 1][..i] == es[..i] && es[..i + 1][i] == es[i];
  }

  lemma CollectedSkip(n: nat, es: seq<Edge>, i: nat, nodeIdx: map<string, nat>, adj: Adjacency, outdeg: seq<nat>)
    requires i < |es| && Collected(n, es[..i], nodeIdx, adj, outdeg)
    requires es[i].fromRef !in nodeIdx || es[i].toRef !in nodeIdx
    ensures Collected(n, es[..i + 1], nodeIdx, adj, outdeg)
  {
    forall k: nat | k < n ensures Targets(es[..i + 1], nodeIdx, k) == Targets(es[..i], nodeIdx, k) {
      TargetsStep(es, i, nodeIdx, k);
    }
  }

  lemma CollectedAdd(n: nat, es: seq<Edge>, i: nat, nodeIdx: map<string, nat>, adj: Adjacency, outdeg: seq<nat>,
                     from: nat, to: nat)
    requires i < |es| && Collected(n, es[..i], nodeIdx, adj, outdeg)
    requires es[i].fromRef in nodeIdx && es[i].toRef in nodeIdx
    requires nodeIdx[es[i].fromRef] == from < n && nodeIdx[es[i].toRef] == to
    ensures Collected(n, es[..i + 1], nodeIdx, adj[from := Out(adj, from) + [to]], outdeg[from := outdeg[from] + 1])
  {
    var adj', outdeg' := adj[from := Out(adj, from) + [to]], outdeg[from := outdeg[from] + 1];
    forall k: nat | k < n
      ensures Out(adj', k) == Targets(es[..i + 1], nodeIdx, k) && outdeg'[k] == |Out(adj', k)|
    {
      TargetsStep(es, i, nodeIdx, k);
      assert Out(adj, k) == Targets(es[..i], nodeIdx, k);
    }
  }

  /** How many of the edges lead from the one symbol to the other. */
  function EdgeCount(es: seq<Edge>, from: string, to: string): nat {
    if es == [] then 0
    else
      var e := es[|es| - 1];
      EdgeCount(es[..|es| - 1], from, to) + if e.fromRef == from && e.toRef == to then 1 else 0
  }

  lemma {:induction false} TargetsCount(es: seq<Edge>, nodes: seq<string>, nodeIdx: map<string, nat>, i: nat, j: nat)
    requires Indexes(nodes, nodeIdx) && i < |nodes| && j < |nodes|
    ensures multiset(Targets(es, nodeIdx, i))[j] == EdgeCount(es, nodes[i], nodes[j])
  {
    if es != [] {
      var n := |es| - 1;
      TargetsCount(es[..n], nodes, nodeIdx, i, j);
      var rest := Targets(es[..n], nodeIdx, i);
      assert es[n].toRef in nodeIdx ==>
        multiset(rest + [nodeIdx[es[n].toRef]]) == multiset(rest) + multiset{nodeIdx[es[n].toRef]};
    }
  }

  /** j is among the neighbours of i as often as edges lead from symbol i to symbol j. */
  ghost predicate CountsEdges(es: seq<Edge>, nodes: seq<string>, adj: Adjacency) {
    forall i, j :: 0 <= i < |nodes| && 0 <= j < |nodes| ==>
      multiset(Out(adj, i))[j] == EdgeCount(es, nodes[i], nodes[j])
  }

  method BuildSymbolAdjacency(allSyms: seq<string>, es: seq<Edge>)
    returns (nodes: seq<string>, adj: Adjacency, outdeg: seq<nat>, nodeIdx: map<string, nat>)
    ensures Indexes(nodes, nodeIdx) && forall x :: x in nodeIdx <==> x in allSyms
    ensures GraphOk(|nodes|, adj, outdeg)
    ensures forall i :: 0 <= i < |nodes| ==> Out(adj, i) == Targets(es, nodeIdx, i)
    ensures CountsEdges(es, nodes, adj)
  {
    nodes, nodeIdx := IndexSymbols(allSyms);
    adj, outdeg := map[], seq(|nodes|, _ => 0);
    var i := 0;
    while i < |es|
      invariant 0 <= i <= |es|
      invariant Collected(|nodes|, es[..i], nodeIdx, adj, outdeg)
    {
      var e := es[i];
      if e.fromRef in nodeIdx && e.toRef in nodeIdx {
        var from, to := nodeIdx[e.fromRef], nodeIdx[e.toRef];
        CollectedAdd(|nodes|, es, i, nodeIdx, adj, outdeg, from, to);
        adj := adj[from := Out(adj, from) + [to]];
        outdeg := outdeg[from := outdeg[from] + 1];
      } else {
        CollectedSkip(|nodes|, es, i, nodeIdx, adj, outdeg);
      }
      i := i + 1;
    }
    assert es[..i] == es;
    forall k | 0 <= k < |nodes|
      ensures forall m :: 0 <= m < |Out(adj, k)| ==> Out(adj, k)[m] < |nodes|
    {
      TargetsInRange(es, nodes, nodeIdx, k);
    }
    forall i, j | 0 <= i < |nodes| && 0 <= j < |nodes|
      ensures multiset(Out(adj, i))[j] == EdgeCount(es, nodes[i], nodes[j])
    {
      TargetsCount(es, nodes, nodeIdx, i, j);
    }
  }

  // -------------------------------------------------------- one step, as algebra

  const DAMPING: real := 0.85
  const EPSILON: real := 0.000001
  const MAX_ITER: nat := 100

  /** Mass that share sends to j along the out-edges outs[..k]. */
  ghost function Received(outs: seq<nat>, k: nat, share: real, j: int): real
    requires k <= |outs|
  {
    if k == 0 then 0.0 else Received(outs, k - 1, share, j) + if outs[k - 1] == j then share else 0.0
  }

  /** What one out-edge of i carries: a damped even split of i's rank. */
  ghost function Share(adj: Adjacency, rank: int -> real, i: nat): real {
    if |Out(adj, i)| == 0 then 0.0 else DAMPING * rank(i) / |Out(adj, i)| as real
  }

  /** Mass that j receives over the out-edges of the nodes below m. */
  ghost function Incoming(adj: Adjacency, rank: int -> real, m: nat, j: int): real {
    if m == 0 then 0.0
    else Incoming(adj, rank, m - 1, j) + Received(Out(adj, m - 1), |Out(adj, m - 1)|, Share(adj, rank, m - 1), j)
  }

  ghost function IfDangling(adj: Adjacency, rank: int -> real): int -> real {
    i => if i >= 0 && |Out(adj, i)| == 0 then rank(i) else 0.0
  }

  ghost function Dangling(adj: Adjacency, rank: int -> real, n: nat): real {
    Sum(IfDangling(adj, rank), n)
  }

  /** The part of a step that depends on the ranks. It is linear in them. */
  ghost function Moved(n: nat, adj: Adjacency, rank: int -> real, j: int): real
    requires n > 0
  {
    DAMPING * Dangling(adj, rank, n) / n as real + Incoming(adj, rank, n, j)
  }

  /** The PageRank equation for entry j. */
  ghost function NewRank(n: nat, adj: Adjacency, rank: int -> real, j: int): real
    requires n > 0
  {
    (1.0 - DAMPING) / n as real + Moved(n, adj, rank, j)
  }

  ghost function ReceivedVec(outs: seq<nat>, k: nat, share: real): int -> real
    requires k <= |outs|
  {
    j => Received(outs, k, share, j)
  }

  ghost function IncomingVec(adj: Adjacency, rank: int -> real, m: nat): int -> real {
    j => Incoming(adj, rank, m, j)
  }

  ghost function MovedVec(n: nat, adj: Adjacency, rank: int -> real): int -> real
    requires n > 0
  {
    j => Moved(n, adj, rank, j)
  }

  lemma {:induction false} ReceivedTotal(outs: seq<nat>, k: nat, share: real, n: nat)
    requires k <= |outs| && forall i :: 0 <= i < k ==> outs[i] < n
    ensures Sum(ReceivedVec(outs, k, share), n) == k as real * share
  {
    if k == 0 {
      SumConst(0.0, n);
      SumSame(ReceivedVec(outs, k, share), Const(0.0), n);
    } else {
      var t := outs[k - 1];
      ReceivedTotal(outs, k - 1, share, n);
      SumIndicator(t, share, n);
      SumPlus(ReceivedVec(outs, k - 1, share), Indicator(t, share), n);
      SumSame(ReceivedVec(outs, k, share), Plus(ReceivedVec(outs, k - 1, share), Indicator(t, share)), n);
      var m := (k - 1) as real;
      assert k as real == m + 1.0;
      assert (m + 1.0) * share == m * share + share;
    }
  }

  /** A node with out-edges sends out exactly its damped rank. */
  lemma NodeTotal(adj: Adjacency, outdeg: seq<nat>, rank: int -> real, i: nat, n: nat)
    requires GraphOk(n, adj, outdeg) && i < n
    ensures Sum(ReceivedVec(Out(adj, i), |Out(adj, i)|, Share(adj, rank, i)), n)
         == DAMPING * (rank(i) - IfDangling(adj, rank)(i))
  {
    ReceivedTotal(Out(adj, i), |Out(adj, i)|, Share(adj, rank, i), n);
  }

  lemma IncomingSplit(adj: Adjacency, rank: int -> real, m: nat, n: nat)
    requires m > 0
    ensures Sum(IncomingVec(adj, rank, m), n)
         == Sum(IncomingVec(adj, rank, m - 1), n)
          + Sum(ReceivedVec(Out(adj, m - 1), |Out(adj, m - 1)|, Share(adj, rank, m - 1)), n)
  {
    var before := IncomingVec(adj, rank, m - 1);
    var last := ReceivedVec(Out(adj, m - 1), |Out(adj, m - 1)|, Share(adj, rank, m - 1));
    SumPlus(before, last, n);
    SumSame(IncomingVec(adj, rank, m), Plus(before, last), n);
  }

  lemma {:induction false} IncomingTotal(adj: Adjacency, outdeg: seq<nat>, rank: int -> real, m: nat, n: nat)
    requires GraphOk(n, adj, outdeg) && m <= n
    ensures Sum(IncomingVec(adj, rank, m), n) == DAMPING * (Sum(rank, m) - Dangling(adj, rank, m))
  {
    if m == 0 {
      SumConst(0.0, n);
      SumSame(IncomingVec(adj, rank, m), Const(0.0), n);
    } else {
      IncomingSplit(adj, rank, m, n);
      IncomingTotal(adj, outdeg, rank, m - 1, n);
      NodeTotal(adj, outdeg, rank, m - 1, n);
    }
  }

  /** A step moves the damped total: no rank is lost to nodes without out-edges. */
  lemma MovedTotal(n: nat, adj: Adjacency, outdeg: seq<nat>, rank: int -> real)
    requires n > 0 && GraphOk(n, adj, outdeg)
    ensures Sum(MovedVec(n, adj, rank), n) == DAMPING * Sum(rank, n)
  {
    var c := DAMPING * Dangling(adj, rank, n) / n as real;
    SumConst(c, n);
    IncomingTotal(adj, outdeg, rank, n, n);
    var flow := IncomingVec(adj, rank, n);
    SumPlus(Const(c), flow, n);
    SumSame(MovedVec(n, adj, rank), Plus(Const(c), flow), n);
  }

  ghost predicate Distribution(rank: int -> real, n: nat) {
    && (forall j :: 0 <= j < n ==> rank(j) >= 0.0)
    && Sum(rank, n) == 1.0
  }

  ghost function Next(n: nat, adj: Adjacency, rank: int -> real): int -> real
    requires n > 0
  {
    j => NewRank(n, adj, rank, j)
  }

  lemma {:induction false} ReceivedNonNegative(outs: seq<nat>, k: nat, share: real, j: int)
    requires k <= |outs| && share >= 0.0
    ensures Received(outs, k, share, j) >= 0.0
  {
    if k > 0 { ReceivedNonNegative(outs, k - 1, share, j); }
  }

  lemma {:induction false} IncomingNonNegative(adj: Adjacency, rank: int -> real, m: nat, j: int)
    requires forall i :: 0 <= i < m ==> rank(i) >= 0.0
    ensures Incoming(adj, rank, m, j) >= 0.0
  {
    if m > 0 {
      IncomingNonNegative(adj, rank, m - 1, j);
      ReceivedNonNegative(Out(adj, m - 1), |Out(adj, m - 1)|, Share(adj, rank, m - 1), j);
    }
  }

  lemma MovedNonNegative(n: nat, adj: Adjacency, rank: int -> real, j: int)
    requires n > 0 && forall i :: 0 <= i < n ==> rank(i) >= 0.0
    ensures Moved(n, adj, rank, j) >= 0.0
  {
    IncomingNonNegative(adj, rank, n, j);
    SumNonNegative(IfDangling(adj, rank), n);
  }

  /** A step keeps the total rank at one and every entry at or above the floor. */
  lemma StepKeepsDistribution(n: nat, adj: Adjacency, outdeg: seq<nat>, rank: int -> real)
    requires n > 0 && GraphOk(n, adj, outdeg) && Distribution(rank, n)
    ensures Distribution(Next(n, adj, rank), n)
    ensures forall j :: 0 <= j < n ==> Next(n, adj, rank)(j) >= (1.0 - DAMPING) / n as real
  {
    var c := (1.0 - DAMPING) / n as real;
    SumConst(c, n);
    MovedTotal(n, adj, outdeg, rank);
    var moved := MovedVec(n, adj, rank);
    SumPlus(Const(c), moved, n);
    SumSame(Next(n, adj, rank), Plus(Const(c), moved), n);
    forall j | 0 <= j < n ensures Next(n, adj, rank)(j) >= c {
      MovedNonNegative(n, adj, rank, j);
    }
  }

  // -------------------------------------------------------- the equation, edge by edge

  /** The rank of node i where it has no out-edges. */
  ghost function Teleported(adj: Adjacency, rank: int -> real): int -> real {
    i => if i >= 0 && Out(adj, i) == [] then rank(i) else 0.0
  }

  /** What node i gives to j: 0.85 of its rank, split evenly over its out-edges, once for
      each edge to j. */
  ghost function Given(adj: Adjacency, rank: int -> real, j: nat): int -> real {
    i => if i < 0 || Out(adj, i) == [] then 0.0
         else 0.85 * rank(i) * multiset(Out(adj, i))[j] as real / |Out(adj, i)| as real
  }

  ghost function Count(outs: seq<nat>, j: nat): nat {
    multiset(outs)[j]
  }

  lemma CountSnoc(outs: seq<nat>, k: nat, j: nat)
    requires 0 < k <= |outs|
    ensures Count(outs[..k], j) == Count(outs[..k - 1], j) + if outs[k - 1] == j then 1 else 0
  {
    assert outs[..k] == outs[..k - 1] + [outs[k - 1]];
  }

  lemma CountNone(outs: seq<nat>, j: nat, share: real)
    ensures Count(outs[..0], j) as real * share == 0.0
  {
    ZeroShare(share);
  }

  lemma MoreShare(c: nat, c': nat, hit: bool, share: real)
    requires c' == c + if hit then 1 else 0
    ensures c' as real * share == c as real * share + if hit then share else 0.0
  {
    var m := c as real;
    assert hit ==> c' as real == m + 1.0;
    assert (m + 1.0) * share == m * share + share;
  }

  lemma {:induction false} ReceivedCounts(outs: seq<nat>, k: nat, share: real, j: nat)
    requires k <= |outs|
    ensures Received(outs, k, share, j) == Count(outs[..k], j) as real * share
  {
    hide Count;
    if k == 0 {
      CountNone(outs, j, share);
    } else {
      ReceivedCounts(outs, k - 1, share, j);
      CountSnoc(outs, k, j);
      MoreShare(Count(outs[..k - 1], j), Count(outs[..k], j), outs[k - 1] == j, share);
    }
  }

  lemma GivenIsReceived(adj: Adjacency, rank: int -> real, i: nat, j: nat)
    ensures Received(Out(adj, i), |Out(adj, i)|, Share(adj, rank, i), j) == Given(adj, rank, j)(i)
  {
    var outs := Out(adj, i);
    ReceivedCounts(outs, |outs|, Share(adj, rank, i), j);
    hide Received;
    assert outs[..|outs|] == outs;
    if outs != [] {
      Reordered(rank(i), multiset(outs)[j] as real, |outs| as real);
    } else {
      ZeroShare(multiset(outs)[j] as real);
    }
  }

  lemma ZeroShare(c: real)
    ensures c * 0.0 == 0.0 && 0.0 * c == 0.0
  {}

  lemma Reordered(r: real, c: real, d: real)
    requires d > 0.0
    ensures c * (0.85 * r / d) == 0.85 * r * c / d
  {}

  lemma {:induction false} IncomingIsGiven(adj: Adjacency, rank: int -> real, m: nat, j: nat)
    ensures Incoming(adj, rank, m, j) == Sum(Given(adj, rank, j), m)
  {
    hide Given, Received, Share;
    if m > 0 {
      IncomingIsGiven(adj, rank, m - 1, j);
      GivenIsReceived(adj, rank, m - 1, j);
    }
  }

  /** One step in numbers: 0.15 spread evenly, 0.85 of the rank of nodes without
      out-edges spread evenly, and 0.85 of every other node's rank along its edges. */
  lemma StepEquation(n: nat, adj: Adjacency, rank: int -> real, j: nat)
    requires n > 0
    ensures Next(n, adj, rank)(j)
         == 0.15 / n as real + 0.85 * Sum(Teleported(adj, rank), n) / n as real + Sum(Given(adj, rank, j), n)
  {
    IncomingIsGiven(adj, rank, n, j);
    SumSame(Teleported(adj, rank), IfDangling(adj, rank), n);
  }

  /** Some edge leads to j. */
  ghost predicate PointedAt(n: nat, adj: Adjacency, j: nat) {
    exists i :: 0 <= i < n && j in Out(adj, i)
  }

  lemma GivenSigns(adj: Adjacency, rank: int -> real, j: nat, i: nat)
    requires rank(i) > 0.0
    ensures j !in Out(adj, i) ==> Given(adj, rank, j)(i) == 0.0
    ensures j in Out(adj, i) ==> Given(adj, rank, j)(i) > 0.0
  {
    if j in Out(adj, i) {
      var c, d := multiset(Out(adj, i))[j] as real, |Out(adj, i)| as real;
      assert j in multiset(Out(adj, i)) && c > 0.0 && d > 0.0;
      assert 0.85 * rank(i) * c > 0.0;
    }
  }

  /** Of positive ranks a step makes a node that some edge leads to rank above one that
      none does. */
  lemma PointedAtIsAbove(n: nat, adj: Adjacency, rank: int -> real, j: nat, k: nat)
    requires n > 0 && forall i :: 0 <= i < n ==> rank(i) > 0.0
    requires PointedAt(n, adj, j) && !PointedAt(n, adj, k)
    ensures Next(n, adj, rank)(k) < Next(n, adj, rank)(j)
  {
    StepEquation(n, adj, rank, j);
    StepEquation(n, adj, rank, k);
    hide Next, Given;
    forall i | 0 <= i < n
      ensures Given(adj, rank, j)(i) >= 0.0 && Given(adj, rank, k)(i) == 0.0
    {
      GivenSigns(adj, rank, j, i);
      GivenSigns(adj, rank, k, i);
    }
    var i :| 0 <= i < n && j in Out(adj, i);
    GivenSigns(adj, rank, j, i);
    TermAtMostSum(Given(adj, rank, j), n, i);
    SumConst(0.0, n);
    SumSame(Given(adj, rank, k), Const(0.0), n);
  }

  // ---------------------------------------------------------------- contraction

  /** The entrywise distance of two vectors. */
  ghost function Gap(r: int -> real, s: int -> real): int -> real {
    j => Abs(r(j) - s(j))
  }

  ghost function L1(r: int -> real, s: int -> real, n: nat): real {
    Sum(Gap(r, s), n)
  }

  lemma {:induction false} ReceivedGap(outs: seq<nat>, k: nat, a: real, b: real, c: real, j: int)
    requires k <= |outs| && Abs(a - b) <= c
    ensures Abs(Received(outs, k, a, j) - Received(outs, k, b, j)) <= Received(outs, k, c, j)
  {
    if k > 0 { ReceivedGap(outs, k - 1, a, b, c, j); }
  }

  lemma ShareGap(adj: Adjacency, r: int -> real, s: int -> real, i: nat)
    ensures Abs(Share(adj, r, i) - Share(adj, s, i)) <= Share(adj, Gap(r, s), i)
  {
    if |Out(adj, i)| > 0 {
      var d := |Out(adj, i)| as real;
      ScaleAbs(DAMPING, r(i), s(i), d);
    }
  }

  lemma ScaleAbs(c: real, x: real, y: real, d: real)
    requires c > 0.0 && d > 0.0
    ensures Abs(c * x / d - c * y / d) == c * Abs(x - y) / d
  {
    var z := x - y;
    assert c * x / d - c * y / d == c * z / d;
    if z < 0.0 {
      assert c * z / d <= 0.0;
      assert c * (-z) / d == -(c * z / d);
    } else {
      assert c * z / d >= 0.0;
    }
  }

  lemma {:induction false} IncomingGap(adj: Adjacency, r: int -> real, s: int -> real, m: nat, j: int)
    ensures Abs(Incoming(adj, r, m, j) - Incoming(adj, s, m, j)) <= Incoming(adj, Gap(r, s), m, j)
  {
    if m > 0 {
      var outs := Out(adj, m - 1);
      IncomingGap(adj, r, s, m - 1, j);
      ShareGap(adj, r, s, m - 1);
      ReceivedGap(outs, |outs|, Share(adj, r, m - 1), Share(adj, s, m - 1), Share(adj, Gap(r, s), m - 1), j);
    }
  }

  lemma {:induction false} DanglingGap(adj: Adjacency, r: int -> real, s: int -> real, m: nat)
    ensures Abs(Dangling(adj, r, m) - Dangling(adj, s, m)) <= Dangling(adj, Gap(r, s), m)
  {
    if m > 0 {
      DanglingGap(adj, r, s, m - 1);
      assert Abs(IfDangling(adj, r)(m - 1) - IfDangling(adj, s)(m - 1)) == IfDangling(adj, Gap(r, s))(m - 1);
    }
  }

  lemma MovedGap(n: nat, adj: Adjacency, r: int -> real, s: int -> real, j: int)
    requires n > 0
    ensures Abs(Moved(n, adj, r, j) - Moved(n, adj, s, j)) <= Moved(n, adj, Gap(r, s), j)
  {
    var x, y, z := Dangling(adj, r, n), Dangling(adj, s, n), Dangling(adj, Gap(r, s), n);
    DanglingGap(adj, r, s, n);
    ScaleAbs(DAMPING, x, y, n as real);
    ScaleMonotone(DAMPING, Abs(x - y), z, n as real);
    IncomingGap(adj, r, s, n, j);
  }

  lemma ScaleMonotone(c: real, x: real, y: real, d: real)
    requires c > 0.0 && d > 0.0 && x <= y
    ensures c * x / d <= c * y / d
  {
    assert c * y / d - c * x / d == c * (y - x) / d;
    assert c * (y - x) >= 0.0;
  }

  /** A step shrinks the L1 distance of any two vectors by the damping factor. */
  lemma StepContracts(n: nat, adj: Adjacency, outdeg: seq<nat>, r: int -> real, s: int -> real)
    requires n > 0 && GraphOk(n, adj, outdeg)
    ensures L1(Next(n, adj, r), Next(n, adj, s), n) <= DAMPING * L1(r, s, n)
  {
    var bound := MovedVec(n, adj, Gap(r, s));
    forall j | 0 <= j < n ensures Gap(Next(n, adj, r), Next(n, adj, s))(j) <= bound(j) {
      MovedGap(n, adj, r, s, j);
    }
    SumAtMost(Gap(Next(n, adj, r), Next(n, adj, s)), bound, n);
    MovedTotal(n, adj, outdeg, Gap(r, s));
  }

  lemma {:induction false} L1Triangle(r: int -> real, s: int -> real, t: int -> real, n: nat)
    ensures L1(r, t, n) <= L1(r, s, n) + L1(s, t, n)
  {
    if n > 0 {
      L1Triangle(r, s, t, n - 1);
      var x, y, z := r(n - 1), s(n - 1), t(n - 1);
      assert Abs(x - z) <= Abs(x - y) + Abs(y - z);
    }
  }

  lemma L1SameRight(r: int -> real, s: int -> real, t: int -> real, n: nat)
    requires forall j :: 0 <= j < n ==> s(j) == t(j)
    ensures L1(r, s, n) == L1(r, t, n)
  {
    forall j | 0 <= j < n ensures Gap(r, s)(j) == Gap(r, t)(j) {
      assert s(j) == t(j);
    }
    SumSame(Gap(r, s), Gap(r, t), n);
  }

  lemma L1Symmetric(r: int -> real, s: int -> real, n: nat)
    ensures L1(r, s, n) == L1(s, r, n)
  {
    forall j | 0 <= j < n ensures Gap(r, s)(j) == Gap(s, r)(j) {
      assert Gap(r, s)(j) == Abs(r(j) - s(j));
    }
    SumSame(Gap(r, s), Gap(s, r), n);
  }

  /** Two distributions are at most two apart. */
  lemma {:induction false} L1AtMostTotals(r: int -> real, s: int -> real, n: nat)
    requires forall j :: 0 <= j < n ==> r(j) >= 0.0 && s(j) >= 0.0
    ensures L1(r, s, n) <= Sum(r, n) + Sum(s, n)
  {
    if n > 0 { L1AtMostTotals(r, s, n - 1); }
  }

  /** A stationary distribution is near any vector a step hardly changes. */
  lemma StationaryIsNear(n: nat, adj: Adjacency, outdeg: seq<nat>, r: int -> real, p: int -> real)
    requires n > 0 && GraphOk(n, adj, outdeg)
    requires forall j :: 0 <= j < n ==> Next(n, adj, p)(j) == p(j)
    ensures (1.0 - DAMPING) * L1(Next(n, adj, r), p, n) <= DAMPING * L1(Next(n, adj, r), r, n)
  {
    hide Next, L1;
    var q := Next(n, adj, r);
    StepContracts(n, adj, outdeg, r, p);
    L1SameRight(q, Next(n, adj, p), p, n);
    L1Triangle(r, q, p, n);
    L1Symmetric(r, q, n);
  }

  // ---------------------------------------------------------------- the methods

  /** The entries of a vector, read as a function of the index. */
  ghost function Vec(v: seq<real>): int -> real {
    j => if 0 <= j < |v| then v[j] else 0.0
  }

  lemma VecEntries(v: seq<real>)
    ensures forall j :: 0 <= j < |v| ==> Vec(v)(j) == v[j]
  {
  }

  /** The first loop of PageStep: the rank held by nodes without out-edges. */
  method DanglingMass(n: nat, adj: Adjacency, outdeg: seq<nat>, rank: array<real>) returns (dangling: real)
    requires GraphOk(n, adj, outdeg) && rank.Length == n
    ensures dangling == Dangling(adj, Vec(rank[..]), n)
  {
    ghost var r := Vec(rank[..]);
    dangling := 0.0;
    var i := 0;
    while i < n
      invariant 0 <= i <= n
      invariant dangling == Dangling(adj, r, i)
    {
      if outdeg[i] == 0 {
        dangling := dangling + rank[i];
      }
      i := i + 1;
    }
  }

  lemma NothingIn(adj: Adjacency, r: int -> real)
    ensures forall j :: Incoming(adj, r, 0, j) == 0.0
  {}

  lemma IncomingStep(adj: Adjacency, r: int -> real, i: nat)
    ensures forall j :: Incoming(adj, r, i + 1, j)
                     == Incoming(adj, r, i, j) + Received(Out(adj, i), |Out(adj, i)|, Share(adj, r, i), j)
  {}

  lemma NothingYet(outs: seq<nat>, share: real)
    ensures forall j :: Received(outs, 0, share, j) == 0.0
  {}

  lemma ReceivedStep(outs: seq<nat>, k: nat, share: real)
    requires k < |outs|
    ensures forall j :: Received(outs, k + 1, share, j)
                     == Received(outs, k, share, j) + if outs[k] == j then share else 0.0
  {}

  lemma ShareOf(n: nat, adj: Adjacency, outdeg: seq<nat>, r: int -> real, i: nat)
    requires GraphOk(n, adj, outdeg) && i < n && Out(adj, i) != []
    ensures outdeg[i] > 0 && Share(adj, r, i) == DAMPING * r(i) / outdeg[i] as real
  {}

  /** Every entry of v' is 0.15 spread evenly, 0.85 of the rank of nodes without
      out-edges spread evenly, and 0.85 of every other node's rank along its edges. */
  ghost predicate IsStep(n: nat, adj: Adjacency, v: seq<real>, v': seq<real>)
    requires n > 0
  {
    && |v'| == n
    && forall j: nat :: j < n ==>
        v'[j] == 0.15 / n as real + 0.85 * Sum(Teleported(adj, Vec(v)), n) / n as real + Sum(Given(adj, Vec(v), j), n)
  }

  lemma IsOneStep(n: nat, adj: Adjacency, v: seq<real>, v': seq<real>)
    requires n > 0 && |v'| == n && forall j :: 0 <= j < n ==> v'[j] == NewRank(n, adj, Vec(v), j)
    ensures IsStep(n, adj, v, v')
  {
    hide NewRank, Given, Teleported;
    forall j: nat | j < n
      ensures v'[j] == 0.15 / n as real + 0.85 * Sum(Teleported(adj, Vec(v)), n) / n as real
                       + Sum(Given(adj, Vec(v), j), n)
    {
      StepEquation(n, adj, Vec(v), j);
    }
  }

  method PageStep(n: nat, adj: Adjacency, outdeg: seq<nat>, rank: array<real>) returns (newRank: array<real>)
    requires n > 0 && GraphOk(n, adj, outdeg) && rank.Length == n
    ensures fresh(newRank) && newRank.Length == n
    ensures forall j :: 0 <= j < n ==> newRank[j] == NewRank(n, adj, Vec(rank[..]), j)
    ensures IsStep(n, adj, rank[..], newRank[..])
  {
    hide Dangling, Vec, Incoming, Received, Share;
    ghost var r := Vec(rank[..]);
    VecEntries(rank[..]);
    NothingIn(adj, r);
    var dangling := DanglingMass(n, adj, outdeg, rank);
    var base := (1.0 - DAMPING) / n as real + DAMPING * dangling / n as real;
    newRank := new real[n](_ => base);
    var i := 0;
    while i < n
      invariant 0 <= i <= n
      invariant rank[..] == old(rank[..])
      invariant forall j :: 0 <= j < n ==> newRank[j] == base + Incoming(adj, r, i, j)
    {
      var outs := Out(adj, i);
      NothingYet(outs, Share(adj, r, i));
      IncomingStep(adj, r, i);
      var k := 0;
      while k < |outs|
        invariant 0 <= k <= |outs|
        invariant rank[..] == old(rank[..])
        invariant forall j :: 0 <= j < n ==>
                    newRank[j] == base + Incoming(adj, r, i, j) + Received(outs, k, Share(adj, r, i), j)
      {
        var to := outs[k];
        ReceivedStep(outs, k, Share(adj, r, i));
        ShareOf(n, adj, outdeg, r, i);
        newRank[to] := newRank[to] + DAMPING * rank[i] / outdeg[i] as real;
        k := k + 1;
      }
      i := i + 1;
    }
    IsOneStep(n, adj, rank[..], newRank[..]);
  }

  /** residual is the greatest entrywise distance of a and b. */
  ghost predicate IsResidual(a: seq<real>, b: seq<real>, residual: real)
    requires |a| == |b|
  {
    && residual >= 0.0
    && (forall i :: 0 <= i < |a| ==> Abs(a[i] - b[i]) <= residual)
    && (residual > 0.0 ==> exists i :: 0 <= i < |a| && Abs(a[i] - b[i]) == residual)
  }

  method RankResidual(a: array<real>, b: array<real>) returns (residual: real)
    requires a.Length == b.Length
    ensures IsResidual(a[..], b[..], residual)
  {
    residual := 0.0;
    var i := 0;
    while i < a.Length
      invariant 0 <= i <= a.Length
      invariant residual >= 0.0
      invariant forall k :: 0 <= k < i ==> Abs(a[k] - b[k]) <= residual
      invariant residual > 0.0 ==> exists k :: 0 <= k < i && Abs(a[k] - b[k]) == residual
    {
      var delta := a[i] - b[i];
      if delta < 0.0 {
        delta := -delta;
      }
      if delta > residual {
        residual := delta;
        assert Abs(a[i] - b[i]) == residual;
      }
      i := i + 1;
    }
    assert forall k :: 0 <= k < a.Length ==> a[..][k] == a[k] && b[..][k] == b[k];
  }

  /** The vector after k steps from the uniform one. */
  ghost function Iterate(n: nat, adj: Adjacency, k: nat): int -> real
    requires n > 0
  {
    if k == 0 then Const(1.0 / n as real) else Next(n, adj, Iterate(n, adj, k - 1))
  }

  lemma {:induction false} IterateDistribution(n: nat, adj: Adjacency, outdeg: seq<nat>, k: nat)
    requires n > 0 && GraphOk(n, adj, outdeg)
    ensures Distribution(Iterate(n, adj, k), n)
  {
    if k == 0 {
      SumConst(1.0 / n as real, n);
    } else {
      IterateDistribution(n, adj, outdeg, k - 1);
      StepKeepsDistribution(n, adj, outdeg, Iterate(n, adj, k - 1));
    }
  }

  ghost function Pow(x: real, k: nat): real {
    if k == 0 then 1.0 else x * Pow(x, k - 1)
  }

  lemma {:induction false} PowAdd(x: real, a: nat, b: nat)
    ensures Pow(x, a + b) == Pow(x, a) * Pow(x, b)
  {
    if a > 0 {
      PowAdd(x, a - 1, b);
    }
  }

  lemma {:induction false} StepsShrink(n: nat, adj: Adjacency, outdeg: seq<nat>, k: nat)
    requires n > 0 && GraphOk(n, adj, outdeg)
    ensures L1(Iterate(n, adj, k + 1), Iterate(n, adj, k), n) <= 2.0 * Pow(DAMPING, k)
  {
    if k == 0 {
      IterateDistribution(n, adj, outdeg, 0);
      IterateDistribution(n, adj, outdeg, 1);
      L1AtMostTotals(Iterate(n, adj, 1), Iterate(n, adj, 0), n);
    } else {
      StepsShrink(n, adj, outdeg, k - 1);
      StepContracts(n, adj, outdeg, Iterate(n, adj, k), Iterate(n, adj, k - 1));
    }
  }

  lemma Power90()
    ensures 2.0 * Pow(DAMPING, 90) < EPSILON
  {
    var x := DAMPING;
    assert Pow(x, 1) == x;
    assert Pow(x, 2) == x * x;
    PowAdd(x, 2, 2);
    PowAdd(x, 4, 1);
    PowAdd(x, 5, 5);
    var t := Pow(x, 10);
    assert 0.0 < t < 0.197;
    PowAdd(x, 10, 10);
    PowAdd(x, 20, 10);
    assert 0.0 < t * t < 0.0389;
    var u := Pow(x, 30);
    assert 0.0 < u < 0.00767;
    PowAdd(x, 30, 30);
    PowAdd(x, 60, 30);
    assert 0.0 < u * u < 0.0000589;
    assert u * u * u < 0.000000452;
  }

  ghost predicate Agree(r: int -> real, s: int -> real, n: nat) {
    forall j :: 0 <= j < n ==> r(j) == s(j)
  }

  /** A step only looks at the entries of the vector. */
  lemma NextAgrees(n: nat, adj: Adjacency, outdeg: seq<nat>, r: int -> real, s: int -> real)
    requires n > 0 && GraphOk(n, adj, outdeg) && Agree(r, s, n)
    ensures Agree(Next(n, adj, r), Next(n, adj, s), n)
  {
    SumConst(0.0, n);
    SumSame(Gap(r, s), Const(0.0), n);
    StepContracts(n, adj, outdeg, r, s);
    forall j | 0 <= j < n ensures Next(n, adj, r)(j) == Next(n, adj, s)(j) {
      EntryGapAtMostL1(Next(n, adj, r), Next(n, adj, s), n, j);
    }
  }

  lemma EntryGapAtMostL1(r: int -> real, s: int -> real, n: nat, j: nat)
    requires j < n
    ensures Abs(r(j) - s(j)) <= L1(r, s, n)
  {
    forall i | 0 <= i < n ensures Gap(r, s)(i) >= 0.0 {
      assert Gap(r, s)(i) == Abs(r(i) - s(i));
    }
    TermAtMostSum(Gap(r, s), n, j);
  }

  /** The residual test: no entry differs by epsilon or more. */
  ghost predicate Close(r: int -> real, s: int -> real, n: nat) {
    forall j :: 0 <= j < n ==> Abs(r(j) - s(j)) < EPSILON
  }

  lemma SmallL1IsClose(r: int -> real, s: int -> real, n: nat)
    requires L1(r, s, n) < EPSILON
    ensures Close(r, s, n)
  {
    forall j | 0 <= j < n ensures Abs(r(j) - s(j)) < EPSILON {
      EntryGapAtMostL1(r, s, n, j);
    }
  }

  /** The residual test passes at step k. */
  ghost predicate Settled(n: nat, adj: Adjacency, k: nat)
    requires n > 0
  {
    Close(Iterate(n, adj, k + 1), Iterate(n, adj, k), n)
  }

  /** v holds the vector after k steps. */
  ghost predicate IsIterate(n: nat, adj: Adjacency, k: nat, v: seq<real>)
    requires n > 0
  {
    |v| == n && Agree(Vec(v), Iterate(n, adj, k), n)
  }

  lemma StepIterates(n: nat, adj: Adjacency, outdeg: seq<nat>, k: nat, v: seq<real>, v': seq<real>)
    requires n > 0 && GraphOk(n, adj, outdeg) && IsIterate(n, adj, k, v)
    requires |v'| == n && forall j :: 0 <= j < n ==> v'[j] == NewRank(n, adj, Vec(v), j)
    ensures IsIterate(n, adj, k + 1, v')
  {
    NextAgrees(n, adj, outdeg, Vec(v), Iterate(n, adj, k));
    forall j | 0 <= j < n ensures Vec(v')(j) == Iterate(n, adj, k + 1)(j) {
      assert Vec(v')(j) == Next(n, adj, Vec(v))(j);
    }
  }

  lemma ResidualTest(n: nat, adj: Adjacency, k: nat, a: seq<real>, b: seq<real>, residual: real)
    requires n > 0 && |a| == |b| == n && IsResidual(a, b, residual)
    requires IsIterate(n, adj, k + 1, a) && IsIterate(n, adj, k, b)
    ensures residual < EPSILON <==> Settled(n, adj, k)
  {
    if residual >= EPSILON {
      var i :| 0 <= i < n && Abs(a[i] - b[i]) == residual;
      assert Abs(Vec(a)(i) - Vec(b)(i)) == residual;
    }
  }

  lemma SettledBy90(n: nat, adj: Adjacency, outdeg: seq<nat>)
    requires n > 0 && GraphOk(n, adj, outdeg)
    ensures Settled(n, adj, 90)
  {
    StepsShrink(n, adj, outdeg, 90);
    Power90();
    SmallL1IsClose(Iterate(n, adj, 91), Iterate(n, adj, 90), n);
  }

  lemma IterateEntries(n: nat, adj: Adjacency, outdeg: seq<nat>, k: nat, v: seq<real>)
    requires n > 0 && GraphOk(n, adj, outdeg) && k > 0
    requires IsIterate(n, adj, k, v)
    ensures Distribution(Vec(v), n)
    ensures forall j :: 0 <= j < n ==> v[j] >= (1.0 - DAMPING) / n as real
  {
    var it := Iterate(n, adj, k);
    IterateDistribution(n, adj, outdeg, k - 1);
    StepKeepsDistribution(n, adj, outdeg, Iterate(n, adj, k - 1));
    SumSame(Vec(v), it, n);
    forall j | 0 <= j < n ensures v[j] >= (1.0 - DAMPING) / n as real && Vec(v)(j) >= 0.0 {
      assert v[j] == Vec(v)(j) == it(j);
    }
  }

  /** The vector found solves the equation, entry by entry, up to 0.00000085 for each
      node. */
  lemma ResultSolvesEquation(n: nat, adj: Adjacency, outdeg: seq<nat>, steps: nat, v: seq<real>, j: nat)
    requires n > 0 && GraphOk(n, adj, outdeg) && IsIterate(n, adj, steps + 1, v) && Settled(n, adj, steps) && j < n
    ensures var wanted := 0.15 / n as real + 0.85 * Sum(Teleported(adj, Vec(v)), n) / n as real
                          + Sum(Given(adj, Vec(v), j), n);
            Abs(wanted - v[j]) <= 0.00000085 * n as real
  {
    var r, s := Iterate(n, adj, steps + 1), Iterate(n, adj, steps);
    hide Next, Iterate, Vec, Given, Teleported, L1;
    VecEntries(v);
    StepContracts(n, adj, outdeg, r, s);
    SettledL1(n, adj, steps);
    NextIterate(n, adj, steps);
    EntryGapAtMostL1(Next(n, adj, r), r, n, j);
    NextAgrees(n, adj, outdeg, Vec(v), r);
    StepEquation(n, adj, Vec(v), j);
  }

  lemma NextIterate(n: nat, adj: Adjacency, k: nat)
    requires n > 0
    ensures Iterate(n, adj, k + 1) == Next(n, adj, Iterate(n, adj, k))
  {}

  lemma SettledL1(n: nat, adj: Adjacency, k: nat)
    requires n > 0 && Settled(n, adj, k)
    ensures L1(Iterate(n, adj, k + 1), Iterate(n, adj, k), n) <= 0.000001 * n as real
  {
    var r, s := Iterate(n, adj, k + 1), Iterate(n, adj, k);
    hide Iterate;
    SumAtMost(Gap(r, s), Const(0.000001), n);
    SumConst(0.000001, n);
  }

  /** A node that some edge leads to ranks above one that none does. */
  lemma PointedAtRanksAbove(n: nat, adj: Adjacency, outdeg: seq<nat>, k: nat, v: seq<real>, i: nat, j: nat)
    requires n > 0 && GraphOk(n, adj, outdeg) && IsIterate(n, adj, k + 1, v) && i < n && j < n
    requires PointedAt(n, adj, j) && !PointedAt(n, adj, i)
    ensures v[i] < v[j]
  {
    IteratePositive(n, adj, outdeg, k);
    NextIterate(n, adj, k);
    PointedAtIsAbove(n, adj, Iterate(n, adj, k), j, i);
    assert v[i] == Vec(v)(i) && v[j] == Vec(v)(j);
  }

  lemma IteratePositive(n: nat, adj: Adjacency, outdeg: seq<nat>, k: nat)
    requires n > 0 && GraphOk(n, adj, outdeg)
    ensures forall j :: 0 <= j < n ==> Iterate(n, adj, k)(j) > 0.0
  {
    if k > 0 {
      hide Next, Distribution;
      IterateDistribution(n, adj, outdeg, k - 1);
      StepKeepsDistribution(n, adj, outdeg, Iterate(n, adj, k - 1));
    }
  }

  /** With the one edge 0 -> 1, 1 ranks above 0. */
  lemma OneEdge(k: nat, v: seq<real>)
    requires IsIterate(2, map[0 := [1]], k + 1, v)
    ensures v[0] < v[1]
  {
    var adj: Adjacency := map[0 := [1]];
    assert Out(adj, 0) == [1] && [1][0] == 1 && 1 in Out(adj, 0) && Out(adj, 1) == [];
    PointedAtRanksAbove(2, adj, [1, 0], k, v, 0, 1);
  }

  lemma UniformIsFirst(n: nat, adj: Adjacency, v: seq<real>)
    requires n > 0 && |v| == n && forall j :: 0 <= j < n ==> v[j] == 1.0 / n as real
    ensures IsIterate(n, adj, 0, v)
  {}

  /** The loop always leaves by the residual test, at the first step that
      passes it, and well before the iteration cap. */
  method Pagerank(n: nat, adj: Adjacency, outdeg: seq<nat>) returns (rank: array<real>, ghost steps: nat)
    requires n > 0 && GraphOk(n, adj, outdeg)
    ensures rank.Length == n && steps <= 90 < MAX_ITER == 100
    ensures IsIterate(n, adj, steps + 1, rank[..])
    ensures Settled(n, adj, steps) && forall k :: 0 <= k < steps ==> !Settled(n, adj, k)
    ensures Distribution(Vec(rank[..]), n)
    ensures forall j :: 0 <= j < n ==> rank[j] >= 0.15 / n as real
    ensures forall i, j :: 0 <= i < n && 0 <= j < n && PointedAt(n, adj, j) && !PointedAt(n, adj, i) ==>
              rank[i] < rank[j]
  {
    hide Settled, Distribution, GraphOk, IsStep, IsIterate, IsResidual, PointedAt;
    var initVal := 1.0 / n as real;
    rank := new real[n](_ => initVal);
    steps := 0;
    var iter := 0;
    SettledBy90(n, adj, outdeg);
    UniformIsFirst(n, adj, rank[..]);
    while iter < MAX_ITER
      invariant iter == steps <= 90
      invariant rank.Length == n && IsIterate(n, adj, iter, rank[..])
      invariant forall k :: 0 <= k < iter ==> !Settled(n, adj, k)
    {
      var newRank := PageStep(n, adj, outdeg, rank);
      StepIterates(n, adj, outdeg, iter, rank[..], newRank[..]);
      var residual := RankResidual(newRank, rank);
      ResidualTest(n, adj, iter, newRank[..], rank[..], residual);
      if residual < EPSILON {
        rank := newRank;
        break;
      }
      rank := newRank;
      iter, steps := iter + 1, steps + 1;
    }
    IterateEntries(n, adj, outdeg, steps + 1, rank[..]);
    forall i, j | 0 <= i < n && 0 <= j < n && PointedAt(n, adj, j) && !PointedAt(n, adj, i)
      ensures rank[i] < rank[j]
    {
      PointedAtRanksAbove(n, adj, outdeg, steps, rank[..], i, j);
    }
  }
}
