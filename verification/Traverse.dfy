/** Level-by-level traversal of the edge table (query/query.go): one batched
    query per depth, duplicates kept out by a visited set. */
module Traverse {
  import opened Sequences
  import opened QualifiedNames

  datatype Edge = Edge(fromRef: string, toRef: string, edgeType: string, posFile: string, posLine: int, repo: string)

  /** The edge table and the name normalisation that lookups apply. */
  datatype Store = Store(rows: seq<Edge>, normalize: string -> string)

  /** Which rows count: their direction and their allowed types. */
  datatype Scope = Scope(outgoing: bool, types: seq<string>)

  const EDGES_IN_BATCH_SIZE: nat := 500

  function Near(e: Edge, scope: Scope): string {
    if scope.outgoing then e.fromRef else e.toRef
  }

  function Far(e: Edge, scope: Scope): string {
    if scope.outgoing then e.toRef else e.fromRef
  }

  predicate EdgeTypeAllowed(edgeType: string, allowed: seq<string>) {
    allowed == [] || edgeType in allowed
  }

  /** Every row names both its ends in the stored form. */
  ghost predicate RowsStored(store: Store) {
    forall e :: e in store.rows ==>
      store.normalize(e.fromRef) == e.fromRef && store.normalize(e.toRef) == e.toRef
  }

  // ------------------------------------------------------------------- selections

  /** The rows of allowed type whose near end is one of names, in table order. */
  function Select(rows: seq<Edge>, scope: Scope, names: set<string>): seq<Edge> {
    if rows == [] then []
    else
      var n := |rows| - 1;
      if Near(rows[n], scope) in names && EdgeTypeAllowed(rows[n].edgeType, scope.types)
      then Select(rows[..n], scope, names) + [rows[n]]
      else Select(rows[..n], scope, names)
  }

  lemma {:induction false} SelectMembers(rows: seq<Edge>, scope: Scope, names: set<string>, e: Edge)
    ensures e in Select(rows, scope, names)
       <==> e in rows && Near(e, scope) in names && EdgeTypeAllowed(e.edgeType, scope.types)
  {
    if rows != [] {
      var n := |rows| - 1;
      SelectMembers(rows[..n], scope, names, e);
      assert rows == rows[..n] + [rows[n]];
    }
  }

  lemma {:induction false} SelectNone(rows: seq<Edge>, scope: Scope)
    ensures Select(rows, scope, {}) == []
  {
    if rows != [] { SelectNone(rows[..|rows| - 1], scope); }
  }

  /** Selections for disjoint sets of names add up. */
  lemma {:induction false} SelectUnion(rows: seq<Edge>, scope: Scope, a: set<string>, b: set<string>)
    requires a !! b
    ensures multiset(Select(rows, scope, a + b)) == multiset(Select(rows, scope, a)) + multiset(Select(rows, scope, b))
  {
    if rows != [] { SelectUnion(rows[..|rows| - 1], scope, a, b); }
  }

  /** No row is selected more often than it is stored. */
  lemma {:induction false} SelectWithinRows(rows: seq<Edge>, scope: Scope, names: set<string>)
    ensures multiset(Select(rows, scope, names)) <= multiset(rows)
  {
    if rows != [] {
      SelectWithinRows(rows[..|rows| - 1], scope, names);
      assert rows == rows[..|rows| - 1] + [rows[|rows| - 1]];
    }
  }

  /** A selected row occurs as often as it is stored. */
  lemma {:induction false} SelectCount(rows: seq<Edge>, scope: Scope, names: set<string>, e: Edge)
    requires Near(e, scope) in names && EdgeTypeAllowed(e.edgeType, scope.types)
    ensures multiset(Select(rows, scope, names))[e] == multiset(rows)[e]
  {
    hide Near, EdgeTypeAllowed;
    if rows != [] {
      var n := |rows| - 1;
      var before := Select(rows[..n], scope, names);
      SelectCount(rows[..n], scope, names, e);
      assert rows == rows[..n] + [rows[n]];
      assert multiset(rows) == multiset(rows[..n]) + multiset{rows[n]};
      assert multiset(before + [rows[n]]) == multiset(before) + multiset{rows[n]};
    }
  }

  // ------------------------------------------------------------- the batched query

  function Names(refs: seq<string>, normalize: string -> string): set<string> {
    set i | 0 <= i < |refs| :: normalize(refs[i])
  }

  ghost predicate DistinctNames(refs: seq<string>, normalize: string -> string) {
    forall i, j :: 0 <= i < j < |refs| ==> normalize(refs[i]) != normalize(refs[j])
  }

  lemma NamesSplit(refs: seq<string>, normalize: string -> string, k: nat)
    requires k <= |refs|
    ensures Names(refs, normalize) == Names(refs[..k], normalize) + Names(refs[k..], normalize)
    ensures DistinctNames(refs, normalize) ==> Names(refs[..k], normalize) !! Names(refs[k..], normalize)
  {
    forall x ensures x in Names(refs, normalize) <==> x in Names(refs[..k], normalize) + Names(refs[k..], normalize) {
      if x in Names(refs, normalize) {
        var i :| 0 <= i < |refs| && normalize(refs[i]) == x;
        if i < k {
          assert refs[..k][i] == refs[i];
        } else {
          assert refs[k..][i - k] == refs[i];
        }
      }
      if x in Names(refs[..k], normalize) {
        var i :| 0 <= i < k && normalize(refs[..k][i]) == x;
        assert refs[..k][i] == refs[i];
      }
      if x in Names(refs[k..], normalize) {
        var i :| 0 <= i < |refs| - k && normalize(refs[k..][i]) == x;
        assert refs[k..][i] == refs[k + i];
      }
    }
  }

  function Min(a: nat, b: nat): nat {
    if a < b then a else b
  }

  /** The rows that batches of 500 refs give, one batch after the other. */
  ghost function BatchRows(store: Store, scope: Scope, refs: seq<string>): multiset<Edge>
    decreases |refs|
  {
    if refs == [] then multiset{}
    else
      var k := Min(EDGES_IN_BATCH_SIZE, |refs|);
      multiset(Select(store.rows, scope, Names(refs[..k], store.normalize))) + BatchRows(store, scope, refs[k..])
  }

  /** Refs with different names get each of their rows once, whatever the batches. */
  lemma {:induction false} BatchesAddUp(store: Store, scope: Scope, refs: seq<string>)
    requires DistinctNames(refs, store.normalize)
    ensures BatchRows(store, scope, refs) == multiset(Select(store.rows, scope, Names(refs, store.normalize)))
    decreases |refs|
  {
    hide Select, Names;
    if refs == [] {
      NoNames(store, scope, refs);
      assert refs[..0] == refs;
    } else {
      var k := Min(EDGES_IN_BATCH_SIZE, |refs|);
      NamesSplit(refs, store.normalize, k);
      BatchesAddUp(store, scope, refs[k..]);
      SelectUnion(store.rows, scope, Names(refs[..k], store.normalize), Names(refs[k..], store.normalize));
    }
  }

  /** Refs that all stand for one name give each of its rows once for every 500 of them
      begun. */
  lemma {:induction false} RepeatedNames(store: Store, scope: Scope, refs: seq<string>, e: Edge)
    requires forall i :: 0 <= i < |refs| ==> store.normalize(refs[i]) == Near(e, scope)
    requires EdgeTypeAllowed(e.edgeType, scope.types)
    ensures BatchRows(store, scope, refs)[e] == (|refs| + 499) / 500 * multiset(store.rows)[e]
    decreases |refs|
  {
    hide Select, Names, Near, EdgeTypeAllowed;
    var c := multiset(store.rows)[e];
    if refs != [] {
      var k := Min(EDGES_IN_BATCH_SIZE, |refs|);
      RepeatedNames(store, scope, refs[k..], e);
      NamesOfOne(store, refs[..k], Near(e, scope));
      SelectCount(store.rows, scope, Names(refs[..k], store.normalize), e);
      BatchesBegun(|refs|, c);
    }
  }

  lemma NamesOfOne(store: Store, refs: seq<string>, x: string)
    requires refs != [] && forall i :: 0 <= i < |refs| ==> store.normalize(refs[i]) == x
    ensures x in Names(refs, store.normalize)
  {
    assert store.normalize(refs[0]) == x;
  }

  lemma BatchesBegun(n: nat, c: nat)
    requires n > 0
    ensures (n + 499) / 500 * c == c + ((if n < 500 then 0 else n - 500) + 499) / 500 * c
  {
    var q := ((if n < 500 then 0 else n - 500) + 499) / 500;
    assert (n + 499) / 500 == q + 1;
    assert (q + 1) * c == q * c + c;
  }

  /** The rows for all refs, asked for in batches. */
  method EdgesForNodes(store: Store, refs: seq<string>, scope: Scope) returns (out: seq<Edge>)
    ensures multiset(out) == BatchRows(store, scope, refs)
  {
    hide Select, Names;
    out := [];
    var start := 0;
    assert refs[0..] == refs;
    while start < |refs|
      invariant 0 <= start <= |refs|
      invariant multiset(out) + BatchRows(store, scope, refs[start..]) == BatchRows(store, scope, refs)
    {
      var end := Min(start + EDGES_IN_BATCH_SIZE, |refs|);
      var batch := refs[start..end];
      var batchEdges := Select(store.rows, scope, Names(batch, store.normalize));
      assert refs[start..][..end - start] == batch && refs[start..][end - start..] == refs[end..];
      out := out + batchEdges;
      start := end;
    }
  }

  lemma NoNames(store: Store, scope: Scope, refs: seq<string>)
    ensures Select(store.rows, scope, Names(refs[..0], store.normalize)) == []
  {
    assert Names(refs[..0], store.normalize) == {};
    SelectNone(store.rows, scope);
  }

  // ------------------------------------------------------------------ the distance

  /** The names met within n steps of start. Only start is looked up under a name
      that may differ from its own. */
  ghost function Ball(store: Store, scope: Scope, start: string, n: int): set<string>
    decreases if n < 0 then 0 else n + 1
  {
    if n < 0 then {}
    else if n == 0 then {start}
    else Ball(store, scope, start, n - 1) + FarEnds(store, scope, Ball(store, scope, start, n - 1))
  }

  ghost predicate LooksUp(store: Store, names: set<string>, near: string) {
    exists u :: u in names && store.normalize(u) == near
  }

  ghost function FarEnds(store: Store, scope: Scope, names: set<string>): set<string> {
    set e | e in store.rows && LooksUp(store, names, Near(e, scope)) && EdgeTypeAllowed(e.edgeType, scope.types)
      :: Far(e, scope)
  }

  lemma {:induction false} BallGrows(store: Store, scope: Scope, start: string, m: int, n: int)
    requires m <= n
    ensures Ball(store, scope, start, m) <= Ball(store, scope, start, n)
    decreases n - m
  {
    if m < n { BallGrows(store, scope, start, m, n - 1); }
  }

  /** Once a step adds nothing, no later step does. */
  lemma {:induction false} BallStops(store: Store, scope: Scope, start: string, m: int, n: int)
    requires 1 <= m <= n && Ball(store, scope, start, m) == Ball(store, scope, start, m - 1)
    ensures Ball(store, scope, start, n) == Ball(store, scope, start, m)
    decreases n - m
  {
    hide FarEnds;
    if m < n { BallStops(store, scope, start, m, n - 1); }
  }

  /** e is an allowed row out of the name at. */
  ghost predicate StepFrom(store: Store, scope: Scope, at: string, e: Edge) {
    e in store.rows && EdgeTypeAllowed(e.edgeType, scope.types) && Near(e, scope) == store.normalize(at)
  }

  /** Where a walk is after its first i rows. */
  function At(scope: Scope, start: string, es: seq<Edge>, i: nat): string
    requires i <= |es|
  {
    if i == 0 then start else Far(es[i - 1], scope)
  }

  /** A walk of allowed rows from start to v. */
  ghost predicate Walk(store: Store, scope: Scope, start: string, es: seq<Edge>, v: string) {
    && (forall i :: 0 <= i < |es| ==> StepFrom(store, scope, At(scope, start, es, i), es[i]))
    && At(scope, start, es, |es|) == v
  }

  lemma WalkThen(store: Store, scope: Scope, start: string, es: seq<Edge>, u: string, e: Edge)
    requires Walk(store, scope, start, es, u) && StepFrom(store, scope, u, e)
    ensures Walk(store, scope, start, es + [e], Far(e, scope))
  {
    hide StepFrom, Far;
    var longer := es + [e];
    forall i | 0 <= i < |longer| ensures StepFrom(store, scope, At(scope, start, longer, i), longer[i]) {
      if i < |es| {
        assert At(scope, start, longer, i) == At(scope, start, es, i);
      }
    }
  }

  lemma FarEndsMembers(store: Store, scope: Scope, names: set<string>, v: string)
    ensures v in FarEnds(store, scope, names)
       <==> exists u, e :: u in names && StepFrom(store, scope, u, e) && Far(e, scope) == v
  {
    if v in FarEnds(store, scope, names) {
      var e :| e in store.rows && LooksUp(store, names, Near(e, scope))
               && EdgeTypeAllowed(e.edgeType, scope.types) && Far(e, scope) == v;
      var u :| u in names && store.normalize(u) == Near(e, scope);
      assert StepFrom(store, scope, u, e);
    }
    if exists u, e :: u in names && StepFrom(store, scope, u, e) && Far(e, scope) == v {
      var u, e :| u in names && StepFrom(store, scope, u, e) && Far(e, scope) == v;
      assert LooksUp(store, names, Near(e, scope));
    }
  }

  /** The ball of radius n is what walks of at most n rows reach. */
  lemma BallIsWalks(store: Store, scope: Scope, start: string, n: nat, v: string)
    ensures v in Ball(store, scope, start, n) <==> exists es :: |es| <= n && Walk(store, scope, start, es, v)
  {
    hide Walk;
    if exists es :: |es| <= n && Walk(store, scope, start, es, v) {
      var es :| |es| <= n && Walk(store, scope, start, es, v);
      WalkInBall(store, scope, start, n, es, v);
    }
    if v in Ball(store, scope, start, n) {
      var es := WalkTo(store, scope, start, n, v);
    }
  }

  lemma {:induction false} WalkInBall(store: Store, scope: Scope, start: string, n: nat, es: seq<Edge>, v: string)
    requires |es| <= n && Walk(store, scope, start, es, v)
    ensures v in Ball(store, scope, start, n)
  {
    hide StepFrom, FarEnds;
    if es == [] {
      BallGrows(store, scope, start, 0, n);
    } else {
      var k := |es| - 1;
      var u := At(scope, start, es, k);
      WalkInBall(store, scope, start, n - 1, es[..k], u);
      FarEndsMembers(store, scope, Ball(store, scope, start, n - 1), v);
    }
  }

  lemma {:induction false} WalkTo(store: Store, scope: Scope, start: string, n: nat, v: string) returns (es: seq<Edge>)
    requires v in Ball(store, scope, start, n)
    ensures |es| <= n && Walk(store, scope, start, es, v)
  {
    hide StepFrom, FarEnds, Walk;
    if n == 0 {
      es := [];
      EmptyWalk(store, scope, start);
    } else if v in Ball(store, scope, start, n - 1) {
      es := WalkTo(store, scope, start, n - 1, v);
    } else {
      FarEndsMembers(store, scope, Ball(store, scope, start, n - 1), v);
      var u, e :| u in Ball(store, scope, start, n - 1) && StepFrom(store, scope, u, e) && Far(e, scope) == v;
      var before := WalkTo(store, scope, start, n - 1, u);
      WalkThen(store, scope, start, before, u, e);
      es := before + [e];
    }
  }

  lemma EmptyWalk(store: Store, scope: Scope, start: string)
    ensures Walk(store, scope, start, [], start)
  {
  }

  // ----------------------------------------------------------------- the traversal

  /** The unvisited nodes of queue, each once; all of queue becomes visited. */
  method FrontierNodes(queue: seq<string>, visited: set<string>) returns (frontier: seq<string>, visited': set<string>)
    ensures Distinct(frontier)
    ensures forall x :: x in frontier <==> x in queue && x !in visited
    ensures forall x :: x in visited' <==> x in visited || x in queue
  {
    frontier, visited' := [], visited;
    var i := 0;
    while i < |queue|
      invariant 0 <= i <= |queue|
      invariant Distinct(frontier)
      invariant forall x :: x in frontier <==> x in queue[..i] && x !in visited
      invariant forall x :: x in visited' <==> x in visited || x in queue[..i]
    {
      assert queue[..i + 1] == queue[..i] + [queue[i]];
      if queue[i] !in visited' {
        visited' := visited' + {queue[i]};
        frontier := frontier + [queue[i]];
      }
      i := i + 1;
    }
    assert queue[..i] == queue;
  }

  /** The edges of allowed types. */
  function Allowed(edges: seq<Edge>, types: seq<string>): (r: seq<Edge>)
    ensures forall e :: e in r <==> e in edges && EdgeTypeAllowed(e.edgeType, types)
  {
    if edges == [] then []
    else
      var n := |edges| - 1;
      assert edges == edges[..n] + [edges[n]];
      if EdgeTypeAllowed(edges[n].edgeType, types) then Allowed(edges[..n], types) + [edges[n]]
      else Allowed(edges[..n], types)
  }

  lemma {:induction false} AllAllowed(edges: seq<Edge>, types: seq<string>)
    requires forall e :: e in edges ==> EdgeTypeAllowed(e.edgeType, types)
    ensures Allowed(edges, types) == edges
  {
    if edges != [] {
      AllAllowed(edges[..|edges| - 1], types);
      assert edges == edges[..|edges| - 1] + [edges[|edges| - 1]];
    }
  }

  /** The allowed rows of a level, and their far ends not visited yet. */
  method ExpandLevel(edges: seq<Edge>, scope: Scope, visited: set<string>)
    returns (result: seq<Edge>, nextQueue: seq<string>)
    ensures result == Allowed(edges, scope.types)
    ensures forall x :: x in nextQueue <==> x !in visited && exists e :: e in result && Far(e, scope) == x
  {
    result, nextQueue := [], [];
    var i := 0;
    while i < |edges|
      invariant 0 <= i <= |edges|
      invariant result == Allowed(edges[..i], scope.types)
      invariant forall x :: x in nextQueue <==> x !in visited && exists e :: e in result && Far(e, scope) == x
    {
      assert edges[..i + 1][..i] == edges[..i];
      var e := edges[i];
      i := i + 1;
      if !EdgeTypeAllowed(e.edgeType, scope.types) {
        continue;
      }
      ghost var before := result;
      result := result + [e];
      assert forall f :: f in result <==> f in before || f == e;
      if Far(e, scope) !in visited {
        nextQueue := nextQueue + [Far(e, scope)];
      }
    }
    assert edges[..i] == edges;
  }

  /** What the first n levels return. */
  ghost function Returned(store: Store, scope: Scope, start: string, n: int): multiset<Edge> {
    if n <= 0 then multiset{} else
      multiset(Select(store.rows, scope, {store.normalize(start)}))
      + multiset(Select(store.rows, scope, Ball(store, scope, start, n - 1) - {start}))
  }

  /** frontier holds the nodes at distance exactly d. */
  ghost predicate AtDistance(store: Store, scope: Scope, start: string, d: int, frontier: seq<string>) {
    && Distinct(frontier)
    && forall x :: x in frontier <==> x in Ball(store, scope, start, d) && x !in Ball(store, scope, start, d - 1)
  }

  lemma BallStored(store: Store, scope: Scope, start: string, n: int, x: string)
    requires RowsStored(store) && x in Ball(store, scope, start, n) && x != start
    ensures store.normalize(x) == x
  {
    if x in Ball(store, scope, start, n - 1) {
      BallStored(store, scope, start, n - 1, x);
    } else {
      var e :| e in store.rows && Far(e, scope) == x;
    }
  }

  lemma SameIndex(s: seq<string>, i: nat, j: nat)
    requires Distinct(s) && i < |s| && j < |s| && s[i] == s[j]
    ensures i == j
  {
  }

  lemma AllSameAndDistinct(s: seq<string>, x: string)
    requires Distinct(s) && x in s && forall i :: 0 <= i < |s| ==> s[i] == x
    ensures s == [x]
  {
    SameIndex(s, 0, |s| - 1);
  }

  lemma FrontierNames(store: Store, scope: Scope, start: string, d: nat, frontier: seq<string>)
    requires RowsStored(store) && AtDistance(store, scope, start, d, frontier)
    ensures DistinctNames(frontier, store.normalize)
    ensures d == 0 ==> Names(frontier, store.normalize) == {store.normalize(start)}
    ensures d > 0 ==> forall x :: x in Names(frontier, store.normalize) <==> x in frontier
    ensures d > 0 ==> start !in frontier
  {
    hide Select, FarEnds;
    if d == 0 {
      assert start in frontier;
      forall i | 0 <= i < |frontier| ensures frontier[i] == start {
        assert frontier[i] in frontier;
      }
      AllSameAndDistinct(frontier, start);
      assert frontier == [start];
    } else {
      BallGrows(store, scope, start, 0, d - 1);
      forall x | x in frontier ensures store.normalize(x) == x {
        BallStored(store, scope, start, d, x);
      }
      forall x | x in frontier ensures x in Names(frontier, store.normalize) {
        var i :| 0 <= i < |frontier| && frontier[i] == x;
      }
    }
  }

  /** A level adds the rows of its frontier to what was returned before. */
  lemma LevelAdds(store: Store, scope: Scope, start: string, d: nat, frontier: seq<string>)
    requires RowsStored(store) && AtDistance(store, scope, start, d, frontier)
    ensures Returned(store, scope, start, d + 1) == Returned(store, scope, start, d)
              + multiset(Select(store.rows, scope, Names(frontier, store.normalize)))
  {
    FrontierNames(store, scope, start, d, frontier);
    hide Select, FarEnds;
    if d == 0 {
      assert Ball(store, scope, start, 0) - {start} == {};
      SelectNone(store.rows, scope);
    } else {
      var old_, new_ := Ball(store, scope, start, d - 1) - {start}, Names(frontier, store.normalize);
      BallGrows(store, scope, start, d - 1, d);
      assert Ball(store, scope, start, d) - {start} == old_ + new_;
      SelectUnion(store.rows, scope, old_, new_);
    }
  }

  /** The far ends of a level's rows, with what is visited, are the next ball. */
  lemma LevelReaches(store: Store, scope: Scope, start: string, d: nat, frontier: seq<string>,
                     edges: seq<Edge>, visited: set<string>, queue: seq<string>)
    requires RowsStored(store) && AtDistance(store, scope, start, d, frontier)
    requires visited == Ball(store, scope, start, d)
    requires multiset(edges) == multiset(Select(store.rows, scope, Names(frontier, store.normalize)))
    requires forall x :: x in queue <==> x !in visited && exists e :: e in edges && Far(e, scope) == x
    ensures forall x :: x in Ball(store, scope, start, d + 1) <==> x in visited || x in queue
  {
    hide Select, FarEnds, Names;
    forall x ensures x in Ball(store, scope, start, d + 1) <==> x in visited || x in queue {
      NextBall(store, scope, start, d, frontier, x);
      forall e ensures e in edges <==> e in Select(store.rows, scope, Names(frontier, store.normalize)) {
        assert e in edges <==> e in multiset(edges);
      }
    }
  }

  lemma NextBall(store: Store, scope: Scope, start: string, d: nat, frontier: seq<string>, x: string)
    requires RowsStored(store) && AtDistance(store, scope, start, d, frontier)
    ensures x in Ball(store, scope, start, d + 1) <==>
              || x in Ball(store, scope, start, d)
              || exists e :: e in Select(store.rows, scope, Names(frontier, store.normalize)) && Far(e, scope) == x
  {
    hide Select, FarEnds;
    var inner, outer := Ball(store, scope, start, d - 1), Ball(store, scope, start, d);
    FarEndsMembers(store, scope, outer, x);
    FarEndsMembers(store, scope, inner, x);
    if exists u, e :: u in outer && StepFrom(store, scope, u, e) && Far(e, scope) == x {
      var u, e :| u in outer && StepFrom(store, scope, u, e) && Far(e, scope) == x;
      if u !in inner {
        assert u in frontier;
        var i :| 0 <= i < |frontier| && frontier[i] == u;
        assert Near(e, scope) in Names(frontier, store.normalize);
        SelectMembers(store.rows, scope, Names(frontier, store.normalize), e);
      } else {
        BallGrows(store, scope, start, 0, d);
      }
    }
    if exists e :: e in Select(store.rows, scope, Names(frontier, store.normalize)) && Far(e, scope) == x {
      var e :| e in Select(store.rows, scope, Names(frontier, store.normalize)) && Far(e, scope) == x;
      SelectMembers(store.rows, scope, Names(frontier, store.normalize), e);
      var i :| 0 <= i < |frontier| && store.normalize(frontier[i]) == Near(e, scope);
      assert frontier[i] in frontier;
      assert StepFrom(store, scope, frontier[i], e);
    }
  }

  /** The rows come in the order of the distance of their near end. */
  ghost predicate ByDistance(store: Store, scope: Scope, start: string, result: seq<Edge>, levels: seq<nat>,
                             depth: int) {
    && |levels| == |result|
    && (forall i, j :: 0 <= i < j < |levels| ==> levels[i] <= levels[j])
    && (forall i :: 0 <= i < |levels| ==> levels[i] < depth && LeavesLevel(store, scope, start, levels[i], result[i]))
  }

  ghost predicate LeavesLevel(store: Store, scope: Scope, start: string, d: nat, e: Edge) {
    exists u :: u in Ball(store, scope, start, d) && u !in Ball(store, scope, start, d - 1)
                && StepFrom(store, scope, u, e)
  }

  lemma LevelLeaves(store: Store, scope: Scope, start: string, d: nat, frontier: seq<string>, edges: seq<Edge>)
    requires AtDistance(store, scope, start, d, frontier)
    requires multiset(edges) == multiset(Select(store.rows, scope, Names(frontier, store.normalize)))
    ensures forall e :: e in edges ==> LeavesLevel(store, scope, start, d, e)
    ensures forall e :: e in edges ==> EdgeTypeAllowed(e.edgeType, scope.types)
  {
    hide Select, FarEnds;
    forall e | e in edges
      ensures LeavesLevel(store, scope, start, d, e) && EdgeTypeAllowed(e.edgeType, scope.types)
    {
      assert e in multiset(edges);
      SelectMembers(store.rows, scope, Names(frontier, store.normalize), e);
      var i :| 0 <= i < |frontier| && store.normalize(frontier[i]) == Near(e, scope);
      assert frontier[i] in frontier && StepFrom(store, scope, frontier[i], e);
    }
  }

  lemma ByDistanceAppend(store: Store, scope: Scope, start: string, result: seq<Edge>, levels: seq<nat>,
                         d: nat, edges: seq<Edge>)
    requires ByDistance(store, scope, start, result, levels, d)
    requires forall e :: e in edges ==> LeavesLevel(store, scope, start, d, e)
    ensures ByDistance(store, scope, start, result + edges, levels + seq(|edges|, _ => d), d + 1)
  {
    hide LeavesLevel;
  }

  lemma ByDistanceWithin(store: Store, scope: Scope, start: string, result: seq<Edge>, levels: seq<nat>, d: int,
                         depth: int)
    requires ByDistance(store, scope, start, result, levels, d) && d <= depth
    ensures ByDistance(store, scope, start, result, levels, depth)
  {
  }

  lemma LastFrontierEmpty(store: Store, scope: Scope, start: string, d: nat, depth: nat)
    requires d <= depth && Ball(store, scope, start, d) == Ball(store, scope, start, d - 1)
    ensures Returned(store, scope, start, d) == Returned(store, scope, start, depth)
  {
    hide FarEnds, Select;
    assert d > 0 by {
      assert start in Ball(store, scope, start, 0);
    }
    BallStops(store, scope, start, d, if depth - 1 < d then d else depth - 1);
  }

  /** What holds before level d: the nodes nearer than d are visited, those at
      distance d are queued, and the rows of the nearer ones are returned. */
  ghost predicate BeforeLevel(store: Store, scope: Scope, start: string, d: nat, visited: set<string>,
                              queue: seq<string>, result: seq<Edge>, levels: seq<nat>) {
    && visited == Ball(store, scope, start, d - 1)
    && (forall x :: x in Ball(store, scope, start, d) <==> x in visited || x in queue)
    && multiset(result) == Returned(store, scope, start, d)
    && ByDistance(store, scope, start, result, levels, d)
  }

  lemma StartsAtLevelZero(store: Store, scope: Scope, start: string)
    ensures BeforeLevel(store, scope, start, 0, {}, [start], [], [])
  {
  }

  lemma FrontierIsLevel(store: Store, scope: Scope, start: string, d: nat, visited: set<string>, queue: seq<string>,
                        result: seq<Edge>, levels: seq<nat>, visited': set<string>, frontier: seq<string>)
    requires RowsStored(store) && BeforeLevel(store, scope, start, d, visited, queue, result, levels)
    requires Distinct(frontier) && forall x :: x in frontier <==> x in queue && x !in visited
    requires forall x :: x in visited' <==> x in visited || x in queue
    ensures visited' == Ball(store, scope, start, d) && AtDistance(store, scope, start, d, frontier)
    ensures DistinctNames(frontier, store.normalize)
  {
    hide FarEnds, Select, ByDistance, Returned, Names;
    FrontierNames(store, scope, start, d, frontier);
  }

  lemma LevelDone(store: Store, scope: Scope, start: string, d: nat, visited: set<string>, queue: seq<string>,
                  result: seq<Edge>, levels: seq<nat>, frontier: seq<string>, edges: seq<Edge>,
                  visited': set<string>, nextQueue: seq<string>)
    requires RowsStored(store) && BeforeLevel(store, scope, start, d, visited, queue, result, levels)
    requires visited' == Ball(store, scope, start, d) && AtDistance(store, scope, start, d, frontier)
    requires multiset(edges) == multiset(Select(store.rows, scope, Names(frontier, store.normalize)))
    requires forall x :: x in nextQueue <==> x !in visited' && exists e :: e in edges && Far(e, scope) == x
    ensures BeforeLevel(store, scope, start, d + 1, visited', nextQueue, result + edges,
                        levels + seq(|edges|, _ => d))
  {
    hide FarEnds, Select, ByDistance, Returned, Names, AtDistance, LeavesLevel, Ball;
    LevelAdds(store, scope, start, d, frontier);
    LevelLeaves(store, scope, start, d, frontier, edges);
    LevelReaches(store, scope, start, d, frontier, edges, visited', nextQueue);
    ByDistanceAppend(store, scope, start, result, levels, d, edges);
  }

  /** A level without unvisited nodes ends the search for good. */
  lemma NoMoreLevels(store: Store, scope: Scope, start: string, d: nat, visited: set<string>, queue: seq<string>,
                     result: seq<Edge>, levels: seq<nat>, depth: nat)
    requires BeforeLevel(store, scope, start, d, visited, queue, result, levels) && d <= depth
    requires forall x :: x in queue ==> x in visited
    ensures multiset(result) == Returned(store, scope, start, depth)
  {
    hide FarEnds, Select, ByDistance, Returned, Ball;
    assert Ball(store, scope, start, d) == Ball(store, scope, start, d - 1);
    LastFrontierEmpty(store, scope, start, d, depth);
  }

  lemma SearchOver(store: Store, scope: Scope, start: string, d: nat, visited: set<string>, queue: seq<string>,
                   result: seq<Edge>, levels: seq<nat>, depth: nat)
    requires BeforeLevel(store, scope, start, d, visited, queue, result, levels) && d <= depth
    requires d < depth ==> forall x :: x in queue ==> x in visited
    ensures multiset(result) == Returned(store, scope, start, depth)
    ensures ByDistance(store, scope, start, result, levels, depth)
  {
    hide Returned, ByDistance, Ball;
    if d < depth {
      NoMoreLevels(store, scope, start, d, visited, queue, result, levels, depth);
    }
    ByDistanceWithin(store, scope, start, result, levels, d, depth);
  }

  // ------------------------------------------------------------- in the fields of rows

  /** Row i of es goes on from the stored form of start, or from the row before: for
      outgoing from where that one leads, for incoming to where that one is from. */
  ghost predicate Linked(store: Store, outgoing: bool, start: string, es: seq<Edge>, i: nat)
    requires i < |es|
  {
    if i == 0 then (if outgoing then es[0].fromRef else es[0].toRef) == store.normalize(start)
    else if outgoing then es[i].fromRef == es[i - 1].toRef
    else es[i].toRef == es[i - 1].fromRef
  }

  /** es are linked rows of a type in types, or of any when types is empty. */
  ghost predicate Chain(store: Store, outgoing: bool, types: seq<string>, start: string, es: seq<Edge>) {
    && (forall i :: 0 <= i < |es| ==> es[i] in store.rows && (types == [] || es[i].edgeType in types))
    && forall i :: 0 <= i < |es| ==> Linked(store, outgoing, start, es, i)
  }

  /** A chain of n rows ends with e. */
  ghost predicate EndsChain(store: Store, scope: Scope, start: string, n: nat, e: Edge) {
    exists es :: |es| == n && Chain(store, scope.outgoing, scope.types, start, es) && es != [] && es[|es| - 1] == e
  }

  lemma NearIs(store: Store, scope: Scope, start: string, es: seq<Edge>, i: nat)
    requires RowsStored(store) && i < |es| && (i > 0 ==> es[i - 1] in store.rows)
    ensures StepFrom(store, scope, At(scope, start, es, i), es[i]) <==>
            && es[i] in store.rows && (scope.types == [] || es[i].edgeType in scope.types)
            && Linked(store, scope.outgoing, start, es, i)
  {}

  /** A chain is a walk. */
  lemma ChainIsWalk(store: Store, scope: Scope, start: string, es: seq<Edge>)
    requires RowsStored(store)
    ensures Chain(store, scope.outgoing, scope.types, start, es) <==>
            Walk(store, scope, start, es, At(scope, start, es, |es|))
  {
    hide RowsStored, At, Linked;
    if Chain(store, scope.outgoing, scope.types, start, es) {
      forall i | 0 <= i < |es|
        ensures StepFrom(store, scope, At(scope, start, es, i), es[i])
      {
        NearIs(store, scope, start, es, i);
      }
    }
    if Walk(store, scope, start, es, At(scope, start, es, |es|)) {
      forall i | 0 <= i < |es|
        ensures es[i] in store.rows && (scope.types == [] || es[i].edgeType in scope.types)
        ensures Linked(store, scope.outgoing, start, es, i)
      {
        assert i > 0 ==> StepFrom(store, scope, At(scope, start, es, i - 1), es[i - 1]);
        NearIs(store, scope, start, es, i);
      }
    }
  }

  /** A chain of at most depth rows ends with e. */
  ghost predicate EndsChainWithin(store: Store, scope: Scope, start: string, depth: nat, e: Edge) {
    exists n :: 0 < n <= depth && EndsChain(store, scope, start, n, e)
  }

  /** The rows returned are those that end a chain of at most depth rows. */
  lemma ReturnedEndChains(store: Store, scope: Scope, start: string, depth: nat, e: Edge)
    requires RowsStored(store) && depth > 0
    ensures e in Returned(store, scope, start, depth) <==> EndsChainWithin(store, scope, start, depth, e)
  {
    hide Returned, Ball, StepFrom, EndsChainWithin, RowsStored;
    ReturnedLeave(store, scope, start, depth, e);
    if u :| u in Ball(store, scope, start, depth - 1) && StepFrom(store, scope, u, e) {
      LeavesEndsChain(store, scope, start, depth, u, e);
    }
    if EndsChainWithin(store, scope, start, depth, e) {
      ChainEndLeaves(store, scope, start, depth, e);
    }
  }

  lemma LeavesEndsChain(store: Store, scope: Scope, start: string, depth: nat, u: string, e: Edge)
    requires RowsStored(store) && depth > 0 && u in Ball(store, scope, start, depth - 1) && StepFrom(store, scope, u, e)
    ensures EndsChainWithin(store, scope, start, depth, e)
  {
    hide Ball, StepFrom, EndsChain, RowsStored, Walk;
    BallIsWalks(store, scope, start, depth - 1, u);
    var es :| |es| <= depth - 1 && Walk(store, scope, start, es, u);
    WalkEndsChain(store, scope, start, es, u, e);
    assert 0 < |es| + 1 <= depth;
  }

  lemma ChainEndLeaves(store: Store, scope: Scope, start: string, depth: nat, e: Edge)
    requires RowsStored(store) && depth > 0 && EndsChainWithin(store, scope, start, depth, e)
    ensures exists u :: u in Ball(store, scope, start, depth - 1) && StepFrom(store, scope, u, e)
  {
    hide RowsStored, Ball, Walk, Chain, StepFrom;
    var n :| 0 < n <= depth && EndsChain(store, scope, start, n, e);
    var es :| |es| == n && Chain(store, scope.outgoing, scope.types, start, es) && es != [] && es[|es| - 1] == e;
    ChainIsWalk(store, scope, start, es);
    WalkWithoutLast(store, scope, start, es);
    BallIsWalks(store, scope, start, depth - 1, At(scope, start, es, n - 1));
  }

  lemma ReturnedLeave(store: Store, scope: Scope, start: string, depth: nat, e: Edge)
    requires RowsStored(store) && depth > 0
    ensures e in Returned(store, scope, start, depth) <==>
            exists u :: u in Ball(store, scope, start, depth - 1) && StepFrom(store, scope, u, e)
  {
    hide Select, FarEnds, RowsStored, Ball;
    var ball := Ball(store, scope, start, depth - 1);
    StartInBall(store, scope, start, depth - 1);
    SelectMembers(store.rows, scope, {store.normalize(start)}, e);
    SelectMembers(store.rows, scope, ball - {start}, e);
    forall x | x in ball && x != start
      ensures store.normalize(x) == x
    {
      BallStored(store, scope, start, depth - 1, x);
    }
    assert e in Returned(store, scope, start, depth) <==>
      e in Select(store.rows, scope, {store.normalize(start)}) || e in Select(store.rows, scope, ball - {start});
    assert StepFrom(store, scope, start, e) <==> e in Select(store.rows, scope, {store.normalize(start)});
    if u :| u in ball && StepFrom(store, scope, u, e) {
      assert u != start ==> Near(e, scope) == u;
    }
    if e in Select(store.rows, scope, ball - {start}) {
      assert StepFrom(store, scope, Near(e, scope), e);
    }
  }

  lemma StartInBall(store: Store, scope: Scope, start: string, n: nat)
    ensures start in Ball(store, scope, start, n)
  {
    BallGrows(store, scope, start, 0, n);
  }

  lemma WalkWithoutLast(store: Store, scope: Scope, start: string, es: seq<Edge>)
    requires es != [] && Walk(store, scope, start, es, At(scope, start, es, |es|))
    ensures var n := |es| - 1;
            Walk(store, scope, start, es[..n], At(scope, start, es, n))
            && StepFrom(store, scope, At(scope, start, es, n), es[n])
  {
    hide StepFrom;
    var n := |es| - 1;
    forall i | 0 <= i < n
      ensures StepFrom(store, scope, At(scope, start, es[..n], i), es[..n][i])
    {
      assert At(scope, start, es[..n], i) == At(scope, start, es, i);
    }
  }

  lemma WalkEndsChain(store: Store, scope: Scope, start: string, es: seq<Edge>, u: string, e: Edge)
    requires RowsStored(store) && Walk(store, scope, start, es, u) && StepFrom(store, scope, u, e)
    ensures EndsChain(store, scope, start, |es| + 1, e)
  {
    hide Walk, Chain, StepFrom;
    WalkThen(store, scope, start, es, u, e);
    ChainIsWalk(store, scope, start, es + [e]);
    assert (es + [e])[|es|] == e && At(scope, start, es + [e], |es| + 1) == Far(e, scope);
  }

  /** A row of level d ends a chain of d + 1 rows. */
  lemma LevelEndsChain(store: Store, scope: Scope, start: string, d: nat, e: Edge)
    requires RowsStored(store) && LeavesLevel(store, scope, start, d, e)
    ensures EndsChain(store, scope, start, d + 1, e)
  {
    hide Walk, StepFrom, Ball, EndsChain;
    var u :| u in Ball(store, scope, start, d) && u !in Ball(store, scope, start, d - 1)
             && StepFrom(store, scope, u, e);
    BallIsWalks(store, scope, start, d, u);
    if d > 0 {
      BallIsWalks(store, scope, start, d - 1, u);
    }
    var es :| |es| <= d && Walk(store, scope, start, es, u);
    WalkEndsChain(store, scope, start, es, u, e);
  }

  method Traverse(store: Store, start: string, scope: Scope, depth: int)
    returns (result: seq<Edge>, ghost levels: seq<nat>)
    requires RowsStored(store)
    ensures multiset(result) == Returned(store, scope, start, if depth <= 0 then 1 else depth)
    ensures ByDistance(store, scope, start, result, levels, if depth <= 0 then 1 else depth)
    ensures forall e :: e in result <==> EndsChainWithin(store, scope, start, if depth <= 0 then 1 else depth, e)
    ensures |levels| == |result|
    ensures forall i :: 0 <= i < |result| ==> EndsChain(store, scope, start, levels[i] + 1, result[i])
  {
    hide Select, Names, AtDistance, Returned, RowsStored, ByDistance, Ball, BeforeLevel, EndsChain, EndsChainWithin;
    var limit := if depth <= 0 then 1 else depth;
    var visited: set<string> := {};
    result, levels := [], [];
    var queue := [start];
    StartsAtLevelZero(store, scope, start);
    var d := 0;
    while d < limit && |queue| > 0
      invariant 0 <= d <= limit
      invariant BeforeLevel(store, scope, start, d, visited, queue, result, levels)
    {
      var frontier, visited' := FrontierNodes(queue, visited);
      if |frontier| == 0 {
        assert forall x :: x in queue ==> x in visited || x in frontier;
        break;
      }
      FrontierIsLevel(store, scope, start, d, visited, queue, result, levels, visited', frontier);
      var edges := EdgesForNodes(store, frontier, scope);
      BatchesAddUp(store, scope, frontier);
      LevelLeaves(store, scope, start, d, frontier, edges);
      AllAllowed(edges, scope.types);
      var levelResult, nextQueue := ExpandLevel(edges, scope, visited');
      LevelDone(store, scope, start, d, visited, queue, result, levels, frontier, edges, visited', nextQueue);
      result := result + levelResult;
      levels := levels + seq(|levelResult|, _ => d);
      visited, queue := visited', nextQueue;
      d := d + 1;
    }
    SearchOver(store, scope, start, d, visited, queue, result, levels, limit);
    ChainsFound(store, scope, start, result, levels, limit);
  }

  lemma ChainsFound(store: Store, scope: Scope, start: string, result: seq<Edge>, levels: seq<nat>, depth: nat)
    requires RowsStored(store) && depth > 0 && multiset(result) == Returned(store, scope, start, depth)
    requires ByDistance(store, scope, start, result, levels, depth)
    ensures forall e :: e in result <==> EndsChainWithin(store, scope, start, depth, e)
    ensures |levels| == |result|
    ensures forall i :: 0 <= i < |result| ==> EndsChain(store, scope, start, levels[i] + 1, result[i])
  {
    hide Returned, EndsChain, EndsChainWithin, LeavesLevel, RowsStored;
    forall e
      ensures e in result <==> EndsChainWithin(store, scope, start, depth, e)
    {
      assert e in result <==> e in multiset(result);
      ReturnedEndChains(store, scope, start, depth, e);
    }
    forall i | 0 <= i < |result|
      ensures EndsChain(store, scope, start, levels[i] + 1, result[i])
    {
      LevelEndsChain(store, scope, start, levels[i], result[i]);
    }
  }

  // ------------------------------------------------------------ rows returned once

  /** From a start in the stored form, each allowed row within reach comes once. */
  lemma StoredStartReturnsEachOnce(store: Store, scope: Scope, start: string, depth: nat)
    requires RowsStored(store) && depth > 0 && store.normalize(start) == start
    ensures Returned(store, scope, start, depth)
         == multiset(Select(store.rows, scope, Ball(store, scope, start, depth - 1)))
  {
    hide Select, FarEnds;
    BallGrows(store, scope, start, 0, depth - 1);
    var ball := Ball(store, scope, start, depth - 1);
    assert ball == {start} + (ball - {start});
    SelectUnion(store.rows, scope, {start}, ball - {start});
  }

  /** The first step of a walk that leaves start. */
  lemma {:induction false} StartHasRow(store: Store, scope: Scope, start: string, n: int, x: string)
    requires x in Ball(store, scope, start, n) && x != start
    ensures exists e :: e in Select(store.rows, scope, {store.normalize(start)})
    decreases if n < 0 then 0 else n
  {
    hide Select;
    if x in Ball(store, scope, start, n - 1) {
      StartHasRow(store, scope, start, n - 1, x);
    } else {
      FarEndsMembers(store, scope, Ball(store, scope, start, n - 1), x);
      var u, e :| u in Ball(store, scope, start, n - 1) && StepFrom(store, scope, u, e) && Far(e, scope) == x;
      if u == start {
        SelectMembers(store.rows, scope, {store.normalize(start)}, e);
      } else {
        StartHasRow(store, scope, start, n - 1, u);
      }
    }
  }

  /** Rows come back more often than they are stored exactly when start is written
      in another form than the stored one and its stored form is reached again
      within the depth. */
  lemma DuplicatesIffStartMetAgain(store: Store, scope: Scope, start: string, depth: nat)
    requires RowsStored(store) && depth > 0
    ensures Returned(store, scope, start, depth) <= multiset(store.rows)
       <==> store.normalize(start) == start || store.normalize(start) !in Ball(store, scope, start, depth - 1)
  {
    hide Select, Ball, FarEnds;
    var name, ball := store.normalize(start), Ball(store, scope, start, depth - 1);
    if name == start {
      StoredStartReturnsEachOnce(store, scope, start, depth);
      SelectWithinRows(store.rows, scope, ball);
    } else if name !in ball {
      SelectUnion(store.rows, scope, {name}, ball - {start});
      SelectWithinRows(store.rows, scope, {name} + (ball - {start}));
    } else {
      StartHasRow(store, scope, start, depth - 1, name);
      var e :| e in Select(store.rows, scope, {name});
      SelectMembers(store.rows, scope, {name}, e);
      SelectCount(store.rows, scope, {name}, e);
      SelectCount(store.rows, scope, ball - {start}, e);
      assert e in store.rows;
      assert Returned(store, scope, start, depth)[e] == 2 * multiset(store.rows)[e];
    }
  }

  /** A two-row cycle through a method: its first row comes back twice when the start is
      written with its receiver in parentheses. */
  lemma ParenthesisedStartRepeats(p: string, x: string, m: string, f: string)
    requires NoParens(p) && NoParens(x) && x != "" && NoParens(m)
    requires NoParens(f) && f != WithoutReceiver(p, x, m)
    ensures var t := WithoutReceiver(p, x, m);
            var rows := [Edge(t, f, "calls", "a.go", 1, ""), Edge(f, t, "calls", "b.go", 1, "")];
            var store := Store(rows, NormalizeQualifiedName);
            && RowsStored(store)
            && !(Returned(store, Scope(true, []), WithReceiver(p, x, m), 3) <= multiset(rows))
  {
    OneReceiver(p, x, m);
    ReceiverShorter(p, x, m);
    NoParensStored(f);
    var s, t := WithReceiver(p, x, m), WithoutReceiver(p, x, m);
    var rows := [Edge(t, f, "calls", "a.go", 1, ""), Edge(f, t, "calls", "b.go", 1, "")];
    var store := Store(rows, NormalizeQualifiedName);
    var scope := Scope(true, []);
    assert rows[0] in rows && rows[1] in rows;
    hide NormalizeQualifiedName, WithReceiver, WithoutReceiver, NoParens;
    assert RowsStored(store);
    hide Returned, Ball, Select;
    assert Walk(store, scope, s, rows, t) by {
      assert StepFrom(store, scope, s, rows[0]);
      assert StepFrom(store, scope, f, rows[1]);
    }
    WalkInBall(store, scope, s, 2, rows, t);
    DuplicatesIffStartMetAgain(store, scope, s, 3);
  }

  /** With depth 1 the rows returned are, for outgoing, those from the stored form of
      start, and for incoming those to it. */
  lemma FirstLevel(store: Store, scope: Scope, start: string, e: Edge)
    requires RowsStored(store)
    ensures e in Returned(store, scope, start, 1) <==>
            && e in store.rows && (scope.types == [] || e.edgeType in scope.types)
            && (if scope.outgoing then e.fromRef else e.toRef) == store.normalize(start)
  {
    hide Returned, RowsStored;
    ReturnedEndChains(store, scope, start, 1, e);
    var es := [e];
    if EndsChain(store, scope, start, 1, e) {
      var fs :| |fs| == 1 && Chain(store, scope.outgoing, scope.types, start, fs) && fs != [] && fs[|fs| - 1] == e;
      assert Linked(store, scope.outgoing, start, fs, 0);
    }
    if e in store.rows && (scope.types == [] || e.edgeType in scope.types)
       && (if scope.outgoing then e.fromRef else e.toRef) == store.normalize(start) {
      assert Chain(store, scope.outgoing, scope.types, start, es);
      assert EndsChain(store, scope, start, 1, e);
    }
  }

  /** Every row but those of the first level goes on from a row that ends a shorter
      chain: for outgoing from where that one leads, for incoming to where it is from. */
  lemma FurtherLevels(store: Store, scope: Scope, start: string, n: nat, e: Edge)
    requires n > 1 && EndsChain(store, scope, start, n, e)
    ensures exists d :: EndsChain(store, scope, start, n - 1, d)
                        && if scope.outgoing then e.fromRef == d.toRef else e.toRef == d.fromRef
  {
    var es :| |es| == n && Chain(store, scope.outgoing, scope.types, start, es) && es != [] && es[|es| - 1] == e;
    var ds := es[..n - 1];
    assert Linked(store, scope.outgoing, start, es, n - 1);
    forall i | 0 <= i < |ds|
      ensures Linked(store, scope.outgoing, start, ds, i)
    {
      assert Linked(store, scope.outgoing, start, es, i);
    }
    assert Chain(store, scope.outgoing, scope.types, start, ds);
    assert EndsChain(store, scope, start, n - 1, ds[|ds| - 1]);
  }

  /** Of one row a to b, outgoing from a and incoming to b give it; the other ways round
      give nothing. */
  lemma OneRowByDirection(a: string, b: string)
    requires NoParens(a) && NoParens(b) && a != b
    ensures var row := Edge(a, b, "calls", "a.go", 1, "");
            var store := Store([row], NormalizeQualifiedName);
            && RowsStored(store)
            && row in Returned(store, Scope(true, []), a, 1) && row in Returned(store, Scope(false, []), b, 1)
            && row !in Returned(store, Scope(false, []), a, 1) && row !in Returned(store, Scope(true, []), b, 1)
            && row !in Returned(store, Scope(true, ["imports"]), a, 1)
  {
    NoParensStored(a);
    NoParensStored(b);
    var row := Edge(a, b, "calls", "a.go", 1, "");
    var store := Store([row], NormalizeQualifiedName);
    hide NormalizeQualifiedName, NoParens, Returned;
    assert [row][0] == row;
    assert RowsStored(store);
    assert "calls" != "imports" by {
      assert "calls"[0] != "imports"[0];
    }
    FirstLevel(store, Scope(true, []), a, row);
    FirstLevel(store, Scope(false, []), b, row);
    FirstLevel(store, Scope(false, []), a, row);
    FirstLevel(store, Scope(true, []), b, row);
    FirstLevel(store, Scope(true, ["imports"]), a, row);
  }
}
