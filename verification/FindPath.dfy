/** Shortest paths between symbols (query/query.go): a breadth-first search
    that marks a node visited when it leaves the queue. */
module FindPath {
  import opened QualifiedNames

  datatype Edge = Edge(fromRef: string, toRef: string, edgeType: string, posFile: string, repo: string, posLine: int)

  datatype Contract = Contract(fromRef: string, toRef: string, repo: string, suggested: bool)

  datatype PathStep = PathStep(from: string, to: string, edgeType: string, posFile: string, repo: string, posLine: int)

  datatype PathNode = PathNode(name: string, path: seq<PathStep>)

  datatype Outcome = Found(path: seq<PathStep>) | NoPath | UnknownSymbol

  /** The index: edge rows, contract rows, and the name normalisation that
      symbol and edge lookups apply to their argument. */
  datatype Store = Store(rows: seq<Edge>, contracts: seq<Contract>, normalize: string -> string, symbols: set<string>)

  const EDGE_TYPE_CONTRACT := "contract"
  const DEFAULT_DEPTH: int := 10

  predicate RepoMismatch(actual: string, wanted: string) {
    wanted != "" && actual != wanted
  }

  // ------------------------------------------------------------ the steps searched

  function StepOf(e: Edge): PathStep {
    PathStep(e.fromRef, e.toRef, e.edgeType, e.posFile, e.repo, e.posLine)
  }

  function ContractToEdge(c: Contract): Edge {
    Edge(c.fromRef, c.toRef, EDGE_TYPE_CONTRACT, "", c.repo, 0)
  }

  /** SELECT the rows whose source is the normalised name. */
  function EdgesFrom(rows: seq<Edge>, ref: string): (r: seq<Edge>)
    ensures forall e :: e in r <==> e in rows && e.fromRef == ref
  {
    if rows == [] then []
    else
      var n := |rows| - 1;
      assert rows == rows[..n] + [rows[n]];
      if rows[n].fromRef == ref then EdgesFrom(rows[..n], ref) + [rows[n]] else EdgesFrom(rows[..n], ref)
  }

  /** The steps over edge rows that the repo scope lets through. */
  function RowSteps(edges: seq<Edge>, repo: string): (r: seq<PathStep>) {
    if edges == [] then []
    else
      var n := |edges| - 1;
      if RepoMismatch(edges[n].repo, repo) then RowSteps(edges[..n], repo)
      else RowSteps(edges[..n], repo) + [StepOf(edges[n])]
  }

  lemma {:induction false} RowStepsMembers(edges: seq<Edge>, repo: string, s: PathStep)
    ensures s in RowSteps(edges, repo) <==> exists e :: e in edges && !RepoMismatch(e.repo, repo) && s == StepOf(e)
  {
    if edges != [] {
      var n := |edges| - 1;
      RowStepsMembers(edges[..n], repo, s);
      assert edges == edges[..n] + [edges[n]];
    }
  }

  lemma RowStepsStep(edges: seq<Edge>, i: nat, repo: string)
    requires i < |edges|
    ensures RowSteps(edges[..i + 1], repo) ==
              if RepoMismatch(edges[i].repo, repo) then RowSteps(edges[..i], repo)
              else RowSteps(edges[..i], repo) + [StepOf(edges[i])]
  {
    assert edges[..i + 1][..i] == edges[..i];
  }

  lemma NoRowSteps(edges: seq<Edge>, repo: string)
    ensures RowSteps(edges[..0], repo) == []
  {}

  predicate ContractLeaves(c: Contract, name: string, repo: string) {
    !c.suggested && c.fromRef == name && !RepoMismatch(c.repo, repo)
  }

  /** The steps over confirmed contracts of the name that the scope lets through. */
  function ContractSteps(contracts: seq<Contract>, name: string, repo: string): (r: seq<PathStep>) {
    if contracts == [] then []
    else
      var n := |contracts| - 1;
      if ContractLeaves(contracts[n], name, repo)
      then ContractSteps(contracts[..n], name, repo) + [StepOf(ContractToEdge(contracts[n]))]
      else ContractSteps(contracts[..n], name, repo)
  }

  lemma {:induction false} ContractStepsMembers(contracts: seq<Contract>, name: string, repo: string, s: PathStep)
    ensures s in ContractSteps(contracts, name, repo) <==>
              exists c :: c in contracts && ContractLeaves(c, name, repo) && s == StepOf(ContractToEdge(c))
  {
    if contracts != [] {
      var n := |contracts| - 1;
      ContractStepsMembers(contracts[..n], name, repo, s);
      assert contracts == contracts[..n] + [contracts[n]];
    }
  }

  lemma ContractStepsStep(contracts: seq<Contract>, i: nat, name: string, repo: string)
    requires i < |contracts|
    ensures ContractSteps(contracts[..i + 1], name, repo) ==
              if ContractLeaves(contracts[i], name, repo)
              then ContractSteps(contracts[..i], name, repo) + [StepOf(ContractToEdge(contracts[i]))]
              else ContractSteps(contracts[..i], name, repo)
  {
    assert contracts[..i + 1][..i] == contracts[..i];
  }

  lemma NoContractSteps(contracts: seq<Contract>, name: string, repo: string)
    ensures ContractSteps(contracts[..0], name, repo) == []
  {}

  lemma ContractEnds(c: Contract)
    ensures ContractToEdge(c).toRef == c.toRef
  {}

  /** step leads out of name: over an edge row or a confirmed contract. */
  ghost predicate Leaves(store: Store, repo: string, name: string, step: PathStep) {
    || step in RowSteps(EdgesFrom(store.rows, store.normalize(name)), repo)
    || step in ContractSteps(store.contracts, name, repo)
  }

  function End(from: string, steps: seq<PathStep>): string {
    if steps == [] then from else steps[|steps| - 1].to
  }

  /** steps lead from from to to, each one out of the node reached so far. */
  ghost predicate Route(store: Store, repo: string, from: string, steps: seq<PathStep>, to: string) {
    && End(from, steps) == to
    && forall i :: 0 <= i < |steps| ==> Leaves(store, repo, End(from, steps[..i]), steps[i])
  }

  lemma RouteExtends(store: Store, repo: string, from: string, steps: seq<PathStep>, name: string, step: PathStep)
    requires Route(store, repo, from, steps, name) && Leaves(store, repo, name, step)
    ensures Route(store, repo, from, steps + [step], step.to)
  {
    hide Leaves;
    var longer := steps + [step];
    forall i | 0 <= i < |longer| ensures Leaves(store, repo, End(from, longer[..i]), longer[i]) {
      if i < |steps| {
        assert longer[..i] == steps[..i];
      } else {
        assert longer[..i] == steps;
      }
    }
  }

  lemma RouteWithoutLast(store: Store, repo: string, from: string, steps: seq<PathStep>, to: string)
    requires steps != [] && Route(store, repo, from, steps, to)
    ensures var n := |steps| - 1; var u := End(from, steps[..n]);
            Route(store, repo, from, steps[..n], u) && Leaves(store, repo, u, steps[n]) && steps[n].to == to
  {
    hide Leaves;
    var n := |steps| - 1;
    forall i | 0 <= i < n ensures Leaves(store, repo, End(from, steps[..n][..i]), steps[..n][i]) {
      assert steps[..n][..i] == steps[..i];
    }
  }

  // ---------------------------------------------------------------------- queueing

  function EnqueueIfUnvisited(name: string, e: Edge, path: seq<PathStep>, visited: set<string>,
                              queue: seq<PathNode>): (r: seq<PathNode>)
    ensures queue <= r
  {
    if name in visited then queue else queue + [PathNode(name, path + [StepOf(e)])]
  }

  /** The queue entries for the steps that lead to unvisited nodes. */
  function NewNodes(steps: seq<PathStep>, path: seq<PathStep>, visited: set<string>): (r: seq<PathNode>) {
    if steps == [] then []
    else
      var n := |steps| - 1;
      if steps[n].to in visited then NewNodes(steps[..n], path, visited)
      else NewNodes(steps[..n], path, visited) + [PathNode(steps[n].to, path + [steps[n]])]
  }

  lemma {:induction false} NewNodesMembers(steps: seq<PathStep>, path: seq<PathStep>, visited: set<string>, q: PathNode)
    ensures q in NewNodes(steps, path, visited) <==>
              exists s :: s in steps && s.to !in visited && q == PathNode(s.to, path + [s])
  {
    if steps != [] {
      var n := |steps| - 1;
      NewNodesMembers(steps[..n], path, visited, q);
      assert steps == steps[..n] + [steps[n]];
    }
  }

  lemma NoNodes(path: seq<PathStep>, visited: set<string>)
    ensures NewNodes([], path, visited) == []
  {}

  lemma NodeAdded(steps: seq<PathStep>, e: Edge, path: seq<PathStep>, visited: set<string>, queue: seq<PathNode>)
    ensures EnqueueIfUnvisited(e.toRef, e, path, visited, queue + NewNodes(steps, path, visited))
         == queue + NewNodes(steps + [StepOf(e)], path, visited)
  {
    assert (steps + [StepOf(e)])[..|steps|] == steps;
  }

  method EnqueueRows(edges: seq<Edge>, repo: string, path: seq<PathStep>, queue: seq<PathNode>, visited: set<string>)
    returns (queue': seq<PathNode>)
    ensures queue' == queue + NewNodes(RowSteps(edges, repo), path, visited)
  {
    hide RowSteps, NewNodes, StepOf, RepoMismatch, EnqueueIfUnvisited;
    queue' := queue;
    NoRowSteps(edges, repo);
    NoNodes(path, visited);
    var i := 0;
    while i < |edges|
      invariant 0 <= i <= |edges|
      invariant queue' == queue + NewNodes(RowSteps(edges[..i], repo), path, visited)
    {
      var e := edges[i];
      RowStepsStep(edges, i, repo);
      if !RepoMismatch(e.repo, repo) {
        NodeAdded(RowSteps(edges[..i], repo), e, path, visited, queue);
        queue' := EnqueueIfUnvisited(e.toRef, e, path, visited, queue');
      }
      i := i + 1;
    }
    assert edges[..i] == edges;
  }

  method EnqueueContracts(contracts: seq<Contract>, name: string, repo: string, path: seq<PathStep>,
                          queue: seq<PathNode>, visited: set<string>)
    returns (queue': seq<PathNode>)
    ensures queue' == queue + NewNodes(ContractSteps(contracts, name, repo), path, visited)
  {
    hide ContractSteps, NewNodes, StepOf, ContractToEdge, RepoMismatch, EnqueueIfUnvisited;
    queue' := queue;
    NoContractSteps(contracts, name, repo);
    NoNodes(path, visited);
    var i := 0;
    while i < |contracts|
      invariant 0 <= i <= |contracts|
      invariant queue' == queue + NewNodes(ContractSteps(contracts[..i], name, repo), path, visited)
    {
      var c := contracts[i];
      ContractStepsStep(contracts, i, name, repo);
      if c.suggested || c.fromRef != name {
        i := i + 1;
        continue;
      }
      if !RepoMismatch(c.repo, repo) {
        ContractEnds(c);
        NodeAdded(ContractSteps(contracts[..i], name, repo), ContractToEdge(c), path, visited, queue);
        queue' := EnqueueIfUnvisited(c.toRef, ContractToEdge(c), path, visited, queue');
      }
      i := i + 1;
    }
    assert contracts[..i] == contracts;
  }

  /** Queues the nodes one step past current: old queue first, then only steps
      out of current, and every one that leads to an unvisited node. */
  method ExpandPathNode(store: Store, current: PathNode, repo: string, queue: seq<PathNode>, visited: set<string>)
    returns (queue': seq<PathNode>)
    ensures queue <= queue'
    ensures forall q :: q in queue'[|queue|..] <==> Continues(store, repo, current, visited, q)
  {
    var outEdges := EdgesFrom(store.rows, store.normalize(current.name));
    var middle := EnqueueRows(outEdges, repo, current.path, queue, visited);
    queue' := EnqueueContracts(store.contracts, current.name, repo, current.path, middle, visited);
    ghost var added := NewNodes(RowSteps(outEdges, repo), current.path, visited)
           + NewNodes(ContractSteps(store.contracts, current.name, repo), current.path, visited);
    forall q ensures q in added <==> Continues(store, repo, current, visited, q) {
      NewNodesMembers(RowSteps(outEdges, repo), current.path, visited, q);
      NewNodesMembers(ContractSteps(store.contracts, current.name, repo), current.path, visited, q);
    }
    assert queue' == queue + added && queue'[|queue|..] == added;
  }

  /** q is current extended by one step to an unvisited node. */
  ghost predicate Continues(store: Store, repo: string, current: PathNode, visited: set<string>, q: PathNode) {
    exists s :: Leaves(store, repo, current.name, s) && s.to !in visited && q == PathNode(s.to, current.path + [s])
  }

  // ------------------------------------------------------------------- the search

  /** Every name a search can meet. */
  function Universe(store: Store, from: string): set<string> {
    {from} + (set e | e in store.rows :: e.toRef) + (set c | c in store.contracts :: c.toRef)
  }

  lemma LeavesIntoUniverse(store: Store, repo: string, name: string, s: PathStep, from: string)
    requires Leaves(store, repo, name, s)
    ensures s.to in Universe(store, from)
  {
    RowStepsMembers(EdgesFrom(store.rows, store.normalize(name)), repo, s);
    ContractStepsMembers(store.contracts, name, repo, s);
    if s in RowSteps(EdgesFrom(store.rows, store.normalize(name)), repo) {
      var e :| e in EdgesFrom(store.rows, store.normalize(name)) && s == StepOf(e);
    } else {
      var c :| c in store.contracts && s == StepOf(ContractToEdge(c));
    }
  }

  /** Queue entries are routes no longer than the cap, shortest first, and no two
      differ by more than one step. */
  ghost predicate QueueOk(store: Store, repo: string, from: string, maxDepth: int, queue: seq<PathNode>) {
    && (forall q :: q in queue ==> Route(store, repo, from, q.path, q.name) && |q.path| <= maxDepth)
    && (forall q :: q in queue ==> q.name in Universe(store, from))
    && (forall i, j :: 0 <= i < j < |queue| ==> |queue[i].path| <= |queue[j].path|)
    && (forall i, j :: 0 <= i < |queue| && 0 <= j < |queue| ==> |queue[i].path| <= |queue[j].path| + 1)
  }

  /** v was visited within n steps, or some queued entry for it is that short. */
  ghost predicate ReachedBy(depth: map<string, nat>, queue: seq<PathNode>, v: string, n: int) {
    (v in depth && depth[v] <= n) || exists q :: q in queue && q.name == v && |q.path| <= n
  }

  /** Visited nodes are no deeper than the queue, and all they lead to is reached. */
  ghost predicate Progress(store: Store, repo: string, from: string, maxDepth: int,
                           depth: map<string, nat>, queue: seq<PathNode>) {
    && ReachedBy(depth, queue, from, 0)
    && (forall u, q :: u in depth && q in queue ==> depth[u] <= |q.path|)
    && (forall u, s :: u in depth && depth[u] < maxDepth && Leaves(store, repo, u, s) ==>
          ReachedBy(depth, queue, s.to, depth[u] + 1))
  }

  /** A route within the cap leads to a visited node, or a queued entry is at most
      as long. */
  lemma {:induction false} RouteReached(store: Store, repo: string, from: string, maxDepth: int,
                                        depth: map<string, nat>, queue: seq<PathNode>, steps: seq<PathStep>, v: string)
    requires Progress(store, repo, from, maxDepth, depth, queue)
    requires Route(store, repo, from, steps, v) && |steps| <= maxDepth
    ensures (v in depth && depth[v] <= |steps|) || exists q :: q in queue && |q.path| <= |steps|
  {
    hide Leaves;
    if steps != [] {
      RouteWithoutLast(store, repo, from, steps, v);
      var n := |steps| - 1;
      var u := End(from, steps[..n]);
      RouteReached(store, repo, from, maxDepth, depth, queue, steps[..n], u);
      if u in depth && depth[u] <= n {
        assert ReachedBy(depth, queue, v, depth[u] + 1);
      }
    }
  }

  /** Dropping an entry for a node that is already visited loses nothing. */
  lemma SkipVisited(store: Store, repo: string, from: string, maxDepth: int,
                    depth: map<string, nat>, queue: seq<PathNode>)
    requires queue != [] && queue[0].name in depth
    requires Progress(store, repo, from, maxDepth, depth, queue)
    ensures Progress(store, repo, from, maxDepth, depth, queue[1..])
  {
    hide Leaves;
    forall v, n | ReachedBy(depth, queue, v, n) ensures ReachedBy(depth, queue[1..], v, n) {
      PoppedStillReached(depth, depth, queue, queue[1..], v, n);
    }
  }

  lemma PoppedStillReached(depth: map<string, nat>, depth': map<string, nat>, queue: seq<PathNode>,
                           queue': seq<PathNode>, v: string, n: int)
    requires queue != [] && queue[1..] <= queue'
    requires queue[0].name in depth' && depth'[queue[0].name] <= |queue[0].path|
    requires forall u :: u in depth ==> u in depth' && depth'[u] == depth[u]
    requires ReachedBy(depth, queue, v, n)
    ensures ReachedBy(depth', queue', v, n)
  {
    if !(v in depth && depth[v] <= n) {
      var q :| q in queue && q.name == v && |q.path| <= n;
      if q != queue[0] {
        assert q in queue[1..] && q in queue';
      }
    }
  }

  /** Visiting the head of the queue and queueing what it leads to keeps the
      search on course; at the depth cap nothing needs queueing. */
  lemma VisitHead(store: Store, repo: string, from: string, maxDepth: int,
                  depth: map<string, nat>, queue: seq<PathNode>, added: seq<PathNode>)
    requires queue != [] && queue[0].name !in depth
    requires QueueOk(store, repo, from, maxDepth, queue)
    requires Progress(store, repo, from, maxDepth, depth, queue)
    requires forall q :: q in added ==> |q.path| == |queue[0].path| + 1
    requires |queue[0].path| < maxDepth ==>
               forall q :: Continues(store, repo, queue[0], depth.Keys + {queue[0].name}, q) ==> q in added
    ensures Progress(store, repo, from, maxDepth, depth[queue[0].name := |queue[0].path|], queue[1..] + added)
  {
    hide Leaves, Route, Continues;
    var current := queue[0];
    var k := |current.path|;
    var depth', queue' := depth[current.name := k], queue[1..] + added;
    forall v, n | ReachedBy(depth, queue, v, n) ensures ReachedBy(depth', queue', v, n) {
      PoppedStillReached(depth, depth', queue, queue', v, n);
    }
    forall u, q | u in depth' && q in queue' ensures depth'[u] <= |q.path| {
      assert q in queue || q in added;
      assert current in queue;
      if q in queue {
        assert |queue[0].path| <= |q.path|;
      }
    }
    forall u, s | u in depth' && depth'[u] < maxDepth && Leaves(store, repo, u, s)
      ensures ReachedBy(depth', queue', s.to, depth'[u] + 1)
    {
      if u == current.name {
        HeadLeads(store, repo, current, depth, added, s, queue');
        if s.to in depth {
          assert depth[s.to] <= |queue[0].path| by { assert current in queue; }
        }
      } else {
        assert ReachedBy(depth, queue, s.to, depth[u] + 1);
      }
    }
  }

  lemma HeadLeads(store: Store, repo: string, current: PathNode, depth: map<string, nat>,
                  added: seq<PathNode>, s: PathStep, queue': seq<PathNode>)
    requires Leaves(store, repo, current.name, s)
    requires forall q :: Continues(store, repo, current, depth.Keys + {current.name}, q) ==> q in added
    requires forall q :: q in added ==> q in queue'
    ensures s.to in depth || s.to == current.name
            || exists q :: q in queue' && q.name == s.to && |q.path| == |current.path| + 1
  {
    if s.to !in depth && s.to != current.name {
      var q := PathNode(s.to, current.path + [s]);
      assert Continues(store, repo, current, depth.Keys + {current.name}, q);
    }
  }

  lemma QueueTail(store: Store, repo: string, from: string, maxDepth: int, queue: seq<PathNode>)
    requires queue != [] && QueueOk(store, repo, from, maxDepth, queue)
    ensures QueueOk(store, repo, from, maxDepth, queue[1..])
  {
    hide Route;
  }

  lemma QueueGrows(store: Store, repo: string, from: string, maxDepth: int,
                   queue: seq<PathNode>, added: seq<PathNode>, visited: set<string>)
    requires queue != [] && QueueOk(store, repo, from, maxDepth, queue)
    requires |queue[0].path| < maxDepth
    requires forall q :: q in added ==> Continues(store, repo, queue[0], visited, q)
    ensures QueueOk(store, repo, from, maxDepth, queue[1..] + added)
    ensures forall q :: q in added ==> |q.path| == |queue[0].path| + 1
  {
    hide Leaves, Route;
    var current := queue[0];
    assert current in queue;
    forall q | q in added
      ensures Route(store, repo, from, q.path, q.name) && |q.path| == |current.path| + 1
      ensures q.name in Universe(store, from)
    {
      var s :| Leaves(store, repo, current.name, s) && q == PathNode(s.to, current.path + [s]);
      RouteExtends(store, repo, from, current.path, current.name, s);
      LeavesIntoUniverse(store, repo, current.name, s, from);
    }
    var queue' := queue[1..] + added;
    forall i | 0 <= i < |queue'|
      ensures queue'[i] in queue || queue'[i] in added
      ensures |current.path| <= |queue'[i].path| <= |current.path| + 1
    {
      if i < |queue| - 1 {
        assert queue'[i] == queue[i + 1];
      } else {
        assert queue'[i] == added[i - (|queue| - 1)];
      }
    }
    forall i, j | 0 <= i < j < |queue'| ensures |queue'[i].path| <= |queue'[j].path| {
      if j < |queue| - 1 {
        assert queue'[i] == queue[i + 1] && queue'[j] == queue[j + 1];
      } else {
        assert queue'[j] in added;
      }
    }
  }

  /** Nothing shorter than the head of the queue reaches an unvisited node. */
  lemma HeadIsShortest(store: Store, repo: string, from: string, maxDepth: int,
                       depth: map<string, nat>, queue: seq<PathNode>)
    requires queue != [] && QueueOk(store, repo, from, maxDepth, queue)
    requires Progress(store, repo, from, maxDepth, depth, queue)
    requires queue[0].name !in depth
    ensures forall steps :: Route(store, repo, from, steps, queue[0].name) ==> |queue[0].path| <= |steps|
  {
    hide Leaves, Route, Progress;
    assert queue[0] in queue;
    forall steps | Route(store, repo, from, steps, queue[0].name) ensures |queue[0].path| <= |steps| {
      if |steps| <= maxDepth {
        RouteReached(store, repo, from, maxDepth, depth, queue, steps, queue[0].name);
        var q :| q in queue && |q.path| <= |steps|;
        assert |queue[0].path| <= |q.path|;
      }
    }
  }

  lemma NothingLeft(store: Store, repo: string, from: string, maxDepth: int, depth: map<string, nat>, to: string)
    requires Progress(store, repo, from, maxDepth, depth, []) && to !in depth
    ensures forall steps :: Route(store, repo, from, steps, to) ==> |steps| > maxDepth
  {
    hide Leaves, Route, Progress;
    forall steps | Route(store, repo, from, steps, to) ensures |steps| > maxDepth {
      if |steps| <= maxDepth {
        RouteReached(store, repo, from, maxDepth, depth, [], steps, to);
      }
    }
  }

  function FilterPathSteps(path: seq<PathStep>, repo: string): seq<PathStep> {
    if repo == "" then path
    else if path == [] then []
    else
      var n := |path| - 1;
      if path[n].repo == repo then FilterPathSteps(path[..n], repo) + [path[n]] else FilterPathSteps(path[..n], repo)
  }

  lemma StepInScope(store: Store, repo: string, name: string, s: PathStep)
    requires Leaves(store, repo, name, s)
    ensures !RepoMismatch(s.repo, repo)
  {
    RowStepsMembers(EdgesFrom(store.rows, store.normalize(name)), repo, s);
    ContractStepsMembers(store.contracts, name, repo, s);
  }

  /** Every step of a route is already in scope, so the last filter drops none. */
  lemma {:induction false} RouteInScope(store: Store, repo: string, from: string, steps: seq<PathStep>, to: string)
    requires Route(store, repo, from, steps, to)
    ensures FilterPathSteps(steps, repo) == steps
  {
    hide Leaves;
    if repo != "" && steps != [] {
      RouteWithoutLast(store, repo, from, steps, to);
      var n := |steps| - 1;
      var u := End(from, steps[..n]);
      RouteInScope(store, repo, from, steps[..n], u);
      StepInScope(store, repo, u, steps[n]);
      assert steps == steps[..n] + [steps[n]];
    }
  }

  function Limit(maxDepth: int): int {
    if maxDepth <= 0 then DEFAULT_DEPTH else maxDepth
  }

  /** from and to are known and written differently, and a route within the depth cap
      leads from one to the other. */
  ghost predicate Finds(store: Store, repo: string, from: string, to: string, maxDepth: int) {
    && store.normalize(from) in store.symbols && store.normalize(to) in store.symbols
    && from != to
    && exists steps :: Route(store, repo, from, steps, to) && |steps| <= Limit(maxDepth)
  }

  /** The shortest route from from to to within the depth cap, if from and to are
      different known symbols and there is one. */
  method FindPath(store: Store, from: string, to: string, maxDepth: int, repo: string) returns (out: Outcome)
    ensures out.UnknownSymbol? <==>
              store.normalize(from) !in store.symbols || store.normalize(to) !in store.symbols
    ensures out.Found? ==> from != to && Route(store, repo, from, out.path, to)
    ensures out.Found? ==> forall steps :: Route(store, repo, from, steps, to) ==> |out.path| <= |steps|
    ensures out.Found? ==> 0 < |out.path| <= (if maxDepth <= 0 then 10 else maxDepth)
    ensures out.Found? <==> Finds(store, repo, from, to, maxDepth)
  {
    hide Route, Leaves, QueueOk, Progress, Continues;
    var limit := if maxDepth <= 0 then DEFAULT_DEPTH else maxDepth;
    if store.normalize(from) !in store.symbols || store.normalize(to) !in store.symbols {
      return UnknownSymbol;
    }
    var visited: set<string> := {};
    var queue := [PathNode(from, [])];
    ghost var depth: map<string, nat> := map[];
    SearchStarts(store, repo, from, limit);
    while queue != []
      invariant visited == depth.Keys
      invariant QueueOk(store, repo, from, limit, queue) && Progress(store, repo, from, limit, depth, queue)
      invariant from != to ==> to !in depth
      invariant from == to ==> from in depth || queue == [PathNode(from, [])]
      decreases Universe(store, from) - visited, |queue|
    {
      var current := queue[0];
      var rest := queue[1..];
      QueueTail(store, repo, from, limit, queue);
      HeadInUniverse(store, repo, from, limit, queue);
      if current.name in visited {
        SkipVisited(store, repo, from, limit, depth, queue);
        queue := rest;
        continue;
      }
      assert Universe(store, from) - (visited + {current.name}) < Universe(store, from) - visited;
      visited := visited + {current.name};
      if current.name == to && |current.path| > 0 {
        HeadIsShortest(store, repo, from, limit, depth, queue);
        RouteInScope(store, repo, from, current.path, to);
        return Found(FilterPathSteps(current.path, repo));
      }
      if |current.path| >= limit {
        VisitHead(store, repo, from, limit, depth, queue, []);
        assert rest + [] == rest;
        depth := depth[current.name := |current.path|];
        queue := rest;
        continue;
      }
      var queue' := ExpandPathNode(store, current, repo, rest, visited);
      ghost var added := queue'[|rest|..];
      assert queue' == rest + added;
      QueueGrows(store, repo, from, limit, queue, added, visited);
      VisitHead(store, repo, from, limit, depth, queue, added);
      depth := depth[current.name := |current.path|];
      queue := queue';
    }
    if from != to {
      NothingLeft(store, repo, from, limit, depth, to);
    }
    return NoPath;
  }

  lemma HeadInUniverse(store: Store, repo: string, from: string, maxDepth: int, queue: seq<PathNode>)
    requires queue != [] && QueueOk(store, repo, from, maxDepth, queue)
    ensures queue[0].name in Universe(store, from)
    ensures Route(store, repo, from, queue[0].path, queue[0].name) && |queue[0].path| <= maxDepth
    ensures queue[0].path == [] ==> queue[0].name == from
  {
    assert queue[0] in queue;
  }

  lemma SearchStarts(store: Store, repo: string, from: string, maxDepth: int)
    requires maxDepth > 0
    ensures QueueOk(store, repo, from, maxDepth, [PathNode(from, [])])
    ensures Progress(store, repo, from, maxDepth, map[], [PathNode(from, [])])
  {
    var queue := [PathNode(from, [])];
    assert queue[0] in queue;
  }

  // --------------------------------------------------- what the names stand for

  /** What a step out of a name is, in terms of the stored rows. */
  lemma LeavesMeans(store: Store, repo: string, name: string, s: PathStep)
    ensures Leaves(store, repo, name, s) <==>
              || (exists e :: e in store.rows && e.fromRef == store.normalize(name)
                              && !RepoMismatch(e.repo, repo) && s == StepOf(e))
              || (exists c :: c in store.contracts && ContractLeaves(c, name, repo) && s == StepOf(ContractToEdge(c)))
  {
    RowStepsMembers(EdgesFrom(store.rows, store.normalize(name)), repo, s);
    ContractStepsMembers(store.contracts, name, repo, s);
  }

  /** In the fields of the index: a step is a stored row from the normalised name, or a
      confirmed contract from the name as written, of the repo asked for if one is. */
  lemma StepMeans(store: Store, repo: string, name: string, s: PathStep)
    ensures Leaves(store, repo, name, s) <==>
              || (exists e :: e in store.rows && e.fromRef == store.normalize(name) && (repo == "" || e.repo == repo)
                              && s == PathStep(e.fromRef, e.toRef, e.edgeType, e.posFile, e.repo, e.posLine))
              || (exists c :: c in store.contracts && c.fromRef == name && !c.suggested
                              && (repo == "" || c.repo == repo)
                              && s == PathStep(c.fromRef, c.toRef, "contract", "", c.repo, 0))
  {
    LeavesMeans(store, repo, name, s);
    hide Leaves;
    if e :| e in store.rows && e.fromRef == store.normalize(name) && (repo == "" || e.repo == repo)
            && s == PathStep(e.fromRef, e.toRef, e.edgeType, e.posFile, e.repo, e.posLine) {
      assert !RepoMismatch(e.repo, repo) && s == StepOf(e);
    }
    if c :| c in store.contracts && c.fromRef == name && !c.suggested && (repo == "" || c.repo == repo)
            && s == PathStep(c.fromRef, c.toRef, "contract", "", c.repo, 0) {
      assert ContractLeaves(c, name, repo) && s == StepOf(ContractToEdge(c));
    }
  }

  /** A route is linked: its first step leaves from, each further one where the step
      before leads, and the last leads to to. */
  lemma RouteMeans(store: Store, repo: string, from: string, steps: seq<PathStep>, to: string)
    requires steps != []
    ensures Route(store, repo, from, steps, to) <==>
              && Leaves(store, repo, from, steps[0]) && steps[|steps| - 1].to == to
              && forall i, j | j == i + 1 :: 0 <= i && j < |steps| ==> Leaves(store, repo, steps[i].to, steps[j])
  {
    hide Leaves;
    forall i | 0 <= i < |steps|
      ensures End(from, steps[..i]) == if i == 0 then from else steps[i - 1].to
    {
    }
    if Leaves(store, repo, from, steps[0]) && steps[|steps| - 1].to == to
       && forall i, j | j == i + 1 :: 0 <= i && j < |steps| ==> Leaves(store, repo, steps[i].to, steps[j]) {
      forall i | 0 <= i < |steps|
        ensures Leaves(store, repo, End(from, steps[..i]), steps[i])
      {
        var h := i - 1;
        assert i == h + 1;
      }
    }
  }

  /** A path is looked for between known names that differ, over at most as many steps
      as asked for, or 10. */
  lemma FindsMeans(store: Store, repo: string, from: string, to: string, maxDepth: int)
    ensures Finds(store, repo, from, to, maxDepth) <==>
              && store.normalize(from) in store.symbols && store.normalize(to) in store.symbols && from != to
              && exists steps :: Route(store, repo, from, steps, to)
                                 && |steps| <= (if maxDepth <= 0 then 10 else maxDepth)
  {
    hide Route;
  }

  /** Every symbol, row and contract is named in the stored form. */
  ghost predicate NamesStored(store: Store) {
    && (forall x :: x in store.symbols ==> store.normalize(x) == x)
    && (forall e :: e in store.rows ==> store.normalize(e.fromRef) == e.fromRef && store.normalize(e.toRef) == e.toRef)
    && (forall c :: c in store.contracts ==>
          store.normalize(c.fromRef) == c.fromRef && store.normalize(c.toRef) == c.toRef)
  }

  lemma EndStored(store: Store, repo: string, from: string, steps: seq<PathStep>, to: string)
    requires NamesStored(store) && Route(store, repo, from, steps, to) && steps != []
    ensures store.normalize(to) == to
  {
    RouteWithoutLast(store, repo, from, steps, to);
    var n := |steps| - 1;
    LeavesMeans(store, repo, End(from, steps[..n]), steps[n]);
  }

  /** A target that is not written in the stored form is never found. */
  lemma UnstoredTargetIsMissed(store: Store, repo: string, from: string, to: string, maxDepth: int)
    requires NamesStored(store) && store.normalize(to) != to
    ensures !Finds(store, repo, from, to, maxDepth)
  {
    hide NamesStored, Leaves;
    forall steps | Route(store, repo, from, steps, to)
      ensures from == to
    {
      if steps != [] {
        EndStored(store, repo, from, steps, to);
      }
    }
  }

  lemma RouteLeaves(store: Store, repo: string, from: string, steps: seq<PathStep>, to: string)
    requires Route(store, repo, from, steps, to)
    ensures steps != [] ==> exists s :: Leaves(store, repo, from, s)
  {
    hide Leaves;
    if steps != [] {
      assert steps[..0] == [];
      assert Leaves(store, repo, End(from, steps[..0]), steps[0]);
    }
  }

  lemma NothingFrom(store: Store, repo: string, from: string, to: string, maxDepth: int)
    requires forall s :: !Leaves(store, repo, from, s)
    ensures !Finds(store, repo, from, to, maxDepth)
  {
    hide Leaves;
    forall steps | Route(store, repo, from, steps, to)
      ensures from == to
    {
      RouteLeaves(store, repo, from, steps, to);
    }
  }

  lemma OneStep(store: Store, repo: string, from: string, s: PathStep, maxDepth: int)
    requires Leaves(store, repo, from, s) && from != s.to
    requires store.normalize(from) in store.symbols && store.normalize(s.to) in store.symbols
    ensures Finds(store, repo, from, s.to, maxDepth)
  {
    hide Leaves;
    var steps := [s];
    assert steps[..0] == [];
    assert Route(store, repo, from, steps, s.to);
  }

  /** The search finds to from from in a store if and only if it finds the symbol that
      to stands for from the symbol that from stands for. */
  ghost predicate AgreeOn(store: Store, repo: string, from: string, to: string, maxDepth: int) {
    Finds(store, repo, from, to, maxDepth)
    <==> Finds(store, repo, store.normalize(from), store.normalize(to), maxDepth)
  }

  /** It does in every store whose names are in the stored form. */
  ghost predicate AlwaysAgree(normalize: string -> string, repo: string, from: string, to: string, maxDepth: int) {
    forall rows, contracts, symbols :: NamesStored(Store(rows, contracts, normalize, symbols)) ==>
      AgreeOn(Store(rows, contracts, normalize, symbols), repo, from, to, maxDepth)
  }

  function CallEdge(from: string, to: string, repo: string): Edge {
    Edge(from, to, "calls", "", repo, 0)
  }

  ghost predicate Stored(normalize: string -> string, name: string) {
    normalize(name) == name
  }

  /** What a caller can check of the two names: whether they are stored as written, or
      else lead nowhere when normalised. */
  ghost predicate AnswersMeant(normalize: string -> string, from: string, to: string) {
    var nf, nt := normalize(from), normalize(to);
    if Stored(normalize, to)
    then Stored(normalize, from) || (!Stored(normalize, nf) && !Stored(normalize, normalize(nf)))
    else !Stored(normalize, nt) || !Stored(normalize, normalize(nf)) || nf == nt
  }

  /** Both names are normalised when symbols and edges are looked up, but the target is
      compared and contracts are matched as written. The answer is the one for the
      symbols meant, in every store, if and only if both names are written in the stored
      form, or neither question can have a path. */
  lemma AnswersForSymbolsMeant(normalize: string -> string, repo: string, from: string, to: string, maxDepth: int)
    ensures AlwaysAgree(normalize, repo, from, to, maxDepth) <==> AnswersMeant(normalize, from, to)
  {
    var nf, nt := normalize(from), normalize(to);
    if AnswersMeant(normalize, from, to) {
      if !(Stored(normalize, to) && Stored(normalize, from)) {
        BothMissed(normalize, repo, from, to, maxDepth);
      }
    } else if !Stored(normalize, to) {
      TargetMissed(normalize, repo, from, to, maxDepth);
    } else if !Stored(normalize, nf) {
      StartMissed(normalize, repo, from, to, maxDepth);
    } else if nf == to {
      LoopFound(normalize, repo, from, to, maxDepth);
    } else {
      ContractMissed(normalize, repo, from, to, maxDepth);
    }
  }

  /** Where normalising twice is normalising once, both names are stored as written, or
      the target is not and both stand for one symbol. */
  lemma AnswersMeantOnce(normalize: string -> string, from: string, to: string)
    requires Stored(normalize, normalize(from)) && Stored(normalize, normalize(to))
    ensures AnswersMeant(normalize, from, to) <==>
            || (Stored(normalize, from) && Stored(normalize, to))
            || (!Stored(normalize, to) && normalize(from) == normalize(to))
  {}

  /** From a name whose normalised form is not stored nothing is found. */
  lemma UnstoredStartIsMissed(store: Store, repo: string, from: string, to: string, maxDepth: int)
    requires NamesStored(store) && !Stored(store.normalize, store.normalize(from))
    ensures !Finds(store, repo, from, to, maxDepth)
  {}

  lemma BothMissed(normalize: string -> string, repo: string, from: string, to: string, maxDepth: int)
    requires AnswersMeant(normalize, from, to) && !(Stored(normalize, from) && Stored(normalize, to))
    ensures AlwaysAgree(normalize, repo, from, to, maxDepth)
  {
    hide NamesStored, Finds;
    var nf, nt := normalize(from), normalize(to);
    forall rows, contracts, symbols | NamesStored(Store(rows, contracts, normalize, symbols))
      ensures AgreeOn(Store(rows, contracts, normalize, symbols), repo, from, to, maxDepth)
    {
      var store := Store(rows, contracts, normalize, symbols);
      if Stored(normalize, to) {
        UnstoredStartIsMissed(store, repo, from, to, maxDepth);
        UnstoredStartIsMissed(store, repo, nf, to, maxDepth);
      } else {
        UnstoredTargetIsMissed(store, repo, from, to, maxDepth);
        MeantMissed(store, repo, nf, nt, maxDepth);
      }
    }
  }

  lemma MeantMissed(store: Store, repo: string, nf: string, nt: string, maxDepth: int)
    requires NamesStored(store)
    requires !Stored(store.normalize, nt) || !Stored(store.normalize, store.normalize(nf)) || nf == nt
    ensures !Finds(store, repo, nf, nt, maxDepth)
  {
    hide NamesStored;
    if !Stored(store.normalize, nt) {
      UnstoredTargetIsMissed(store, repo, nf, nt, maxDepth);
    } else if !Stored(store.normalize, store.normalize(nf)) {
      UnstoredStartIsMissed(store, repo, nf, nt, maxDepth);
    }
  }

  /** A store with one row. */
  function RowStore(normalize: string -> string, from: string, to: string, repo: string): Store {
    Store([CallEdge(from, to, repo)], [], normalize, {from, to})
  }

  lemma RowStoreLeaves(normalize: string -> string, from: string, to: string, repo: string, name: string, s: PathStep)
    ensures Leaves(RowStore(normalize, from, to, repo), repo, name, s)
       <==> normalize(name) == from && s == StepOf(CallEdge(from, to, repo))
  {
    var e := CallEdge(from, to, repo);
    assert [e][0] == e;
    LeavesMeans(RowStore(normalize, from, to, repo), repo, name, s);
  }

  /** A store with one confirmed contract. */
  function ContractStore(normalize: string -> string, from: string, to: string, repo: string): Store {
    Store([], [Contract(from, to, repo, false)], normalize, {from, to})
  }

  lemma ContractStoreLeaves(normalize: string -> string, from: string, to: string, repo: string, name: string,
                            s: PathStep)
    ensures Leaves(ContractStore(normalize, from, to, repo), repo, name, s)
       <==> name == from && s == StepOf(ContractToEdge(Contract(from, to, repo, false)))
  {
    var c := Contract(from, to, repo, false);
    assert [c][0] == c;
    LeavesMeans(ContractStore(normalize, from, to, repo), repo, name, s);
  }

  lemma Disagree(store: Store, repo: string, from: string, to: string, maxDepth: int)
    requires NamesStored(store)
    requires !AgreeOn(store, repo, from, to, maxDepth)
    ensures !AlwaysAgree(store.normalize, repo, from, to, maxDepth)
  {
    hide NamesStored, AgreeOn;
    assert store == Store(store.rows, store.contracts, store.normalize, store.symbols);
  }

  /** A row to a target written in another form is missed. */
  lemma TargetMissed(normalize: string -> string, repo: string, from: string, to: string, maxDepth: int)
    requires !Stored(normalize, to) && Stored(normalize, normalize(to))
    requires Stored(normalize, normalize(normalize(from))) && normalize(from) != normalize(to)
    ensures var store := RowStore(normalize, normalize(normalize(from)), normalize(to), repo);
            && NamesStored(store)
            && Finds(store, repo, normalize(from), normalize(to), maxDepth)
            && !Finds(store, repo, from, to, maxDepth)
    ensures !AlwaysAgree(normalize, repo, from, to, maxDepth)
  {
    var nf, nt := normalize(from), normalize(to);
    var nnf := normalize(nf);
    var store := RowStore(normalize, nnf, nt, repo);
    assert NamesStored(store);
    hide NamesStored, Finds, Leaves, AlwaysAgree;
    var s := StepOf(CallEdge(nnf, nt, repo));
    RowStoreLeaves(normalize, nnf, nt, repo, nf, s);
    OneStep(store, repo, nf, s, maxDepth);
    UnstoredTargetIsMissed(store, repo, from, to, maxDepth);
    Disagree(store, repo, from, to, maxDepth);
  }

  /** A start that takes two passes to reach the stored form is not a known symbol. */
  lemma StartMissed(normalize: string -> string, repo: string, from: string, to: string, maxDepth: int)
    requires Stored(normalize, to) && !Stored(normalize, normalize(from))
    requires Stored(normalize, normalize(normalize(from)))
    ensures var store := RowStore(normalize, normalize(normalize(from)), to, repo);
            && NamesStored(store)
            && Finds(store, repo, normalize(from), to, maxDepth)
            && !Finds(store, repo, from, to, maxDepth)
    ensures !AlwaysAgree(normalize, repo, from, to, maxDepth)
  {
    var nf := normalize(from);
    var nnf := normalize(nf);
    var store := RowStore(normalize, nnf, to, repo);
    assert NamesStored(store);
    hide NamesStored, Finds, Leaves, AlwaysAgree;
    var s := StepOf(CallEdge(nnf, to, repo));
    RowStoreLeaves(normalize, nnf, to, repo, nf, s);
    OneStep(store, repo, nf, s, maxDepth);
    UnstoredStartIsMissed(store, repo, from, to, maxDepth);
    Disagree(store, repo, from, to, maxDepth);
  }

  /** A contract of a start written in another form is missed. */
  lemma ContractMissed(normalize: string -> string, repo: string, from: string, to: string, maxDepth: int)
    requires normalize(normalize(from)) == normalize(from) && normalize(to) == to
    requires normalize(from) != from && normalize(from) != to
    ensures var store := ContractStore(normalize, normalize(from), to, repo);
            && NamesStored(store)
            && Finds(store, repo, normalize(from), to, maxDepth)
            && !Finds(store, repo, from, to, maxDepth)
    ensures !AlwaysAgree(normalize, repo, from, to, maxDepth)
  {
    var nf := normalize(from);
    var store := ContractStore(normalize, nf, to, repo);
    assert NamesStored(store);
    hide NamesStored, Finds, Leaves, AlwaysAgree;
    var s := StepOf(ContractToEdge(Contract(nf, to, repo, false)));
    ContractStoreLeaves(normalize, nf, to, repo, nf, s);
    OneStep(store, repo, nf, s, maxDepth);
    forall t
      ensures !Leaves(store, repo, from, t)
    {
      ContractStoreLeaves(normalize, nf, to, repo, from, t);
    }
    NothingFrom(store, repo, from, to, maxDepth);
    Disagree(store, repo, from, to, maxDepth);
  }

  /** A loop through one symbol is a path when its start is written in another form. */
  lemma LoopFound(normalize: string -> string, repo: string, from: string, to: string, maxDepth: int)
    requires normalize(to) == to && normalize(from) == to && from != to
    ensures var store := RowStore(normalize, to, to, repo);
            && NamesStored(store)
            && Finds(store, repo, from, to, maxDepth)
            && !Finds(store, repo, to, to, maxDepth)
    ensures !AlwaysAgree(normalize, repo, from, to, maxDepth)
  {
    var store := RowStore(normalize, to, to, repo);
    assert NamesStored(store);
    assert !Finds(store, repo, to, to, maxDepth);
    hide NamesStored, Finds, Leaves, AlwaysAgree;
    var s := StepOf(CallEdge(to, to, repo));
    RowStoreLeaves(normalize, to, to, repo, from, s);
    OneStep(store, repo, from, s, maxDepth);
    Disagree(store, repo, from, to, maxDepth);
  }

  // --------------------------------------------------- with the code's own normalisation

  /** A direct edge to a method is missed when its receiver is written in parentheses. */
  lemma ParenthesisedTargetIsMissed(p: string, x: string, m: string, from: string, maxDepth: int)
    requires NoParens(p) && NoParens(x) && x != "" && NoParens(m)
    requires NoParens(from) && from != WithoutReceiver(p, x, m)
    ensures var store := RowStore(NormalizeQualifiedName, from, WithoutReceiver(p, x, m), "");
            && NamesStored(store)
            && Finds(store, "", from, WithoutReceiver(p, x, m), maxDepth)
            && !Finds(store, "", from, WithReceiver(p, x, m), maxDepth)
  {
    OneReceiver(p, x, m);
    ReceiverShorter(p, x, m);
    NoParensStored(from);
    TargetMissed(NormalizeQualifiedName, "", from, WithReceiver(p, x, m), maxDepth);
  }

  /** A direct contract of the method is missed when its receiver is written so. */
  lemma ParenthesisedStartIsMissed(p: string, x: string, m: string, to: string, maxDepth: int)
    requires NoParens(p) && NoParens(x) && x != "" && NoParens(m)
    requires NoParens(to) && to != WithoutReceiver(p, x, m)
    ensures var store := ContractStore(NormalizeQualifiedName, WithoutReceiver(p, x, m), to, "");
            && NamesStored(store)
            && Finds(store, "", WithoutReceiver(p, x, m), to, maxDepth)
            && !Finds(store, "", WithReceiver(p, x, m), to, maxDepth)
  {
    OneReceiver(p, x, m);
    ReceiverShorter(p, x, m);
    NoParensStored(to);
    ContractMissed(NormalizeQualifiedName, "", WithReceiver(p, x, m), to, maxDepth);
  }
}
