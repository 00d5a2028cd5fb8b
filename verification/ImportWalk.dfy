/** Breadth-first walks over the package import graph (store/store.go and
    query/query.go): one list of edges per package, grouped once. */
module ImportWalk {
  import opened Ordering
  import opened Sequences

  datatype Edge = Edge(fromRef: string, toRef: string, edgeType: string, id: nat)

  type Adjacency = map<string, seq<Edge>>

  const EDGE_TYPE_IMPORTS := "imports"

  /** The two callbacks the walk is used with: every target, or the project
      package a target resolves to unless it was met before. */
  datatype Next = ToRef | Unmet(resolve: string -> string) {

    /** The package an edge leads to; empty for none. */
    function Target(e: Edge): string {
      match this
      case ToRef => e.toRef
      case Unmet(resolve) => resolve(e.toRef)
    }

    function Apply(e: Edge, visited: set<string>): string {
      match this
      case ToRef => e.toRef
      case Unmet(resolve) =>
        var target := resolve(e.toRef);
        if target == "" || target in visited then "" else target
    }
  }

  /** adj[p], where a missing key reads as an empty slice. */
  function EdgesOf(adj: Adjacency, p: string): seq<Edge> {
    if p in adj then adj[p] else []
  }

  /** The import edges out of p, in order. */
  function ImportsFrom(edges: seq<Edge>, p: string): seq<Edge> {
    if edges == [] then []
    else
      var n := |edges| - 1;
      if edges[n].edgeType == EDGE_TYPE_IMPORTS && edges[n].fromRef == p
      then ImportsFrom(edges[..n], p) + [edges[n]] else ImportsFrom(edges[..n], p)
  }

  lemma ImportsFromStep(edges: seq<Edge>, i: nat, p: string)
    requires i < |edges|
    ensures ImportsFrom(edges[..i + 1], p) ==
              if edges[i].edgeType == EDGE_TYPE_IMPORTS && edges[i].fromRef == p
              then ImportsFrom(edges[..i], p) + [edges[i]] else ImportsFrom(edges[..i], p)
  {
    assert edges[..i + 1][..i] == edges[..i];
  }

  /** What is listed under p are the edges from p that are of type "imports", as often as
      they are stored. */
  lemma {:induction false} ImportsFromHas(edges: seq<Edge>, p: string, e: Edge)
    ensures multiset(ImportsFrom(edges, p))[e] ==
            if e.fromRef == p && e.edgeType == "imports" then multiset(edges)[e] else 0
  {
    if edges != [] {
      var n := |edges| - 1;
      ImportsFromHas(edges[..n], p, e);
      assert edges == edges[..n] + [edges[n]];
    }
  }

  method BuildImportAdjacency(edges: seq<Edge>) returns (adj: Adjacency)
    ensures forall p :: EdgesOf(adj, p) == ImportsFrom(edges, p)
    ensures forall p :: p in adj ==> adj[p] != []
  {
    adj := map[];
    assert forall p :: ImportsFrom(edges[..0], p) == [];
    hide ImportsFrom;
    var i := 0;
    while i < |edges|
      invariant 0 <= i <= |edges|
      invariant forall p :: EdgesOf(adj, p) == ImportsFrom(edges[..i], p)
      invariant forall p :: p in adj ==> adj[p] != []
    {
      var e := edges[i];
      ghost var before := adj;
      if e.edgeType == EDGE_TYPE_IMPORTS {
        adj := adj[e.fromRef := EdgesOf(adj, e.fromRef) + [e]];
      }
      forall p ensures EdgesOf(adj, p) == ImportsFrom(edges[..i + 1], p) {
        ImportsFromStep(edges, i, p);
        assert EdgesOf(before, p) == ImportsFrom(edges[..i], p);
      }
      i := i + 1;
    }
    assert edges[..i] == edges;
  }

  // ----------------------------------------------------------------- reachability

  /** e leads from package p to package q. */
  ghost predicate Leads(adj: Adjacency, next: Next, p: string, e: Edge, q: string) {
    e in EdgesOf(adj, p) && next.Target(e) == q && q != ""
  }

  ghost predicate Imports(adj: Adjacency, next: Next, p: string, q: string) {
    exists e :: Leads(adj, next, p, e, q)
  }

  ghost predicate Path(adj: Adjacency, next: Next, s: seq<string>) {
    s != [] && forall i :: 0 <= i < |s| - 1 ==> Imports(adj, next, s[i], s[i + 1])
  }

  ghost predicate Reachable(adj: Adjacency, next: Next, start: string, p: string) {
    exists s :: Path(adj, next, s) && s[0] == start && s[|s| - 1] == p
  }

  lemma ReachableStart(adj: Adjacency, next: Next, start: string)
    ensures Reachable(adj, next, start, start)
  {
    assert Path(adj, next, [start]);
  }

  lemma ReachableStep(adj: Adjacency, next: Next, start: string, p: string, e: Edge, q: string)
    requires Reachable(adj, next, start, p) && Leads(adj, next, p, e, q)
    ensures Reachable(adj, next, start, q)
  {
    hide Leads;
    var s :| Path(adj, next, s) && s[0] == start && s[|s| - 1] == p;
    var t := s + [q];
    assert Imports(adj, next, p, q);
    assert Path(adj, next, t);
  }

  /** A set that holds start and everything its members lead to holds every
      reachable package. */
  lemma {:induction false} ClosedHoldsReachable(adj: Adjacency, next: Next, visited: set<string>, s: seq<string>)
    requires Path(adj, next, s) && s[0] in visited
    requires forall p, q :: p in visited && Imports(adj, next, p, q) ==> q in visited
    ensures s[|s| - 1] in visited
  {
    hide Imports;
    if |s| > 1 {
      assert Imports(adj, next, s[0], s[1]);
      forall i | 0 <= i < |s[1..]| - 1 ensures Imports(adj, next, s[1..][i], s[1..][i + 1]) {
        assert Imports(adj, next, s[i + 1], s[i + 2]);
      }
      ClosedHoldsReachable(adj, next, visited, s[1..]);
    }
  }

  // --------------------------------------------------------------------- the walk

  /** The edges of es whose target is not empty. */
  function Kept(es: seq<Edge>): seq<Edge> {
    if es == [] then []
    else
      var n := |es| - 1;
      if es[n].toRef == "" then Kept(es[..n]) else Kept(es[..n]) + [es[n]]
  }

  function KeptOf(adj: Adjacency, order: seq<string>): seq<Edge> {
    if order == [] then [] else KeptOf(adj, order[..|order| - 1]) + Kept(EdgesOf(adj, order[|order| - 1]))
  }

  /** What has been returned after expanding the packages of done in order and the
      edges es of one more: every kept edge in turn, or one edge for each package
      met besides start, in the order they were met. */
  ghost predicate ReturnedSoFar(adj: Adjacency, next: Next, order: seq<string>, done: nat, es: seq<Edge>,
                                out: seq<Edge>)
  {
    && done <= |order|
    && match next
       case ToRef => out == KeptOf(adj, order[..done]) + Kept(es)
       case Unmet(_) =>
         |out| == |order| - 1 && forall i :: 0 <= i < |out| ==> next.Target(out[i]) == order[i + 1]
  }

  /** order lists the packages met, start first, each reachable; the first done of
      them are expanded. */
  ghost predicate Met(adj: Adjacency, next: Next, start: string, order: seq<string>, visited: set<string>) {
    && order != [] && order[0] == start && Distinct(order)
    && (forall p :: p in visited <==> p in order)
    && (forall p :: p in visited ==> Reachable(adj, next, start, p))
  }

  /** Everything the edges es lead to is met. */
  ghost predicate Expanded(next: Next, es: seq<Edge>, visited: set<string>) {
    forall e :: e in es && next.Target(e) != "" ==> next.Target(e) in visited
  }

  /** The packages expanded so far have everything they lead to among the met. */
  ghost predicate ExpandedUpTo(adj: Adjacency, next: Next, order: seq<string>, done: nat, visited: set<string>) {
    done <= |order| && forall k :: 0 <= k < done ==> Expanded(next, EdgesOf(adj, order[k]), visited)
  }

  /** Each returned edge leaves a reachable package. */
  ghost predicate FromReachable(adj: Adjacency, next: Next, start: string, out: seq<Edge>) {
    forall e :: e in out ==> exists p :: e in EdgesOf(adj, p) && Reachable(adj, next, start, p)
  }

  lemma MeetsTarget(adj: Adjacency, next: Next, start: string, order: seq<string>, visited: set<string>,
                    p: string, e: Edge)
    requires Met(adj, next, start, order, visited) && p in visited && e in EdgesOf(adj, p)
    requires next.Target(e) != "" && next.Target(e) !in visited
    ensures Met(adj, next, start, order + [next.Target(e)], visited + {next.Target(e)})
  {
    var q := next.Target(e);
    assert Leads(adj, next, p, e, q);
    ReachableStep(adj, next, start, p, e, q);
    hide Reachable;
  }

  /** One edge of the inner loop: what it leads to is met after it. */
  lemma ExpandsOne(adj: Adjacency, next: Next, order: seq<string>, done: nat, es: seq<Edge>, j: nat,
                   visited: set<string>)
    requires j < |es| && ExpandedUpTo(adj, next, order, done, visited) && Expanded(next, es[..j], visited)
    ensures var target := next.Apply(es[j], visited);
            if target == "" || target in visited then Expanded(next, es[..j + 1], visited)
            else && target == next.Target(es[j])
                 && Expanded(next, es[..j + 1], visited + {target})
                 && ExpandedUpTo(adj, next, order + [target], done, visited + {target})
  {
    assert es[..j + 1] == es[..j] + [es[j]];
  }

  lemma KeptStep(es: seq<Edge>, j: nat)
    requires j < |es|
    ensures Kept(es[..j + 1]) == if es[j].toRef == "" then Kept(es[..j]) else Kept(es[..j]) + [es[j]]
  {
    assert es[..j + 1][..j] == es[..j];
  }

  /** One edge of the inner loop: what is returned and met after it. */
  lemma ReturnsOne(adj: Adjacency, next: Next, order: seq<string>, done: nat, es: seq<Edge>, j: nat,
                   out: seq<Edge>, visited: set<string>)
    requires j < |es| && done < |order| && forall p :: p in visited <==> p in order
    requires ReturnedSoFar(adj, next, order, done, es[..j], out)
    ensures var target := next.Apply(es[j], visited);
            if target == "" then ReturnedSoFar(adj, next, order, done, es[..j + 1], out)
            else if target in visited then ReturnedSoFar(adj, next, order, done, es[..j + 1], out + [es[j]])
            else ReturnedSoFar(adj, next, order + [target], done, es[..j + 1], out + [es[j]])
  {
    KeptStep(es, j);
    var target := next.Apply(es[j], visited);
    assert (order + [target])[..done] == order[..done];
    assert KeptOf(adj, order[..done]) + Kept(es[..j]) + [es[j]]
        == KeptOf(adj, order[..done]) + (Kept(es[..j]) + [es[j]]);
  }

  /** After the last edge of a package the package counts as expanded. */
  lemma ReturnsPackage(adj: Adjacency, next: Next, order: seq<string>, done: nat, out: seq<Edge>)
    requires done < |order|
    requires ReturnedSoFar(adj, next, order, done, EdgesOf(adj, order[done]), out)
    ensures ReturnedSoFar(adj, next, order, done + 1, [], out)
  {
    assert order[..done + 1][..done] == order[..done];
    assert KeptOf(adj, order[..done + 1]) == KeptOf(adj, order[..done]) + Kept(EdgesOf(adj, order[done]));
    assert KeptOf(adj, order[..done + 1]) + Kept([]) == KeptOf(adj, order[..done + 1]);
  }

  function AllTargets(adj: Adjacency, next: Next): set<string> {
    set p, e | p in adj && e in adj[p] :: next.Target(e)
  }

  lemma MetWithin(adj: Adjacency, next: Next, start: string, order: seq<string>, visited: set<string>)
    requires Met(adj, next, start, order, visited)
    ensures |order| <= |{start} + AllTargets(adj, next)|
  {
    forall p | p in order ensures p in {start} + AllTargets(adj, next) {
      assert Reachable(adj, next, start, p);
      var s :| Path(adj, next, s) && s[0] == start && s[|s| - 1] == p;
      if |s| > 1 {
        assert Imports(adj, next, s[|s| - 2], s[|s| - 1]);
        var e :| Leads(adj, next, s[|s| - 2], e, p);
        assert s[|s| - 2] in adj && e in adj[s[|s| - 2]];
      }
    }
    DistinctWithin(order, {start} + AllTargets(adj, next));
  }

  /** order lists the packages reachable from start, each once. With ToRef the
      edges returned are all the named ones out of those packages; with Unmet they
      are one for each package but start. */
  method ImportFrontierBFS(adj: Adjacency, start: string, next: Next) returns (out: seq<Edge>, ghost order: seq<string>)
    ensures order != [] && order[0] == start && Distinct(order)
    ensures forall p :: p in order <==> Reachable(adj, next, start, p)
    ensures ReturnedSoFar(adj, next, order, |order|, [], out)
    ensures FromReachable(adj, next, start, out)
  {
    hide Leads, Reachable, ReturnedSoFar, Kept, KeptOf, FromReachable;
    hide Expanded, ExpandedUpTo;
    var visited := {start};
    order := [start];
    WalkStarts(adj, next, start);
    out := [];
    if start !in adj {
      WalkEndsAtOnce(adj, next, start);
      return;
    }
    NothingExpanded(adj, next, order, visited);
    var queue := [start];
    ghost var done := 0;
    while queue != []
      invariant done <= |order| && queue == order[done..]
      invariant Met(adj, next, start, order, visited)
      invariant ExpandedUpTo(adj, next, order, done, visited)
      invariant ReturnedSoFar(adj, next, order, done, [], out)
      invariant FromReachable(adj, next, start, out)
      decreases |{start} + AllTargets(adj, next)| - done
    {
      MetWithin(adj, next, start, order, visited);
      var current := queue[0];
      queue := queue[1..];
      var es := EdgesOf(adj, current);
      assert current == order[done] && current in order;
      NothingExpanded(adj, next, order, visited);
      assert es[..0] == [];
      var j := 0;
      while j < |es|
        invariant 0 <= j <= |es|
        invariant done < |order| && order[done] == current && queue == order[done + 1..]
        invariant Met(adj, next, start, order, visited)
        invariant ExpandedUpTo(adj, next, order, done, visited)
        invariant Expanded(next, es[..j], visited)
        invariant ReturnedSoFar(adj, next, order, done, es[..j], out)
        invariant FromReachable(adj, next, start, out)
      {
        var e := es[j];
        assert current in order;
        ExpandsOne(adj, next, order, done, es, j, visited);
        var target := next.Apply(e, visited);
        ReturnsOne(adj, next, order, done, es, j, out, visited);
        if target == "" {
          j := j + 1;
          continue;
        }
        AddsReachable(adj, next, start, out, current, e);
        out := out + [e];
        if target !in visited {
          MeetsTarget(adj, next, start, order, visited, current, e);
          QueueAppended(order, target, done + 1);
          order := order + [target];
          visited := visited + {target};
          queue := queue + [target];
        }
        j := j + 1;
      }
      assert es[..j] == es;
      ReturnsPackage(adj, next, order, done, out);
      ExpandsPackage(adj, next, order, done, visited);
      done := done + 1;
    }
    assert done == |order|;
    AllMet(adj, next, start, order, visited);
  }

  lemma QueueAppended(order: seq<string>, target: string, k: nat)
    requires k <= |order|
    ensures (order + [target])[k..] == order[k..] + [target]
  {
  }

  lemma AddsReachable(adj: Adjacency, next: Next, start: string, out: seq<Edge>, p: string, e: Edge)
    requires FromReachable(adj, next, start, out) && Reachable(adj, next, start, p) && e in EdgesOf(adj, p)
    ensures FromReachable(adj, next, start, out + [e])
  {
    hide Reachable;
  }

  lemma ExpandsPackage(adj: Adjacency, next: Next, order: seq<string>, done: nat, visited: set<string>)
    requires done < |order| && ExpandedUpTo(adj, next, order, done, visited)
    requires Expanded(next, EdgesOf(adj, order[done]), visited)
    ensures ExpandedUpTo(adj, next, order, done + 1, visited)
  {
  }

  lemma NothingExpanded(adj: Adjacency, next: Next, order: seq<string>, visited: set<string>)
    ensures ExpandedUpTo(adj, next, order, 0, visited) && Expanded(next, [], visited)
  {
  }

  lemma WalkStarts(adj: Adjacency, next: Next, start: string)
    ensures Met(adj, next, start, [start], {start})
    ensures ReturnedSoFar(adj, next, [start], 0, [], []) && FromReachable(adj, next, start, [])
  {
    ReachableStart(adj, next, start);
  }

  lemma WalkEndsAtOnce(adj: Adjacency, next: Next, start: string)
    requires start !in adj
    ensures forall p :: p in [start] <==> Reachable(adj, next, start, p)
    ensures ReturnedSoFar(adj, next, [start], 1, [], [])
  {
    WalkStarts(adj, next, start);
    AllMet(adj, next, start, [start], {start});
    ReturnsPackage(adj, next, [start], 0, []);
  }

  lemma AllMet(adj: Adjacency, next: Next, start: string, order: seq<string>, visited: set<string>)
    requires Met(adj, next, start, order, visited)
    requires ExpandedUpTo(adj, next, order, |order|, visited)
    ensures forall p :: p in order <==> Reachable(adj, next, start, p)
  {
    forall p, q | p in visited && Imports(adj, next, p, q) ensures q in visited {
      var e :| Leads(adj, next, p, e, q);
      var k :| 0 <= k < |order| && order[k] == p;
    }
    forall p | Reachable(adj, next, start, p) ensures p in order {
      var s :| Path(adj, next, s) && s[0] == start && s[|s| - 1] == p;
      ClosedHoldsReachable(adj, next, visited, s);
    }
  }

  /** In the fields of the rows: p imports q when an edge of type "imports" leads from p
      to a named q, or to a path that resolves to a named q. */
  lemma ImportsMeans(edges: seq<Edge>, adj: Adjacency, next: Next, p: string, q: string)
    requires forall r :: EdgesOf(adj, r) == ImportsFrom(edges, r)
    ensures Imports(adj, next, p, q) <==>
            exists e :: e in edges && e.fromRef == p && e.edgeType == "imports" && q != ""
                        && q == match next case ToRef => e.toRef case Unmet(resolve) => resolve(e.toRef)
  {
    hide ImportsFrom;
    forall e
      ensures e in EdgesOf(adj, p) <==> e in edges && e.fromRef == p && e.edgeType == "imports"
    {
      ImportsFromHas(edges, p, e);
      assert e in EdgesOf(adj, p) <==> multiset(EdgesOf(adj, p))[e] > 0;
      assert e in edges <==> multiset(edges)[e] > 0;
    }
    if e :| e in edges && e.fromRef == p && e.edgeType == "imports" && q != ""
            && q == match next case ToRef => e.toRef case Unmet(resolve) => resolve(e.toRef) {
      assert Leads(adj, next, p, e, q);
    }
  }

  // -------------------------------------------------------------- the two callers

  /** out has the named import edges out of the packages reachable from start, package
      by package in some order that lists each reachable package once. */
  ghost predicate EdgesOfReachable(edges: seq<Edge>, start: string, out: seq<Edge>) {
    exists adj, order ::
      && (forall p :: EdgesOf(adj, p) == ImportsFrom(edges, p))
      && Distinct(order) && (forall p :: p in order <==> Reachable(adj, ToRef, start, p))
      && out == KeptOf(adj, order)
  }

  method TransitiveImports(edges: seq<Edge>, pkgPath: string) returns (out: seq<Edge>)
    ensures EdgesOfReachable(edges, pkgPath, out)
  {
    var adj := BuildImportAdjacency(edges);
    ghost var order;
    out, order := ImportFrontierBFS(adj, pkgPath, ToRef);
    assert order[..|order|] == order;
    assert KeptOf(adj, order) + Kept([]) == KeptOf(adj, order);
  }

  predicate LessEdge(a: Edge, b: Edge) {
    if a.fromRef != b.fromRef then Less(a.fromRef, b.fromRef) else Less(a.toRef, b.toRef)
  }

  function InsertEdge(e: Edge, es: seq<Edge>): seq<Edge> {
    if es == [] || LessEdge(e, es[0]) then [e] + es else [es[0]] + InsertEdge(e, es[1..])
  }

  /** sort.Slice by source, then target. */
  function SortEdges(es: seq<Edge>): seq<Edge> {
    if es == [] then [] else InsertEdge(es[0], SortEdges(es[1..]))
  }

  lemma {:induction false} InsertEdgeKeeps(e: Edge, es: seq<Edge>)
    ensures multiset(InsertEdge(e, es)) == multiset(es) + multiset{e}
  {
    if es != [] && !LessEdge(e, es[0]) {
      InsertEdgeKeeps(e, es[1..]);
      assert es == [es[0]] + es[1..];
    }
  }

  lemma {:induction false} SortEdgesKeeps(es: seq<Edge>)
    ensures multiset(SortEdges(es)) == multiset(es)
  {
    if es != [] {
      SortEdgesKeeps(es[1..]);
      InsertEdgeKeeps(es[0], SortEdges(es[1..]));
      assert es == [es[0]] + es[1..];
    }
  }

  ghost predicate InOrder(es: seq<Edge>) {
    forall i, j :: 0 <= i < j < |es| ==> !LessEdge(es[j], es[i])
  }

  lemma LessEdgeTransitive(a: Edge, b: Edge, c: Edge)
    requires LessEdge(a, b) && LessEdge(b, c)
    ensures LessEdge(a, c)
  {
    hide Less;
    if a.fromRef != b.fromRef && b.fromRef != c.fromRef {
      LessTransitive(a.fromRef, b.fromRef, c.fromRef);
      LessIrreflexive(a.fromRef);
      if a.fromRef == c.fromRef {
        LessTransitive(a.fromRef, b.fromRef, a.fromRef);
      }
    } else if a.fromRef == b.fromRef == c.fromRef {
      LessTransitive(a.toRef, b.toRef, c.toRef);
    }
  }

  lemma {:induction false} InsertEdgeInOrder(e: Edge, es: seq<Edge>)
    requires InOrder(es)
    ensures InOrder(InsertEdge(e, es))
  {
    hide LessEdge;
    if es == [] {
    } else if LessEdge(e, es[0]) {
      forall j | 0 <= j < |es| ensures !LessEdge(es[j], e) {
        if LessEdge(es[j], e) {
          LessEdgeTransitive(es[j], e, es[0]);
          LessEdgeIrreflexive(es[0]);
        }
      }
    } else {
      InsertEdgeInOrder(e, es[1..]);
      var r := InsertEdge(e, es[1..]);
      forall j | 0 <= j < |r| ensures !LessEdge(r[j], es[0]) {
        InsertEdgeKeeps(e, es[1..]);
        assert r[j] in multiset(r);
        assert r[j] == e || r[j] in es[1..];
      }
    }
  }

  lemma LessEdgeIrreflexive(a: Edge)
    ensures !LessEdge(a, a)
  {
    LessIrreflexive(a.toRef);
  }

  lemma {:induction false} SortEdgesInOrder(es: seq<Edge>)
    ensures InOrder(SortEdges(es))
  {
    if es != [] {
      SortEdgesInOrder(es[1..]);
      InsertEdgeInOrder(es[0], SortEdges(es[1..]));
    }
  }

  /** Exactly one edge for each reachable project package other than the start. */
  method TransitiveImportBFS(pkgPath: string, adj: Adjacency, resolve: string -> string)
    returns (out: seq<Edge>, ghost found: seq<Edge>, ghost order: seq<string>)
    ensures order != [] && order[0] == pkgPath && Distinct(order)
    ensures forall p :: p in order <==> Reachable(adj, Unmet(resolve), pkgPath, p)
    ensures |found| == |order| - 1 && forall i :: 0 <= i < |found| ==> resolve(found[i].toRef) == order[i + 1]
    ensures FromReachable(adj, Unmet(resolve), pkgPath, found)
    ensures multiset(out) == multiset(found) && InOrder(out)
  {
    var edges;
    edges, order := ImportFrontierBFS(adj, pkgPath, Unmet(resolve));
    found := edges;
    SortEdgesKeeps(edges);
    SortEdgesInOrder(edges);
    out := SortEdges(edges);
  }

  /** The order of edges: first by where they are from, then by where they lead. */
  lemma EdgeOrder(a: Edge, b: Edge)
    ensures Less(a.fromRef, b.fromRef) ==> LessEdge(a, b) && !LessEdge(b, a)
    ensures a.fromRef == b.fromRef && Less(a.toRef, b.toRef) ==> LessEdge(a, b) && !LessEdge(b, a)
  {
    hide Less;
    LessIrreflexive(a.fromRef);
    LessIrreflexive(a.toRef);
    if Less(a.fromRef, b.fromRef) && Less(b.fromRef, a.fromRef) {
      LessTransitive(a.fromRef, b.fromRef, a.fromRef);
    }
    if Less(a.toRef, b.toRef) && Less(b.toRef, a.toRef) {
      LessTransitive(a.toRef, b.toRef, a.toRef);
    }
  }

  lemma {:induction false} KeptHas(es: seq<Edge>, e: Edge)
    ensures multiset(Kept(es))[e] == if e.toRef != "" then multiset(es)[e] else 0
  {
    if es != [] {
      var n := |es| - 1;
      KeptHas(es[..n], e);
      assert es == es[..n] + [es[n]];
    }
  }

  lemma {:induction false} KeptOfHas(edges: seq<Edge>, adj: Adjacency, order: seq<string>, e: Edge)
    requires Distinct(order) && forall p :: EdgesOf(adj, p) == ImportsFrom(edges, p)
    ensures multiset(KeptOf(adj, order))[e] ==
            if e.toRef != "" && e.fromRef in order && e.edgeType == "imports" then multiset(edges)[e] else 0
  {
    hide ImportsFrom, Kept, EdgesOf;
    if order != [] {
      var n := |order| - 1;
      KeptOfHas(edges, adj, order[..n], e);
      KeptHas(EdgesOf(adj, order[n]), e);
      ImportsFromHas(edges, order[n], e);
      assert order == order[..n] + [order[n]];
      assert order[n] !in order[..n];
      assert multiset(KeptOf(adj, order)) == multiset(KeptOf(adj, order[..n])) + multiset(Kept(EdgesOf(adj, order[n])));
    }
  }

  /** adj groups the edges, and out has e as often as it is stored if it is an import
      edge with a named target out of a package reachable from start, and else not. */
  ghost predicate ListsReachable(edges: seq<Edge>, adj: Adjacency, start: string, out: seq<Edge>, e: Edge) {
    && (forall p :: EdgesOf(adj, p) == ImportsFrom(edges, p))
    && multiset(out)[e] ==
       if e.edgeType == "imports" && e.toRef != "" && Reachable(adj, ToRef, start, e.fromRef)
       then multiset(edges)[e] else 0
  }

  /** What TransitiveImports gives: every import edge with a named target out of a
      reachable package, as often as it is stored, and nothing else. */
  lemma TransitiveImportsMean(edges: seq<Edge>, start: string, out: seq<Edge>, e: Edge)
    requires EdgesOfReachable(edges, start, out)
    ensures exists adj :: ListsReachable(edges, adj, start, out, e)
  {
    hide ImportsFrom, KeptOf, Reachable;
    var adj, order :|
      && (forall p :: EdgesOf(adj, p) == ImportsFrom(edges, p))
      && Distinct(order) && (forall p :: p in order <==> Reachable(adj, ToRef, start, p))
      && out == KeptOf(adj, order);
    KeptOfHas(edges, adj, order, e);
    assert ListsReachable(edges, adj, start, out, e);
  }
}
