/** The import graph that is layered (query/query.go, lines 2740 to 2761 and 2881 to
    2898): import paths are resolved to project packages, by suffix if need be. */
module ProjectGraph {
  import opened Options
  import opened ImportGraph
  import opened Worklist

  datatype Import = Import(fromRef: string, toRef: string)

  // ------------------------------------------------------------- resolving a target

  predicate HasSuffix(s: string, t: string) {
    |t| <= |s| && s[|s| - |t|..] == t
  }

  /** The text after the last slash. */
  function AfterSlash(s: string): (r: Option<string>)
    ensures r.None? ==> '/' !in s
    ensures r.Some? ==> '/' !in r.value && HasSuffix(s, "/" + r.value)
  {
    if s == "" then None
    else
      var n := |s| - 1;
      assert s == s[..n] + [s[n]];
      if s[n] == '/' then Some("")
      else
        var r := AfterSlash(s[..n]);
        if r.None? then None
        else
          assert s[|s| - |r.value| - 2..] == s[..n][n - |r.value| - 1..] + [s[n]];
          Some(r.value + [s[n]])
  }

  /** Some project package ends in a slash and the path. */
  ghost predicate SuffixKnown(toRef: string, projectSet: set<string>) {
    exists p :: p in projectSet && HasSuffix(p, "/" + toRef)
  }

  /** target is an answer for toRef: the package itself, else any package that ends in a
      slash and it, else its last element, else none. */
  ghost predicate Resolves(toRef: string, projectSet: set<string>, target: string) {
    if toRef in projectSet then target == toRef
    else if SuffixKnown(toRef, projectSet) then target in projectSet && HasSuffix(target, "/" + toRef)
    else target == match AfterSlash(toRef) case None => "" case Some(bare) => if bare in projectSet then bare else ""
  }

  method ResolveProjectTarget(toRef: string, projectSet: set<string>) returns (target: string)
    ensures Resolves(toRef, projectSet, target)
  {
    if toRef in projectSet {
      return toRef;
    }
    var suffix := "/" + toRef;
    var rest := projectSet;
    while rest != {}
      invariant rest <= projectSet
      invariant forall p :: p in projectSet && p !in rest ==> !HasSuffix(p, suffix)
      decreases rest
    {
      var p :| p in rest;
      if HasSuffix(p, suffix) || p == toRef {
        return p;
      }
      rest := rest - {p};
    }
    var bare := AfterSlash(toRef);
    if bare.Some? && bare.value in projectSet {
      return bare.value;
    }
    return "";
  }

  lemma ResolvedInProject(toRef: string, projectSet: set<string>, target: string)
    requires Resolves(toRef, projectSet, target)
    ensures target == "" || target in projectSet
  {}

  /** An import that is no project package goes to the only package that ends in it. */
  lemma OnlySuffix(toRef: string, projectSet: set<string>, p: string, target: string)
    requires toRef !in projectSet && p in projectSet && HasSuffix(p, "/" + toRef)
    requires forall q :: q in projectSet && HasSuffix(q, "/" + toRef) ==> q == p
    ensures Resolves(toRef, projectSet, target) <==> target == p
  {
    hide HasSuffix;
    assert SuffixKnown(toRef, projectSet);
  }

  /** When an import can be taken for the importing package itself. */
  lemma SelfTargetIff(toRef: string, projectSet: set<string>, p: string)
    requires p in projectSet && p != ""
    ensures Resolves(toRef, projectSet, p) <==>
            || toRef == p
            || (toRef !in projectSet && HasSuffix(p, "/" + toRef))
            || (toRef !in projectSet && !SuffixKnown(toRef, projectSet) && AfterSlash(toRef) == Some(p))
  {
    hide HasSuffix;
  }

  // ------------------------------------------------------------------- the graph

  /** The targets of p's imports, in order; what resolves to nothing is left out. */
  function TargetsOf(p: string, imports: seq<Import>, targets: seq<string>): seq<string>
    requires |targets| == |imports|
  {
    if imports == [] then []
    else
      var n := |imports| - 1;
      var before := TargetsOf(p, imports[..n], targets[..n]);
      if imports[n].fromRef == p && targets[n] != "" then before + [targets[n]] else before
  }

  /** graph holds for every project package its imports, resolved as targets says. */
  ghost predicate Built(projectSet: set<string>, imports: seq<Import>, targets: seq<string>, graph: Graph) {
    && |targets| == |imports|
    && (forall i :: 0 <= i < |imports| && imports[i].fromRef in projectSet ==>
          Resolves(imports[i].toRef, projectSet, targets[i]))
    && (forall p :: p in graph ==> p in projectSet)
    && forall p :: p in projectSet ==> Deps(graph, p) == TargetsOf(p, imports, targets)
  }

  lemma BuiltStep(projectSet: set<string>, imports: seq<Import>, targets: seq<string>, graph: Graph, i: nat,
                  target: string, graph': Graph)
    requires i < |imports| && Built(projectSet, imports[..i], targets, graph)
    requires imports[i].fromRef in projectSet ==> Resolves(imports[i].toRef, projectSet, target)
    requires var p := imports[i].fromRef;
             graph' == if p in projectSet && target != "" then graph[p := Deps(graph, p) + [target]] else graph
    ensures Built(projectSet, imports[..i + 1], targets + [target], graph')
  {
    var es, ts := imports[..i + 1], targets + [target];
    assert es[..i] == imports[..i] && ts[..i] == targets;
    hide Resolves;
    forall k | 0 <= k < |es| && es[k].fromRef in projectSet
      ensures Resolves(es[k].toRef, projectSet, ts[k])
    {
      assert k < i ==> es[k] == imports[..i][k];
    }
  }

  method BuildProjectGraph(imports: seq<Import>, projectSet: set<string>)
    returns (graph: Graph, ghost targets: seq<string>)
    ensures Built(projectSet, imports, targets, graph)
  {
    graph := map[];
    targets := [];
    var i := 0;
    while i < |imports|
      invariant 0 <= i <= |imports|
      invariant Built(projectSet, imports[..i], targets, graph)
    {
      var e := imports[i];
      ghost var before := graph;
      ghost var resolved := "";
      if e.fromRef in projectSet {
        var target := ResolveProjectTarget(e.toRef, projectSet);
        resolved := target;
        if target != "" {
          graph := graph[e.fromRef := (if e.fromRef in graph then graph[e.fromRef] else []) + [target]];
        }
      }
      BuiltStep(projectSet, imports, targets, before, i, resolved, graph);
      targets := targets + [resolved];
      i := i + 1;
    }
    assert imports[..i] == imports;
  }

  lemma {:induction false} TargetsHas(p: string, imports: seq<Import>, targets: seq<string>, d: string)
    requires |targets| == |imports|
    ensures d in TargetsOf(p, imports, targets) <==>
            exists i :: 0 <= i < |imports| && imports[i].fromRef == p && targets[i] == d && d != ""
  {
    if imports != [] {
      var n := |imports| - 1;
      TargetsHas(p, imports[..n], targets[..n], d);
      if i :| 0 <= i < |imports| && imports[i].fromRef == p && targets[i] == d && d != "" {
        assert i < n ==> imports[..n][i] == imports[i] && targets[..n][i] == targets[i];
      }
    }
  }

  /** Every edge of the graph leads from a project package to one. */
  lemma GraphIsClosed(projectSet: set<string>, imports: seq<Import>, targets: seq<string>, graph: Graph)
    requires Built(projectSet, imports, targets, graph)
    ensures Closed(graph, projectSet)
  {
    hide Resolves, TargetsOf;
    forall p, d | d in Deps(graph, p)
      ensures d in projectSet
    {
      TargetsHas(p, imports, targets, d);
      var i :| 0 <= i < |imports| && imports[i].fromRef == p && targets[i] == d && d != "";
      ResolvedInProject(imports[i].toRef, projectSet, targets[i]);
    }
  }

  /** A package that imports a path which is no project package, but with which it alone
      ends, gets an edge to itself. */
  lemma SuffixImportIsSelfEdge(projectSet: set<string>, imports: seq<Import>, targets: seq<string>, graph: Graph,
                               i: nat)
    requires Built(projectSet, imports, targets, graph) && i < |imports|
    requires var e := imports[i];
             && e.fromRef in projectSet && e.toRef !in projectSet && HasSuffix(e.fromRef, "/" + e.toRef)
             && forall q :: q in projectSet && HasSuffix(q, "/" + e.toRef) ==> q == e.fromRef
    ensures imports[i].fromRef in Deps(graph, imports[i].fromRef)
  {
    hide Resolves, TargetsOf;
    var e := imports[i];
    OnlySuffix(e.toRef, projectSet, e.fromRef, targets[i]);
    assert e.fromRef != "";
    TargetsHas(e.fromRef, imports, targets, e.fromRef);
  }

  /** The layering of such a graph never ends, when the package has another import and
      all others reach no cycle. */
  lemma SuffixImportIsEndless(projectSet: set<string>, imports: seq<Import>, targets: seq<string>, graph: Graph,
                              i: nat, reverse: Graph, s: State)
    requires Built(projectSet, imports, targets, graph) && i < |imports|
    requires var e := imports[i];
             && e.fromRef in projectSet && e.toRef !in projectSet && HasSuffix(e.fromRef, "/" + e.toRef)
             && (forall q :: q in projectSet && HasSuffix(q, "/" + e.toRef) ==> q == e.fromRef)
             && (exists d :: d in Deps(graph, e.fromRef) && d != e.fromRef)
             && forall d :: d in Deps(graph, e.fromRef) && d != e.fromRef ==> Grounded(graph, d)
    requires Reverses(graph, reverse) && IsStart(graph, projectSet, s)
    ensures Endless(graph, reverse, s)
  {
    hide Resolves, TargetsOf, Grounded, Reverses, IsStart, Built, Endless;
    SuffixImportIsSelfEdge(projectSet, imports, targets, graph, i);
    GraphIsClosed(projectSet, imports, targets, graph);
    SelfImportIsEndless(graph, reverse, projectSet, s, imports[i].fromRef);
  }

  /** A module with a package of its own by the name of an outside one, std errors say,
      that imports that one and a leaf. */
  lemma OwnNameImportGraph(m: string, std: string, leaf: string, targets: seq<string>, graph: Graph)
    requires var p := m + "/" + std;
             && std != p && std != leaf && leaf != p && leaf != "" && !HasSuffix(leaf, "/" + std)
             && Built({p, leaf}, [Import(p, std), Import(p, leaf)], targets, graph)
    ensures var p := m + "/" + std;
            Deps(graph, p) == [p, leaf] && forall q :: q != p ==> Deps(graph, q) == []
  {
    hide TargetsOf, HasSuffix;
    var p := m + "/" + std;
    var imports := [Import(p, std), Import(p, leaf)];
    EndsWith(m, "/" + std);
    assert p == m + ("/" + std);
    assert imports[0].fromRef == p && imports[1].fromRef == p;
    OnlySuffix(std, {p, leaf}, p, targets[0]);
    assert Resolves(leaf, {p, leaf}, targets[1]);
    hide Resolves;
    assert targets == [p, leaf];
    forall q
      ensures TargetsOf(q, imports, targets) == if q == p then [p, leaf] else []
    {
      TwoTargets(q, p, std, leaf);
    }
  }

  lemma EndsWith(s: string, t: string)
    ensures HasSuffix(s + t, t)
  {}

  lemma TwoTargets(q: string, p: string, std: string, leaf: string)
    requires p != "" && leaf != ""
    ensures TargetsOf(q, [Import(p, std), Import(p, leaf)], [p, leaf]) == if q == p then [p, leaf] else []
  {
    var imports, targets := [Import(p, std), Import(p, leaf)], [p, leaf];
    assert imports[..1] == [Import(p, std)] && targets[..1] == [p];
    assert [Import(p, std)][..0] == [] && [p][..0] == [];
    assert TargetsOf(q, imports[..1], targets[..1]) == if q == p then [p] else [];
  }

  /** Its layering never ends. */
  lemma OwnNameImportIsEndless(m: string, std: string, leaf: string, targets: seq<string>, graph: Graph,
                               reverse: Graph, s: State)
    requires var p := m + "/" + std;
             && std != p && std != leaf && leaf != p && leaf != "" && !HasSuffix(leaf, "/" + std)
             && Built({p, leaf}, [Import(p, std), Import(p, leaf)], targets, graph)
             && Reverses(graph, reverse) && IsStart(graph, {p, leaf}, s)
    ensures Endless(graph, reverse, s)
  {
    hide Resolves, TargetsOf, Grounded, Reverses, IsStart, Built, Endless, HasSuffix;
    var p := m + "/" + std;
    OwnNameImportGraph(m, std, leaf, targets, graph);
    GraphIsClosed({p, leaf}, [Import(p, std), Import(p, leaf)], targets, graph);
    LeafIsGrounded(graph, leaf);
    assert [p, leaf][0] == p && [p, leaf][1] == leaf;
    assert Deps(graph, p) == [p, leaf] && p in Deps(graph, p) && leaf in Deps(graph, p);
    SelfImportIsEndless(graph, reverse, {p, leaf}, s, p);
  }

  /** m/errors imports the standard errors and m/leaf. */
  lemma ErrorsImportIsEndless(targets: seq<string>, graph: Graph, reverse: Graph, s: State)
    requires Built({"m/errors", "m/leaf"}, [Import("m/errors", "errors"), Import("m/errors", "m/leaf")], targets, graph)
    requires Reverses(graph, reverse) && IsStart(graph, {"m/errors", "m/leaf"}, s)
    ensures Endless(graph, reverse, s)
  {
    hide Built, Reverses, IsStart, Endless;
    assert "m" + "/" + "errors" == "m/errors";
    assert |"errors"| != |"m/errors"| && |"m/leaf"| != |"m/errors"| && "errors"[0] != "m/leaf"[0];
    assert !HasSuffix("m/leaf", "/" + "errors");
    OwnNameImportIsEndless("m", "errors", "m/leaf", targets, graph, reverse, s);
  }
}
