/** The import graph of a project's packages (query/query.go). */
module ImportGraph {

  type Graph = map<string, seq<string>>

  /** graph[p], where a missing key reads as an empty slice. */
  function Deps(graph: Graph, p: string): seq<string> {
    if p in graph then graph[p] else []
  }

  /** Every package mentioned by the graph is a project package. */
  ghost predicate Closed(graph: Graph, nodes: set<string>) {
    && (forall p :: p in graph ==> p in nodes)
    && (forall p, d :: d in Deps(graph, p) ==> d in nodes)
  }

  ghost predicate Walk(graph: Graph, s: seq<string>) {
    forall i :: 0 <= i < |s| - 1 ==> s[i + 1] in Deps(graph, s[i])
  }

  /** A non-empty chain of imports leads from a to b. */
  ghost predicate Reaches(graph: Graph, a: string, b: string) {
    exists s :: |s| >= 2 && Walk(graph, s) && s[0] == a && s[|s| - 1] == b
  }

  ghost predicate Acyclic(graph: Graph) {
    forall p :: !Reaches(graph, p, p)
  }

  lemma ReachesEdge(graph: Graph, a: string, b: string)
    requires b in Deps(graph, a)
    ensures Reaches(graph, a, b)
  {
    assert Walk(graph, [a, b]);
  }

  lemma ReachesTransitive(graph: Graph, a: string, b: string, c: string)
    requires Reaches(graph, a, b) && Reaches(graph, b, c)
    ensures Reaches(graph, a, c)
  {
    var s :| |s| >= 2 && Walk(graph, s) && s[0] == a && s[|s| - 1] == b;
    var t :| |t| >= 2 && Walk(graph, t) && t[0] == b && t[|t| - 1] == c;
    var u := s + t[1..];
    forall i | 0 <= i < |u| - 1 ensures u[i + 1] in Deps(graph, u[i]) {
      if i < |s| - 1 {
        assert u[i] == s[i] && u[i + 1] == s[i + 1];
      } else {
        assert u[i] == t[i - |s| + 1] && u[i + 1] == t[i - |s| + 2];
      }
    }
    assert Walk(graph, u);
  }

  // Two measures: what a package reaches, and what reaches it.

  ghost function Below(graph: Graph, nodes: set<string>, p: string): set<string> {
    set x | x in nodes && Reaches(graph, p, x)
  }

  ghost function Above(graph: Graph, nodes: set<string>, p: string): set<string> {
    set x | x in nodes && Reaches(graph, x, p)
  }

  lemma ProperSubsetIsSmaller<T>(a: set<T>, b: set<T>)
    requires a < b
    ensures |a| < |b|
  {
    var x :| x in b && x !in a;
    assert b == (b - a) + a && |b - a| > 0 by {
      assert x in b - a;
    }
  }

  /** Off cycles an import reaches less than its importer. */
  lemma BelowShrinks(graph: Graph, nodes: set<string>, p: string, d: string)
    requires Closed(graph, nodes) && d in Deps(graph, p) && !Reaches(graph, d, d)
    ensures |Below(graph, nodes, d)| < |Below(graph, nodes, p)|
  {
    ReachesEdge(graph, p, d);
    forall x | Reaches(graph, d, x) ensures Reaches(graph, p, x) {
      ReachesTransitive(graph, p, d, x);
    }
    assert d in Below(graph, nodes, p) && d !in Below(graph, nodes, d);
    ProperSubsetIsSmaller(Below(graph, nodes, d), Below(graph, nodes, p));
  }

  /** Off cycles an importer is reached by less than its import. */
  lemma AboveShrinks(graph: Graph, nodes: set<string>, p: string, d: string)
    requires Closed(graph, nodes) && d in Deps(graph, p) && !Reaches(graph, p, p)
    ensures |Above(graph, nodes, p)| < |Above(graph, nodes, d)|
  {
    ReachesEdge(graph, p, d);
    forall x | Reaches(graph, x, p) ensures Reaches(graph, x, d) {
      ReachesTransitive(graph, x, p, d);
    }
    assert p in Above(graph, nodes, d) && p !in Above(graph, nodes, p);
    ProperSubsetIsSmaller(Above(graph, nodes, p), Above(graph, nodes, d));
  }
}
