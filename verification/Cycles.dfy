/** Enumeration of the simple cycles of a directed graph: the depth-first
    search behind DetectCycles (query/query.go). */
module Cycles {
  import opened Ordering
  import opened Sequences

  datatype Edge = Edge(fromRef: string, toRef: string)

  datatype Cycle = Cycle(path: seq<string>, truncated: bool)

  const MAX_CYCLES: nat := 1000

  // ---------------------------------------------------------------- graphs

  ghost predicate Walk(edges: seq<Edge>, s: seq<string>) {
    forall i :: 0 <= i < |s| - 1 ==> Edge(s[i], s[i + 1]) in edges
  }

  /** A simple cycle, written with its first node repeated at the end. */
  ghost predicate SimpleCycle(edges: seq<Edge>, c: seq<string>) {
    && |c| >= 2
    && c[0] == c[|c| - 1]
    && Walk(edges, c)
    && Distinct(c[..|c| - 1])
  }

  // ------------------------------------------------- rotations and their keys

  function Rotate(s: seq<string>, k: nat): (r: seq<string>)
    requires k <= |s|
    ensures |r| == |s|
  {
    s[k..] + s[..k]
  }

  lemma ModOnce(x: nat, n: nat)
    requires x < n + n
    ensures x % n == if x < n then x else x - n
  {
  }

  lemma RotateIndex(s: seq<string>, k: nat, i: nat)
    requires k < |s| && i < |s|
    ensures 0 <= (k + i) % |s| < |s|
    ensures Rotate(s, k)[i] == s[(k + i) % |s|]
  {
    ModOnce(k + i, |s|);
  }

  /** d is c started at another of its nodes (both without the repeated end). */
  ghost predicate IsRotation(c: seq<string>, d: seq<string>) {
    exists k :: 0 <= k <= |c| && d == Rotate(c, k)
  }

  /** The same notion for cycles written with their first node repeated. */
  ghost predicate SameCycle(c: seq<string>, d: seq<string>) {
    |c| >= 1 && |d| >= 1 && IsRotation(c[..|c| - 1], d[..|d| - 1])
  }

  /** The first index below k holding a smallest element of s[..k]. */
  function MinIndex(s: seq<string>, k: nat): (m: nat)
    requires 0 < k <= |s|
    ensures m < k
    ensures LowerBound(s[m], s[..k])
  {
    if k == 1 then
      LessIrreflexive(s[0]);
      0
    else
      var m := MinIndex(s, k - 1);
      if Less(s[k - 1], s[m]) then
        assert LowerBound(s[k - 1], s[..k]) by { SmallerLowerBound(s, k, m); }
        k - 1
      else
        m
  }

  lemma SmallerLowerBound(s: seq<string>, k: nat, m: nat)
    requires 1 < k <= |s| && m < k - 1
    requires LowerBound(s[m], s[..k - 1]) && Less(s[k - 1], s[m])
    ensures LowerBound(s[k - 1], s[..k])
  {
    forall x | x in s[..k] ensures !Less(x, s[k - 1]) {
      LessIrreflexive(s[k - 1]);
      if x in s[..k - 1] && Less(x, s[k - 1]) {
        LessTransitive(x, s[k - 1], s[m]);
      }
    }
  }

  /** The rotation that starts at the smallest node. */
  function Canonical(s: seq<string>): (r: seq<string>)
    ensures |r| == |s|
  {
    if s == [] then [] else Rotate(s, MinIndex(s, |s|))
  }

  /** strings.Join(parts, "\x00"). */
  function JoinNul(parts: seq<string>): string {
    if parts == [] then ""
    else if |parts| == 1 then parts[0]
    else parts[0] + "\0" + JoinNul(parts[1..])
  }

  /** The deduplication key of a cycle; empty for degenerate inputs. */
  function CycleKey(cycle: seq<string>): string {
    if |cycle| < 2 || cycle[0] != cycle[|cycle| - 1] then ""
    else
      var r := Canonical(cycle[..|cycle| - 1]);
      JoinNul(r + [r[0]])
  }

  method CanonicalCycle(cycle: seq<string>) returns (key: string)
    ensures key == CycleKey(cycle)
  {
    hide Less, JoinNul, Rotate;
    var n := |cycle| - 1;
    if n <= 0 || cycle[0] != cycle[|cycle| - 1] {
      return "";
    }
    var minIdx := 0;
    var i := 1;
    while i < n
      invariant 1 <= i <= n
      invariant minIdx == MinIndex(cycle[..n], i)
    {
      if Less(cycle[i], cycle[minIdx]) {
        minIdx := i;
      }
      i := i + 1;
    }
    var rot: seq<string> := [];
    i := 0;
    while i < n
      invariant 0 <= i <= n && minIdx < n
      invariant rot == Canonical(cycle[..n])[..i]
    {
      RotateIndex(cycle[..n], minIdx, i);
      rot := rot + [cycle[(minIdx + i) % n]];
      i := i + 1;
    }
    assert Canonical(cycle[..n])[..n] == Canonical(cycle[..n]);
    rot := rot + [rot[0]];
    key := JoinNul(rot);
  }

  lemma {:induction false} JoinNulNonEmpty(parts: seq<string>)
    requires |parts| >= 2
    ensures JoinNul(parts) != ""
  {
  }

  // Rotations of a cycle share one canonical form, and only they do.

  lemma RotateTwice(s: seq<string>, j: nat, k: nat)
    requires j <= |s| && k <= |s|
    ensures Rotate(Rotate(s, j), k) == Rotate(s, if j + k <= |s| then j + k else j + k - |s|)
  {
    var t := Rotate(s, j);
    if j + k <= |s| {
      assert t[k..] == s[j + k..] + s[..j];
      assert t[..k] == s[j..j + k];
      assert s[..j + k] == s[..j] + s[j..j + k];
    } else {
      var m := j + k - |s|;
      assert t[k..] == s[m..j];
      assert t[..k] == s[j..] + s[..m];
      assert s[m..] == s[m..j] + s[j..];
    }
  }

  lemma RotationTransitive(s: seq<string>, t: seq<string>, u: seq<string>)
    requires IsRotation(s, t) && IsRotation(t, u)
    ensures IsRotation(s, u)
  {
    var j :| 0 <= j <= |s| && t == Rotate(s, j);
    var k :| 0 <= k <= |t| && u == Rotate(t, k);
    RotateTwice(s, j, k);
  }

  lemma RotationSymmetric(s: seq<string>, t: seq<string>)
    requires IsRotation(s, t)
    ensures IsRotation(t, s)
  {
    var k :| 0 <= k <= |s| && t == Rotate(s, k);
    assert s == Rotate(t, |s| - k);
  }

  lemma RotationElements(s: seq<string>, t: seq<string>)
    requires IsRotation(s, t)
    ensures forall x :: x in t <==> x in s
  {
    var k :| 0 <= k <= |s| && t == Rotate(s, k);
    assert s == s[..k] + s[k..];
  }

  lemma CanonicalRotates(s: seq<string>)
    ensures IsRotation(s, Canonical(s))
    ensures s != [] ==> Canonical(s) != [] && LowerBound(Canonical(s)[0], s)
  {
    if s == [] {
      assert [] == Rotate(s, 0);
    } else {
      assert s[..|s|] == s;
    }
  }

  /** A duplicate-free sequence has one rotation per first element. */
  lemma RotationByHead(s: seq<string>, t: seq<string>, u: seq<string>)
    requires Distinct(s) && IsRotation(s, t) && IsRotation(s, u)
    requires s != [] ==> t != [] && u != [] && t[0] == u[0]
    ensures t == u
  {
    var j :| 0 <= j <= |s| && t == Rotate(s, j);
    var k :| 0 <= k <= |s| && u == Rotate(s, k);
    if s != [] {
      assert t[0] == s[if j == |s| then 0 else j];
      assert u[0] == s[if k == |s| then 0 else k];
    }
  }

  lemma CanonicalIffRotation(c: seq<string>, d: seq<string>)
    requires Distinct(c)
    ensures Canonical(c) == Canonical(d) <==> IsRotation(c, d)
  {
    CanonicalRotates(c);
    CanonicalRotates(d);
    if IsRotation(c, d) {
      RotationTransitive(c, d, Canonical(d));
      RotationElements(c, d);
      if c != [] {
        var x, y := Canonical(c)[0], Canonical(d)[0];
        RotationElements(c, Canonical(c));
        RotationElements(d, Canonical(d));
        assert x in Canonical(c) && y in Canonical(d);
        LowerBoundUnique(x, y, c);
      }
      RotationByHead(c, Canonical(c), Canonical(d));
    }
    if Canonical(c) == Canonical(d) {
      RotationSymmetric(d, Canonical(d));
      RotationTransitive(c, Canonical(d), d);
    }
  }

  // The joined key determines the canonical form when no name contains NUL.

  ghost predicate NulFree(s: seq<string>) {
    forall i :: 0 <= i < |s| ==> '\0' !in s[i]
  }

  function FirstNul(s: string): nat {
    if s == "" || s[0] == '\0' then 0 else 1 + FirstNul(s[1..])
  }

  lemma {:induction false} FirstNulAfter(a: string, x: string)
    requires '\0' !in a
    ensures FirstNul(a + "\0" + x) == |a|
  {
    if a != "" {
      assert (a + "\0" + x)[1..] == a[1..] + "\0" + x;
      FirstNulAfter(a[1..], x);
    }
  }

  lemma SplitAtNul(a: string, b: string, x: string, y: string)
    requires '\0' !in a && '\0' !in b
    requires a + "\0" + x == b + "\0" + y
    ensures a == b && x == y
  {
    FirstNulAfter(a, x);
    FirstNulAfter(b, y);
    assert a == (a + "\0" + x)[..|a|] && b == (b + "\0" + y)[..|a|];
    assert x == (a + "\0" + x)[|a| + 1..] && y == (b + "\0" + y)[|a| + 1..];
  }

  lemma JoinNulHasNul(p: seq<string>)
    requires p != [] && NulFree(p)
    ensures '\0' in JoinNul(p) <==> |p| > 1
  {
    if |p| > 1 {
      assert JoinNul(p)[|p[0]|] == '\0';
    }
  }

  lemma {:induction false} JoinNulInjective(p: seq<string>, q: seq<string>)
    requires p != [] && q != [] && NulFree(p) && NulFree(q)
    requires JoinNul(p) == JoinNul(q)
    ensures p == q
  {
    JoinNulHasNul(p);
    JoinNulHasNul(q);
    if |p| > 1 {
      SplitAtNul(p[0], q[0], JoinNul(p[1..]), JoinNul(q[1..]));
      JoinNulInjective(p[1..], q[1..]);
      assert p == [p[0]] + p[1..] && q == [q[0]] + q[1..];
    }
  }

  /** Rotations of one cycle always have one key. */
  lemma RotationsShareKey(edges: seq<Edge>, c: seq<string>, d: seq<string>)
    requires SimpleCycle(edges, c) && SimpleCycle(edges, d) && SameCycle(c, d)
    ensures CycleKey(c) == CycleKey(d)
  {
    CanonicalIffRotation(c[..|c| - 1], d[..|d| - 1]);
  }

  /** Without NUL in names, only rotations do. */
  lemma KeyIdentifiesCycle(edges: seq<Edge>, c: seq<string>, d: seq<string>)
    requires SimpleCycle(edges, c) && SimpleCycle(edges, d)
    requires NulFree(c) && NulFree(d)
    requires CycleKey(c) == CycleKey(d)
    ensures SameCycle(c, d)
  {
    var c', d' := c[..|c| - 1], d[..|d| - 1];
    var p, q := Canonical(c'), Canonical(d');
    assert forall x :: x in p ==> x in c' by {
      CanonicalRotates(c');
      RotationElements(c', p);
    }
    assert forall x :: x in q ==> x in d' by {
      CanonicalRotates(d');
      RotationElements(d', q);
    }
    JoinNulInjective(p + [p[0]], q + [q[0]]);
    assert p == (p + [p[0]])[..|c'|];
    assert |p| == |q|;
    assert q == (q + [q[0]])[..|d'|];
    CanonicalIffRotation(c', d');
  }

  // -------------------------------------------------------------- the search

  function FirstIndex(s: seq<string>, x: string): (k: nat)
    requires x in s
    ensures k < |s| && s[k] == x
    ensures forall j :: 0 <= j < k ==> s[j] != x
  {
    if s[0] == x then 0 else 1 + FirstIndex(s[1..], x)
  }

  /** A path of pairwise different nodes, none before root, that ends by
      stepping back onto itself. */
  ghost predicate Lasso(edges: seq<Edge>, root: string, s: seq<string>) {
    && |s| >= 2
    && Walk(edges, s)
    && Distinct(s[..|s| - 1])
    && LowerBound(root, s[..|s| - 1])
    && s[|s| - 1] in s[..|s| - 1]
  }

  /** The cycle at the end of a lasso. */
  ghost function LoopOf(s: seq<string>): seq<string>
    requires |s| >= 2 && s[|s| - 1] in s[..|s| - 1]
  {
    s[FirstIndex(s[..|s| - 1], s[|s| - 1])..]
  }

  lemma LoopIsCycle(edges: seq<Edge>, root: string, s: seq<string>)
    requires Lasso(edges, root, s)
    ensures SimpleCycle(edges, LoopOf(s))
  {
    var n := |s| - 1;
    var k := FirstIndex(s[..n], s[n]);
    var c := LoopOf(s);
    forall i | 0 <= i < |c| - 1 ensures Edge(c[i], c[i + 1]) in edges {
      assert c[i] == s[k + i] && c[i + 1] == s[k + i + 1];
      assert Edge(s[k + i], s[k + i + 1]) in edges;
    }
    assert c[..|c| - 1] == s[..n][k..];
  }

  ghost function Keys(cycles: seq<Cycle>): (ks: seq<string>)
    ensures |ks| == |cycles|
    ensures forall i :: 0 <= i < |cycles| ==> ks[i] == CycleKey(cycles[i].path)
  {
    seq(|cycles|, i requires 0 <= i < |cycles| => CycleKey(cycles[i].path))
  }

  ghost predicate AllSimple(edges: seq<Edge>, cycles: seq<Cycle>) {
    forall c :: c in cycles ==> !c.truncated && SimpleCycle(edges, c.path)
  }

  /** The keys found so far, each once, and the set of them. */
  ghost predicate KeysOnce(keys: seq<string>, seen: set<string>) {
    && Distinct(keys)
    && (forall k :: k in seen <==> k in keys)
  }

  lemma KeysOnceExtends(cycles: seq<Cycle>, seen: set<string>, c: Cycle)
    requires KeysOnce(Keys(cycles), seen) && CycleKey(c.path) !in seen
    ensures KeysOnce(Keys(cycles + [c]), seen + {CycleKey(c.path)})
  {
    assert Keys(cycles + [c]) == Keys(cycles) + [CycleKey(c.path)];
  }

  /** path is a walk without repetition, and inStack is the set of its nodes. */
  ghost predicate OnStack(edges: seq<Edge>, path: seq<string>, inStack: set<string>) {
    && (forall x :: x in path <==> x in inStack)
    && Distinct(path)
    && Walk(edges, path)
  }

  lemma PushOnStack(edges: seq<Edge>, path: seq<string>, inStack: set<string>, node: string)
    requires OnStack(edges, path, inStack) && node !in inStack
    requires path != [] ==> Edge(path[|path| - 1], node) in edges
    ensures OnStack(edges, path + [node], inStack + {node}) && Distinct(path + [node])
  {
  }

  lemma StackIsPath(edges: seq<Edge>, path: seq<string>, inStack: set<string>)
    requires OnStack(edges, path, inStack)
    ensures forall x :: x in path <==> x in inStack
  {}

  lemma PushPop(path: seq<string>, inStack: set<string>, node: string)
    requires node !in inStack
    ensures (path + [node])[..|path|] == path && inStack + {node} - {node} == inStack
  {}

  lemma PushAbove(root: string, path: seq<string>, node: string)
    requires LowerBound(root, path) && !Less(node, root)
    ensures LowerBound(root, path + [node])
  {}

  /** Every lasso that starts with prefix closes a cycle whose key was seen. */
  ghost predicate Covered(edges: seq<Edge>, seen: set<string>, root: string, prefix: seq<string>) {
    forall s :: Lasso(edges, root, s) && prefix <= s ==> CycleKey(LoopOf(s)) in seen
  }

  class CycleFinder {
    ghost const edges: seq<Edge>
    const graph: map<string, seq<string>>
    const nodes: seq<string>
    var cycles: seq<Cycle>
    var seen: set<string>
    var inStack: set<string>
    var path: seq<string>
    var truncated: bool

    ghost const nodeSet: set<string>

    /** graph is the adjacency form of edges, and nodes are its endpoints. */
    ghost predicate GraphOk() {
      && (forall a, b :: Edge(a, b) in edges <==> a in graph && b in graph[a])
      && (forall a, b :: Edge(a, b) in edges ==> a in nodeSet && b in nodeSet)
      && (forall x :: x in nodes <==> x in nodeSet)
      && StrictlySorted(nodes)
    }

    ghost predicate Valid()
      reads this
    {
      && GraphOk()
      && inStack <= nodeSet
      && OnStack(edges, path, inStack)
      && |cycles| <= MAX_CYCLES
      && (truncated ==> |cycles| == MAX_CYCLES)
      && AllSimple(edges, cycles)
      && KeysOnce(Keys(cycles), seen)
    }

    constructor (es: seq<Edge>)
      ensures Valid() && edges == es
      ensures path == [] && cycles == []
    {
      var g: map<string, seq<string>> := map[];
      var ends: set<string> := {};
      var i := 0;
      while i < |es|
        invariant 0 <= i <= |es|
        invariant forall a, b :: Edge(a, b) in es[..i] <==> a in g && b in g[a]
        invariant forall a, b :: Edge(a, b) in es[..i] ==> a in ends && b in ends
      {
        var e := es[i];
        assert es[..i + 1] == es[..i] + [e];
        g := g[e.fromRef := (if e.fromRef in g then g[e.fromRef] else []) + [e.toRef]];
        ends := ends + {e.fromRef, e.toRef};
        i := i + 1;
      }
      assert es[..i] == es;
      var keys := g.Keys;
      while keys != {}
        invariant keys <= g.Keys
        invariant forall a, b :: Edge(a, b) in es <==> a in g && b in g[a]
        decreases keys
      {
        var k :| k in keys;
        g := g[k := SortCompact(g[k])];
        keys := keys - {k};
      }
      var ns: seq<string> := [];
      var rest := ends;
      while rest != {}
        invariant rest <= ends
        invariant forall x :: x in ends <==> x in ns || x in rest
        decreases rest
      {
        var x :| x in rest;
        ns := ns + [x];
        rest := rest - {x};
      }
      edges := es;
      graph := g;
      nodeSet := ends;
      nodes := SortCompact(ns);
      cycles, seen, inStack, path, truncated := [], {}, {}, [], false;
    }

    predicate Capped()
      reads this
    {
      |cycles| >= MAX_CYCLES
    }

    /** Records the cycle formed by the current path back to node. */
    method Emit(node: string)
      requires Valid() && !Capped()
      requires node in path && Edge(path[|path| - 1], node) in edges
      modifies this`cycles, this`seen
      ensures Valid()
      ensures old(cycles) <= cycles
      ensures seen == old(seen) + {CycleKey(LoopOf(path + [node]))}
    {
      hide CycleKey, Canonical, LoopOf;
      var start := -1;
      var i := 0;
      while i < |path|
        invariant 0 <= i <= |path| && start == -1
        invariant forall j :: 0 <= j < i ==> path[j] != node
      {
        if path[i] == node {
          start := i;
          break;
        }
        i := i + 1;
      }
      if start < 0 {
        return;
      }
      var cycle := path[start..];
      cycle := cycle + [node];
      LoopFrom(path, node, start);
      LoopOfPath(edges, path, node);
      KeyNonEmpty(edges, cycle);
      var key := CanonicalCycle(cycle);
      if key != "" && key !in seen {
        KeysOnceExtends(cycles, seen, Cycle(cycle, false));
        seen := seen + {key};
        cycles := cycles + [Cycle(cycle, false)];
      }
    }

    lemma Successors(node: string)
      requires GraphOk()
      ensures forall b :: b in (if node in graph then graph[node] else []) <==> Edge(node, b) in edges
      ensures forall b :: Edge(node, b) in edges ==> b in nodeSet
    {}

    /** Explores every simple path that extends path with node. */
    method Dfs(node: string, root: string)
      requires Valid()
      requires node in nodeSet && LowerBound(root, path)
      requires path != [] ==> Edge(path[|path| - 1], node) in edges
      modifies this
      ensures Valid()
      ensures path == old(path) && inStack == old(inStack)
      ensures old(cycles) <= cycles && old(seen) <= seen
      ensures |cycles| < MAX_CYCLES ==> Covered(edges, seen, root, path + [node])
      decreases nodeSet - inStack, 0
    {
      hide GraphOk, Covered, BranchesCovered, LoopOf, Less, LowerBound, OnStack;
      hide CycleKey, Lasso, Walk, Distinct, AllSimple, KeysOnce, Keys;
      if Capped() {
        truncated := true;
        return;
      }
      StackIsPath(edges, path, inStack);
      if node in inStack {
        Emit(node);
        ClosedPathCovers(edges, seen, root, path, node);
        return;
      }
      PushOnStack(edges, path, inStack, node);
      ghost var pathBefore, stackBefore := path, inStack;
      PushPop(path, inStack, node);
      Successors(node);
      inStack := inStack + {node};
      path := path + [node];
      if !Less(node, root) {
        PushAbove(root, pathBefore, node);
        Visit(if node in graph then graph[node] else [], root);
      }
      if |cycles| < MAX_CYCLES {
        BranchesCover(edges, seen, root, path, if node in graph then graph[node] else []);
      }
      path := path[..|path| - 1];
      inStack := inStack - {node};
      assert path == pathBefore && inStack == stackBefore;
      assert old(cycles) <= cycles && old(seen) <= seen;
      assert Valid();
    }

    /** The loop of Dfs over the successors of the last node of path. */
    method Visit(tos: seq<string>, root: string)
      requires Valid()
      requires path != [] && LowerBound(root, path)
      requires forall b :: b in tos ==> b in nodeSet && Edge(path[|path| - 1], b) in edges
      modifies this
      ensures Valid()
      ensures path == old(path) && inStack == old(inStack)
      ensures old(cycles) <= cycles && old(seen) <= seen
      ensures |cycles| < MAX_CYCLES ==> BranchesCovered(edges, seen, root, path, tos)
      decreases nodeSet - inStack, 1
    {
      hide CycleKey, Lasso, Walk, Distinct, AllSimple, KeysOnce, Keys;
      var i := 0;
      while i < |tos|
        invariant 0 <= i <= |tos|
        invariant Valid()
        invariant path == old(path) && inStack == old(inStack)
        invariant old(cycles) <= cycles && old(seen) <= seen
        invariant |cycles| < MAX_CYCLES ==> BranchesCovered(edges, seen, root, path, tos[..i])
      {
        ghost var seenBefore := seen;
        Dfs(tos[i], root);
        if Capped() {
          truncated := true;
          return;
        }
        assert tos[..i + 1] == tos[..i] + [tos[i]];
        i := i + 1;
      }
      assert tos[..i] == tos;
    }
  }

  lemma KeyNonEmpty(edges: seq<Edge>, c: seq<string>)
    requires SimpleCycle(edges, c)
    ensures CycleKey(c) != ""
  {
    var r := Canonical(c[..|c| - 1]);
    JoinNulNonEmpty(r + [r[0]]);
  }

  lemma LoopFrom(path: seq<string>, node: string, start: nat)
    requires start < |path| && path[start] == node
    requires forall j :: 0 <= j < start ==> path[j] != node
    ensures (path + [node])[..|path|] == path
    ensures LoopOf(path + [node]) == path[start..] + [node]
  {
    assert (path + [node])[..|path|] == path;
  }

  lemma LoopOfPath(edges: seq<Edge>, path: seq<string>, node: string)
    requires Distinct(path) && Walk(edges, path) && node in path
    requires Edge(path[|path| - 1], node) in edges
    ensures SimpleCycle(edges, LoopOf(path + [node]))
  {
    assert (path + [node])[..|path|] == path;
    LoopIsCycle(edges, path[MinIndex(path, |path|)], path + [node]) by {
      assert path[..|path|] == path;
    }
  }

  /** A lasso with one node twice, first at k and then at n, ends at n. */
  lemma LassoEnds(edges: seq<Edge>, root: string, s: seq<string>, k: nat, n: nat)
    requires Lasso(edges, root, s) && k < n < |s| && s[k] == s[n]
    ensures |s| == n + 1
  {
    var d := s[..|s| - 1];
    forall i, j | 0 <= i < j < |d|
      ensures s[i] != s[j]
    {
      assert d[i] != d[j];
    }
  }

  /** A node met again ends every lasso through it. */
  lemma ClosedPathCovers(edges: seq<Edge>, seen: set<string>, root: string, path: seq<string>, node: string)
    requires node in path && CycleKey(LoopOf(path + [node])) in seen
    ensures Covered(edges, seen, root, path + [node])
  {
    hide CycleKey, LoopOf, Lasso;
    var k := FirstIndex(path, node);
    var t := path + [node];
    assert t[k] == node && t[|path|] == node;
    forall s | Lasso(edges, root, s) && t <= s
      ensures s == t
    {
      assert s[k] == t[k] && s[|path|] == t[|path|];
      LassoEnds(edges, root, s, k, |path|);
    }
  }

  ghost predicate BranchesCovered(edges: seq<Edge>, seen: set<string>, root: string,
                                  path: seq<string>, tos: seq<string>) {
    forall b :: b in tos ==> Covered(edges, seen, root, path + [b])
  }

  /** Lassos through a path are those through its one-step extensions. */
  lemma BranchesCover(edges: seq<Edge>, seen: set<string>, root: string, path: seq<string>, tos: seq<string>)
    requires path != [] && Distinct(path)
    requires !Less(path[|path| - 1], root) ==> BranchesCovered(edges, seen, root, path, tos)
    requires forall b :: Edge(path[|path| - 1], b) in edges ==> b in tos
    ensures Covered(edges, seen, root, path)
  {
    forall s | Lasso(edges, root, s) && path <= s ensures CycleKey(LoopOf(s)) in seen {
      var n := |path|;
      var k := FirstIndex(s[..|s| - 1], s[|s| - 1]);
      assert k < n ==> path[k] == s[k];
      assert |s| > n;
      assert s[n - 1] == path[n - 1] && s[n - 1] in s[..|s| - 1];
      assert Edge(s[n - 1], s[n]) in edges;
      assert path + [s[n]] <= s;
    }
  }

  // ------------------------------------------------------------- DetectCycles

  lemma RotatedCycle(edges: seq<Edge>, c: seq<string>, k: nat)
    requires SimpleCycle(edges, c) && k < |c| - 1
    ensures var d := Rotate(c[..|c| - 1], k) + [c[k]];
            SimpleCycle(edges, d) && CycleKey(d) == CycleKey(c) && d[0] == c[k]
  {
    var n := |c| - 1;
    var d := Rotate(c[..n], k) + [c[k]];
    forall i | 0 <= i < n ensures Edge(d[i], d[i + 1]) in edges {
      var j := if i < n - k then i + k else i + k - n;
      assert d[i] == c[j] && d[i + 1] == c[j + 1];
      assert Edge(c[j], c[j + 1]) in edges;
    }
    assert d[..n] == Rotate(c[..n], k);
    assert IsRotation(c[..n], d[..n]);
    CanonicalIffRotation(c[..n], d[..n]);
  }

  /** A cycle that starts at its smallest node is a lasso below that node. */
  lemma SmallestFirstIsLasso(edges: seq<Edge>, d: seq<string>)
    requires SimpleCycle(edges, d) && LowerBound(d[0], d[..|d| - 1])
    ensures Lasso(edges, d[0], d) && LoopOf(d) == d
  {
    assert d[..|d| - 1][0] == d[|d| - 1];
  }

  ghost predicate RootsCovered(edges: seq<Edge>, seen: set<string>, roots: seq<string>) {
    forall r :: r in roots ==> Covered(edges, seen, r, [r])
  }

  lemma RootCovered(edges: seq<Edge>, seen: set<string>, seen': set<string>, roots: seq<string>, r: string)
    requires RootsCovered(edges, seen, roots) && seen <= seen'
    requires Covered(edges, seen', r, [r])
    ensures RootsCovered(edges, seen', roots + [r])
  {
  }

  /** Searching from every node meets every simple cycle. */
  lemma AllCyclesSeen(edges: seq<Edge>, seen: set<string>, nodes: seq<string>, c: seq<string>)
    requires RootsCovered(edges, seen, nodes)
    requires SimpleCycle(edges, c) && forall x :: x in c ==> x in nodes
    ensures CycleKey(c) in seen
  {
    var n := |c| - 1;
    var m := MinIndex(c[..n], n);
    assert c[..n][..n] == c[..n];
    RotatedCycle(edges, c, m);
    var d := Rotate(c[..n], m) + [c[m]];
    assert d[..n] == Rotate(c[..n], m);
    RotationElements(c[..n], d[..n]);
    SmallestFirstIsLasso(edges, d);
    assert c[m] in nodes && [d[0]] <= d;
  }

  lemma CycleNodes(edges: seq<Edge>, c: seq<string>, x: string)
    requires SimpleCycle(edges, c) && x in c
    ensures exists y :: Edge(x, y) in edges
  {
    var i :| 0 <= i < |c| && c[i] == x;
    var j := if i == |c| - 1 then 0 else i;
    assert Edge(c[j], c[j + 1]) in edges;
  }

  /** The result with the last element flagged when the search was cut short. */
  function Flagged(cycles: seq<Cycle>, truncated: bool): seq<Cycle> {
    if truncated && |cycles| > 0
    then cycles[|cycles| - 1 := Cycle(cycles[|cycles| - 1].path, true)]
    else cycles
  }

  lemma EveryCycleSeen(edges: seq<Edge>, seen: set<string>, nodes: seq<string>)
    requires RootsCovered(edges, seen, nodes)
    requires forall a, b :: Edge(a, b) in edges ==> a in nodes
    ensures forall c :: SimpleCycle(edges, c) ==> CycleKey(c) in seen
  {
    forall c | SimpleCycle(edges, c) ensures CycleKey(c) in seen {
      forall x | x in c ensures x in nodes {
        CycleNodes(edges, c, x);
      }
      AllCyclesSeen(edges, seen, nodes, c);
    }
  }

  lemma FlaggedKeepsPaths(edges: seq<Edge>, cycles: seq<Cycle>, truncated: bool)
    requires AllSimple(edges, cycles)
    ensures Keys(Flagged(cycles, truncated)) == Keys(cycles)
    ensures forall r :: r in Flagged(cycles, truncated) ==> SimpleCycle(edges, r.path)
    ensures forall i :: 0 <= i < |cycles| ==>
              (Flagged(cycles, truncated)[i].truncated <==> truncated && i == |cycles| - 1)
  {
    var result := Flagged(cycles, truncated);
    assert forall k :: 0 <= k < |cycles| ==> result[k].path == cycles[k].path && cycles[k] in cycles;
    assert Keys(result) == Keys(cycles);
  }

  /** Simple cycles of the graph with different keys, at most 1000; below that the key
      of every simple cycle; and only the 1000th is flagged. */
  ghost predicate Detected(edges: seq<Edge>, result: seq<Cycle>) {
    && (forall r :: r in result ==> SimpleCycle(edges, r.path))
    && Distinct(Keys(result))
    && |result| <= MAX_CYCLES
    && (|result| < MAX_CYCLES ==> forall c :: SimpleCycle(edges, c) ==> CycleKey(c) in Keys(result))
    && forall i :: 0 <= i < |result| ==> (result[i].truncated <==> i == MAX_CYCLES - 1)
  }

  method DetectCycles(edges: seq<Edge>) returns (result: seq<Cycle>)
    ensures Detected(edges, result)
  {
    hide CycleKey;
    var finder := new CycleFinder(edges);
    var i := 0;
    while i < |finder.nodes|
      invariant 0 <= i <= |finder.nodes|
      invariant finder.Valid() && finder.path == []
      invariant !finder.Capped() && !finder.truncated
      invariant RootsCovered(edges, finder.seen, finder.nodes[..i])
    {
      var root := finder.nodes[i];
      ghost var seenBefore := finder.seen;
      finder.Dfs(root, root);
      assert [] + [root] == [root];
      if finder.Capped() {
        finder.truncated := true;
        break;
      }
      RootCovered(edges, seenBefore, finder.seen, finder.nodes[..i], root);
      assert finder.nodes[..i + 1] == finder.nodes[..i] + [root];
      i := i + 1;
    }
    if !finder.Capped() {
      assert finder.nodes[..i] == finder.nodes;
      EveryCycleSeen(edges, finder.seen, finder.nodes);
    }
    result := Flagged(finder.cycles, finder.truncated);
    FlaggedKeepsPaths(edges, finder.cycles, finder.truncated);
  }

  // ------------------------------------------- what the result says about cycles

  /** The result lists the cycle c once, up to rotation. */
  ghost predicate ListedOnce(result: seq<Cycle>, c: seq<string>) {
    exists i :: 0 <= i < |result| && SameCycle(result[i].path, c)
                && forall j :: 0 <= j < |result| && SameCycle(result[j].path, c) ==> j == i
  }

  /** No two cycles of the graph that differ by more than rotation share a key. */
  ghost predicate KeysSeparate(edges: seq<Edge>) {
    forall c, d :: SimpleCycle(edges, c) && SimpleCycle(edges, d) && CycleKey(c) == CycleKey(d) ==> SameCycle(c, d)
  }

  /** No two results are rotations of one another, whatever the names are. */
  lemma ResultsDiffer(edges: seq<Edge>, result: seq<Cycle>, i: nat, j: nat)
    requires forall r :: r in result ==> SimpleCycle(edges, r.path)
    requires Distinct(Keys(result)) && i < |result| && j < |result|
    requires SameCycle(result[i].path, result[j].path)
    ensures i == j
  {
    RotationsShareKey(edges, result[i].path, result[j].path);
    assert Keys(result)[i] == Keys(result)[j];
  }

  lemma SameCycleSymmetric(c: seq<string>, d: seq<string>)
    requires SameCycle(c, d)
    ensures SameCycle(d, c)
  {
    RotationSymmetric(c[..|c| - 1], d[..|d| - 1]);
  }

  lemma SameCycleTransitive(a: seq<string>, b: seq<string>, c: seq<string>)
    requires SameCycle(a, b) && SameCycle(b, c)
    ensures SameCycle(a, c)
  {
    RotationTransitive(a[..|a| - 1], b[..|b| - 1], c[..|c| - 1]);
  }

  lemma SeparateKeysList(edges: seq<Edge>, result: seq<Cycle>, c: seq<string>)
    requires forall r :: r in result ==> SimpleCycle(edges, r.path)
    requires Distinct(Keys(result)) && KeysSeparate(edges)
    requires SimpleCycle(edges, c) && CycleKey(c) in Keys(result)
    ensures ListedOnce(result, c)
  {
    var i :| 0 <= i < |result| && Keys(result)[i] == CycleKey(c);
    assert SameCycle(result[i].path, c);
    forall j | 0 <= j < |result| && SameCycle(result[j].path, c) ensures j == i {
      SameCycleSymmetric(result[i].path, c);
      SameCycleTransitive(result[j].path, c, result[i].path);
      ResultsDiffer(edges, result, j, i);
    }
  }

  lemma ListedKeysSeparate(edges: seq<Edge>, result: seq<Cycle>, c: seq<string>, d: seq<string>)
    requires forall r :: r in result ==> SimpleCycle(edges, r.path)
    requires Distinct(Keys(result))
    requires SimpleCycle(edges, c) && ListedOnce(result, c)
    requires SimpleCycle(edges, d) && ListedOnce(result, d)
    requires CycleKey(c) == CycleKey(d)
    ensures SameCycle(c, d)
  {
    var i :| 0 <= i < |result| && SameCycle(result[i].path, c);
    var j :| 0 <= j < |result| && SameCycle(result[j].path, d);
    RotationsShareKey(edges, result[i].path, c);
    RotationsShareKey(edges, result[j].path, d);
    assert Keys(result)[i] == Keys(result)[j];
    SameCycleSymmetric(result[i].path, c);
    SameCycleTransitive(c, result[i].path, d);
  }

  /** A complete result lists every simple cycle exactly once, up to rotation,
      if and only if the keys of the graph's cycles separate them. */
  lemma ListedOnceIffKeysSeparate(edges: seq<Edge>, result: seq<Cycle>)
    requires forall r :: r in result ==> SimpleCycle(edges, r.path)
    requires Distinct(Keys(result))
    requires forall c :: SimpleCycle(edges, c) ==> CycleKey(c) in Keys(result)
    ensures (forall c :: SimpleCycle(edges, c) ==> ListedOnce(result, c)) <==> KeysSeparate(edges)
  {
    if KeysSeparate(edges) {
      forall c | SimpleCycle(edges, c) ensures ListedOnce(result, c) {
        SeparateKeysList(edges, result, c);
      }
    }
    if forall c :: SimpleCycle(edges, c) ==> ListedOnce(result, c) {
      forall c, d | SimpleCycle(edges, c) && SimpleCycle(edges, d) && CycleKey(c) == CycleKey(d)
        ensures SameCycle(c, d)
      {
        ListedKeysSeparate(edges, result, c, d);
      }
    }
  }

  /** No name contains NUL, as is true of Go identifiers and import paths. */
  ghost predicate NulFreeEdges(edges: seq<Edge>) {
    forall e :: e in edges ==> '\0' !in e.fromRef && '\0' !in e.toRef
  }

  lemma NulFreeKeysSeparate(edges: seq<Edge>)
    requires NulFreeEdges(edges)
    ensures KeysSeparate(edges)
  {
    forall c, d | SimpleCycle(edges, c) && SimpleCycle(edges, d) && CycleKey(c) == CycleKey(d)
      ensures SameCycle(c, d)
    {
      forall i | 0 <= i < |c| ensures '\0' !in c[i] {
        CycleNodes(edges, c, c[i]);
      }
      forall i | 0 <= i < |d| ensures '\0' !in d[i] {
        CycleNodes(edges, d, d[i]);
      }
      KeyIdentifiesCycle(edges, c, d);
    }
  }

  /** With names that an index can hold, a result below the cap lists every simple cycle
      of the graph exactly once, up to rotation. */
  lemma CompleteResult(edges: seq<Edge>, result: seq<Cycle>, c: seq<string>)
    requires Detected(edges, result) && NulFreeEdges(edges)
    requires |result| < MAX_CYCLES && SimpleCycle(edges, c)
    ensures ListedOnce(result, c)
  {
    hide SimpleCycle, CycleKey, ListedOnce, NulFreeEdges;
    NulFreeKeysSeparate(edges);
    ListedOnceIffKeysSeparate(edges, result);
  }

  lemma CollidingKeys()
    ensures CycleKey(["p", "q", "r", "p"]) == CycleKey(["p", "q\0r", "p"])
  {
    var c, d := ["p", "q", "r"], ["p", "q\0r"];
    assert ["p", "q", "r", "p"][..3] == c && ["p", "q\0r", "p"][..2] == d;
    assert MinIndex(c, 1) == 0 && MinIndex(c, 2) == 0 && MinIndex(c, 3) == 0;
    assert MinIndex(d, 1) == 0 && MinIndex(d, 2) == 0;
    assert Canonical(c) == c && Canonical(d) == d;
    assert JoinNul(c + ["p"]) == "p\0" + JoinNul((c + ["p"])[1..]);
    assert (c + ["p"])[1..] == ["q", "r", "p"] && ["q", "r", "p"][1..] == ["r", "p"];
    assert JoinNul(["r", "p"]) == "r\0p";
    assert JoinNul(["q", "r", "p"]) == "q\0r\0p";
    assert (d + ["p"])[1..] == ["q\0r", "p"];
    assert JoinNul(["q\0r", "p"]) == "q\0r\0p";
  }

  /** With NUL in a name, which no indexed name has, two different cycles could share
      one key. */
  lemma NulNamesCollide()
    ensures !KeysSeparate([Edge("p", "q"), Edge("q", "r"), Edge("r", "p"), Edge("p", "q\0r"), Edge("q\0r", "p")])
  {
    var edges := [Edge("p", "q"), Edge("q", "r"), Edge("r", "p"), Edge("p", "q\0r"), Edge("q\0r", "p")];
    var c, d := ["p", "q", "r", "p"], ["p", "q\0r", "p"];
    assert edges[0] in edges && edges[1] in edges && edges[2] in edges && edges[3] in edges && edges[4] in edges;
    assert SimpleCycle(edges, c) by {
      assert Walk(edges, c);
    }
    assert SimpleCycle(edges, d) by {
      assert Walk(edges, d);
    }
    assert !SameCycle(c, d) by {
      assert |c[..3]| != |d[..2]|;
    }
    CollidingKeys();
  }

  /** Cycles run along the edges: of a to b, b to c and c to a, one way round is a cycle
      and the other is not. */
  lemma TriangleDirection(a: string, b: string, c: string)
    requires a != b && b != c && a != c
    ensures var edges := [Edge(a, b), Edge(b, c), Edge(c, a)];
            SimpleCycle(edges, [a, b, c, a]) && !SimpleCycle(edges, [a, c, b, a])
  {
    var edges := [Edge(a, b), Edge(b, c), Edge(c, a)];
    var s, t := [a, b, c, a], [a, c, b, a];
    assert edges[0] == Edge(a, b) && edges[1] == Edge(b, c) && edges[2] == Edge(c, a);
    assert s[..3] == [a, b, c];
    assert Edge(t[0], t[1]) !in edges;
  }
}
