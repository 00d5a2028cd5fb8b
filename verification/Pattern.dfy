/** Structural matching of a pattern with metavariables against a syntax tree
    (pattern/pattern.go). Trees are position-free, so printing two nodes and
    comparing the text is comparing the trees. */
module Pattern {
  import opened Options

  /** A reflected syntax value with the skipped fields left out. */
  datatype Tree =
    | Nil                                     // a nil interface or pointer
    | Node(kind: string, fields: seq<Tree>)   // a pointer to a syntax struct
    | List(elem: string, items: seq<Tree>)    // a slice and its element type
    | Leaf(typ: string, text: string)         // a string, token or flag

  const PLACEHOLDER_PREFIX := "__codemap_mv_"
  const ELLIPSIS_SENTINEL := "_cmEllipsis"

  type Bindings = map<string, Tree>

  // ------------------------------------------------------------ metavariables

  predicate IsPlaceholder(name: string) {
    PLACEHOLDER_PREFIX <= name
  }

  function MetaName(name: string): string {
    if IsPlaceholder(name) then name[|PLACEHOLDER_PREFIX|..] else name
  }

  /** The name of an identifier node. */
  function IdentName(t: Tree): Option<string> {
    if t.Node? && t.kind == "Ident" && |t.fields| == 1 && t.fields[0].Leaf? then Some(t.fields[0].text) else None
  }

  /** A placeholder called without arguments, as emitted for defer and go. */
  function MetavarCallName(t: Tree): Option<string> {
    if t.Node? && t.kind == "CallExpr" && |t.fields| == 3
       && t.fields[1].List? && t.fields[1].items == []
       && t.fields[2] == Leaf("bool", "false")
       && IdentName(t.fields[0]).Some? && IsPlaceholder(IdentName(t.fields[0]).value)
    then Some(MetaName(IdentName(t.fields[0]).value)) else None
  }

  function MetavariableName(p: Tree): Option<string> {
    if IdentName(p).Some? then
      if IsPlaceholder(IdentName(p).value) then Some(MetaName(IdentName(p).value)) else None
    else MetavarCallName(p)
  }

  /** How many elements precede the ellipsis that ends an expression list. */
  function TrailingEllipsis(p: Tree): (n: Option<nat>)
    requires p.List?
    ensures n.Some? ==> n.value < |p.items|
  {
    if p.elem == "Expr" && |p.items| > 0 && IdentName(p.items[|p.items| - 1]) == Some(ELLIPSIS_SENTINEL)
    then Some(|p.items| - 1) else None
  }

  /** How many elements of a list pattern are compared. */
  function Compared(p: Tree): (n: nat)
    requires p.List?
    ensures n <= |p.items|
  {
    if TrailingEllipsis(p).Some? then TrailingEllipsis(p).value else |p.items|
  }

  // --------------------------------------------------- what a match should mean

  /** c is an instance of p under s: every metavariable stands for the one node
      s gives it, and a trailing ellipsis stands for any further elements. */
  ghost predicate Instance(p: Tree, s: Bindings, c: Tree) {
    if MetavariableName(p).Some? then
      c.Node? && MetavariableName(p).value in s && s[MetavariableName(p).value] == c
    else match p
      case Nil => c == Nil
      case Leaf(_, _) => c == p
      case Node(kind, fields) =>
        c.Node? && c.kind == kind && |c.fields| == |fields|
        && forall i :: 0 <= i < |fields| ==> Instance(fields[i], s, c.fields[i])
      case List(elem, items) =>
        c.List? && c.elem == elem
        && (if TrailingEllipsis(p).Some? then |c.items| >= Compared(p) else |c.items| == |items|)
        && forall i :: 0 <= i < Compared(p) ==> Instance(items[i], s, c.items[i])
  }

  /** The metavariables of the part of p that is compared. */
  ghost function Vars(p: Tree): set<string> {
    if MetavariableName(p).Some? then {MetavariableName(p).value}
    else match p
      case Nil => {}
      case Leaf(_, _) => {}
      case Node(_, fields) => VarsUpTo(fields, |fields|)
      case List(_, items) =>
        VarsUpTo(items, Compared(p))
  }

  ghost function VarsUpTo(ps: seq<Tree>, n: nat): set<string>
    requires n <= |ps|
    decreases ps, n
  {
    if n == 0 then {} else VarsUpTo(ps, n - 1) + Vars(ps[n - 1])
  }

  ghost predicate Extends(s: Bindings, t: Bindings) {
    forall x :: x in s ==> x in t && t[x] == s[x]
  }

  lemma {:induction false} InstanceExtends(p: Tree, s: Bindings, t: Bindings, c: Tree)
    requires Instance(p, s, c) && Extends(s, t)
    ensures Instance(p, t, c)
  {
    if MetavariableName(p).None? {
      match p
      case Nil =>
      case Leaf(_, _) =>
      case Node(_, fields) =>
        forall i | 0 <= i < |fields| ensures Instance(fields[i], t, c.fields[i]) {
          InstanceExtends(fields[i], s, t, c.fields[i]);
        }
      case List(_, items) =>
        forall i | 0 <= i < Compared(p) ensures Instance(items[i], t, c.items[i]) {
          InstanceExtends(items[i], s, t, c.items[i]);
        }
    }
  }

  // ---------------------------------------------------------------- the matcher

  class Matcher {
    var bindings: Bindings

    constructor ()
      ensures bindings == map[]
    {
      bindings := map[];
    }

    method Bind(name: string, node: Tree) returns (ok: bool)
      modifies this
      ensures ok <==> name !in old(bindings) || old(bindings)[name] == node
      ensures bindings == if name in old(bindings) then old(bindings) else old(bindings)[name := node]
    {
      if name in bindings {
        return bindings[name] == node;
      }
      bindings := bindings[name := node];
      return true;
    }

    /** Succeeds exactly when some substitution that agrees with the bindings
        so far makes p an instance, and then adds only what p forces. */
    method MatchValue(p: Tree, c: Tree) returns (ok: bool)
      modifies this
      ensures ok ==> Extends(old(bindings), bindings) && Instance(p, bindings, c)
      ensures ok ==> bindings.Keys == old(bindings).Keys + Vars(p)
      ensures forall s :: Extends(old(bindings), s) && Instance(p, s, c) ==> ok && Extends(bindings, s)
      decreases p, 1
    {
      var name := MetavariableName(p);
      if name.Some? {
        if !c.Node? {
          return false;
        }
        ok := Bind(name.value, c);
        return;
      }
      match p {
        case Nil => return c == Nil;
        case Leaf(_, _) => return c == p;
        case Node(kind, fields) =>
          if !c.Node? || c.kind != kind || |c.fields| != |fields| {
            return false;
          }
          ok := MatchFirst(p, fields, c.fields, |fields|);
        case List(elem, items) =>
          if !c.List? || c.elem != elem {
            return false;
          }
          var prefixLen := TrailingEllipsis(p);
          if prefixLen.Some? {
            if |c.items| < prefixLen.value {
              return false;
            }
            ok := MatchFirst(p, items, c.items, prefixLen.value);
            return;
          }
          if |c.items| != |items| {
            return false;
          }
          ok := MatchFirst(p, items, c.items, |items|);
      }
    }

    /** Matches the first n children of parent pairwise, from left to right. */
    method MatchFirst(ghost parent: Tree, ps: seq<Tree>, cs: seq<Tree>, n: nat) returns (ok: bool)
      requires n <= |ps| && n <= |cs|
      requires (parent.Node? && ps == parent.fields) || (parent.List? && ps == parent.items)
      modifies this
      ensures ok ==> Extends(old(bindings), bindings)
      ensures ok ==> forall i :: 0 <= i < n ==> Instance(ps[i], bindings, cs[i])
      ensures ok ==> bindings.Keys == old(bindings).Keys + VarsUpTo(ps, n)
      ensures forall s :: Extends(old(bindings), s) && (forall i :: 0 <= i < n ==> Instance(ps[i], s, cs[i]))
                ==> ok && Extends(bindings, s)
      decreases parent, 0
    {
      hide Instance, Vars;
      var i := 0;
      while i < n
        invariant 0 <= i <= n
        invariant Extends(old(bindings), bindings)
        invariant forall k :: 0 <= k < i ==> Instance(ps[k], bindings, cs[k])
        invariant bindings.Keys == old(bindings).Keys + VarsUpTo(ps, i)
        invariant forall s :: Extends(old(bindings), s) && (forall k :: 0 <= k < n ==> Instance(ps[k], s, cs[k]))
                    ==> Extends(bindings, s)
      {
        ghost var before := bindings;
        var same := MatchValue(ps[i], cs[i]);
        if !same {
          return false;
        }
        forall k | 0 <= k < i ensures Instance(ps[k], bindings, cs[k]) {
          InstanceExtends(ps[k], before, bindings, cs[k]);
        }
        i := i + 1;
      }
      return true;
    }
  }

  /** There is a result exactly when the node is an instance of the pattern under some
      substitution, and then it is the least such substitution. */
  ghost predicate IsMatch(root: Tree, node: Tree, result: Option<Bindings>) {
    && (result.Some? <==> node.Node? && exists s :: Instance(root, s, node))
    && (result.Some? ==> Instance(root, result.value, node) && result.value.Keys == Vars(root))
    && (result.Some? ==> forall s :: Instance(root, s, node) ==> Extends(result.value, s))
  }

  method Match(root: Tree, node: Tree) returns (result: Option<Bindings>)
    ensures IsMatch(root, node, result)
  {
    if !node.Node? {
      return None;
    }
    var m := new Matcher();
    var ok := m.MatchValue(root, node);
    if !ok {
      return None;
    }
    assert Instance(root, m.bindings, node);
    return Some(m.bindings);
  }

  // ------------------------------------------------- applying a substitution

  /** p with its metavariables replaced by what s gives them, and each trailing
      ellipsis by the elements that c has in its place. */
  function Apply(p: Tree, s: Bindings, c: Tree): Tree {
    if MetavariableName(p).Some? then
      if MetavariableName(p).value in s then s[MetavariableName(p).value] else p
    else match p
      case Nil => p
      case Leaf(_, _) => p
      case Node(kind, fields) =>
        Node(kind, ApplyFirst(fields, |fields|, s, if c.Node? then c.fields else []))
      case List(elem, items) =>
        var n, cs := Compared(p), if c.List? then c.items else [];
        List(elem, ApplyFirst(items, n, s, cs) + if n < |items| && n < |cs| then cs[n..] else [])
  }

  function ApplyFirst(ps: seq<Tree>, n: nat, s: Bindings, cs: seq<Tree>): (r: seq<Tree>)
    requires n <= |ps|
    ensures |r| == n
    ensures forall i :: 0 <= i < n ==> r[i] == Apply(ps[i], s, if i < |cs| then cs[i] else Nil)
    decreases ps, n
  {
    if n == 0 then []
    else ApplyFirst(ps, n - 1, s, cs) + [Apply(ps[n - 1], s, if n - 1 < |cs| then cs[n - 1] else Nil)]
  }

  ghost predicate BindsNodes(p: Tree, s: Bindings) {
    forall x :: x in Vars(p) ==> x in s && s[x].Node?
  }

  lemma {:induction false} VarsOfChild(ps: seq<Tree>, n: nat, i: nat)
    requires i < n <= |ps|
    ensures Vars(ps[i]) <= VarsUpTo(ps, n)
  {
    if i < n - 1 { VarsOfChild(ps, n - 1, i); }
  }

  lemma {:induction false} InstanceBindsNodes(p: Tree, s: Bindings, c: Tree)
    requires Instance(p, s, c)
    ensures BindsNodes(p, s)
    decreases p
  {
    if MetavariableName(p).None? {
      match p
      case Nil =>
      case Leaf(_, _) =>
      case Node(_, fields) => FirstBindNodes(p, fields, c.fields, |fields|, s);
      case List(_, items) => FirstBindNodes(p, items, c.items, Compared(p), s);
    }
  }

  lemma {:induction false} FirstBindNodes(parent: Tree, ps: seq<Tree>, cs: seq<Tree>, n: nat, s: Bindings)
    requires n <= |ps| && n <= |cs|
    requires (parent.Node? && ps == parent.fields) || (parent.List? && ps == parent.items)
    requires forall i :: 0 <= i < n ==> Instance(ps[i], s, cs[i])
    ensures forall x :: x in VarsUpTo(ps, n) ==> x in s && s[x].Node?
    decreases parent, n
  {
    if n > 0 {
      FirstBindNodes(parent, ps, cs, n - 1, s);
      InstanceBindsNodes(ps[n - 1], s, cs[n - 1]);
    }
  }

  /** Being an instance is being the tree that the substitution produces. */
  lemma {:induction false} InstanceIsApply(p: Tree, s: Bindings, c: Tree)
    ensures Instance(p, s, c) <==> BindsNodes(p, s) && Apply(p, s, c) == c
  {
    hide ApplyFirst, VarsUpTo;
    if Instance(p, s, c) {
      InstanceBindsNodes(p, s, c);
    }
    if MetavariableName(p).None? && BindsNodes(p, s) {
      match p
      case Nil =>
      case Leaf(_, _) =>
      case Node(kind, fields) =>
        if c.Node? && |c.fields| == |fields| {
          forall i | 0 <= i < |fields|
            ensures Instance(fields[i], s, c.fields[i]) <==> Apply(fields[i], s, c.fields[i]) == c.fields[i]
          {
            VarsOfChild(fields, |fields|, i);
            InstanceIsApply(fields[i], s, c.fields[i]);
          }
          var r := ApplyFirst(fields, |fields|, s, c.fields);
          assert r == c.fields <==> forall i :: 0 <= i < |fields| ==> r[i] == c.fields[i];
        }
      case List(elem, items) =>
        var n := Compared(p);
        if c.List? && |c.items| >= n {
          forall i | 0 <= i < n
            ensures Instance(items[i], s, c.items[i]) <==> Apply(items[i], s, c.items[i]) == c.items[i]
          {
            VarsOfChild(items, n, i);
            InstanceIsApply(items[i], s, c.items[i]);
          }
          var r := ApplyFirst(items, n, s, c.items);
          assert r == c.items[..n] <==> forall i :: 0 <= i < n ==> r[i] == c.items[i];
          assert c.items == c.items[..n] + c.items[n..];
        }
    }
  }

  // --------------------------------------------------------------- what is a metavariable

  /** An identifier. */
  function Ident(name: string): Tree {
    Node("Ident", [Leaf("string", name)])
  }

  /** A call of an identifier without arguments. */
  function Call(name: string): Tree {
    Node("CallExpr", [Ident(name), List("Expr", []), Leaf("bool", "false")])
  }

  /** Names with the placeholder's prefix are metavariables, by what follows it. */
  lemma MetavariableIs(x: string)
    ensures MetavariableName(Ident("__codemap_mv_" + x)) == Some(x)
    ensures MetavariableName(Call("__codemap_mv_" + x)) == Some(x)
  {
    assert ("__codemap_mv_" + x)[|"__codemap_mv_"|..] == x;
  }

  lemma PlaceholderName(name: string)
    requires IsPlaceholder(name)
    ensures name == "__codemap_mv_" + MetaName(name)
  {}

  /** Nothing else is one. */
  lemma MetavariableIff(t: Tree)
    ensures MetavariableName(t).Some? ==>
              var name := "__codemap_mv_" + MetavariableName(t).value;
              || (exists typ :: t == Node("Ident", [Leaf(typ, name)]))
              || (exists typ, elem :: t == Node("CallExpr", [Node("Ident", [Leaf(typ, name)]), List(elem, []),
                                                             Leaf("bool", "false")]))
  {
    if IdentName(t).Some? && MetavariableName(t).Some? {
      PlaceholderName(t.fields[0].text);
      assert t.fields == [t.fields[0]];
      assert t == Node("Ident", [Leaf(t.fields[0].typ, "__codemap_mv_" + MetavariableName(t).value)]);
    } else if MetavariableName(t).Some? {
      var f := t.fields;
      PlaceholderName(f[0].fields[0].text);
      assert f == [f[0], f[1], f[2]] && f[0].fields == [f[0].fields[0]];
      assert t == Node("CallExpr", [Node("Ident", [Leaf(f[0].fields[0].typ,
                                                        "__codemap_mv_" + MetavariableName(t).value)]),
                                    List(f[1].elem, []), Leaf("bool", "false")]);
    }
  }

  lemma OtherNamesAreNone(name: string)
    requires !("__codemap_mv_" <= name)
    ensures MetavariableName(Ident(name)) == None && MetavariableName(Call(name)) == None
  {}

  /** Two metavariables side by side: with different names they match any two nodes, each
      bound to its own; with one name only the same node twice. */
  lemma TwoMetavariables(kind: string, x: string, y: string, a: Tree, b: Tree, s: Bindings)
    requires a.Node? && b.Node? && kind != "Ident" && kind != "CallExpr"
    ensures var p := Node(kind, [Ident("__codemap_mv_" + x), Ident("__codemap_mv_" + y)]);
            && Vars(p) == {x, y}
            && (Instance(p, s, Node(kind, [a, b])) <==> x in s && y in s && s[x] == a && s[y] == b)
  {
    MetavariableIs(x);
    MetavariableIs(y);
    var ps := [Ident("__codemap_mv_" + x), Ident("__codemap_mv_" + y)];
    var p := Node(kind, ps);
    hide Ident;
    assert MetavariableName(p) == None;
    assert VarsUpTo(ps, 1) == {x};
    assert VarsUpTo(ps, 2) == {x, y};
    var c := Node(kind, [a, b]);
    assert c.fields[0] == a && c.fields[1] == b && ps[0] == p.fields[0] && ps[1] == p.fields[1];
    assert Instance(p, s, c) <==> Instance(ps[0], s, a) && Instance(ps[1], s, b);
  }

  /** So $X + $Y matches a + b with X for a and Y for b, and $X + $X only a + a. */
  lemma TwoMatched(kind: string, x: string, y: string, a: Tree, b: Tree, result: Option<Bindings>)
    requires a.Node? && b.Node? && kind != "Ident" && kind != "CallExpr"
    requires IsMatch(Node(kind, [Ident("__codemap_mv_" + x), Ident("__codemap_mv_" + y)]), Node(kind, [a, b]), result)
    ensures x != y ==> result == Some(map[x := a, y := b])
    ensures x == y && a == b ==> result == Some(map[x := a])
    ensures x == y && a != b ==> result == None
  {
    var p, c := Node(kind, [Ident("__codemap_mv_" + x), Ident("__codemap_mv_" + y)]), Node(kind, [a, b]);
    hide Instance, Vars, Extends;
    forall s
      ensures Instance(p, s, c) <==> x in s && y in s && s[x] == a && s[y] == b
    {
      TwoMetavariables(kind, x, y, a, b, s);
    }
    TwoMetavariables(kind, x, y, a, b, map[]);
    if x != y || a == b {
      assert Instance(p, map[x := a, y := b], c);
      assert result.value == map[x := a, y := b];
      assert x == y ==> result.value == map[x := a];
    }
  }

  /** The ellipsis that ends an expression list stands for any further elements. */
  lemma EllipsisMatchesRest(ps: seq<Tree>, cs: seq<Tree>, s: Bindings)
    ensures Instance(List("Expr", ps + [Ident("_cmEllipsis")]), s, List("Expr", cs)) <==>
            |cs| >= |ps| && forall i :: 0 <= i < |ps| ==> Instance(ps[i], s, cs[i])
  {
    var all := ps + [Ident("_cmEllipsis")];
    var p := List("Expr", all);
    assert TrailingEllipsis(p) == Some(|ps|);
    assert forall i :: 0 <= i < |ps| ==> all[i] == ps[i];
  }

  /** Any other list matches element by element. */
  lemma ListMatchesPairwise(elem: string, ps: seq<Tree>, cs: seq<Tree>, s: Bindings)
    requires elem != "Expr" || ps == [] || IdentName(ps[|ps| - 1]) != Some("_cmEllipsis")
    ensures Instance(List(elem, ps), s, List(elem, cs)) <==>
            |cs| == |ps| && forall i :: 0 <= i < |ps| ==> Instance(ps[i], s, cs[i])
  {}
}
