/** The search for types that failed to load (resolve/resolve.go): a
    depth-first walk over a possibly cyclic type graph in which a type met
    again answers false. */
module Unresolved {

  /** A type value: nil, or the identity of a type. */
  datatype Ref = Nil | To(id: nat)

  datatype Field = Field(embedded: bool, typ: Ref)

  datatype Type =
    | Basic(invalid: bool)
    | Named(underlying: Ref)
    | Alias(actual: Ref)
    | Pointer(elem: Ref)
    | Slice(elem: Ref)
    | Array(elem: Ref)
    | Chan(elem: Ref)
    | Map(key: Ref, elem: Ref)
    | Struct(fields: seq<Field>)
    | Interface(methods: seq<Ref>, embeddeds: seq<Ref>)
    | Signature(params: seq<Ref>, results: seq<Ref>, recv: Ref)
    | Tuple(vars: seq<Ref>)
    | Other

  type Types = map<nat, Type>

  // ----------------------------------------------------------- the graph searched

  /** The types of the embedded fields. */
  function Embedded(fields: seq<Field>): seq<Ref> {
    if fields == [] then []
    else
      var n := |fields| - 1;
      if fields[n].embedded then Embedded(fields[..n]) + [fields[n].typ] else Embedded(fields[..n])
  }

  /** The types the search looks into from t. Named fields are not among them. */
  function Inspected(t: Type): seq<Ref> {
    match t
    case Basic(_) => []
    case Named(u) => [u]
    case Alias(a) => [a]
    case Pointer(e) => [e]
    case Slice(e) => [e]
    case Array(e) => [e]
    case Chan(e) => [e]
    case Map(k, e) => [k, e]
    case Struct(fields) => Embedded(fields)
    case Interface(methods, embeddeds) => methods + embeddeds
    case Signature(params, results, recv) => params + results + [recv]
    case Tuple(vars) => vars
    case Other => []
  }

  predicate Known(types: Types, r: Ref) {
    r.Nil? || r.id in types
  }

  /** Every inspected type is part of the graph. */
  ghost predicate Closed(types: Types) {
    forall a, r :: a in types && r in Inspected(types[a]) ==> Known(types, r)
  }

  ghost predicate Edge(types: Types, a: nat, b: nat) {
    a in types && To(b) in Inspected(types[a])
  }

  ghost predicate Path(types: Types, p: seq<nat>) {
    p != [] && forall i :: 0 <= i < |p| - 1 ==> Edge(types, p[i], p[i + 1])
  }

  ghost predicate InvalidBasic(types: Types, a: nat) {
    a in types && types[a] == Basic(true)
  }

  /** An invalid basic type can be reached from r along inspected types. */
  ghost predicate ReachesInvalid(types: Types, r: Ref) {
    r.To? && exists p :: Path(types, p) && p[0] == r.id && InvalidBasic(types, p[|p| - 1])
  }

  lemma ReachesThrough(types: Types, a: nat, r: Ref)
    requires a in types && r in Inspected(types[a]) && ReachesInvalid(types, r)
    ensures ReachesInvalid(types, To(a))
  {
    var p :| Path(types, p) && p[0] == r.id && InvalidBasic(types, p[|p| - 1]);
    var q := [a] + p;
    assert Edge(types, a, r.id);
    assert Path(types, q) && q[|q| - 1] == p[|p| - 1];
  }

  lemma ReachesSelf(types: Types, a: nat)
    requires InvalidBasic(types, a)
    ensures ReachesInvalid(types, To(a))
  {
    assert Path(types, [a]);
  }

  // ------------------------------------------------------------- what DFS leaves

  predicate Met(visited: set<nat>, r: Ref) {
    r.Nil? || r.id in visited
  }

  /** a is not invalid itself, and everything inspected from it has been met. */
  ghost predicate Settled(types: Types, visited: set<nat>, a: nat) {
    a in types && types[a] != Basic(true) && forall r :: r in Inspected(types[a]) ==> Met(visited, r)
  }

  /** The step from before to after only met types that are settled. */
  ghost predicate SettlesNew(types: Types, before: set<nat>, after: set<nat>) {
    before <= after && forall a :: a in after && a !in before ==> Settled(types, after, a)
  }

  lemma SettlesThen(types: Types, a: set<nat>, b: set<nat>, c: set<nat>)
    requires SettlesNew(types, a, b) && SettlesNew(types, b, c)
    ensures SettlesNew(types, a, c)
  {
  }

  /** What looking into the types rs, one after another, reports and leaves. */
  ghost predicate Searched(types: Types, before: set<nat>, after: set<nat>, rs: seq<Ref>, found: bool) {
    && (found ==> exists r :: r in rs && ReachesInvalid(types, r))
    && (!found ==> SettlesNew(types, before, after) && forall r :: r in rs ==> Met(after, r))
  }

  lemma SearchedNothing(types: Types, visited: set<nat>)
    ensures Searched(types, visited, visited, [], false)
  {
  }

  /** Looking stops at the first type that reports true. */
  lemma SearchedPrefix(types: Types, before: set<nat>, after: set<nat>, rs: seq<Ref>, more: seq<Ref>)
    requires Searched(types, before, after, rs, true)
    ensures Searched(types, before, after, rs + more, true)
  {
    var r :| r in rs && ReachesInvalid(types, r);
    assert r in rs + more;
  }

  lemma SearchedThen(types: Types, a: set<nat>, b: set<nat>, c: set<nat>, rs: seq<Ref>, more: seq<Ref>, found: bool)
    requires Searched(types, a, b, rs, false) && Searched(types, b, c, more, found)
    ensures Searched(types, a, c, rs + more, found)
  {
    hide ReachesInvalid, Settled;
    if found {
      var r :| r in more && ReachesInvalid(types, r);
      assert r in rs + more;
    } else {
      SettlesThen(types, a, b, c);
    }
  }

  /** Looking into everything inspected from t settles t. */
  lemma SearchedNode(types: Types, before: set<nat>, after: set<nat>, t: Ref, found: bool)
    requires t.To? && t.id in types && !types[t.id].Basic?
    requires Searched(types, before + {t.id}, after, Inspected(types[t.id]), found)
    ensures Searched(types, before, after, [t], found)
  {
    hide ReachesInvalid;
    if found {
      var r :| r in Inspected(types[t.id]) && ReachesInvalid(types, r);
      ReachesThrough(types, t.id, r);
      assert t in [t];
    }
  }

  lemma SearchedBasic(types: Types, before: set<nat>, t: Ref)
    requires t.To? && t.id in types && types[t.id].Basic?
    ensures Searched(types, before, before + {t.id}, [t], types[t.id].invalid)
  {
    if types[t.id].invalid {
      ReachesSelf(types, t.id);
      assert t in [t];
    }
  }

  /** Everything reached from a fully settled set stays inside it. */
  lemma {:induction false} SettledSetIsClosed(types: Types, visited: set<nat>, p: seq<nat>)
    requires Path(types, p) && p[0] in visited
    requires forall a :: a in visited ==> Settled(types, visited, a)
    ensures p[|p| - 1] in visited
  {
    if |p| > 1 {
      assert Edge(types, p[0], p[1]);
      assert Met(visited, To(p[1]));
      assert Path(types, p[1..]) by {
        forall i | 0 <= i < |p[1..]| - 1 ensures Edge(types, p[1..][i], p[1..][i + 1]) {
          assert Edge(types, p[i + 1], p[i + 2]);
        }
      }
      SettledSetIsClosed(types, visited, p[1..]);
    }
  }

  lemma EmbeddedStep(fields: seq<Field>, i: nat)
    requires i < |fields|
    ensures Embedded(fields[..i + 1]) ==
              if fields[i].embedded then Embedded(fields[..i]) + [fields[i].typ] else Embedded(fields[..i])
  {
    assert fields[..i + 1][..i] == fields[..i];
  }

  lemma {:induction false} EmbeddedOf(fields: seq<Field>, i: nat)
    requires i < |fields| && fields[i].embedded
    ensures fields[i].typ in Embedded(fields)
  {
    var n := |fields| - 1;
    if i < n {
      EmbeddedOf(fields[..n], i);
    }
  }

  /** What is known of the first of the embedded fields carries over to all. */
  lemma {:induction false} EmbeddedPrefix(fields: seq<Field>, i: nat)
    requires i <= |fields|
    ensures forall r :: r in Embedded(fields[..i]) ==> r in Embedded(fields)
    decreases |fields| - i
  {
    if i < |fields| {
      EmbeddedPrefix(fields, i + 1);
      EmbeddedStep(fields, i);
    } else {
      assert fields[..i] == fields;
    }
  }

  lemma SearchedEmbedded(types: Types, before: set<nat>, after: set<nat>, fields: seq<Field>, i: nat)
    requires i <= |fields| && Searched(types, before, after, Embedded(fields[..i]), true)
    ensures Searched(types, before, after, Embedded(fields), true)
  {
    hide ReachesInvalid;
    EmbeddedPrefix(fields, i);
  }

  // -------------------------------------------------------------------- the search

  class Search {
    const types: Types
    var visited: set<nat>

    constructor (types: Types)
      ensures this.types == types && visited == {}
    {
      this.types := types;
      visited := {};
    }

    ghost predicate Valid()
      reads this
    {
      Closed(types) && visited <= types.Keys
    }

    method HasUnresolvedTypeSeen(t: Ref) returns (found: bool)
      requires Valid() && Known(types, t)
      modifies this
      ensures Valid() && old(visited) <= visited
      ensures Searched(types, old(visited), visited, [t], found)
      decreases types.Keys - visited, 0
    {
      if t.Nil? || t.id in visited {
        return false;
      }
      visited := visited + {t.id};
      assert types.Keys - visited < types.Keys - old(visited);
      var u := types[t.id];
      assert forall r :: r in Inspected(u) ==> Known(types, r);
      hide Searched, Closed;
      match u {
        case Basic(invalid) =>
          SearchedBasic(types, old(visited), t);
          return invalid;
        case Named(e) => found := HasUnresolvedTypeSeen(e);
        case Alias(e) => found := HasUnresolvedTypeSeen(e);
        case Pointer(e) => found := HasUnresolvedTypeSeen(e);
        case Slice(e) => found := HasUnresolvedTypeSeen(e);
        case Array(e) => found := HasUnresolvedTypeSeen(e);
        case Chan(e) => found := HasUnresolvedTypeSeen(e);
        case Map(k, e) =>
          ghost var a := visited;
          found := HasUnresolvedTypeSeen(k);
          if found {
            SearchedPrefix(types, a, visited, [k], [e]);
          } else {
            ghost var b := visited;
            found := HasUnresolvedTypeSeen(e);
            SearchedThen(types, a, b, visited, [k], [e], found);
          }
          assert [k] + [e] == [k, e];
        case _ => found := CompositeHasUnresolved(u);
      }
      SearchedNode(types, old(visited), visited, t, found);
    }

    method CompositeHasUnresolved(u: Type) returns (found: bool)
      requires Valid() && forall r :: r in Inspected(u) ==> Known(types, r)
      requires u.Struct? || u.Interface? || u.Signature? || u.Tuple? || u.Other?
      modifies this
      ensures Valid() && old(visited) <= visited
      ensures Searched(types, old(visited), visited, Inspected(u), found)
      decreases types.Keys - visited, 3
    {
      match u {
        case Struct(fields) => found := EmbeddedFieldUnresolved(fields);
        case Interface(methods, embeddeds) => found := InterfaceUnresolved(methods, embeddeds);
        case Signature(params, results, recv) => found := SignatureUnresolved(params, results, recv);
        case Tuple(vars) => found := AnyVarUnresolved(vars);
        case Other =>
          SearchedNothing(types, visited);
          found := false;
      }
    }

    method EmbeddedFieldUnresolved(fields: seq<Field>) returns (found: bool)
      requires Valid() && forall r :: r in Embedded(fields) ==> Known(types, r)
      modifies this
      ensures Valid() && old(visited) <= visited
      ensures Searched(types, old(visited), visited, Embedded(fields), found)
      decreases types.Keys - visited, 2
    {
      SearchedNothing(types, visited);
      hide Searched, Closed;
      var i := 0;
      while i < |fields|
        invariant 0 <= i <= |fields|
        invariant Valid() && old(visited) <= visited
        invariant Searched(types, old(visited), visited, Embedded(fields[..i]), false)
      {
        var f := fields[i];
        EmbeddedStep(fields, i);
        if f.embedded {
          EmbeddedOf(fields, i);
          ghost var b := visited;
          found := HasUnresolvedTypeSeen(f.typ);
          SearchedThen(types, old(visited), b, visited, Embedded(fields[..i]), [f.typ], found);
          if found {
            SearchedEmbedded(types, old(visited), visited, fields, i + 1);
            return;
          }
        }
        i := i + 1;
      }
      assert fields[..i] == fields;
      return false;
    }

    method AnyVarUnresolved(vars: seq<Ref>) returns (found: bool)
      requires Valid() && forall r :: r in vars ==> Known(types, r)
      modifies this
      ensures Valid() && old(visited) <= visited
      ensures Searched(types, old(visited), visited, vars, found)
      decreases types.Keys - visited, 1
    {
      SearchedNothing(types, visited);
      hide Searched, Closed;
      var i := 0;
      while i < |vars|
        invariant 0 <= i <= |vars|
        invariant Valid() && old(visited) <= visited
        invariant Searched(types, old(visited), visited, vars[..i], false)
      {
        ghost var b := visited;
        found := HasUnresolvedTypeSeen(vars[i]);
        SearchedThen(types, old(visited), b, visited, vars[..i], [vars[i]], found);
        if found {
          SearchedPrefix(types, old(visited), visited, vars[..i] + [vars[i]], vars[i + 1..]);
          assert vars == vars[..i] + [vars[i]] + vars[i + 1..];
          return;
        }
        assert vars[..i + 1] == vars[..i] + [vars[i]];
        i := i + 1;
      }
      assert vars[..i] == vars;
      return false;
    }

    method InterfaceUnresolved(methods: seq<Ref>, embeddeds: seq<Ref>) returns (found: bool)
      requires Valid() && forall r :: r in methods + embeddeds ==> Known(types, r)
      modifies this
      ensures Valid() && old(visited) <= visited
      ensures Searched(types, old(visited), visited, methods + embeddeds, found)
      decreases types.Keys - visited, 2
    {
      hide Searched, Closed;
      found := AnyVarUnresolved(methods);
      if found {
        SearchedPrefix(types, old(visited), visited, methods, embeddeds);
        return;
      }
      ghost var b := visited;
      found := AnyVarUnresolved(embeddeds);
      SearchedThen(types, old(visited), b, visited, methods, embeddeds, found);
    }

    method SignatureUnresolved(params: seq<Ref>, results: seq<Ref>, recv: Ref) returns (found: bool)
      requires Valid() && forall r :: r in params + results + [recv] ==> Known(types, r)
      modifies this
      ensures Valid() && old(visited) <= visited
      ensures Searched(types, old(visited), visited, params + results + [recv], found)
      decreases types.Keys - visited, 2
    {
      assert forall r :: r in params || r in results || r == recv ==> r in params + results + [recv];
      hide Searched, Closed;
      found := AnyVarUnresolved(params);
      if found {
        SearchedPrefix(types, old(visited), visited, params, results + [recv]);
        assert params + (results + [recv]) == params + results + [recv];
        return;
      }
      ghost var b := visited;
      found := AnyVarUnresolved(results);
      SearchedThen(types, old(visited), b, visited, params, results, found);
      if found {
        SearchedPrefix(types, old(visited), visited, params + results, [recv]);
        return;
      }
      ghost var c := visited;
      found := HasUnresolvedTypeSeen(recv);
      SearchedThen(types, old(visited), c, visited, params + results, [recv], found);
    }
  }

  /** True exactly when a type that failed to load can be reached, although a
      type met again during the walk answers false. */
  method HasUnresolvedType(types: Types, t: Ref) returns (found: bool)
    requires Closed(types) && Known(types, t)
    ensures found <==> ReachesInvalid(types, t)
  {
    var search := new Search(types);
    found := search.HasUnresolvedTypeSeen(t);
    SearchFromNothing(types, search.visited, t, found);
  }

  lemma SearchFromNothing(types: Types, visited: set<nat>, t: Ref, found: bool)
    requires Searched(types, {}, visited, [t], found)
    ensures found <==> ReachesInvalid(types, t)
  {
    if !found && ReachesInvalid(types, t) {
      assert Met(visited, t) by {
        assert t in [t];
      }
      var p :| Path(types, p) && p[0] == t.id && InvalidBasic(types, p[|p| - 1]);
      SettledSetIsClosed(types, visited, p);
    }
  }

  // ---------------------------------------------------------- the answer by structure

  /** Some of rs reaches an invalid type. */
  ghost predicate AnyReaches(types: Types, rs: seq<Ref>) {
    exists i :: 0 <= i < |rs| && ReachesInvalid(types, rs[i])
  }

  lemma ReachesIff(types: Types, a: nat)
    requires a in types
    ensures ReachesInvalid(types, To(a)) <==> InvalidBasic(types, a) || AnyReaches(types, Inspected(types[a]))
  {
    hide Inspected;
    if ReachesInvalid(types, To(a)) && !InvalidBasic(types, a) {
      var p :| Path(types, p) && p[0] == a && InvalidBasic(types, p[|p| - 1]);
      var q := p[1..];
      assert Edge(types, p[0], p[0 + 1]);
      forall i | 0 <= i < |q| - 1
        ensures Edge(types, q[i], q[i + 1])
      {
        assert Edge(types, p[i + 1], p[i + 1 + 1]);
      }
      assert Path(types, q) && q[|q| - 1] == p[|p| - 1];
      var rs := Inspected(types[a]);
      var i :| 0 <= i < |rs| && rs[i] == To(q[0]);
      assert ReachesInvalid(types, rs[i]);
    }
    if InvalidBasic(types, a) {
      ReachesSelf(types, a);
    }
    if i :| 0 <= i < |Inspected(types[a])| && ReachesInvalid(types, Inspected(types[a])[i]) {
      ReachesThrough(types, a, Inspected(types[a])[i]);
    }
  }

  lemma {:induction false} EmbeddedHas(fields: seq<Field>, r: Ref)
    ensures r in Embedded(fields) <==> exists f :: f in fields && f.embedded && f.typ == r
  {
    if fields != [] {
      var n := |fields| - 1;
      EmbeddedHas(fields[..n], r);
      assert fields == fields[..n] + [fields[n]];
    }
  }

  /** A type is unresolved by its form: an invalid basic type is; named types, aliases,
      pointers, slices, arrays and channels are when the one type they are made of is,
      maps when key or element is, structs when an embedded field is and no other,
      interfaces when a method or embedded type is, signatures when a parameter, result
      or receiver is, tuples when a variable is; nothing else. */
  lemma ReachesByForm(types: Types, a: nat)
    requires a in types
    ensures ReachesInvalid(types, To(a)) <==>
      match types[a]
      case Basic(invalid) => invalid
      case Named(u) => ReachesInvalid(types, u)
      case Alias(b) => ReachesInvalid(types, b)
      case Pointer(e) => ReachesInvalid(types, e)
      case Slice(e) => ReachesInvalid(types, e)
      case Array(e) => ReachesInvalid(types, e)
      case Chan(e) => ReachesInvalid(types, e)
      case Map(k, e) => ReachesInvalid(types, k) || ReachesInvalid(types, e)
      case Struct(fields) => exists f :: f in fields && f.embedded && ReachesInvalid(types, f.typ)
      case Interface(methods, embeddeds) => AnyReaches(types, methods) || AnyReaches(types, embeddeds)
      case Signature(params, results, recv) =>
        AnyReaches(types, params) || AnyReaches(types, results) || ReachesInvalid(types, recv)
      case Tuple(vars) => AnyReaches(types, vars)
      case Other => false
  {
    ReachesIff(types, a);
    hide ReachesInvalid;
    match types[a]
    case Basic(_) =>
    case Named(u) => assert Inspected(types[a])[0] == u;
    case Alias(b) => assert Inspected(types[a])[0] == b;
    case Pointer(e) => assert Inspected(types[a])[0] == e;
    case Slice(e) => assert Inspected(types[a])[0] == e;
    case Array(e) => assert Inspected(types[a])[0] == e;
    case Chan(e) => assert Inspected(types[a])[0] == e;
    case Map(k, e) => assert Inspected(types[a])[0] == k && Inspected(types[a])[1] == e;
    case Struct(fields) => EmbeddedReaches(types, fields);
    case Interface(methods, embeddeds) => EitherReaches(types, methods, embeddeds);
    case Signature(params, results, recv) =>
      EitherReaches(types, params + results, [recv]);
      EitherReaches(types, params, results);
      assert [recv][0] == recv;
    case Tuple(_) =>
    case Other =>
  }

  lemma EitherReaches(types: Types, rs: seq<Ref>, ts: seq<Ref>)
    ensures AnyReaches(types, rs + ts) <==> AnyReaches(types, rs) || AnyReaches(types, ts)
  {
    hide ReachesInvalid;
    if i :| 0 <= i < |rs| && ReachesInvalid(types, rs[i]) {
      assert (rs + ts)[i] == rs[i];
    }
    if i :| 0 <= i < |ts| && ReachesInvalid(types, ts[i]) {
      assert (rs + ts)[|rs| + i] == ts[i];
    }
  }

  lemma EmbeddedReaches(types: Types, fields: seq<Field>)
    ensures AnyReaches(types, Embedded(fields)) <==>
            exists f :: f in fields && f.embedded && ReachesInvalid(types, f.typ)
  {
    hide ReachesInvalid;
    forall r
      ensures r in Embedded(fields) <==> exists f :: f in fields && f.embedded && f.typ == r
    {
      EmbeddedHas(fields, r);
    }
    if f :| f in fields && f.embedded && ReachesInvalid(types, f.typ) {
      assert f.typ in Embedded(fields);
    }
  }
}
