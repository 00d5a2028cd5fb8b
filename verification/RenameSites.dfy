/** From the references recorded for a symbol to the ranges rewritten in one file
    (query/rename.go): what is collected, planned, and then spliced. */
module RenameSites {
  import opened Rename
  import opened Sequences
  import opened Options

  /** Column 0 is the declaration, which the index records by line only. */
  datatype Position = Position(file: string, line: nat, column: nat)

  /** A place to rewrite, and the package of the code that refers there. */
  datatype Site = Site(at: Position, package: string)

  /** An edge to the symbol: whether its type counts, the package of its source (""
      when that is not a stored symbol), and where it was found. */
  datatype Edge = Edge(live: bool, package: string, positions: seq<Position>)

  // ------------------------------------------------------------------- what is recorded

  /** The sites of one edge; a position without a file contributes none. */
  function OfPositions(ps: seq<Position>, package: string): seq<Site> {
    if ps == [] then []
    else
      var n := |ps| - 1;
      OfPositions(ps[..n], package) + if ps[n].file == "" then [] else [Site(ps[n], package)]
  }

  function OfEdges(edges: seq<Edge>): seq<Site> {
    if edges == [] then []
    else
      var n := |edges| - 1;
      OfEdges(edges[..n]) + if edges[n].live then OfPositions(edges[n].positions, edges[n].package) else []
  }

  /** Every site recorded, the declaration first. */
  function Recorded(decl: Site, edges: seq<Edge>): seq<Site> {
    [decl] + OfEdges(edges)
  }

  lemma RecordedStep(decl: Site, edges: seq<Edge>, k: nat)
    requires k < |edges|
    ensures Recorded(decl, edges[..k + 1]) ==
            if edges[k].live then Recorded(decl, edges[..k]) + OfPositions(edges[k].positions, edges[k].package)
            else Recorded(decl, edges[..k])
  {
    assert edges[..k + 1][..k] == edges[..k];
    hide OfPositions;
  }

  lemma PositionsStep(before: seq<Site>, ps: seq<Position>, package: string, k: nat)
    requires k < |ps|
    ensures before + OfPositions(ps[..k + 1], package) ==
            if ps[k].file == "" then before + OfPositions(ps[..k], package)
            else before + OfPositions(ps[..k], package) + [Site(ps[k], package)]
  {
    assert ps[..k + 1][..k] == ps[..k];
  }

  lemma {:induction false} OfPositionsHas(ps: seq<Position>, package: string, s: Site)
    ensures s in OfPositions(ps, package) <==> s.package == package && s.at.file != "" && s.at in ps
  {
    if ps != [] {
      var n := |ps| - 1;
      OfPositionsHas(ps[..n], package, s);
      assert ps == ps[..n] + [ps[n]];
    }
  }

  ghost predicate RefersAt(edges: seq<Edge>, s: Site) {
    exists e :: e in edges && e.live && e.package == s.package && s.at in e.positions
  }

  /** A site is recorded when it is the declaration or a counting edge has it. */
  lemma {:induction false} RecordedHas(decl: Site, edges: seq<Edge>, s: Site)
    ensures s in Recorded(decl, edges) <==>
            (s == decl || (s.at.file != "" && RefersAt(edges, s)))
  {
    if edges != [] {
      var n := |edges| - 1;
      RecordedHas(decl, edges[..n], s);
      OfPositionsHas(edges[n].positions, edges[n].package, s);
      assert edges == edges[..n] + [edges[n]];
      RecordedStep(decl, edges, n);
      assert edges[..n + 1] == edges;
    }
  }

  // -------------------------------------------------------------------- what is collected

  /** First occurrences, in order. */
  function Firsts(ss: seq<Site>): (r: seq<Site>)
    ensures forall s :: s in r <==> s in ss
    ensures forall i, j :: 0 <= i < j < |r| ==> r[i] != r[j]
  {
    if ss == [] then []
    else
      var n := |ss| - 1;
      assert ss == ss[..n] + [ss[n]];
      if ss[n] in ss[..n] then Firsts(ss[..n]) else Firsts(ss[..n]) + [ss[n]]
  }

  function Elements(sites: seq<Site>): set<Site> {
    set s | s in sites
  }

  method Add(seen: set<Site>, sites: seq<Site>, site: Site, ghost before: seq<Site>)
    returns (seenNow: set<Site>, sitesNow: seq<Site>)
    requires sites == Firsts(before) && seen == Elements(sites)
    ensures sitesNow == Firsts(before + [site]) && seenNow == Elements(sitesNow)
  {
    assert (before + [site])[..|before|] == before;
    seenNow, sitesNow := seen, sites;
    if site in seen {
      return;
    }
    seenNow := seen + {site};
    sitesNow := sites + [site];
  }

  /** Every recorded site once, in the order of first occurrence. */
  method CollectRenameSites(decl: Site, edges: seq<Edge>) returns (sites: seq<Site>)
    ensures sites == Firsts(Recorded(decl, edges))
  {
    hide Recorded, OfPositions, OfEdges, Firsts, Elements;
    var seen: set<Site> := {};
    sites := [];
    NothingCollected(decl, edges);
    seen, sites := Add(seen, sites, decl, []);
    var k := 0;
    while k < |edges|
      invariant 0 <= k <= |edges|
      invariant sites == Firsts(Recorded(decl, edges[..k])) && seen == Elements(sites)
    {
      var e := edges[k];
      RecordedStep(decl, edges, k);
      ghost var before := Recorded(decl, edges[..k]);
      if e.live {
        var i := 0;
        NoPositions(before, e.positions, e.package);
        while i < |e.positions|
          invariant 0 <= i <= |e.positions|
          invariant sites == Firsts(before + OfPositions(e.positions[..i], e.package))
          invariant seen == Elements(sites)
        {
          var p := e.positions[i];
          PositionsStep(before, e.positions, e.package, i);
          if p.file != "" {
            seen, sites := Add(seen, sites, Site(p, e.package), before + OfPositions(e.positions[..i], e.package));
          }
          i := i + 1;
        }
        assert e.positions[..i] == e.positions;
      }
      k := k + 1;
    }
    assert edges[..k] == edges;
  }

  lemma NothingCollected(decl: Site, edges: seq<Edge>)
    ensures Firsts([]) == [] && Elements([]) == {} && [] + [decl] == Recorded(decl, edges[..0])
  {}

  lemma NoPositions(before: seq<Site>, ps: seq<Position>, package: string)
    ensures before + OfPositions(ps[..0], package) == before
  {}

  // ---------------------------------------------------------------------- what is planned

  function InFile(sites: seq<Site>, file: string): (r: seq<Site>)
    ensures forall s :: s in r <==> s in sites && s.at.file == file
  {
    if sites == [] then []
    else
      var n := |sites| - 1;
      assert sites == sites[..n] + [sites[n]];
      InFile(sites[..n], file) + if sites[n].at.file == file then [sites[n]] else []
  }

  lemma {:induction false} InFileDistinct(sites: seq<Site>, file: string)
    requires forall i, j :: 0 <= i < j < |sites| ==> sites[i] != sites[j]
    ensures forall i, j :: 0 <= i < j < |InFile(sites, file)| ==> InFile(sites, file)[i] != InFile(sites, file)[j]
  {
    if sites != [] {
      var n := |sites| - 1;
      InFileDistinct(sites[..n], file);
      assert sites[n] !in sites[..n];
      assert sites[n] !in InFile(sites[..n], file);
    }
  }

  lemma InFileStep(sites: seq<Site>, file: string, k: nat)
    requires k < |sites|
    ensures InFile(sites[..k + 1], file) ==
            InFile(sites[..k], file) + if sites[k].at.file == file then [sites[k]] else []
  {
    assert sites[..k + 1][..k] == sites[..k];
  }

  /** byFile is the sites file by file. */
  ghost predicate Grouped(sites: seq<Site>, byFile: map<string, seq<Site>>) {
    && (forall f :: f in byFile <==> InFile(sites, f) != [])
    && forall f :: f in byFile ==> byFile[f] == InFile(sites, f)
  }

  lemma GroupedStep(sites: seq<Site>, k: nat, byFile: map<string, seq<Site>>)
    requires k < |sites| && Grouped(sites[..k], byFile)
    ensures var f := sites[k].at.file;
            Grouped(sites[..k + 1], byFile[f := (if f in byFile then byFile[f] else []) + [sites[k]]])
  {
    hide InFile;
    forall f
      ensures InFile(sites[..k + 1], f) ==
              InFile(sites[..k], f) + if sites[k].at.file == f then [sites[k]] else []
    {
      InFileStep(sites, f, k);
    }
    var file, site := sites[k].at.file, sites[k];
    var group := (if file in byFile then byFile[file] else []) + [site];
    assert InFile(sites[..k + 1], file) == group;
    assert forall f :: f != file ==> InFile(sites[..k + 1], f) == InFile(sites[..k], f);
  }

  /** Every file with a site is listed once, with its sites. */
  method GroupByFile(sites: seq<Site>) returns (byFile: map<string, seq<Site>>, order: seq<string>)
    ensures Grouped(sites, byFile)
    ensures forall f :: f in order <==> f in byFile
    ensures forall i, j :: 0 <= i < j < |order| ==> order[i] != order[j]
  {
    byFile := map[];
    order := [];
    assert Grouped(sites[..0], byFile);
    hide Grouped;
    var k := 0;
    while k < |sites|
      invariant 0 <= k <= |sites|
      invariant Grouped(sites[..k], byFile)
      invariant forall f :: f in order <==> f in byFile
      invariant forall i, j :: 0 <= i < j < |order| ==> order[i] != order[j]
    {
      var site := sites[k];
      GroupedStep(sites, k, byFile);
      var group: seq<Site> := [];
      if site.at.file in byFile {
        group := byFile[site.at.file];
      } else {
        order := order + [site.at.file];
      }
      byFile := byFile[site.at.file := group + [site]];
      k := k + 1;
    }
    assert sites[..k] == sites;
  }

  function OffsetOf(site: Site, offset: Position -> Option<nat>): nat
    requires offset(site.at).Some?
  {
    offset(site.at).value
  }

  /** Where the sites stand in the file. */
  function Starts(sites: seq<Site>, offset: Position -> Option<nat>): (r: seq<nat>)
    requires forall s :: s in sites ==> offset(s.at).Some?
    ensures |r| == |sites| && forall i :: 0 <= i < |r| ==> r[i] == offset(sites[i].at).value
  {
    seq(|sites|, i requires 0 <= i < |sites| && offset(sites[i].at).Some? => OffsetOf(sites[i], offset))
  }

  /** The sites with a column where the enclosing function declares the name itself. */
  function Shadowed(sites: seq<Site>, offset: Position -> Option<nat>, local: nat -> bool): seq<Position>
    requires forall s :: s in sites ==> offset(s.at).Some?
  {
    if sites == [] then []
    else
      var n := |sites| - 1;
      assert sites == sites[..n] + [sites[n]];
      Shadowed(sites[..n], offset, local)
      + if sites[n].at.column != 0 && local(OffsetOf(sites[n], offset)) then [sites[n].at] else []
  }

  ghost predicate AllStand(sites: seq<Site>, offset: Position -> Option<nat>) {
    forall s :: s in sites ==> offset(s.at).Some?
  }

  lemma StandsStep(sites: seq<Site>, offset: Position -> Option<nat>, local: nat -> bool, k: nat)
    requires k < |sites|
    ensures AllStand(sites[..k + 1], offset) <==> AllStand(sites[..k], offset) && offset(sites[k].at).Some?
    ensures AllStand(sites[..k + 1], offset) ==>
              && Starts(sites[..k + 1], offset) == Starts(sites[..k], offset) + [OffsetOf(sites[k], offset)]
              && Shadowed(sites[..k + 1], offset, local) == Shadowed(sites[..k], offset, local) +
                 if sites[k].at.column != 0 && local(OffsetOf(sites[k], offset)) then [sites[k].at] else []
  {
    assert sites[..k + 1] == sites[..k] + [sites[k]];
    assert sites[..k + 1][..k] == sites[..k];
    assert sites[k] in sites[..k + 1];
  }

  lemma SpliceAdded(starts: seq<nat>, p: nat, len: nat)
    ensures SplicesAt(starts + [p], len) == SplicesAt(starts, len) + [Splice(p, p + len)]
  {}

  /** The ranges to splice, last one first, and the sites that may mean something else;
      refused when some site does not stand at an identifier. */
  method PlanFileRename(sites: seq<Site>, offset: Position -> Option<nat>, local: nat -> bool, name: string)
    returns (r: Option<seq<Splice>>, shadowed: seq<Position>)
    ensures r.None? <==> !AllStand(sites, offset)
    ensures r.Some? ==> r.value == SortSplices(SplicesAt(Starts(sites, offset), |name|))
    ensures r.Some? ==> shadowed == Shadowed(sites, offset, local)
  {
    var splices: seq<Splice> := [];
    shadowed := [];
    var missing: seq<Position> := [];
    assert sites[..0] == [];
    var k := 0;
    while k < |sites|
      invariant 0 <= k <= |sites|
      invariant missing == [] <==> AllStand(sites[..k], offset)
      invariant missing == [] ==> splices == SplicesAt(Starts(sites[..k], offset), |name|)
      invariant missing == [] ==> shadowed == Shadowed(sites[..k], offset, local)
    {
      hide Shadowed, Starts, SplicesAt;
      StandsStep(sites, offset, local, k);
      var start := offset(sites[k].at);
      if start.None? {
        missing := missing + [sites[k].at];
        k := k + 1;
        continue;
      }
      if missing == [] {
        SpliceAdded(Starts(sites[..k], offset), start.value, |name|);
      }
      splices := splices + [Splice(start.value, start.value + |name|)];
      if sites[k].at.column != 0 && local(start.value) {
        shadowed := shadowed + [sites[k].at];
      }
      k := k + 1;
    }
    assert sites[..k] == sites;
    if missing != [] {
      return None, [];
    }
    return Some(SortSplices(splices)), shadowed;
  }

  // ----------------------------------------------------------------------- the whole of it

  ghost predicate BothIn(recorded: seq<Site>, file: string, a: Site, b: Site) {
    a in recorded && b in recorded && a.at.file == file && b.at.file == file
  }

  /** Two different sites recorded for the file stand at one offset. */
  ghost predicate ListedTwice(recorded: seq<Site>, file: string, offset: Position -> Option<nat>) {
    exists a, b :: BothIn(recorded, file, a, b) && a != b && offset(a.at) == offset(b.at)
  }

  lemma DistinctIffNotListedTwice(recorded: seq<Site>, file: string, offset: Position -> Option<nat>)
    requires forall s :: s in InFile(Firsts(recorded), file) ==> offset(s.at).Some?
    ensures Distinct(Starts(InFile(Firsts(recorded), file), offset)) <==> !ListedTwice(recorded, file, offset)
  {
    hide InFile, Firsts, Starts;
    var sites := InFile(Firsts(recorded), file);
    InFileDistinct(Firsts(recorded), file);
    var starts := Starts(sites, offset);
    if Distinct(starts) {
      forall a, b | BothIn(recorded, file, a, b) && a != b
        ensures offset(a.at) != offset(b.at)
      {
        assert a in sites && b in sites;
        var i :| 0 <= i < |sites| && sites[i] == a;
        var j :| 0 <= j < |sites| && sites[j] == b;
        assert starts[i] != starts[j];
      }
    }
    if i, j :| 0 <= i < j < |starts| && starts[i] == starts[j] {
      assert BothIn(recorded, file, sites[i], sites[j]);
    }
  }

  /** A rename rewrites every site of a file once exactly when no offset is recorded
      by two different sites, or the names have one length. */
  lemma RenamedRightIff(ident: char -> bool, data: string, decl: Site, edges: seq<Edge>, file: string,
                        offset: Position -> Option<nat>, name: string, newName: string)
    requires name != ""
    requires forall s :: s in InFile(Firsts(Recorded(decl, edges)), file) ==>
                           offset(s.at).Some? && WholeName(ident, data, offset(s.at).value, name)
    ensures var sites := InFile(Firsts(Recorded(decl, edges)), file);
            var ss := SortSplices(SplicesAt(Starts(sites, offset), |name|));
            && Holds(data, Once(ss), name)
            && (SpliceAll(data, ss, newName) == Ok(Substitute(data, Once(ss), newName)) <==>
                !ListedTwice(Recorded(decl, edges), file, offset) || |newName| == |name|)
  {
    hide Recorded, Firsts, InFile, WholeName, Distinct, ListedTwice;
    var sites := InFile(Firsts(Recorded(decl, edges)), file);
    DistinctIffNotListedTwice(Recorded(decl, edges), file, offset);
    SplicesRightIff(ident, data, Starts(sites, offset), name, newName);
  }

  /** Where different positions have different offsets, that is one position recorded
      from two packages. */
  lemma ListedTwiceIffTwoPackages(recorded: seq<Site>, file: string, offset: Position -> Option<nat>)
    requires forall a, b :: BothIn(recorded, file, a, b) && offset(a.at) == offset(b.at) ==> a.at == b.at
    ensures ListedTwice(recorded, file, offset) <==>
            (exists a, b :: BothIn(recorded, file, a, b) && a.at == b.at && a.package != b.package)
  {
    if a, b :| BothIn(recorded, file, a, b) && a != b && offset(a.at) == offset(b.at) {
      assert a.at == b.at && a.package != b.package;
    }
  }

  /** Two counting edges of different packages that record one position put it there
      twice, wherever it stands. */
  lemma TwoPackagesListTwice(decl: Site, edges: seq<Edge>, e: Edge, f: Edge, p: Position,
                             offset: Position -> Option<nat>)
    requires e in edges && f in edges && e.live && f.live && e.package != f.package
    requires p in e.positions && p in f.positions && p.file != ""
    ensures ListedTwice(Recorded(decl, edges), p.file, offset)
  {
    RecordedHas(decl, edges, Site(p, e.package));
    RecordedHas(decl, edges, Site(p, f.package));
    assert BothIn(Recorded(decl, edges), p.file, Site(p, e.package), Site(p, f.package));
  }
}
