/** The bounded store of oversized responses (store/store_response_chunks.go). */
module ResponseStore {
  import opened Ordering
  import opened Sections
  import opened TimeText
  import opened Options

  datatype Result<T> = Ok(value: T) | UnknownResponse

  /** One row of response_chunks; a table is its rows in increasing rowid. */
  datatype Row = Row(rowid: nat, id: string, tool: string, idx: nat, title: string, content: string,
                     bytes: nat, createdAt: string)

  ghost predicate Increasing(rows: seq<Row>) {
    forall i, j :: 0 <= i < j < |rows| ==> rows[i].rowid < rows[j].rowid
  }

  /** SELECT COALESCE(SUM(byte_count), 0). */
  function Total(rows: seq<Row>): nat {
    if rows == [] then 0 else rows[0].bytes + Total(rows[1..])
  }

  /** ORDER BY created_at, rowid. */
  predicate Precedes(r: Row, q: Row) {
    Less(r.createdAt, q.createdAt) || (r.createdAt == q.createdAt && r.rowid < q.rowid)
  }

  lemma PrecedesStrict(r: Row, q: Row)
    ensures !(Precedes(r, q) && Precedes(q, r))
    ensures r.rowid != q.rowid ==> Precedes(r, q) || Precedes(q, r)
  {
    LessTotal(r.createdAt, q.createdAt);
    LessIrreflexive(r.createdAt);
    if Less(r.createdAt, q.createdAt) && Less(q.createdAt, r.createdAt) {
      LessTransitive(r.createdAt, q.createdAt, r.createdAt);
    }
  }

  /** The rows whose id is not in gone. */
  function Remaining(rows: seq<Row>, gone: set<string>): seq<Row> {
    if rows == [] then []
    else
      var n := |rows| - 1;
      if rows[n].id in gone then Remaining(rows[..n], gone) else Remaining(rows[..n], gone) + [rows[n]]
  }

  lemma {:induction false} RemainingMembers(rows: seq<Row>, gone: set<string>)
    ensures forall r :: r in Remaining(rows, gone) <==> r in rows && r.id !in gone
    ensures |Remaining(rows, gone)| <= |rows|
    ensures (exists r :: r in rows && r.id in gone) ==> |Remaining(rows, gone)| < |rows|
  {
    if rows != [] {
      RemainingMembers(rows[..|rows| - 1], gone);
    }
  }

  lemma {:induction false} RemainingTwice(rows: seq<Row>, a: set<string>, b: set<string>)
    ensures Remaining(Remaining(rows, a), b) == Remaining(rows, a + b)
  {
    if rows != [] {
      var n := |rows| - 1;
      RemainingTwice(rows[..n], a, b);
      var rest := Remaining(rows[..n], a);
      assert (rest + [rows[n]])[..|rest|] == rest;
    }
  }

  lemma {:induction false} RemainingNone(rows: seq<Row>)
    ensures Remaining(rows, {}) == rows
  {
    if rows != [] {
      RemainingNone(rows[..|rows| - 1]);
    }
  }

  lemma {:induction false} RemainingIncreasing(rows: seq<Row>, gone: set<string>)
    requires Increasing(rows)
    ensures Increasing(Remaining(rows, gone))
  {
    if rows != [] {
      var n := |rows| - 1;
      RemainingIncreasing(rows[..n], gone);
      RemainingMembers(rows[..n], gone);
      var rest := Remaining(rows[..n], gone);
      forall j | 0 <= j < |rest|
        ensures rest[j].rowid < rows[n].rowid
      {
        assert rest[j] in rest;
        var k :| 0 <= k < n && rows[k] == rest[j];
      }
    }
  }

  /** SELECT response_id ... WHERE response_id <> keep ORDER BY created_at, rowid LIMIT 1. */
  function Oldest(rows: seq<Row>, keep: string): (o: Option<Row>)
    ensures o.Some? ==> o.value in rows && o.value.id != keep
    ensures o.Some? ==> forall q :: q in rows && q.id != keep ==> !Precedes(q, o.value)
    ensures o.None? ==> forall q :: q in rows ==> q.id == keep
  {
    if rows == [] then None
    else
      var rest := Oldest(rows[1..], keep);
      if rows[0].id == keep then rest
      else if rest.Some? && Precedes(rest.value, rows[0]) then
        assert forall q :: q in rows ==> q == rows[0] || q in rows[1..];
        PrecedesStrict(rest.value, rows[0]);
        rest
      else
        assert OldestHead(rows, keep, rest) by { OldestHeadHolds(rows, keep, rest); }
        Some(rows[0])
  }

  ghost predicate OldestHead(rows: seq<Row>, keep: string, rest: Option<Row>)
    requires rows != []
  {
    forall q :: q in rows && q.id != keep ==> !Precedes(q, rows[0])
  }

  lemma OldestHeadHolds(rows: seq<Row>, keep: string, rest: Option<Row>)
    requires rows != [] && (rest.Some? ==> !Precedes(rest.value, rows[0]))
    requires rest.Some? ==> forall q :: q in rows[1..] && q.id != keep ==> !Precedes(q, rest.value)
    requires rest.None? ==> forall q :: q in rows[1..] ==> q.id == keep
    ensures OldestHead(rows, keep, rest)
  {
    forall q | q in rows && q.id != keep
      ensures !Precedes(q, rows[0])
    {
      if q == rows[0] {
        PrecedesStrict(q, q);
      } else {
        assert q in rows[1..];
        NotBeforeTransitive(q, rest.value, rows[0]);
      }
    }
  }

  lemma NotBeforeTransitive(a: Row, b: Row, c: Row)
    requires !Precedes(a, b) && !Precedes(b, c)
    ensures !Precedes(a, c)
  {
    if Precedes(a, c) {
      LessTotal(b.createdAt, c.createdAt);
      LessTotal(a.createdAt, b.createdAt);
      if Less(a.createdAt, c.createdAt) && Less(c.createdAt, b.createdAt) {
        LessTransitive(a.createdAt, c.createdAt, b.createdAt);
      }
    }
  }

  // ----------------------------------------------------------------- eviction

  /** The ids evicted while the stored bytes exceed cap: the response of the
      oldest row whose id is not keep, again and again. */
  function Evicted(rows: seq<Row>, keep: string, cap: nat): set<string>
    decreases |rows|
  {
    if Total(rows) <= cap then {}
    else
      var o := Oldest(rows, keep);
      if o.None? then {}
      else
        RemainingMembers(rows, {o.value.id});
        {o.value.id} + Evicted(Remaining(rows, {o.value.id}), keep, cap)
  }

  /** The bytes fit, or nothing but the response being saved is left. */
  ghost predicate Settled(rows: seq<Row>, keep: string, cap: nat) {
    Total(rows) <= cap || (forall r :: r in rows ==> r.id == keep)
  }

  /** Some row of response e comes before every row of response s. */
  ghost predicate OlderResponse(rows: seq<Row>, e: string, s: string) {
    exists r :: r in rows && r.id == e && forall q :: q in rows && q.id == s ==> Precedes(r, q)
  }

  /** gone is closed under age: whatever it holds is stored, is not keep, and is
      older than every other response that stays. */
  ghost predicate OldestFirst(rows: seq<Row>, keep: string, gone: set<string>) {
    (forall e :: e in gone ==> e != keep && exists r :: r in rows && r.id == e)
    && (forall e, q :: e in gone && q in rows && q.id !in gone && q.id != keep ==> OlderResponse(rows, e, q.id))
  }

  /** An older pair stays one when a third response goes, and was one before. */
  lemma OlderElsewhere(rows: seq<Row>, o: string, e: string, s: string)
    requires e != o && s != o
    ensures OlderResponse(rows, e, s) <==> OlderResponse(Remaining(rows, {o}), e, s)
  {
    var left := Remaining(rows, {o});
    RemainingMembers(rows, {o});
    if OlderResponse(rows, e, s) {
      var r :| r in rows && r.id == e && forall q :: q in rows && q.id == s ==> Precedes(r, q);
      assert r in left;
    }
    if OlderResponse(left, e, s) {
      var r :| r in left && r.id == e && forall q :: q in left && q.id == s ==> Precedes(r, q);
      assert r in rows;
    }
  }

  /** The oldest row makes its response older than any other but keep. */
  lemma OldestIsOlder(rows: seq<Row>, keep: string, s: string)
    requires Increasing(rows) && Oldest(rows, keep).Some?
    requires s != keep && s != Oldest(rows, keep).value.id
    ensures OlderResponse(rows, Oldest(rows, keep).value.id, s)
  {
    var o := Oldest(rows, keep).value;
    forall q | q in rows && q.id == s
      ensures Precedes(o, q)
    {
      var i :| 0 <= i < |rows| && rows[i] == o;
      var j :| 0 <= j < |rows| && rows[j] == q;
      assert i != j;
      PrecedesStrict(o, q);
    }
  }

  /** What is evicted is the oldest responses, and then the bytes fit or only the
      response being saved is left. */
  lemma {:induction false} EvictedOldestFirst(rows: seq<Row>, keep: string, cap: nat)
    requires Increasing(rows)
    ensures OldestFirst(rows, keep, Evicted(rows, keep, cap))
    ensures Settled(Remaining(rows, Evicted(rows, keep, cap)), keep, cap)
    decreases |rows|
  {
    RemainingNone(rows);
    if Total(rows) > cap && Oldest(rows, keep).Some? {
      var o := Oldest(rows, keep).value.id;
      var left := Remaining(rows, {o});
      RemainingMembers(rows, {o});
      RemainingIncreasing(rows, {o});
      EvictedOldestFirst(left, keep, cap);
      var rest := Evicted(left, keep, cap);
      RemainingTwice(rows, {o}, rest);
      AddOldest(rows, keep, rest);
    }
  }

  lemma AddOldest(rows: seq<Row>, keep: string, rest: set<string>)
    requires Increasing(rows) && Oldest(rows, keep).Some?
    requires OldestFirst(Remaining(rows, {Oldest(rows, keep).value.id}), keep, rest)
    ensures OldestFirst(rows, keep, {Oldest(rows, keep).value.id} + rest)
  {
    var o := Oldest(rows, keep).value.id;
    var left := Remaining(rows, {o});
    RemainingMembers(rows, {o});
    hide Oldest, Remaining, OlderResponse;
    forall e, q | e in {o} + rest && q in rows && q.id !in {o} + rest && q.id != keep
      ensures OlderResponse(rows, e, q.id)
    {
      if e == o {
        OldestIsOlder(rows, keep, q.id);
      } else {
        assert q in left;
        OlderElsewhere(rows, o, e, q.id);
      }
    }
  }

  lemma DropOldest(rows: seq<Row>, keep: string, gone: set<string>, o: string)
    requires OldestFirst(rows, keep, gone) && o in gone
    ensures OldestFirst(Remaining(rows, {o}), keep, gone - {o})
  {
    var left := Remaining(rows, {o});
    RemainingMembers(rows, {o});
    hide Remaining, OlderResponse;
    forall e | e in gone - {o}
      ensures e != keep && exists r :: r in left && r.id == e
    {
      var r :| r in rows && r.id == e;
      assert r in left;
    }
    forall e, q | e in gone - {o} && q in left && q.id !in gone - {o} && q.id != keep
      ensures OlderResponse(left, e, q.id)
    {
      OlderElsewhere(rows, o, e, q.id);
    }
  }

  lemma NothingOlder(rows: seq<Row>, keep: string, e: string)
    requires Oldest(rows, keep).Some? && e != keep
    ensures !OlderResponse(rows, e, Oldest(rows, keep).value.id)
  {
    var o := Oldest(rows, keep).value;
    forall r | r in rows && r.id == e
      ensures !(forall q :: q in rows && q.id == o.id ==> Precedes(r, q))
    {
      assert o in rows && !Precedes(r, o);
    }
  }

  /** A non-empty set closed under age holds the oldest response. */
  lemma HoldsOldest(rows: seq<Row>, keep: string, gone: set<string>)
    requires OldestFirst(rows, keep, gone) && gone != {} && Oldest(rows, keep).Some?
    ensures Oldest(rows, keep).value.id in gone
  {
    var e :| e in gone;
    NothingOlder(rows, keep, e);
  }

  lemma SomethingGoes(rows: seq<Row>, keep: string, cap: nat, gone: set<string>)
    requires Settled(Remaining(rows, gone), keep, cap)
    requires Total(rows) > cap && Oldest(rows, keep).Some?
    ensures gone != {}
  {
    RemainingNone(rows);
    assert Oldest(rows, keep).value in rows;
  }

  /** No shorter set of oldest responses would do. */
  lemma {:induction false} EvictedLeast(rows: seq<Row>, keep: string, cap: nat, gone: set<string>)
    requires OldestFirst(rows, keep, gone) && Settled(Remaining(rows, gone), keep, cap)
    ensures Evicted(rows, keep, cap) <= gone
    decreases |rows|
  {
    hide Remaining, OldestFirst, Settled, Oldest, Total;
    if Total(rows) > cap && Oldest(rows, keep).Some? {
      SomethingGoes(rows, keep, cap, gone);
      HoldsOldest(rows, keep, gone);
      var o := Oldest(rows, keep).value.id;
      RemainingMembers(rows, {o});
      DropOldest(rows, keep, gone, o);
      RemainingTwice(rows, {o}, gone - {o});
      assert {o} + (gone - {o}) == gone;
      EvictedLeast(Remaining(rows, {o}), keep, cap, gone - {o});
    }
  }

  // ------------------------------------------------------------ saving and reading

  function NextRowid(rows: seq<Row>): nat {
    if rows == [] then 1 else rows[|rows| - 1].rowid + 1
  }

  function NewRow(rows: seq<Row>, id: string, tool: string, idx: nat, s: Section, createdAt: string): Row {
    Row(NextRowid(rows), id, tool, idx, s.title, s.content, |s.content|, createdAt)
  }

  /** The table after the sections are inserted in order. */
  function Inserted(rows: seq<Row>, id: string, tool: string, sections: seq<Section>, createdAt: string): seq<Row> {
    if sections == [] then rows
    else
      var n := |sections| - 1;
      var before := Inserted(rows, id, tool, sections[..n], createdAt);
      before + [NewRow(before, id, tool, n, sections[n], createdAt)]
  }

  /** The table after a save. */
  function Saved(rows: seq<Row>, id: string, tool: string, sections: seq<Section>, createdAt: string,
                 cap: nat): seq<Row> {
    var all := Inserted(rows, id, tool, sections, createdAt);
    Remaining(all, Evicted(all, id, cap))
  }

  /** WHERE response_id = id. */
  function RowsOf(rows: seq<Row>, id: string): (r: seq<Row>)
    ensures forall q :: q in r <==> q in rows && q.id == id
  {
    if rows == [] then []
    else if rows[|rows| - 1].id == id then RowsOf(rows[..|rows| - 1], id) + [rows[|rows| - 1]]
    else RowsOf(rows[..|rows| - 1], id)
  }

  /** AND section_idx = k. */
  function RowsAt(rows: seq<Row>, k: int): (r: seq<Row>)
    ensures forall q :: q in r <==> q in rows && q.idx == k
  {
    if rows == [] then []
    else if rows[|rows| - 1].idx == k then RowsAt(rows[..|rows| - 1], k) + [rows[|rows| - 1]]
    else RowsAt(rows[..|rows| - 1], k)
  }

  /** ORDER BY section_idx. */
  function OrderBySection(rows: seq<Row>): (r: seq<Row>)
    ensures |r| == |rows|
    ensures forall i, j :: 0 <= i < j < |r| ==> r[i].idx <= r[j].idx
  {
    if rows == [] then [] else Place(OrderBySection(rows[..|rows| - 1]), rows[|rows| - 1])
  }

  function Place(rows: seq<Row>, r: Row): (s: seq<Row>)
    requires forall i, j :: 0 <= i < j < |rows| ==> rows[i].idx <= rows[j].idx
    ensures |s| == |rows| + 1
    ensures forall i, j :: 0 <= i < j < |s| ==> s[i].idx <= s[j].idx
    ensures forall i :: 0 <= i < |s| ==> s[i].idx <= r.idx || (|rows| > 0 && s[i].idx <= rows[|rows| - 1].idx)
  {
    var n := |rows|;
    if n == 0 || rows[n - 1].idx <= r.idx then rows + [r] else Place(rows[..n - 1], r) + [rows[n - 1]]
  }

  // ------------------------------------------------------------- whole responses

  /** What one save stores. */
  datatype Response = Response(tool: string, sections: seq<Section>, createdAt: string)

  /** rows are exactly the sections of r, in order. */
  ghost predicate Holds(rows: seq<Row>, id: string, r: Response) {
    && |rows| == |r.sections|
    && forall k :: 0 <= k < |rows| ==>
        && rows[k].id == id && rows[k].tool == r.tool && rows[k].idx == k
        && rows[k].title == r.sections[k].title && rows[k].content == r.sections[k].content
        && rows[k].bytes == |r.sections[k].content| && rows[k].createdAt == r.createdAt
  }

  lemma HoldsOneMore(group: seq<Row>, id: string, r: Response, row: Row)
    requires r.sections != [] && Holds(group, id, r.(sections := r.sections[..|r.sections| - 1]))
    requires && row.id == id && row.tool == r.tool && row.idx == |group| && row.createdAt == r.createdAt
             && Section(row.title, row.content) == r.sections[|group|] && row.bytes == |row.content|
    ensures Holds(group + [row], id, r)
  {
    var all := group + [row];
    forall k | 0 <= k < |group|
      ensures all[k] == group[k] && r.sections[k] == r.sections[..|group|][k]
    {}
  }

  /** group is the rows held before and then those of r. */
  ghost predicate Added(held: seq<Row>, group: seq<Row>, id: string, r: Response) {
    && |group| == |held| + |r.sections|
    && group[..|held|] == held
    && Holds(group[|held|..], id, r)
  }

  lemma AddedOneMore(held: seq<Row>, group: seq<Row>, id: string, r: Response, row: Row)
    requires r.sections != [] && Added(held, group, id, r.(sections := r.sections[..|r.sections| - 1]))
    requires && row.id == id && row.tool == r.tool && row.idx == |r.sections| - 1 && row.createdAt == r.createdAt
             && Section(row.title, row.content) == r.sections[|r.sections| - 1] && row.bytes == |row.content|
    ensures Added(held, group + [row], id, r)
  {
    HoldsOneMore(group[|held|..], id, r, row);
    hide Holds;
    assert (group + [row])[|held|..] == group[|held|..] + [row];
  }

  lemma RowsOfLast(rows: seq<Row>, row: Row)
    ensures RowsOf(rows + [row], row.id) == RowsOf(rows, row.id) + [row]
  {
    assert (rows + [row])[..|rows|] == rows;
  }

  lemma {:induction false} InsertedOwn(rows: seq<Row>, id: string, r: Response)
    ensures Added(RowsOf(rows, id), RowsOf(Inserted(rows, id, r.tool, r.sections, r.createdAt), id), id, r)
    decreases |r.sections|
  {
    if r.sections != [] {
      hide RowsOf, Holds, Added;
      var n := |r.sections| - 1;
      var before := Inserted(rows, id, r.tool, r.sections[..n], r.createdAt);
      InsertedOwn(rows, id, r.(sections := r.sections[..n]));
      var row := NewRow(before, id, r.tool, n, r.sections[n], r.createdAt);
      RowsOfLast(before, row);
      AddedOneMore(RowsOf(rows, id), RowsOf(before, id), id, r, row);
    }
  }

  lemma {:induction false} InsertedOthers(rows: seq<Row>, id: string, r: Response, other: string)
    requires other != id
    ensures RowsOf(Inserted(rows, id, r.tool, r.sections, r.createdAt), other) == RowsOf(rows, other)
    decreases |r.sections|
  {
    if r.sections != [] {
      var n := |r.sections| - 1;
      var before := Inserted(rows, id, r.tool, r.sections[..n], r.createdAt);
      InsertedOthers(rows, id, r.(sections := r.sections[..n]), other);
    }
  }

  lemma {:induction false} InsertedIncreasing(rows: seq<Row>, id: string, r: Response)
    requires Increasing(rows)
    ensures Increasing(Inserted(rows, id, r.tool, r.sections, r.createdAt))
    ensures forall q :: q in Inserted(rows, id, r.tool, r.sections, r.createdAt) ==> q in rows || q.id == id
    decreases |r.sections|
  {
    if r.sections != [] {
      InsertedIncreasing(rows, id, r.(sections := r.sections[..|r.sections| - 1]));
    }
  }

  /** Eviction takes a response whole or leaves it whole. */
  lemma {:induction false} RemainingRowsOf(rows: seq<Row>, gone: set<string>, id: string)
    ensures RowsOf(Remaining(rows, gone), id) == if id in gone then [] else RowsOf(rows, id)
  {
    if rows != [] {
      var n := |rows| - 1;
      RemainingRowsOf(rows[..n], gone, id);
      var rest := Remaining(rows[..n], gone);
      assert (rest + [rows[n]])[..|rest|] == rest;
    }
  }

  /** The rows of other responses survive a save together, or not at all. */
  lemma SavedOthers(rows: seq<Row>, id: string, r: Response, cap: nat, other: string)
    requires other != id
    ensures RowsOf(Saved(rows, id, r.tool, r.sections, r.createdAt, cap), other) in {[], RowsOf(rows, other)}
  {
    var all := Inserted(rows, id, r.tool, r.sections, r.createdAt);
    InsertedOthers(rows, id, r, other);
    RemainingRowsOf(all, Evicted(all, id, cap), other);
  }

  lemma SavedTable(rows: seq<Row>, id: string, r: Response, cap: nat)
    requires Increasing(rows)
    ensures Increasing(Saved(rows, id, r.tool, r.sections, r.createdAt, cap))
    ensures forall q :: q in Saved(rows, id, r.tool, r.sections, r.createdAt, cap) ==> q in rows || q.id == id
    ensures Settled(Saved(rows, id, r.tool, r.sections, r.createdAt, cap), id, cap)
  {
    var all := Inserted(rows, id, r.tool, r.sections, r.createdAt);
    InsertedIncreasing(rows, id, r);
    EvictedOldestFirst(all, id, cap);
    RemainingIncreasing(all, Evicted(all, id, cap));
    RemainingMembers(all, Evicted(all, id, cap));
  }

  /** The response being saved is never evicted. */
  lemma {:induction false} KeptStays(rows: seq<Row>, keep: string, cap: nat)
    ensures keep !in Evicted(rows, keep, cap)
    decreases |rows|
  {
    if Total(rows) > cap && Oldest(rows, keep).Some? {
      RemainingMembers(rows, {Oldest(rows, keep).value.id});
      KeptStays(Remaining(rows, {Oldest(rows, keep).value.id}), keep, cap);
    }
  }

  /** A save adds its rows to those its id has; nothing of them is replaced. */
  lemma SavedAddsRows(rows: seq<Row>, id: string, r: Response, cap: nat)
    ensures Added(RowsOf(rows, id), RowsOf(Saved(rows, id, r.tool, r.sections, r.createdAt, cap), id), id, r)
  {
    var all := Inserted(rows, id, r.tool, r.sections, r.createdAt);
    hide RowsOf, Added;
    InsertedOwn(rows, id, r);
    KeptStays(all, id, cap);
    RemainingRowsOf(all, Evicted(all, id, cap), id);
  }

  lemma SavedOwn(rows: seq<Row>, id: string, r: Response, cap: nat)
    requires RowsOf(rows, id) == []
    ensures Holds(RowsOf(Saved(rows, id, r.tool, r.sections, r.createdAt, cap), id), id, r)
  {
    SavedAddsRows(rows, id, r, cap);
    hide RowsOf, Holds, Saved;
    var after := RowsOf(Saved(rows, id, r.tool, r.sections, r.createdAt, cap), id);
    assert after[0..] == after;
  }

  // --------------------------------------------------------------- reading back

  /** The rows a read answers with, given that the id is known. */
  function ReadRows(rows: seq<Row>, id: string, sectionIdx: Option<int>): seq<Row> {
    OrderBySection(if sectionIdx.None? then RowsOf(rows, id) else RowsAt(RowsOf(rows, id), sectionIdx.value))
  }

  function Contents(rows: seq<Row>): seq<Section> {
    seq(|rows|, i requires 0 <= i < |rows| => Section(rows[i].title, rows[i].content))
  }

  lemma {:induction false} OrderedAlready(rows: seq<Row>)
    requires forall i, j :: 0 <= i < j < |rows| ==> rows[i].idx <= rows[j].idx
    ensures OrderBySection(rows) == rows
  {
    if rows != [] {
      OrderedAlready(rows[..|rows| - 1]);
    }
  }

  lemma {:induction false} RowsAtIndex(rows: seq<Row>, k: int)
    requires forall i :: 0 <= i < |rows| ==> rows[i].idx == i
    ensures RowsAt(rows, k) == if 0 <= k < |rows| then [rows[k]] else []
  {
    if rows != [] {
      RowsAtIndex(rows[..|rows| - 1], k);
    }
  }

  lemma ReadHeld(group: seq<Row>, id: string, r: Response)
    requires Holds(group, id, r)
    ensures OrderBySection(group) == group && Contents(group) == r.sections
  {
    OrderedAlready(group);
    hide OrderBySection;
    forall k | 0 <= k < |group|
      ensures Contents(group)[k] == r.sections[k]
    {
      assert r.sections[k] == Section(r.sections[k].title, r.sections[k].content);
    }
  }

  lemma ContentsAt(rows: seq<Row>, k: nat)
    requires k < |rows|
    ensures Contents([rows[k]]) == [Contents(rows)[k]]
  {}

  lemma ReadHeldAt(group: seq<Row>, id: string, r: Response, k: int)
    requires Holds(group, id, r)
    ensures Contents(OrderBySection(RowsAt(group, k))) == if 0 <= k < |r.sections| then [r.sections[k]] else []
  {
    hide OrderBySection, RowsAt;
    RowsAtIndex(group, k);
    OrderedAlready(if 0 <= k < |group| then [group[k]] else []);
    ReadHeld(group, id, r);
    hide Holds;
    if 0 <= k < |group| {
      ContentsAt(group, k);
    }
  }

  /** Reading a stored response gives its sections, in order; reading one section
      gives that section, and nothing for an index out of range. */
  lemma ReadBack(rows: seq<Row>, id: string, r: Response, sectionIdx: Option<int>)
    requires Holds(RowsOf(rows, id), id, r)
    ensures Contents(ReadRows(rows, id, sectionIdx)) ==
            match sectionIdx
            case None => r.sections
            case Some(k) => if 0 <= k < |r.sections| then [r.sections[k]] else []
  {
    hide RowsOf, Holds, OrderBySection, RowsAt, Contents;
    ReadHeld(RowsOf(rows, id), id, r);
    if sectionIdx.Some? {
      ReadHeldAt(RowsOf(rows, id), id, r, sectionIdx.value);
    }
  }

  // ------------------------------------------------------------------------ runs

  /** A step of the store: a save under an id taken from the clock, a full prune,
      or a completed index write, which prunes. */
  datatype Op = Save(id: string, response: Response) | Prune | IndexWrite

  /** The table after one step; a save of no sections is refused. */
  function Step(rows: seq<Row>, op: Op, cap: nat): seq<Row> {
    match op
    case Save(id, r) => if r.sections == [] then rows else Saved(rows, id, r.tool, r.sections, r.createdAt, cap)
    case Prune => []
    case IndexWrite => []
  }

  function Run(ops: seq<Op>, cap: nat): seq<Row> {
    if ops == [] then [] else Step(Run(ops[..|ops| - 1], cap), ops[|ops| - 1], cap)
  }

  /** The n-th step saves something. */
  predicate Saves(ops: seq<Op>, n: nat)
    requires n < |ops|
  {
    ops[n].Save? && ops[n].response.sections != []
  }

  /** No save finds rows under its id. */
  ghost predicate FreshIds(ops: seq<Op>, cap: nat) {
    forall n :: 0 <= n < |ops| && Saves(ops, n) ==> RowsOf(Run(ops[..n], cap), ops[n].id) == []
  }

  /** What every save of a run stored can be read back right after it. */
  ghost predicate ReadsBack(ops: seq<Op>, cap: nat) {
    forall n :: 0 <= n < |ops| && Saves(ops, n) ==>
      Contents(ReadRows(Run(ops[..n + 1], cap), ops[n].id, None)) == ops[n].response.sections
  }

  /** No two saves share an id. */
  ghost predicate OwnIds(ops: seq<Op>) {
    forall i, j :: 0 <= i < j < |ops| && ops[i].Save? && ops[j].Save? ==> ops[i].id != ops[j].id
  }

  lemma {:induction false} RunHasSaved(ops: seq<Op>, cap: nat, id: string)
    requires forall i :: 0 <= i < |ops| && ops[i].Save? ==> ops[i].id != id
    ensures RowsOf(Run(ops, cap), id) == []
  {
    if ops != [] {
      var n := |ops| - 1;
      RunHasSaved(ops[..n], cap, id);
      if Saves(ops, n) {
        SavedOthers(Run(ops[..n], cap), ops[n].id, ops[n].response, cap, id);
      }
    }
  }

  /** Ids used once are fresh. */
  lemma OwnIdsFresh(ops: seq<Op>, cap: nat)
    requires OwnIds(ops)
    ensures FreshIds(ops, cap)
  {
    forall n | 0 <= n < |ops| && Saves(ops, n)
      ensures RowsOf(Run(ops[..n], cap), ops[n].id) == []
    {
      RunHasSaved(ops[..n], cap, ops[n].id);
    }
  }

  /** Each row counts the bytes of its content. */
  ghost predicate BytesCounted(rows: seq<Row>) {
    forall q :: q in rows ==> q.bytes == |q.content|
  }

  /** All stored text. */
  function Text(rows: seq<Row>): string {
    Concat(Contents(rows))
  }

  lemma ContentsCons(rows: seq<Row>)
    requires rows != []
    ensures Contents(rows) == [Section(rows[0].title, rows[0].content)] + Contents(rows[1..])
  {}

  lemma {:induction false} TotalIsText(rows: seq<Row>)
    requires BytesCounted(rows)
    ensures Total(rows) == |Text(rows)|
  {
    if rows != [] {
      hide Contents, Concat;
      assert rows[0] in rows;
      TotalIsText(rows[1..]);
      ContentsCons(rows);
      ConcatCons(Section(rows[0].title, rows[0].content), Contents(rows[1..]));
    } else {
      assert Contents(rows) == [];
    }
  }

  lemma {:induction false} InsertedCounted(rows: seq<Row>, id: string, r: Response)
    requires BytesCounted(rows)
    ensures BytesCounted(Inserted(rows, id, r.tool, r.sections, r.createdAt))
    decreases |r.sections|
  {
    if r.sections != [] {
      InsertedCounted(rows, id, r.(sections := r.sections[..|r.sections| - 1]));
    }
  }

  /** The stored text fits the cap, or a single response is stored. */
  ghost predicate Bounded(rows: seq<Row>, cap: nat) {
    |Text(rows)| <= cap || (forall q, r :: q in rows && r in rows ==> q.id == r.id)
  }

  /** A save leaves the stored text within the cap, or only the response saved. */
  lemma SavedBounded(rows: seq<Row>, id: string, r: Response, cap: nat)
    requires Increasing(rows) && BytesCounted(rows)
    ensures var after := Saved(rows, id, r.tool, r.sections, r.createdAt, cap);
            && Increasing(after) && BytesCounted(after)
            && (|Text(after)| <= cap || forall q :: q in after ==> q.id == id)
  {
    hide Text, Total;
    var all := Inserted(rows, id, r.tool, r.sections, r.createdAt);
    SavedTable(rows, id, r, cap);
    InsertedCounted(rows, id, r);
    RemainingMembers(all, Evicted(all, id, cap));
    TotalIsText(Saved(rows, id, r.tool, r.sections, r.createdAt, cap));
  }

  /** Over every run the stored text is bounded. */
  lemma {:induction false} RunsAreBounded(ops: seq<Op>, cap: nat)
    ensures Increasing(Run(ops, cap)) && BytesCounted(Run(ops, cap)) && Bounded(Run(ops, cap), cap)
  {
    if ops == [] {
      NoText();
    } else {
      hide Text, Saved;
      var n := |ops| - 1;
      RunsAreBounded(ops[..n], cap);
      NoText();
      if Saves(ops, n) {
        SavedBounded(Run(ops[..n], cap), ops[n].id, ops[n].response, cap);
      }
    }
  }

  lemma NoText()
    ensures Text([]) == ""
  {
    assert Contents([]) == [];
  }

  /** The text that would remain fits the cap, or nothing but keep would remain. */
  ghost predicate Fits(rows: seq<Row>, keep: string, cap: nat, gone: set<string>) {
    |Text(Remaining(rows, gone))| <= cap || (forall r :: r in rows && r.id !in gone ==> r.id == keep)
  }

  lemma FitsIsSettled(rows: seq<Row>, keep: string, cap: nat, gone: set<string>)
    requires BytesCounted(rows)
    ensures Fits(rows, keep, cap, gone) <==> Settled(Remaining(rows, gone), keep, cap)
  {
    hide Text, Total;
    RemainingMembers(rows, gone);
    TotalIsText(Remaining(rows, gone));
  }

  /** What is evicted is the least set of oldest responses that makes the text fit. */
  lemma EvictedFits(rows: seq<Row>, keep: string, cap: nat, gone: set<string>)
    requires Increasing(rows) && BytesCounted(rows)
    ensures OldestFirst(rows, keep, Evicted(rows, keep, cap)) && Fits(rows, keep, cap, Evicted(rows, keep, cap))
    ensures OldestFirst(rows, keep, gone) && Fits(rows, keep, cap, gone) ==> Evicted(rows, keep, cap) <= gone
  {
    hide Fits, Settled, OldestFirst, Remaining, Evicted, Increasing;
    EvictedOldestFirst(rows, keep, cap);
    FitsIsSettled(rows, keep, cap, Evicted(rows, keep, cap));
    FitsIsSettled(rows, keep, cap, gone);
    if OldestFirst(rows, keep, gone) && Fits(rows, keep, cap, gone) {
      EvictedLeast(rows, keep, cap, gone);
    }
  }

  /** The saves under id since it last had no rows. */
  ghost function Parts(ops: seq<Op>, cap: nat, id: string): (parts: seq<Response>)
    ensures RowsOf(Run(ops, cap), id) == [] ==> parts == []
  {
    if ops == [] || RowsOf(Run(ops, cap), id) == [] then []
    else
      var n := |ops| - 1;
      Parts(ops[..n], cap, id) + if Saves(ops, n) && ops[n].id == id then [ops[n].response] else []
  }

  /** rows are the sections of all parts, each part whole, one after the other. */
  ghost predicate Stacked(rows: seq<Row>, id: string, parts: seq<Response>)
    decreases |parts|
  {
    if parts == [] then rows == []
    else
      var n := |parts| - 1;
      exists k :: 0 <= k <= |rows| && Stacked(rows[..k], id, parts[..n]) && Holds(rows[k..], id, parts[n])
  }

  lemma StackedOneMore(rows: seq<Row>, after: seq<Row>, id: string, parts: seq<Response>, r: Response)
    requires Stacked(rows, id, parts) && Added(rows, after, id, r)
    ensures Stacked(after, id, parts + [r])
  {
    assert (parts + [r])[..|parts|] == parts;
  }

  lemma NothingStacked(id: string)
    ensures Stacked([], id, [])
  {}

  lemma OwnSaveStacks(ops: seq<Op>, cap: nat, id: string, r: Response)
    requires ops != [] && ops[|ops| - 1] == Save(id, r) && r.sections != []
    requires Stacked(RowsOf(Run(ops[..|ops| - 1], cap), id), id, Parts(ops[..|ops| - 1], cap, id))
    ensures Stacked(RowsOf(Run(ops, cap), id), id, Parts(ops, cap, id))
  {
    hide RowsOf, Saved, Added, Stacked;
    var before := Run(ops[..|ops| - 1], cap);
    SavedAddsRows(before, id, r, cap);
    AddedSome(RowsOf(before, id), RowsOf(Run(ops, cap), id), id, r);
    StackedOneMore(RowsOf(before, id), RowsOf(Run(ops, cap), id), id, Parts(ops[..|ops| - 1], cap, id), r);
  }

  lemma OtherStepStacks(ops: seq<Op>, cap: nat, id: string)
    requires ops != [] && !(Saves(ops, |ops| - 1) && ops[|ops| - 1].id == id)
    requires Stacked(RowsOf(Run(ops[..|ops| - 1], cap), id), id, Parts(ops[..|ops| - 1], cap, id))
    ensures Stacked(RowsOf(Run(ops, cap), id), id, Parts(ops, cap, id))
  {
    hide RowsOf, Saved, Stacked;
    var n := |ops| - 1;
    NoRowsLeft(id);
    NothingStacked(id);
    if Saves(ops, n) {
      SavedOthers(Run(ops[..n], cap), ops[n].id, ops[n].response, cap, id);
    }
    assert Parts(ops[..n], cap, id) + [] == Parts(ops[..n], cap, id);
  }

  /** Over every run what is stored under an id is whole saves: those since it last had
      no rows, in order. */
  lemma {:induction false} RunsKeepWhole(ops: seq<Op>, cap: nat, id: string)
    ensures Stacked(RowsOf(Run(ops, cap), id), id, Parts(ops, cap, id))
  {
    if ops == [] {
      NoRowsLeft(id);
    } else {
      hide RowsOf, Run, Parts, Stacked;
      var n := |ops| - 1;
      RunsKeepWhole(ops[..n], cap, id);
      if Saves(ops, n) && ops[n].id == id {
        OwnSaveStacks(ops, cap, id, ops[n].response);
      } else {
        OtherStepStacks(ops, cap, id);
      }
    }
  }

  lemma NoRowsLeft(id: string)
    ensures RowsOf([], id) == []
  {}

  lemma AddedSome(held: seq<Row>, group: seq<Row>, id: string, r: Response)
    requires Added(held, group, id, r) && r.sections != []
    ensures group != []
  {}

  lemma {:induction false} PartsSaved(ops: seq<Op>, cap: nat, id: string, k: nat)
    requires k < |Parts(ops, cap, id)|
    ensures exists i :: 0 <= i < |ops| && Saves(ops, i) && ops[i] == Save(id, Parts(ops, cap, id)[k])
  {
    var n := |ops| - 1;
    if k < |Parts(ops[..n], cap, id)| {
      PartsSaved(ops[..n], cap, id, k);
      var i :| 0 <= i < n && Saves(ops[..n], i) && ops[..n][i] == Save(id, Parts(ops[..n], cap, id)[k]);
      assert Saves(ops, i) && ops[i] == Save(id, Parts(ops, cap, id)[k]);
    } else {
      assert Saves(ops, n) && ops[n] == Save(id, Parts(ops, cap, id)[k]);
    }
  }

  /** A save can be read back right after it exactly when its id had no rows. */
  lemma SavedReadsIffFresh(rows: seq<Row>, id: string, r: Response, cap: nat)
    ensures Contents(ReadRows(Saved(rows, id, r.tool, r.sections, r.createdAt, cap), id, None)) == r.sections <==>
            RowsOf(rows, id) == []
  {
    hide RowsOf, Holds, OrderBySection, Saved;
    var after := RowsOf(Saved(rows, id, r.tool, r.sections, r.createdAt, cap), id);
    if RowsOf(rows, id) == [] {
      SavedOwn(rows, id, r, cap);
      ReadHeld(after, id, r);
    } else {
      SavedAddsRows(rows, id, r, cap);
      assert |Contents(OrderBySection(after))| == |after|;
    }
  }

  /** After any run that ends with a save, what was saved can be read back exactly
      when its id had no rows. */
  lemma JustSavedReads(ops: seq<Op>, cap: nat, n: nat)
    requires n < |ops| && Saves(ops, n)
    ensures Contents(ReadRows(Run(ops[..n + 1], cap), ops[n].id, None)) == ops[n].response.sections <==>
            RowsOf(Run(ops[..n], cap), ops[n].id) == []
  {
    assert ops[..n + 1][..n] == ops[..n];
    hide RowsOf, ReadRows, Contents, Saved;
    SavedReadsIffFresh(Run(ops[..n], cap), ops[n].id, ops[n].response, cap);
  }

  /** Over a run, what is saved can be read back every time exactly when no save
      finds rows under its id. */
  lemma ReadsBackIffFresh(ops: seq<Op>, cap: nat)
    ensures ReadsBack(ops, cap) <==> FreshIds(ops, cap)
  {
    hide Run, RowsOf, ReadRows, Contents;
    forall n | 0 <= n < |ops| && Saves(ops, n)
      ensures Contents(ReadRows(Run(ops[..n + 1], cap), ops[n].id, None)) == ops[n].response.sections <==>
              RowsOf(Run(ops[..n], cap), ops[n].id) == []
    {
      JustSavedReads(ops, cap, n);
    }
  }

  lemma StackedLonger(rows: seq<Row>, id: string, parts: seq<Response>)
    requires Stacked(rows, id, parts) && parts != []
    requires |parts| > 1 ==> parts[|parts| - 2].sections != []
    ensures |parts| == 1 ==> Holds(rows, id, parts[0])
    ensures |parts| > 1 ==> |rows| > |parts[|parts| - 1].sections|
  {
    var n := |parts| - 1;
    var k :| 0 <= k <= |rows| && Stacked(rows[..k], id, parts[..n]) && Holds(rows[k..], id, parts[n]);
    if n == 0 {
      assert rows[k..] == rows;
    } else {
      var m :| 0 <= m <= k && Stacked(rows[..k][..m], id, parts[..n][..n - 1])
               && Holds(rows[..k][m..], id, parts[..n][n - 1]);
    }
  }

  /** Over every run, reading a stored id gives the sections last saved under it exactly
      when there was one save since it had no rows. */
  lemma StoredReadsIff(ops: seq<Op>, cap: nat, id: string)
    requires RowsOf(Run(ops, cap), id) != []
    ensures var parts := Parts(ops, cap, id);
            && parts != []
            && (Contents(ReadRows(Run(ops, cap), id, None)) == parts[|parts| - 1].sections <==> |parts| == 1)
  {
    hide RowsOf, Holds, OrderBySection, Run, Parts;
    var rows, parts := RowsOf(Run(ops, cap), id), Parts(ops, cap, id);
    RunsKeepWhole(ops, cap, id);
    if |parts| > 1 {
      PartsSaved(ops, cap, id, |parts| - 2);
    }
    StackedLonger(rows, id, parts);
    hide Stacked;
    if |parts| == 1 {
      ReadHeld(rows, id, parts[0]);
    } else {
      assert |Contents(OrderBySection(rows))| == |rows|;
    }
  }

  /** Then their contents join to the text they were cut from. */
  lemma StoredTextReads(ops: seq<Op>, cap: nat, id: string, text: string)
    requires |Parts(ops, cap, id)| == 1
    requires forall i :: 0 <= i < |ops| && ops[i].Save? && ops[i].id == id ==>
                         Concat(ops[i].response.sections) == text
    ensures Concat(Contents(ReadRows(Run(ops, cap), id, None))) == text
  {
    hide RowsOf, Run, Parts, Contents, ReadRows;
    StoredReadsIff(ops, cap, id);
    PartsSaved(ops, cap, id, 0);
  }

  lemma {:induction false} TotalSnoc(rows: seq<Row>, r: Row)
    ensures Total(rows + [r]) == Total(rows) + r.bytes
  {
    if rows != [] {
      assert (rows + [r])[1..] == rows[1..] + [r];
      TotalSnoc(rows[1..], r);
    }
  }

  lemma {:induction false} InsertedTotal(rows: seq<Row>, id: string, r: Response)
    ensures Total(Inserted(rows, id, r.tool, r.sections, r.createdAt)) == Total(rows) + |Concat(r.sections)|
    decreases |r.sections|
  {
    if r.sections != [] {
      hide Total;
      var n := |r.sections| - 1;
      InsertedTotal(rows, id, r.(sections := r.sections[..n]));
      var before := Inserted(rows, id, r.tool, r.sections[..n], r.createdAt);
      TotalSnoc(before, NewRow(before, id, r.tool, n, r.sections[n], r.createdAt));
    }
  }

  /** Nothing is evicted unless it is stored, and never what is being saved. */
  lemma EvictedStored(rows: seq<Row>, keep: string, cap: nat, e: string)
    requires Increasing(rows) && e in Evicted(rows, keep, cap)
    ensures e != keep && RowsOf(rows, e) != []
  {
    EvictedOldestFirst(rows, keep, cap);
    hide RowsOf;
    var r :| r in rows && r.id == e;
    assert r in RowsOf(rows, e);
  }

  /** A first save stores its rows. */
  lemma FirstSave(id: string, r: Response, cap: nat)
    requires r.sections != []
    ensures var rows := Saved([], id, r.tool, r.sections, r.createdAt, cap);
            && Increasing(rows) && Total(rows) == |Concat(r.sections)| && RowsOf(rows, id) != []
            && forall other :: other != id ==> RowsOf(rows, other) == []
  {
    hide RowsOf, Total, Evicted, Holds;
    var all := Inserted([], id, r.tool, r.sections, r.createdAt);
    InsertedIncreasing([], id, r);
    forall other | other != id
      ensures RowsOf(all, other) == []
    {
      InsertedOthers([], id, r, other);
      NoRowsLeft(other);
    }
    forall e
      ensures e !in Evicted(all, id, cap)
    {
      if e in Evicted(all, id, cap) {
        EvictedStored(all, id, cap, e);
      }
    }
    assert Evicted(all, id, cap) == {};
    RemainingNone(all);
    InsertedTotal([], id, r);
    NoTotal();
    NoRowsLeft(id);
    InsertedOwn([], id, r);
    AddedSome([], RowsOf(all, id), id, r);
  }

  lemma NoTotal()
    ensures Total([]) == 0
  {}

  lemma SecondSave(rows: seq<Row>, id: string, id': string, r': Response, cap: nat)
    requires Increasing(rows) && id != id' && RowsOf(rows, id) != [] && r'.sections != []
    requires forall other :: other != id ==> RowsOf(rows, other) == []
    ensures RowsOf(Saved(rows, id', r'.tool, r'.sections, r'.createdAt, cap), id) != [] <==>
            Total(rows) + |Concat(r'.sections)| <= cap
  {
    hide RowsOf, Evicted, Remaining, Total;
    var all := Inserted(rows, id', r'.tool, r'.sections, r'.createdAt);
    var gone := Evicted(all, id', cap);
    InsertedIncreasing(rows, id', r');
    InsertedTotal(rows, id', r');
    InsertedOthers(rows, id', r', id);
    RemainingRowsOf(all, gone, id);
    RemainingNone(all);
    EvictedOldestFirst(all, id', cap);
    NothingEvicted(all, id', cap);
    if id !in gone {
      forall e
        ensures e !in gone
      {
        if e in gone {
          EvictedStored(all, id', cap, e);
          InsertedOthers(rows, id', r', e);
        }
      }
      assert gone == {};
      assert RowsOf(all, id)[0] in RowsOf(all, id);
    }
  }

  lemma NothingEvicted(rows: seq<Row>, keep: string, cap: nat)
    ensures Total(rows) <= cap ==> Evicted(rows, keep, cap) == {}
  {}

  /** Of two responses saved one after the other the first stays exactly when both fit
      the cap together. */
  lemma SecondSaveEvictsIff(id: string, r: Response, id': string, r': Response, cap: nat)
    requires id != id' && r.sections != [] && r'.sections != []
    ensures var after := Run([Save(id, r), Save(id', r')], cap);
            && Holds(RowsOf(after, id'), id', r')
            && (RowsOf(after, id) != [] <==> |Concat(r.sections)| + |Concat(r'.sections)| <= cap)
  {
    hide RowsOf, Saved, Holds, Total;
    var ops := [Save(id, r), Save(id', r')];
    assert ops[..1] == [Save(id, r)] && ops[..1][..0] == [];
    assert Run(ops[..1], cap) == Saved([], id, r.tool, r.sections, r.createdAt, cap);
    FirstSave(id, r, cap);
    SecondSave(Run(ops[..1], cap), id, id', r', cap);
    SavedOwn(Run(ops[..1], cap), id', r', cap);
  }

  // ------------------------------------------------------------ ids and creation times

  /** "resp-%020d-%016x" of the time in nanoseconds and a hash. */
  function ResponseId(nanos: nat, hash: string): string {
    "resp-" + Digits(nanos, 20) + "-" + hash
  }

  lemma NanosFit()
    ensures Pow10(20) > 0x7fff_ffff_ffff_ffff
  {
    assert Pow10(12) == 1000 * Pow10(9);
    assert Pow10(15) == 1000 * Pow10(12);
    assert Pow10(18) == 1000 * Pow10(15);
    assert Pow10(20) == 100 * Pow10(18);
  }

  lemma PaddedOrder(p: string, a: nat, b: nat, k: nat, u: string, v: string)
    requires a < b < Pow10(k)
    ensures Less(p + Digits(a, k) + u, p + Digits(b, k) + v) && !Less(p + Digits(b, k) + v, p + Digits(a, k) + u)
  {
    hide Digits, Pow10, Less;
    DigitsOrder(a, b, k);
    var j :| 0 <= j < k && Digits(a, k)[..j] == Digits(b, k)[..j] && Digits(a, k)[j] < Digits(b, k)[j];
    LessInside(p, Digits(a, k), Digits(b, k), u, v, j);
  }

  /** Ids sort by creation time, whatever the hashes; so ids made at different
      times differ. */
  lemma IdsSortByTime(a: nat, b: nat, ha: string, hb: string)
    requires a < b <= 0x7fff_ffff_ffff_ffff
    ensures Less(ResponseId(a, ha), ResponseId(b, hb)) && ResponseId(a, ha) != ResponseId(b, hb)
  {
    NanosFit();
    hide Digits, Pow10, Less;
    PaddedOrder("resp-", a, b, 20, "-" + ha, "-" + hb);
    assert ResponseId(a, ha) == "resp-" + Digits(a, 20) + ("-" + ha);
    assert ResponseId(b, hb) == "resp-" + Digits(b, 20) + ("-" + hb);
  }

  /** Two ids are one exactly when the times and the hashes are. */
  lemma SameIdIff(a: nat, b: nat, ha: string, hb: string)
    requires a <= 0x7fff_ffff_ffff_ffff && b <= 0x7fff_ffff_ffff_ffff
    ensures ResponseId(a, ha) == ResponseId(b, hb) <==> a == b && ha == hb
  {
    if a < b {
      IdsSortByTime(a, b, ha, hb);
    } else if b < a {
      IdsSortByTime(b, a, hb, ha);
    } else {
      var p := "resp-" + Digits(a, 20) + "-";
      SamePrefix(p, ha, hb);
      assert ResponseId(a, ha) == p + ha && ResponseId(b, hb) == p + hb;
    }
  }

  lemma SamePrefix(p: string, u: string, v: string)
    ensures p + u == p + v <==> u == v
  {
    assert (p + u)[|p|..] == u && (p + v)[|p|..] == v;
  }

  /** An id is the nanoseconds in twenty digits between its prefix and the hash. */
  lemma IdIs(nanos: nat, hash: string)
    requires nanos <= 0x7fff_ffff_ffff_ffff
    ensures exists d :: |d| == 20 && Value(d) == nanos && ResponseId(nanos, hash) == "resp-" + d + "-" + hash
  {
    NanosFit();
    DigitsWrite(nanos, 20);
    hide Digits, Pow10;
    assert |Digits(nanos, 20)| == 20 && Value(Digits(nanos, 20)) == nanos;
  }

  /** Rows of one creation time are older the earlier they were inserted. */
  lemma SameTimeByRowid(r: Row, q: Row)
    requires r.createdAt == q.createdAt
    ensures Precedes(r, q) <==> r.rowid < q.rowid
  {
    LessIrreflexive(r.createdAt);
  }

  /** A row made earlier in time is taken as the older one exactly when its printed
      fraction is not the start of the other's within the same second. */
  lemma AgeIsTime(r: Row, q: Row, s: Stamp, t: Stamp)
    requires StampOk(s) && StampOk(t) && Earlier(s, t)
    requires r.createdAt == Format(s) && q.createdAt == Format(t)
    ensures Precedes(r, q) <==> !FractionPrefix(s, t)
  {
    TextOrder(s, t);
    LessIrreflexive(r.createdAt);
  }

  /** A response saved at .12 of a second is evicted before one saved at .1. */
  lemma NewerEvictedFirst(seconds: string, older: Row, newer: Row, keep: string)
    requires |seconds| == 19 && older.id != keep && newer.id != keep && older.rowid < newer.rowid
    requires older.createdAt == Format(Stamp(seconds, 100_000_000))
    requires newer.createdAt == Format(Stamp(seconds, 120_000_000))
    ensures Earlier(Stamp(seconds, 100_000_000), Stamp(seconds, 120_000_000))
    ensures Oldest([older, newer], keep) == Some(newer)
  {
    hide Format;
    TenthSortsAfterTwelveHundredths(seconds);
    var rows := [older, newer];
    assert rows[0] == older && rows[1] == newer;
    PrecedesStrict(newer, older);
    var o := Oldest(rows, keep);
    assert newer in rows;
    assert o.value in rows;
  }

  // ----------------------------------------------------------------- the store

  class Store {
    var rows: seq<Row>
    const cap: nat

    constructor (cap: nat)
      ensures rows == [] && this.cap == cap
    {
      rows := [];
      this.cap := cap;
    }

    /** A save of no sections is an error and changes nothing. Otherwise the
        sections are added and the oldest responses evicted; id and createdAt come
        from the clock. */
    method SaveResponseChunks(id: string, tool: string, sections: seq<Section>, createdAt: string)
      returns (saved: bool)
      modifies this
      ensures saved == (sections != [])
      ensures rows == Step(old(rows), Save(id, Response(tool, sections, createdAt)), cap)
      ensures sections == [] ==> rows == old(rows)
      ensures sections != [] && Increasing(old(rows)) && BytesCounted(old(rows)) ==>
                |Text(rows)| <= cap || forall q :: q in rows ==> q.id == id
    {
      if sections == [] {
        return false;
      }
      var i := 0;
      while i < |sections|
        invariant 0 <= i <= |sections|
        invariant rows == Inserted(old(rows), id, tool, sections[..i], createdAt)
      {
        assert sections[..i + 1][..i] == sections[..i];
        rows := rows + [NewRow(rows, id, tool, i, sections[i], createdAt)];
        i := i + 1;
      }
      assert sections[..i] == sections;
      PruneResponseChunksToCap(id);
      if Increasing(old(rows)) && BytesCounted(old(rows)) {
        SavedBounded(old(rows), id, Response(tool, sections, createdAt), cap);
      }
      saved := true;
    }

    method PruneResponseChunksToCap(keep: string)
      modifies this
      ensures rows == Remaining(old(rows), Evicted(old(rows), keep, cap))
    {
      RemainingNone(rows);
      hide Remaining, Oldest, Total;
      ghost var gone: set<string> := {};
      var total := Total(rows);
      while total > cap
        invariant total == Total(rows)
        invariant rows == Remaining(old(rows), gone)
        invariant Evicted(old(rows), keep, cap) == gone + Evicted(rows, keep, cap)
        decreases |rows|
      {
        var oldest := Oldest(rows, keep);
        if oldest.None? {
          return;
        }
        RemainingTwice(old(rows), gone, {oldest.value.id});
        RemainingMembers(rows, {oldest.value.id});
        gone := gone + {oldest.value.id};
        rows := Remaining(rows, {oldest.value.id});
        total := Total(rows);
      }
    }

    /** An id with no rows is unknown. */
    method ResponseSections(id: string, sectionIdx: Option<int>) returns (r: Result<seq<Row>>)
      ensures r.UnknownResponse? <==> forall q :: q in rows ==> q.id != id
      ensures r.Ok? ==> r.value == ReadRows(rows, id, sectionIdx)
    {
      var group := RowsOf(rows, id);
      if group == [] {
        r := UnknownResponse;
      } else {
        assert group[0] in group;
        r := Ok(ReadRows(rows, id, sectionIdx));
      }
    }

    method PruneResponseChunks()
      modifies this
      ensures rows == Step(old(rows), Prune, cap) && rows == []
    {
      rows := [];
    }

    /** A completed index write invalidates the stored responses. */
    method CompleteIndexWrite()
      modifies this
      ensures rows == Step(old(rows), IndexWrite, cap) && rows == []
    {
      PruneResponseChunks();
    }
  }
}
