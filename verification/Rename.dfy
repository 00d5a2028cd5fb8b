/** Rewriting the occurrences of a name in a file (query/rename.go): byte
    ranges are replaced from right to left. */
module Rename {
  import opened Sequences

  datatype Splice = Splice(start: int, end: int)

  datatype Result<T> = Ok(value: T) | Err

  // ------------------------------------------------- substitution at all ranges at once

  /** Well-formed ranges, last one first, none overlapping another. */
  ghost predicate Descending(ss: seq<Splice>) {
    && (forall i :: 0 <= i < |ss| ==> 0 <= ss[i].start <= ss[i].end)
    && (forall i :: 0 <= i < |ss| - 1 ==> ss[i + 1].end <= ss[i].start)
  }

  /** Where the text not yet looked at ends, once the k rightmost ranges are done. */
  function Edge(data: string, ss: seq<Splice>, k: nat): int
    requires k <= |ss|
  {
    if k == 0 then |data| else ss[k - 1].start
  }

  ghost predicate Within(data: string, ss: seq<Splice>) {
    Descending(ss) && (ss == [] || ss[0].end <= |data|)
  }

  lemma {:induction false} EdgeWithin(data: string, ss: seq<Splice>, k: nat)
    requires Within(data, ss) && k <= |ss|
    ensures 0 <= Edge(data, ss, k) <= |data|
    ensures k < |ss| ==> 0 <= ss[k].start <= ss[k].end <= Edge(data, ss, k)
  {
    if k > 0 {
      EdgeWithin(data, ss, k - 1);
      assert k < |ss| ==> ss[k - 1 + 1].end <= ss[k - 1].start;
    }
  }

  /** The original text between range k and the next one on its right. */
  function Segment(data: string, ss: seq<Splice>, k: nat): string
    requires Within(data, ss) && k < |ss|
  {
    EdgeWithin(data, ss, k);
    data[ss[k].end..Edge(data, ss, k)]
  }

  /** The text from the k-th range on the right to the end, each of those ranges
      replaced by name and everything else as in the original. */
  function Tail(data: string, ss: seq<Splice>, name: string, k: nat): string
    requires Within(data, ss) && k <= |ss|
  {
    if k == 0 then "" else name + Segment(data, ss, k - 1) + Tail(data, ss, name, k - 1)
  }

  /** All ranges of the original text replaced at once. */
  function Substitute(data: string, ss: seq<Splice>, name: string): string
    requires Within(data, ss)
  {
    EdgeWithin(data, ss, |ss|);
    data[..Edge(data, ss, |ss|)] + Tail(data, ss, name, |ss|)
  }

  // ---------------------------------------------------------------------- the code

  predicate Fits(s: Splice, n: nat) {
    0 <= s.start <= s.end <= n
  }

  /** The text after the splices are applied in turn, each to what the ones before
      have left; refused when one does not fit. */
  function SpliceAll(data: string, ss: seq<Splice>, name: string): Result<string>
    decreases |ss|
  {
    if ss == [] then Ok(data)
    else if !Fits(ss[0], |data|) then Err
    else SpliceAll(data[..ss[0].start] + name + data[ss[0].end..], ss[1..], name)
  }

  /** For descending ranges it succeeds exactly inside the text, where it equals the
      substitution at all of them at once. */
  method SpliceIdentifiers(data: string, splices: seq<Splice>, newName: string) returns (r: Result<string>)
    ensures r == SpliceAll(data, splices, newName)
    ensures Descending(splices) ==> (r.Ok? <==> Within(data, splices))
    ensures Within(data, splices) ==> r == Ok(Substitute(data, splices, newName))
  {
    SpliceAllSubstitutes(data, splices, newName);
    hide Descending, Within, Substitute;
    var out := data;
    var k := 0;
    while k < |splices|
      invariant 0 <= k <= |splices|
      invariant SpliceAll(out, splices[k..], newName) == SpliceAll(data, splices, newName)
    {
      var sp := splices[k];
      assert splices[k..][0] == sp && splices[k..][1..] == splices[k + 1..];
      if sp.start < 0 || sp.end > |out| || sp.end < sp.start {
        return Err;
      }
      var tail := out[sp.end..];
      out := out[..sp.start] + newName;
      out := out + tail;
      k := k + 1;
    }
    return Ok(out);
  }

  lemma {:induction false} SplicesLeft(data: string, ss: seq<Splice>, name: string, k: nat)
    requires Within(data, ss) && k <= |ss| && 0 <= Edge(data, ss, k) <= |data|
    ensures SpliceAll(data[..Edge(data, ss, k)] + Tail(data, ss, name, k), ss[k..], name)
         == Ok(Substitute(data, ss, name))
    decreases |ss| - k
  {
    if k < |ss| {
      var out := data[..Edge(data, ss, k)] + Tail(data, ss, name, k);
      EdgeWithin(data, ss, k);
      EdgeWithin(data, ss, k + 1);
      SpliceOne(data, ss, name, k, out);
      SplicesLeft(data, ss, name, k + 1);
      hide Within, Substitute, Tail, Segment;
      assert ss[k..][0] == ss[k] && ss[k..][1..] == ss[k + 1..];
    }
  }

  /** Descending ranges are spliced exactly when they lie inside the text, and then
      as if all at once. */
  lemma SpliceAllSubstitutes(data: string, ss: seq<Splice>, name: string)
    ensures Descending(ss) ==> (SpliceAll(data, ss, name).Ok? <==> Within(data, ss))
    ensures Within(data, ss) ==> SpliceAll(data, ss, name) == Ok(Substitute(data, ss, name))
  {
    if Within(data, ss) {
      SplicesLeft(data, ss, name, 0);
      assert data[..|data|] + "" == data && ss[0..] == ss;
    }
  }

  lemma SpliceOne(data: string, ss: seq<Splice>, name: string, k: nat, out: string)
    requires Within(data, ss) && k < |ss|
    requires 0 <= ss[k].start <= ss[k].end <= Edge(data, ss, k) <= |data|
    requires out == data[..Edge(data, ss, k)] + Tail(data, ss, name, k)
    ensures ss[k].end <= |out|
    ensures out[..ss[k].start] + name + out[ss[k].end..]
         == data[..Edge(data, ss, k + 1)] + Tail(data, ss, name, k + 1)
  {
    var t := Tail(data, ss, name, k);
    assert out[..ss[k].start] == data[..ss[k].start];
    assert out[ss[k].end..] == Segment(data, ss, k) + t;
    assert Tail(data, ss, name, k + 1) == name + Segment(data, ss, k) + t;
    assert data[..ss[k].start] + name + (Segment(data, ss, k) + t)
        == data[..ss[k].start] + (name + Segment(data, ss, k) + t);
  }

  // ------------------------------------------------------------- sorting the splices

  function InsertSplice(s: Splice, ss: seq<Splice>): seq<Splice> {
    if ss == [] || s.start > ss[0].start then [s] + ss else [ss[0]] + InsertSplice(s, ss[1..])
  }

  /** sort.Slice by descending start. */
  function SortSplices(ss: seq<Splice>): seq<Splice> {
    if ss == [] then [] else InsertSplice(ss[0], SortSplices(ss[1..]))
  }

  /** The splice of each site: the name's own length from its offset. */
  function SplicesAt(starts: seq<nat>, len: nat): (ss: seq<Splice>)
    ensures |ss| == |starts|
    ensures forall i :: 0 <= i < |ss| ==> ss[i] == Splice(starts[i], starts[i] + len)
  {
    seq(|starts|, i requires 0 <= i < |starts| => Splice(starts[i], starts[i] + len))
  }

  /** Identifiers at different offsets do not overlap. */
  ghost predicate Disjoint(starts: seq<nat>, len: nat) {
    forall i, j :: 0 <= i < j < |starts| ==> starts[i] + len <= starts[j] || starts[j] + len <= starts[i]
  }

  lemma {:induction false} InsertKeeps(s: Splice, ss: seq<Splice>)
    ensures multiset(InsertSplice(s, ss)) == multiset(ss) + multiset{s}
  {
    if ss != [] && s.start <= ss[0].start {
      InsertKeeps(s, ss[1..]);
      assert ss == [ss[0]] + ss[1..];
    }
  }

  lemma {:induction false} SortKeeps(ss: seq<Splice>)
    ensures multiset(SortSplices(ss)) == multiset(ss)
  {
    if ss != [] {
      SortKeeps(ss[1..]);
      InsertKeeps(ss[0], SortSplices(ss[1..]));
      assert ss == [ss[0]] + ss[1..];
    }
  }

  ghost predicate NonEmpty(ss: seq<Splice>) {
    forall y :: y in ss ==> 0 <= y.start < y.end
  }

  // ------------------------------------------------------------------- the way back

  /** The ranges that hold the new name afterwards: each moves by the growth of the
      replacements on its left. */
  function Shifted(ss: seq<Splice>, oldLen: nat, newLen: nat): (r: seq<Splice>)
    ensures |r| == |ss|
    ensures forall k :: 0 <= k < |ss| ==>
              r[k] == Splice(Moved(ss, oldLen, newLen, k), Moved(ss, oldLen, newLen, k) + newLen)
  {
    seq(|ss|, k requires 0 <= k < |ss| =>
      Splice(Moved(ss, oldLen, newLen, k), Moved(ss, oldLen, newLen, k) + newLen))
  }

  function Moved(ss: seq<Splice>, oldLen: nat, newLen: nat, k: nat): int
    requires k < |ss|
  {
    ss[k].start + (|ss| - 1 - k) * (newLen - oldLen)
  }

  /** Every range holds the old name. */
  ghost predicate Holds(data: string, ss: seq<Splice>, name: string) {
    Within(data, ss) && forall k :: 0 <= k < |ss| ==>
      ss[k].end == ss[k].start + |name| && ss[k].end <= |data| && data[ss[k].start..ss[k].end] == name
  }

  lemma {:induction false} TailLength(data: string, ss: seq<Splice>, name: string, oldLen: nat, k: nat)
    requires Within(data, ss) && k <= |ss|
    requires forall i :: 0 <= i < |ss| ==> ss[i].end == ss[i].start + oldLen
    ensures |Tail(data, ss, name, k)| == |data| - Edge(data, ss, k) + k * (|name| - oldLen)
  {
    if k > 0 {
      EdgeWithin(data, ss, k - 1);
      TailLength(data, ss, name, oldLen, k - 1);
      var d := |name| - oldLen;
      assert (k - 1) * d + d == k * d;
    }
  }

  /** Where edge k of the original text lies in the new one. */
  function MovedEdge(data: string, ss: seq<Splice>, oldLen: nat, newLen: nat, k: nat): int
    requires k <= |ss|
  {
    Edge(data, ss, k) + (|ss| - k) * (newLen - oldLen)
  }

  lemma ThreePieces(out: string, q: nat, a: string, b: string, t: string)
    requires q <= |out| && out[q..] == a + b + t
    ensures q + |a| + |b| <= |out|
    ensures out[q..q + |a|] == a
    ensures out[q + |a|..q + |a| + |b|] == b
    ensures out[q + |a| + |b|..] == t
  {
    var whole := out[q..];
    assert out[q..q + |a|] == whole[..|a|];
    assert out[q + |a|..q + |a| + |b|] == whole[|a|..|a| + |b|];
    assert out[q + |a| + |b|..] == whole[|a| + |b|..];
  }

  lemma MovedEdgeStep(data: string, ss: seq<Splice>, name: string, oldLen: nat, k: nat)
    requires Within(data, ss) && k < |ss|
    requires forall i :: 0 <= i < |ss| ==> ss[i].end == ss[i].start + oldLen
    ensures MovedEdge(data, ss, oldLen, |name|, k)
         == MovedEdge(data, ss, oldLen, |name|, k + 1) + |name| + |Segment(data, ss, k)|
  {
    EdgeWithin(data, ss, k);
    var d := |name| - oldLen;
    assert (|ss| - (k + 1)) * d + d == (|ss| - k) * d;
  }

  lemma TailAtLastEdge(data: string, ss: seq<Splice>, name: string, oldLen: nat)
    requires Within(data, ss)
    ensures var out, p := Substitute(data, ss, name), MovedEdge(data, ss, oldLen, |name|, |ss|);
            0 <= p <= |out| && out[p..] == Tail(data, ss, name, |ss|)
  {
    EdgeWithin(data, ss, |ss|);
    assert (|ss| - |ss|) * (|name| - oldLen) == 0;
  }

  /** The new text from each moved edge on is that tail of the substitution. */
  lemma {:induction false} TailAtEdge(data: string, ss: seq<Splice>, name: string, oldLen: nat, k: nat)
    requires Within(data, ss) && k <= |ss|
    requires forall i :: 0 <= i < |ss| ==> ss[i].end == ss[i].start + oldLen
    ensures var out, p := Substitute(data, ss, name), MovedEdge(data, ss, oldLen, |name|, k);
            0 <= p <= |out| && out[p..] == Tail(data, ss, name, k)
    decreases |ss| - k
  {
    hide Substitute, MovedEdge, Segment;
    if k == |ss| {
      TailAtLastEdge(data, ss, name, oldLen);
    } else {
      TailAtEdge(data, ss, name, oldLen, k + 1);
      MovedEdgeStep(data, ss, name, oldLen, k);
      var q := MovedEdge(data, ss, oldLen, |name|, k + 1);
      ThreePieces(Substitute(data, ss, name), q, name, Segment(data, ss, k), Tail(data, ss, name, k));
    }
  }

  /** The segment between two ranges has moved but not changed. */
  lemma SegmentMoved(data: string, ss: seq<Splice>, name: string, oldLen: nat, k: nat)
    requires Within(data, ss) && k < |ss|
    requires forall i :: 0 <= i < |ss| ==> ss[i].end == ss[i].start + oldLen
    ensures var out := Substitute(data, ss, name);
            var p, q := MovedEdge(data, ss, oldLen, |name|, k), MovedEdge(data, ss, oldLen, |name|, k + 1);
            && 0 <= q && q + |name| <= p <= |out|
            && out[q..q + |name|] == name && out[q + |name|..p] == Segment(data, ss, k)
  {
    TailAtEdge(data, ss, name, oldLen, k + 1);
    MovedEdgeStep(data, ss, name, oldLen, k);
    hide Substitute, MovedEdge, Segment;
    var q := MovedEdge(data, ss, oldLen, |name|, k + 1);
    ThreePieces(Substitute(data, ss, name), q, name, Segment(data, ss, k), Tail(data, ss, name, k));
  }

  lemma ShiftedEdge(data: string, ss: seq<Splice>, name: string, oldLen: nat, k: nat)
    requires Within(data, ss) && k <= |ss|
    requires forall i :: 0 <= i < |ss| ==> ss[i].end == ss[i].start + oldLen
    ensures Edge(Substitute(data, ss, name), Shifted(ss, oldLen, |name|), k) == MovedEdge(data, ss, oldLen, |name|, k)
  {
    if k == 0 {
      TailAtEdge(data, ss, name, oldLen, 0);
    }
  }

  /** The shifted ranges lie inside the new text, in descending order. */
  lemma ShiftedWithin(data: string, ss: seq<Splice>, name: string, oldLen: nat)
    requires Within(data, ss)
    requires forall i :: 0 <= i < |ss| ==> ss[i].end == ss[i].start + oldLen
    ensures Within(Substitute(data, ss, name), Shifted(ss, oldLen, |name|))
  {
    var out, ts := Substitute(data, ss, name), Shifted(ss, oldLen, |name|);
    forall k | 0 <= k < |ts|
      ensures 0 <= ts[k].start <= ts[k].end <= |out| && (k > 0 ==> ts[k].end <= ts[k - 1].start)
    {
      SegmentMoved(data, ss, name, oldLen, k);
      ShiftedEdge(data, ss, name, oldLen, k);
      ShiftedEdge(data, ss, name, oldLen, k + 1);
    }
    forall k | 0 <= k < |ts| - 1 ensures ts[k + 1].end <= ts[k].start {
      assert ts[k + 1].end <= ts[k + 1 - 1].start;
    }
  }

  lemma SegmentKept(data: string, ss: seq<Splice>, name: string, oldLen: nat, k: nat)
    requires Within(data, ss) && k < |ss|
    requires forall i :: 0 <= i < |ss| ==> ss[i].end == ss[i].start + oldLen
    requires Within(Substitute(data, ss, name), Shifted(ss, oldLen, |name|))
    ensures Segment(Substitute(data, ss, name), Shifted(ss, oldLen, |name|), k) == Segment(data, ss, k)
  {
    SegmentMoved(data, ss, name, oldLen, k);
    ShiftedEdge(data, ss, name, oldLen, k);
    ShiftedEdge(data, ss, name, oldLen, k + 1);
    hide Substitute, MovedEdge;
  }

  /** The original text from one edge on: the old name, a segment, the rest. */
  lemma OriginalPieces(data: string, ss: seq<Splice>, oldName: string, k: nat)
    requires Holds(data, ss, oldName) && k < |ss|
    ensures 0 <= Edge(data, ss, k) <= |data| && 0 <= Edge(data, ss, k + 1) <= |data|
    ensures data[Edge(data, ss, k + 1)..] == oldName + Segment(data, ss, k) + data[Edge(data, ss, k)..]
  {
    EdgeWithin(data, ss, k);
    EdgeWithin(data, ss, k + 1);
    var s, e, p := ss[k].start, ss[k].end, Edge(data, ss, k);
    assert data[s..] == data[s..e] + data[e..];
    assert data[e..] == data[e..p] + data[p..];
    assert data[s..e] + (data[e..p] + data[p..]) == data[s..e] + data[e..p] + data[p..];
  }

  lemma {:induction false} TailRestored(data: string, ss: seq<Splice>, oldName: string, name: string, k: nat)
    requires Holds(data, ss, oldName) && k <= |ss|
    requires Within(Substitute(data, ss, name), Shifted(ss, |oldName|, |name|))
    ensures 0 <= Edge(data, ss, k) <= |data|
    ensures Tail(Substitute(data, ss, name), Shifted(ss, |oldName|, |name|), oldName, k) == data[Edge(data, ss, k)..]
  {
    hide Substitute, Segment;
    if k > 0 {
      TailRestored(data, ss, oldName, name, k - 1);
      SegmentKept(data, ss, name, |oldName|, k - 1);
      OriginalPieces(data, ss, oldName, k - 1);
    }
  }

  /** Putting the old name back at the shifted ranges restores the text. */
  lemma RoundTrip(data: string, ss: seq<Splice>, oldName: string, name: string)
    requires Holds(data, ss, oldName)
    ensures Within(Substitute(data, ss, name), Shifted(ss, |oldName|, |name|))
    ensures Substitute(Substitute(data, ss, name), Shifted(ss, |oldName|, |name|), oldName) == data
  {
    hide Segment, Tail, Within;
    var n := |ss|;
    var out, ts := Substitute(data, ss, name), Shifted(ss, |oldName|, |name|);
    ShiftedWithin(data, ss, name, |oldName|);
    TailRestored(data, ss, oldName, name, n);
    ShiftedEdge(data, ss, name, |oldName|, n);
    assert (n - n) * (|name| - |oldName|) == 0;
    assert out[..Edge(data, ss, n)] == data[..Edge(data, ss, n)];
    assert data == data[..Edge(data, ss, n)] + data[Edge(data, ss, n)..];
  }

  /** The ranges hold the new name after the rename. */
  lemma ShiftedHoldsNewName(data: string, ss: seq<Splice>, oldName: string, name: string)
    requires Holds(data, ss, oldName)
    ensures Holds(Substitute(data, ss, name), Shifted(ss, |oldName|, |name|), name)
  {
    ShiftedWithin(data, ss, name, |oldName|);
    forall k | 0 <= k < |ss|
      ensures var out, t := Substitute(data, ss, name), Shifted(ss, |oldName|, |name|)[k];
              t.end <= |out| && 0 <= t.start <= t.end && out[t.start..t.end] == name
    {
      SegmentMoved(data, ss, name, |oldName|, k);
      ShiftedEdge(data, ss, name, |oldName|, k + 1);
    }
  }

  // -------------------------------------------------------- sites listed more than once

  /** name stands at p as a whole identifier; ident tells the bytes of identifiers. */
  ghost predicate WholeName(ident: char -> bool, data: string, p: nat, name: string) {
    && name != "" && (forall c :: c in name ==> ident(c))
    && p + |name| <= |data| && data[p..p + |name|] == name
    && (p > 0 ==> !ident(data[p - 1]))
  }

  /** Whole identifiers at different offsets do not overlap. */
  lemma WholeNamesApart(ident: char -> bool, data: string, p: nat, q: nat, name: string)
    requires WholeName(ident, data, p, name) && WholeName(ident, data, q, name) && p < q
    ensures p + |name| <= q
  {
    forall k | p <= k < p + |name|
      ensures ident(data[k])
    {
      assert data[k] == data[p..p + |name|][k - p];
    }
  }

  /** Sites that hold whole identifiers are disjoint exactly when no offset is
      listed twice. */
  lemma DisjointIffDistinct(ident: char -> bool, data: string, starts: seq<nat>, name: string)
    requires forall i :: 0 <= i < |starts| ==> WholeName(ident, data, starts[i], name)
    ensures Disjoint(starts, |name|) <==> Distinct(starts)
  {
    hide WholeName;
    forall i, j | 0 <= i < j < |starts|
      ensures name != ""
      ensures starts[i] != starts[j] ==> starts[i] + |name| <= starts[j] || starts[j] + |name| <= starts[i]
    {
      NameNonEmpty(ident, data, starts[i], name);
      if starts[i] < starts[j] {
        WholeNamesApart(ident, data, starts[i], starts[j], name);
      } else if starts[j] < starts[i] {
        WholeNamesApart(ident, data, starts[j], starts[i], name);
      }
    }
  }

  lemma NameNonEmpty(ident: char -> bool, data: string, p: nat, name: string)
    requires WholeName(ident, data, p, name)
    ensures name != ""
  {}

  lemma SpliceAgain(a: string, b: string, len: nat)
    ensures (a + b)[..|a|] == a
    ensures len <= |b| ==> (a + b)[|a| + len..] == b[len..]
  {}

  /** What splicing makes of a range listed twice: the second time it takes the
      start of the new name and what follows. */
  lemma RangeTwice(data: string, s: Splice, name: string)
    requires Fits(s, |data|)
    ensures SpliceAll(data, [s, s], name) ==
            if s.end > s.start + |name| + |data| - s.end then Err
            else Ok(data[..s.start] + name + (name + data[s.end..])[s.end - s.start..])
  {
    var out := data[..s.start] + name + data[s.end..];
    SpliceAgain(data[..s.start], name + data[s.end..], s.end - s.start);
    assert out == data[..s.start] + (name + data[s.end..]);
    OneSplice(out, s, name);
    assert [s, s][1..] == [s];
  }

  lemma OneSplice(data: string, s: Splice, name: string)
    ensures SpliceAll(data, [s], name) ==
            if Fits(s, |data|) then Ok(data[..s.start] + name + data[s.end..]) else Err
  {
    assert [s][1..] == [];
  }

  /** Renaming f to go in a call listed twice. */
  lemma CallListedTwice()
    ensures SpliceAll("f()", [Splice(0, 1), Splice(0, 1)], "go") == Ok("goo()")
  {
    RangeTwice("f()", Splice(0, 1), "go");
    assert "f()"[1..] == "()";
    assert ("go" + "()")[1..] == "o()";
    assert "f()"[..0] + "go" + "o()" == "goo()";
  }

  /** The ranges in order, repeats left out. */
  function Once(ss: seq<Splice>): (r: seq<Splice>)
    ensures forall s :: s in r <==> s in ss
    ensures |r| <= |ss|
    ensures ss != [] ==> r != [] && r[0] == ss[0]
  {
    if |ss| < 2 then ss else if ss[0] == ss[1] then Once(ss[1..]) else [ss[0]] + Once(ss[1..])
  }

  /** In order of descending start, repeats allowed. */
  ghost predicate Falling(ss: seq<Splice>) {
    forall i, j :: 0 <= i < j < |ss| ==> ss[j].start <= ss[i].start
  }

  lemma {:induction false} InsertFalls(s: Splice, ss: seq<Splice>)
    requires Falling(ss)
    ensures Falling(InsertSplice(s, ss))
  {
    if ss != [] && s.start <= ss[0].start {
      InsertFalls(s, ss[1..]);
      InsertKeeps(s, ss[1..]);
      var r := InsertSplice(s, ss[1..]);
      forall x | x in r
        ensures x.start <= ss[0].start
      {
        assert x in multiset(r);
      }
    }
  }

  lemma {:induction false} SortFalls(ss: seq<Splice>)
    ensures Falling(SortSplices(ss))
  {
    if ss != [] {
      SortFalls(ss[1..]);
      InsertFalls(ss[0], SortSplices(ss[1..]));
    }
  }

  /** Ranges of one length, any two equal or apart. */
  ghost predicate EqualOrApart(ss: seq<Splice>, len: nat) {
    && (forall s :: s in ss ==> 0 <= s.start && s.end == s.start + len)
    && forall s, t :: s in ss && t in ss && t.start < s.start ==> t.end <= s.start
  }

  lemma PrependDescends(s: Splice, ss: seq<Splice>)
    requires Descending(ss) && 0 <= s.start <= s.end && (ss != [] ==> ss[0].end <= s.start)
    ensures Descending([s] + ss)
  {
    var t := [s] + ss;
    forall i | 0 <= i < |t| - 1
      ensures t[i + 1].end <= t[i].start
    {
      assert i > 0 ==> ss[i - 1 + 1].end <= ss[i - 1].start;
    }
  }

  lemma {:induction false} OnceDescends(ss: seq<Splice>, len: nat)
    requires Falling(ss) && EqualOrApart(ss, len)
    ensures Descending(Once(ss))
  {
    hide Descending;
    if |ss| >= 2 {
      OnceDescends(ss[1..], len);
      assert ss[0] in ss && ss[1] in ss;
      if ss[0] != ss[1] {
        assert ss[1].start < ss[0].start;
        PrependDescends(ss[0], Once(ss[1..]));
      }
    } else {
      ShortDescends(ss, len);
    }
  }

  lemma ShortDescends(ss: seq<Splice>, len: nat)
    requires |ss| < 2 && EqualOrApart(ss, len)
    ensures Descending(ss)
  {
    assert |ss| == 1 ==> ss[0] in ss;
  }

  /** With a name of the old length a repeat changes nothing. */
  lemma {:induction false} RepeatsHarmless(data: string, ss: seq<Splice>, name: string)
    requires forall s :: s in ss ==> Fits(s, |data|) && s.end == s.start + |name|
    ensures SpliceAll(data, ss, name) == SpliceAll(data, Once(ss), name)
    decreases |ss|
  {
    if |ss| >= 2 {
      assert ss[0] in ss && ss[1] in ss;
      var out := data[..ss[0].start] + name + data[ss[0].end..];
      if ss[0] == ss[1] {
        assert out[..ss[0].start] + name + out[ss[0].end..] == out;
        RepeatsHarmless(data, ss[1..], name);
      } else {
        RepeatsHarmless(out, ss[1..], name);
        assert ([ss[0]] + Once(ss[1..]))[1..] == Once(ss[1..]);
      }
    }
  }

  /** Every splice changes the length by the same amount. */
  lemma {:induction false} SplicedLength(data: string, ss: seq<Splice>, name: string, len: nat)
    requires forall s :: s in ss ==> s.end == s.start + len
    requires SpliceAll(data, ss, name).Ok?
    ensures |SpliceAll(data, ss, name).value| == |data| + |ss| * (|name| - len)
    decreases |ss|
  {
    if ss != [] {
      assert ss[0] in ss;
      SplicedLength(data[..ss[0].start] + name + data[ss[0].end..], ss[1..], name, len);
      var d := |name| - len;
      assert (|ss| - 1) * d + d == |ss| * d;
    }
  }

  ghost predicate Repeats(ss: seq<Splice>) {
    exists i, j :: 0 <= i < j < |ss| && ss[i] == ss[j]
  }

  lemma RepeatsStep(ss: seq<Splice>)
    requires ss != []
    ensures Repeats(ss) <==> ss[0] in ss[1..] || Repeats(ss[1..])
  {
    if i, j :| 0 <= i < j < |ss| && ss[i] == ss[j] {
      assert ss[j] == ss[1..][j - 1];
      assert i > 0 ==> ss[1..][i - 1] == ss[1..][j - 1];
    }
    if j :| 0 <= j < |ss[1..]| && ss[1..][j] == ss[0] {
      assert ss[0] == ss[j + 1];
    }
    if i, j :| 0 <= i < j < |ss[1..]| && ss[1..][i] == ss[1..][j] {
      assert ss[i + 1] == ss[j + 1];
    }
  }

  function Members(ss: seq<Splice>): set<Splice> {
    set s | s in ss
  }

  lemma {:induction false} MembersCounted(ss: seq<Splice>)
    ensures |Members(ss)| <= |ss|
    ensures |Members(ss)| == |ss| <==> !Repeats(ss)
  {
    if ss != [] {
      RepeatsStep(ss);
      MembersCounted(ss[1..]);
      assert Members(ss) == {ss[0]} + Members(ss[1..]);
    }
  }

  lemma {:induction false} OnceOfOnce(ss: seq<Splice>)
    requires !Repeats(ss)
    ensures Once(ss) == ss
  {
    if |ss| >= 2 {
      RepeatsStep(ss);
      OnceOfOnce(ss[1..]);
    }
  }

  lemma DescendingOnce(ss: seq<Splice>)
    requires Descending(ss) && NonEmpty(ss)
    ensures !Repeats(ss)
  {
    forall i, j | 0 <= i < j < |ss|
      ensures ss[j].start < ss[i].start
    {
      DescendingFar(ss, i, j);
    }
  }

  lemma {:induction false} DescendingFar(ss: seq<Splice>, i: nat, j: nat)
    requires Descending(ss) && NonEmpty(ss) && i < j < |ss|
    ensures ss[j].start < ss[i].start
    decreases j
  {
    assert ss[j] in ss;
    assert ss[j - 1 + 1].end <= ss[j - 1].start;
    if i < j - 1 {
      DescendingFar(ss, i, j - 1);
    }
  }

  /** Each range holds the name. */
  ghost predicate Stands(data: string, ss: seq<Splice>, name: string) {
    forall s :: s in ss ==>
                  Fits(s, |data|) && s.end == s.start + |name| && data[s.start..s.end] == name
  }

  lemma SitesStand(ident: char -> bool, data: string, starts: seq<nat>, name: string)
    requires forall i :: 0 <= i < |starts| ==> WholeName(ident, data, starts[i], name)
    ensures Stands(data, SplicesAt(starts, |name|), name)
    ensures EqualOrApart(SplicesAt(starts, |name|), |name|)
  {
    var us := SplicesAt(starts, |name|);
    forall i, j | 0 <= i < |us| && 0 <= j < |us| && us[j].start < us[i].start
      ensures us[j].end <= us[i].start
    {
      WholeNamesApart(ident, data, starts[j], starts[i], name);
    }
  }

  lemma SortedMembers(ss: seq<Splice>)
    ensures forall s :: s in SortSplices(ss) <==> s in ss
    ensures |SortSplices(ss)| == |ss|
  {
    hide SortSplices;
    SortKeeps(ss);
    assert |multiset(SortSplices(ss))| == |multiset(ss)|;
    forall s
      ensures s in SortSplices(ss) <==> s in ss
    {
      assert s in SortSplices(ss) <==> s in multiset(SortSplices(ss));
    }
  }

  /** Sorted, once each, whole identifiers are fit for splicing. */
  lemma SortedOnceHolds(data: string, us: seq<Splice>, name: string)
    requires name != "" && Stands(data, us, name) && EqualOrApart(us, |name|)
    ensures Stands(data, SortSplices(us), name)
    ensures Holds(data, Once(SortSplices(us)), name) && NonEmpty(Once(SortSplices(us)))
  {
    hide SortSplices, Once;
    SortFalls(us);
    SortedMembers(us);
    OnceDescends(SortSplices(us), |name|);
    OnceFits(data, SortSplices(us), name);
  }

  lemma OnceFits(data: string, ss: seq<Splice>, name: string)
    requires Descending(Once(ss)) && name != "" && Stands(data, ss, name)
    ensures Holds(data, Once(ss), name) && NonEmpty(Once(ss))
  {
    var r := Once(ss);
    hide Once;
    forall k | 0 <= k < |r|
      ensures r[k] in ss
    {
      assert r[k] in r;
    }
  }

  /** No range is dropped exactly when none is listed twice. */
  lemma OnceKeepsAllIff(us: seq<Splice>)
    requires Descending(Once(SortSplices(us))) && NonEmpty(Once(SortSplices(us)))
    ensures !Repeats(us) ==> Once(SortSplices(us)) == SortSplices(us)
    ensures Repeats(us) ==> |Once(SortSplices(us))| < |SortSplices(us)|
  {
    hide SortSplices, Once, Descending, NonEmpty, Repeats;
    var ss := SortSplices(us);
    SortedMembers(us);
    assert Members(us) == Members(ss) == Members(Once(ss));
    MembersCounted(us);
    MembersCounted(ss);
    MembersCounted(Once(ss));
    DescendingOnce(Once(ss));
    if !Repeats(us) {
      OnceOfOnce(ss);
    }
  }

  /** Splicing is right exactly when no range is listed twice, or the new name has
      the length of the old one. */
  lemma SortedSplicesRightIff(data: string, us: seq<Splice>, name: string, newName: string)
    requires name != "" && Stands(data, us, name) && EqualOrApart(us, |name|)
    ensures Holds(data, Once(SortSplices(us)), name)
    ensures SpliceAll(data, SortSplices(us), newName) == Ok(Substitute(data, Once(SortSplices(us)), newName)) <==>
            !Repeats(us) || |newName| == |name|
  {
    hide SortSplices, Once, Substitute, Repeats, Descending, SpliceAll, EqualOrApart;
    var ss := SortSplices(us);
    SortedOnceHolds(data, us, name);
    OnceKeepsAllIff(us);
    SpliceAllSubstitutes(data, Once(ss), newName);
    if |newName| == |name| {
      RepeatsHarmless(data, ss, newName);
    } else if Repeats(us) {
      LengthsTell(data, ss, Once(ss), newName, |name|);
    }
  }

  lemma LengthsTell(data: string, ss: seq<Splice>, ts: seq<Splice>, name: string, len: nat)
    requires |ts| < |ss| && |name| != len && SpliceAll(data, ts, name).Ok?
    requires forall s :: s in ss || s in ts ==> s.end == s.start + len
    ensures SpliceAll(data, ss, name) != SpliceAll(data, ts, name)
  {
    SplicedLength(data, ts, name, len);
    if SpliceAll(data, ss, name).Ok? {
      SplicedLength(data, ss, name, len);
      ProductsDiffer(|ss|, |ts|, |name| - len);
    }
  }

  lemma ProductsDiffer(a: nat, b: nat, d: int)
    requires b < a && d != 0
    ensures a * d != b * d
  {
    assert a * d - b * d == (a - b) * d;
  }

  lemma RepeatsAtEqual(starts: seq<nat>, len: nat)
    ensures Repeats(SplicesAt(starts, len)) <==> !Distinct(starts)
  {
    var us := SplicesAt(starts, len);
    assert forall i, j :: 0 <= i < j < |us| ==> (us[i] == us[j] <==> starts[i] == starts[j]);
  }

  /** Sorting the splices of disjoint identifiers makes them fit for splicing. */
  lemma SortDescends(starts: seq<nat>, len: nat)
    requires len > 0 && Disjoint(starts, len)
    ensures Descending(SortSplices(SplicesAt(starts, len))) && NonEmpty(SortSplices(SplicesAt(starts, len)))
  {
    var us := SplicesAt(starts, len);
    hide SortSplices, Once, Descending, Distinct, Repeats;
    SortedMembers(us);
    SortFalls(us);
    assert EqualOrApart(us, len);
    OnceDescends(SortSplices(us), len);
    DisjointDistinct(starts, len);
    RepeatsAtEqual(starts, len);
    OnceKeepsAllIff(us);
  }

  lemma DisjointDistinct(starts: seq<nat>, len: nat)
    requires len > 0 && Disjoint(starts, len)
    ensures Distinct(starts)
  {}

  /** The sorted splices of disjoint sites meet what splicing and the way back ask. */
  lemma SortedHold(data: string, starts: seq<nat>, name: string)
    requires name != "" && Disjoint(starts, |name|)
    requires forall i :: 0 <= i < |starts| ==>
               starts[i] + |name| <= |data| && data[starts[i]..starts[i] + |name|] == name
    ensures Holds(data, SortSplices(SplicesAt(starts, |name|)), name)
  {
    hide SortSplices;
    var unsorted := SplicesAt(starts, |name|);
    var ss := SortSplices(unsorted);
    SortDescends(starts, |name|);
    SortKeeps(unsorted);
    forall k | 0 <= k < |ss|
      ensures 0 <= ss[k].start && ss[k].end == ss[k].start + |name| && ss[k].end <= |data|
              && data[ss[k].start..ss[k].end] == name
    {
      assert ss[k] in multiset(ss);
      assert ss[k] in unsorted;
    }
  }

  /** Splicing whole identifiers gives the text with each replaced once exactly when
      no offset is listed twice or the new name has the old length. */
  lemma SplicesRightIff(ident: char -> bool, data: string, starts: seq<nat>, name: string, newName: string)
    requires name != ""
    requires forall i :: 0 <= i < |starts| ==> WholeName(ident, data, starts[i], name)
    ensures var ss := SortSplices(SplicesAt(starts, |name|));
            && Holds(data, Once(ss), name)
            && (SpliceAll(data, ss, newName) == Ok(Substitute(data, Once(ss), newName)) <==>
                Distinct(starts) || |newName| == |name|)
  {
    SitesStand(ident, data, starts, name);
    hide SortSplices, WholeName, Once, Substitute, Holds, Stands, EqualOrApart, SpliceAll, Repeats, Distinct;
    SortedSplicesRightIff(data, SplicesAt(starts, |name|), name, newName);
    RepeatsAtEqual(starts, |name|);
  }
}
