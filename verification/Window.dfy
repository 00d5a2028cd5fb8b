/** The smallest window of lines that contains every query term: the sliding
    window over merged term events (fuse/fuse.go). */
module Window {

  const MAX_INT: int := 0x7FFF_FFFF_FFFF_FFFF

  type Occurrences = map<string, set<int>>

  datatype Event = Event(line: int, term: nat)

  /** byTerm[t], where a missing term has no lines. */
  function Lines(byTerm: Occurrences, t: string): set<int> {
    if t in byTerm then byTerm[t] else {}
  }

  lemma Member<T>(s: set<T>) returns (x: T)
    requires s != {}
    ensures x in s
  {
    x :| x in s;
  }

  // ----------------------------------------------------------- what is computed

  /** The term occurs on some line from a to b. */
  ghost predicate OccursWithin(byTerm: Occurrences, term: string, a: int, b: int) {
    exists l :: l in Lines(byTerm, term) && a <= l <= b
  }

  /** Every term does. */
  ghost predicate Covers(byTerm: Occurrences, terms: seq<string>, a: int, b: int) {
    forall t :: 0 <= t < |terms| ==> OccursWithin(byTerm, terms[t], a, b)
  }

  /** w is the length of the shortest window that covers every term. */
  ghost predicate ShortestWindow(byTerm: Occurrences, terms: seq<string>, w: int) {
    && (exists a, b :: a <= b && w == b - a + 1 && Covers(byTerm, terms, a, b))
    && (forall a, b :: a <= b && Covers(byTerm, terms, a, b) ==> w <= b - a + 1)
  }

  ghost predicate SomeTermMissing(byTerm: Occurrences, terms: seq<string>) {
    exists t :: 0 <= t < |terms| && Lines(byTerm, terms[t]) == {}
  }

  // ---------------------------------------------------------------------- events

  predicate Before(e: Event, f: Event) {
    e.line < f.line || (e.line == f.line && e.term <= f.term)
  }

  ghost predicate Sorted(es: seq<Event>) {
    forall i, j :: 0 <= i < j < |es| ==> es[i].line <= es[j].line
  }

  ghost predicate InOrder(es: seq<Event>) {
    forall i, j :: 0 <= i < j < |es| ==> Before(es[i], es[j])
  }

  function InsertEvent(e: Event, es: seq<Event>): (r: seq<Event>)
    requires InOrder(es)
    ensures InOrder(r)
    ensures forall f :: f in r <==> f == e || f in es
  {
    if es == [] then [e]
    else if Before(e, es[0]) then [e] + es
    else
      var rest := InsertEvent(e, es[1..]);
      assert forall f :: f in rest ==> Before(es[0], f);
      [es[0]] + rest
  }

  /** sort.Slice by line, then term. */
  function SortEvents(es: seq<Event>): (r: seq<Event>)
    ensures InOrder(r)
    ensures forall f :: f in r <==> f in es
  {
    if es == [] then [] else InsertEvent(es[0], SortEvents(es[1..]))
  }

  /** The events are exactly the occurrences of the first n terms. */
  ghost predicate EventsOf(byTerm: Occurrences, terms: seq<string>, n: nat, es: seq<Event>) {
    n <= |terms|
    && forall e :: e in es <==> e.term < n && e.line in Lines(byTerm, terms[e.term])
  }

  /** All occurrences as events, or nothing when some term never occurs. */
  method MergeEvents(byTerm: Occurrences, terms: seq<string>) returns (ok: bool, events: seq<Event>)
    ensures ok <==> !SomeTermMissing(byTerm, terms)
    ensures ok ==> EventsOf(byTerm, terms, |terms|, events)
  {
    events := [];
    var idx := 0;
    while idx < |terms|
      invariant 0 <= idx <= |terms|
      invariant forall t :: 0 <= t < idx ==> Lines(byTerm, terms[t]) != {}
      invariant EventsOf(byTerm, terms, idx, events)
    {
      var lines := Lines(byTerm, terms[idx]);
      if |lines| == 0 {
        return false, [];
      }
      var rest := lines;
      ghost var before := events;
      while rest != {}
        invariant rest <= lines
        invariant forall e :: e in events <==> e in before || (e.term == idx && e.line in lines && e.line !in rest)
        decreases rest
      {
        ghost var some := Member(rest);
        var line :| line in rest;
        events := events + [Event(line, idx)];
        rest := rest - {line};
      }
      idx := idx + 1;
    }
    return true, events;
  }

  // -------------------------------------------------------------- event windows

  /** How often term t occurs among es[i..k]. */
  ghost function Count(es: seq<Event>, i: nat, k: nat, t: nat): nat
    requires i <= k <= |es|
  {
    if i == k then 0 else Count(es, i, k - 1, t) + if es[k - 1].term == t then 1 else 0
  }

  lemma {:induction false} CountDropFirst(es: seq<Event>, i: nat, k: nat, t: nat)
    requires i < k <= |es|
    ensures Count(es, i, k, t) == Count(es, i + 1, k, t) + if es[i].term == t then 1 else 0
  {
    if i + 1 < k { CountDropFirst(es, i, k - 1, t); }
  }

  lemma {:induction false} CountPositive(es: seq<Event>, i: nat, k: nat, t: nat)
    requires i <= k <= |es|
    ensures Count(es, i, k, t) > 0 <==> Mentions(es, i, k, t)
  {
    if i < k {
      CountPositive(es, i, k - 1, t);
      if es[k - 1].term == t {
        assert i <= k - 1 < k && es[k - 1].term == t;
      }
    }
  }

  ghost predicate Mentions(es: seq<Event>, i: nat, k: nat, t: int)
    requires i <= k <= |es|
  {
    exists m :: i <= m < k && es[m].term == t
  }

  /** The events es[i..k] mention every one of the n terms. */
  ghost predicate Full(es: seq<Event>, n: nat, i: nat, k: nat)
    requires i <= k <= |es|
  {
    forall t :: 0 <= t < n ==> Mentions(es, i, k, t)
  }

  lemma FullShrinks(es: seq<Event>, n: nat, i: nat, j: nat, k: nat)
    requires i <= j <= k <= |es| && Full(es, n, j, k)
    ensures Full(es, n, i, k)
  {
    forall t | 0 <= t < n ensures Mentions(es, i, k, t) {
      assert Mentions(es, j, k, t);
      var m :| j <= m < k && es[m].term == t;
    }
  }

  /** How many entries are positive. */
  ghost function Positive(have: seq<nat>): nat {
    if have == [] then 0 else Positive(have[..|have| - 1]) + if have[|have| - 1] > 0 then 1 else 0
  }

  lemma {:induction false} PositiveAtMost(have: seq<nat>)
    ensures Positive(have) <= |have|
    ensures Positive(have) == |have| <==> forall t :: 0 <= t < |have| ==> have[t] > 0
  {
    if have != [] { PositiveAtMost(have[..|have| - 1]); }
  }

  lemma {:induction false} PositiveUpdate(have: seq<nat>, t: nat, x: nat)
    requires t < |have|
    ensures Positive(have[t := x]) == Positive(have) - (if have[t] > 0 then 1 else 0) + (if x > 0 then 1 else 0)
  {
    var n := |have| - 1;
    if t == n {
      assert have[t := x][..n] == have[..n];
    } else {
      PositiveUpdate(have[..n], t, x);
      assert have[t := x][..n] == have[..n][t := x];
    }
  }

  // -------------------------------------------------------------- the two notions

  /** A full event window is a covering line window of the same span. */
  lemma FullCovers(byTerm: Occurrences, terms: seq<string>, es: seq<Event>, i: nat, k: nat)
    requires EventsOf(byTerm, terms, |terms|, es) && Sorted(es)
    requires i < k <= |es| && Full(es, |terms|, i, k)
    ensures es[i].line <= es[k - 1].line && Covers(byTerm, terms, es[i].line, es[k - 1].line)
  {
    forall t | 0 <= t < |terms| ensures OccursWithin(byTerm, terms[t], es[i].line, es[k - 1].line) {
      assert Mentions(es, i, k, t);
      var m :| i <= m < k && es[m].term == t;
      assert es[m] in es;
      assert es[m].line in Lines(byTerm, terms[t]);
    }
  }

  /** A covering line window contains a full event window. */
  lemma CoversFull(byTerm: Occurrences, terms: seq<string>, es: seq<Event>, a: int, b: int) returns (i: nat, k: nat)
    requires EventsOf(byTerm, terms, |terms|, es) && Sorted(es)
    requires |terms| > 0 && Covers(byTerm, terms, a, b)
    ensures i < k <= |es| && Full(es, |terms|, i, k)
    ensures a <= es[i].line && es[k - 1].line <= b
  {
    i := 0;
    while i < |es| && es[i].line < a
      invariant 0 <= i <= |es|
      invariant forall m :: 0 <= m < i ==> es[m].line < a
    {
      i := i + 1;
    }
    HasFirstEvent(byTerm, terms, es, a, b, i);
    k := |es|;
    while k > i + 1 && es[k - 1].line > b
      invariant i < k <= |es|
      invariant forall m :: k <= m < |es| ==> es[m].line > b
    {
      k := k - 1;
    }
    forall t | 0 <= t < |terms| ensures Mentions(es, i, k, t) {
      assert OccursWithin(byTerm, terms[t], a, b);
      var l :| l in Lines(byTerm, terms[t]) && a <= l <= b;
      assert Event(l, t) in es;
      var m :| 0 <= m < |es| && es[m] == Event(l, t);
    }
  }

  lemma HasFirstEvent(byTerm: Occurrences, terms: seq<string>, es: seq<Event>, a: int, b: int, i: nat)
    requires EventsOf(byTerm, terms, |terms|, es) && Sorted(es)
    requires |terms| > 0 && Covers(byTerm, terms, a, b)
    requires i <= |es| && forall m :: 0 <= m < i ==> es[m].line < a
    requires i < |es| ==> es[i].line >= a
    ensures i < |es| && a <= es[i].line <= b
  {
    assert OccursWithin(byTerm, terms[0], a, b);
    var l :| l in Lines(byTerm, terms[0]) && a <= l <= b;
    assert Event(l, 0) in es;
    var m :| 0 <= m < |es| && es[m] == Event(l, 0);
    assert m >= i;
  }

  // ------------------------------------------------------------- the sliding loop

  /** The best span is attained, and no full window that ends before end beats it. */
  ghost predicate BestSoFar(es: seq<Event>, n: nat, end: nat, best: int) {
    && end <= |es|
    && (best < MAX_INT ==> exists i, k :: 0 <= i < k <= |es| && Full(es, n, i, k)
                             && best == es[k - 1].line - es[i].line + 1)
    && best <= MAX_INT
    && (forall i, k :: 0 <= i < k <= end && Full(es, n, i, k) ==> best <= es[k - 1].line - es[i].line + 1)
  }

  /** No window that starts before start and ends at end or later beats best. */
  ghost predicate Passed(es: seq<Event>, start: nat, end: nat, best: int) {
    forall i, k :: 0 <= i < start && end <= k < |es| && i <= k ==> best <= es[k].line - es[i].line + 1
  }

  /** have counts the events of each term in es[start..stop]. */
  ghost predicate Counts(es: seq<Event>, start: nat, stop: nat, have: seq<nat>) {
    start <= stop <= |es| && forall t :: 0 <= t < |have| ==> have[t] == Count(es, start, stop, t)
  }

  lemma CountsFull(es: seq<Event>, start: nat, stop: nat, have: seq<nat>)
    requires Counts(es, start, stop, have)
    ensures Full(es, |have|, start, stop) <==> Positive(have) == |have|
  {
    PositiveAtMost(have);
    forall t | 0 <= t < |have|
      ensures have[t] > 0 <==> Mentions(es, start, stop, t)
    {
      CountPositive(es, start, stop, t);
    }
  }

  lemma CountsAdd(es: seq<Event>, start: nat, stop: nat, have: seq<nat>)
    requires stop < |es| && Counts(es, start, stop, have) && es[stop].term < |have|
    ensures var t := es[stop].term; Counts(es, start, stop + 1, have[t := have[t] + 1])
  {
  }

  lemma CountsDrop(es: seq<Event>, start: nat, stop: nat, have: seq<nat>)
    requires start < stop && Counts(es, start, stop, have) && es[start].term < |have|
    ensures have[es[start].term] > 0
    ensures var t := es[start].term; Counts(es, start + 1, stop, have[t := have[t] - 1])
  {
    forall t | 0 <= t < |have|
      ensures Count(es, start, stop, t) == Count(es, start + 1, stop, t) + if es[start].term == t then 1 else 0
    {
      CountDropFirst(es, start, stop, t);
    }
  }

  /** Taking a full window es[start..end + 1] into account. */
  lemma BestTaken(es: seq<Event>, n: nat, start: nat, end: nat, best: int, best': int)
    requires Sorted(es) && start <= end < |es|
    requires BestSoFar(es, n, end, best) && Passed(es, start, end, best)
    requires Full(es, n, start, end + 1)
    requires var span := es[end].line - es[start].line + 1;
             best' == if span < best then span else best
    ensures BestSoFar(es, n, end, best') && Passed(es, start + 1, end, best')
  {
    hide Full;
    assert es[end + 1 - 1] == es[end];
    forall i, k | 0 <= i < start + 1 && end <= k < |es| && i <= k
      ensures best' <= es[k].line - es[i].line + 1
    {
      if i == start {
        assert es[end].line <= es[k].line;
      }
    }
  }

  /** Once es[start..end + 1] is not full, every window ending at end is settled. */
  lemma BestAdvances(es: seq<Event>, n: nat, start: nat, end: nat, best: int)
    requires end < |es| && start <= end + 1
    requires BestSoFar(es, n, end, best) && Passed(es, start, end, best)
    requires !Full(es, n, start, end + 1)
    ensures BestSoFar(es, n, end + 1, best) && Passed(es, start, end + 1, best)
  {
    forall i, k | 0 <= i < k <= end + 1 && Full(es, n, i, k)
      ensures best <= es[k - 1].line - es[i].line + 1
    {
      if k == end + 1 && i >= start {
        FullShrinks(es, n, start, i, end + 1);
      }
    }
  }

  method Slide(events: seq<Event>, n: nat) returns (best: int)
    requires n > 0 && Sorted(events) && forall e :: e in events ==> e.term < n
    ensures BestSoFar(events, n, |events|, best)
  {
    hide Full, BestSoFar, Passed, Counts, Positive, Sorted;
    var have := seq(n, _ => 0);
    var covered := 0;
    best := MAX_INT;
    var start, end := 0, 0;
    SlideStarts(events, n, have);
    while end < |events|
      invariant 0 <= start <= end <= |events| && |have| == n
      invariant Counts(events, start, end, have) && covered == Positive(have) < n
      invariant BestSoFar(events, n, end, best) && Passed(events, start, end, best)
    {
      var t := events[end].term;
      assert events[end] in events;
      PositiveUpdate(have, t, have[t] + 1);
      CountsAdd(events, start, end, have);
      if have[t] == 0 {
        covered := covered + 1;
      }
      have := have[t := have[t] + 1];
      PositiveAtMost(have);
      while covered == n
        invariant 0 <= start <= end + 1 && |have| == n
        invariant Counts(events, start, end + 1, have) && covered == Positive(have) <= n
        invariant BestSoFar(events, n, end, best) && Passed(events, start, end, best)
        decreases end + 1 - start
      {
        CountsFull(events, start, end + 1, have);
        FullNonEmpty(events, n, start, end + 1);
        ghost var before := best;
        var span := events[end].line - events[start].line + 1;
        if span < best {
          best := span;
        }
        BestTaken(events, n, start, end, before, best);
        var s := events[start].term;
        assert events[start] in events;
        CountsDrop(events, start, end + 1, have);
        PositiveUpdate(have, s, have[s] - 1);
        have := have[s := have[s] - 1];
        if have[s] == 0 {
          covered := covered - 1;
        }
        start := start + 1;
        PositiveAtMost(have);
      }
      CountsFull(events, start, end + 1, have);
      BestAdvances(events, n, start, end, best);
      end := end + 1;
    }
  }

  lemma FullNonEmpty(es: seq<Event>, n: nat, i: nat, k: nat)
    requires n > 0 && i <= k <= |es| && Full(es, n, i, k)
    ensures i < k
  {
    assert Mentions(es, i, k, 0);
  }

  lemma SlideStarts(es: seq<Event>, n: nat, have: seq<nat>)
    requires n > 0 && |have| == n && forall t :: 0 <= t < n ==> have[t] == 0
    ensures Counts(es, 0, 0, have) && Positive(have) == 0
    ensures BestSoFar(es, n, 0, MAX_INT) && Passed(es, 0, 0, MAX_INT)
  {
    NonePositive(have);
  }

  lemma {:induction false} NonePositive(have: seq<nat>)
    requires forall t :: 0 <= t < |have| ==> have[t] == 0
    ensures Positive(have) == 0
  {
    if have != [] { NonePositive(have[..|have| - 1]); }
  }

  // ------------------------------------------------------------- the two methods

  /** The shortest covering window, or 0 when there is none that an int can hold. */
  ghost predicate WindowResult(byTerm: Occurrences, terms: seq<string>, w: int) {
    if SomeTermMissing(byTerm, terms) then w == 0
    else exists m :: ShortestWindow(byTerm, terms, m) && w == if m < MAX_INT then m else 0
  }

  method MinTermWindow(byTerm: Occurrences, terms: seq<string>) returns (w: int)
    ensures terms == [] ==> w == 0
    ensures terms != [] ==> WindowResult(byTerm, terms, w)
  {
    var ok, events := MergeEvents(byTerm, terms);
    if !ok {
      return 0;
    }
    if |terms| == 0 {
      return 0;
    }
    events := SortEvents(events);
    var best := Slide(events, |terms|);
    BestIsShortest(byTerm, terms, events, best);
    if best == MAX_INT {
      return 0;
    }
    return best;
  }

  lemma LeastAndGreatest(byTerm: Occurrences, terms: seq<string>) returns (a: int, b: int)
    requires !SomeTermMissing(byTerm, terms)
    ensures a <= b && Covers(byTerm, terms, a, b)
  {
    a, b := 0, 0;
    var n := 0;
    while n < |terms|
      invariant 0 <= n <= |terms| && a <= b
      invariant forall t :: 0 <= t < n ==> OccursWithin(byTerm, terms[t], a, b)
    {
      assert Lines(byTerm, terms[n]) != {};
      var l := Member(Lines(byTerm, terms[n]));
      var a', b' := if l < a then l else a, if l > b then l else b;
      forall t | 0 <= t < n + 1 ensures OccursWithin(byTerm, terms[t], a', b') {
        if t < n {
          assert OccursWithin(byTerm, terms[t], a, b);
          var l' :| l' in Lines(byTerm, terms[t]) && a <= l' <= b;
        }
      }
      a, b := a', b';
      n := n + 1;
    }
  }

  lemma BestIsShortest(byTerm: Occurrences, terms: seq<string>, es: seq<Event>, best: int)
    requires terms != [] && !SomeTermMissing(byTerm, terms)
    requires EventsOf(byTerm, terms, |terms|, es) && Sorted(es)
    requires BestSoFar(es, |terms|, |es|, best)
    ensures WindowResult(byTerm, terms, if best == MAX_INT then 0 else best)
  {
    var n := |terms|;
    forall a, b | a <= b && Covers(byTerm, terms, a, b) ensures best <= b - a + 1 {
      var i, k := CoversFull(byTerm, terms, es, a, b);
    }
    if best < MAX_INT {
      var i, k :| 0 <= i < k <= |es| && Full(es, n, i, k) && best == es[k - 1].line - es[i].line + 1;
      FullCovers(byTerm, terms, es, i, k);
      assert ShortestWindow(byTerm, terms, best);
    } else {
      var m := ShortestExists(byTerm, terms, best);
      assert ShortestWindow(byTerm, terms, m);
    }
  }

  /** Some covering window is shortest, and it is no shorter than any lower bound. */
  lemma ShortestExists(byTerm: Occurrences, terms: seq<string>, low: int) returns (m: int)
    requires !SomeTermMissing(byTerm, terms)
    requires forall a, b :: a <= b && Covers(byTerm, terms, a, b) ==> low <= b - a + 1
    ensures ShortestWindow(byTerm, terms, m) && m >= low
  {
    var a, b := LeastAndGreatest(byTerm, terms);
    while exists a', b' :: a' <= b' && Covers(byTerm, terms, a', b') && b' - a' < b - a
      invariant a <= b && Covers(byTerm, terms, a, b)
      decreases b - a
    {
      var a', b' :| a' <= b' && Covers(byTerm, terms, a', b') && b' - a' < b - a;
      a, b := a', b';
    }
    m := b - a + 1;
  }

  /** The smallest positive window over the alternatives, or 0 if all are 0. */
  ghost predicate BestOf(windows: seq<int>, best: int) {
    && (best == 0 ==> forall i :: 0 <= i < |windows| ==> windows[i] <= 0)
    && (best != 0 ==> best > 0 && best in windows)
    && (best != 0 ==> forall i :: 0 <= i < |windows| && windows[i] > 0 ==> best <= windows[i])
  }

  /** windows has the result for each alternative. */
  ghost predicate WindowsOf(byTerm: Occurrences, alternatives: seq<seq<string>>, windows: seq<int>) {
    && |windows| == |alternatives|
    && forall i :: 0 <= i < |alternatives| ==>
        if alternatives[i] == [] then windows[i] == 0 else WindowResult(byTerm, alternatives[i], windows[i])
  }

  method BestAlternativeWindow(byTerm: Occurrences, alternatives: seq<seq<string>>) returns (best: int)
    ensures exists windows :: WindowsOf(byTerm, alternatives, windows) && BestOf(windows, best)
  {
    best := 0;
    ghost var windows: seq<int> := [];
    var i := 0;
    while i < |alternatives|
      invariant 0 <= i <= |alternatives|
      invariant WindowsOf(byTerm, alternatives[..i], windows) && BestOf(windows, best)
    {
      var w := MinTermWindow(byTerm, alternatives[i]);
      if w > 0 && (best == 0 || w < best) {
        best := w;
      }
      windows := windows + [w];
      i := i + 1;
    }
    assert alternatives[..i] == alternatives;
  }

  /** Two terms with one line each: the lines from the one to the other, both counted,
      unless an int of 64 bits cannot hold more. */
  lemma WindowOfTwo(x: string, y: string, a: int, b: int, w: int)
    requires x != y && WindowResult(map[x := {a}, y := {b}], [x, y], w)
    ensures var d := (if a < b then b - a else a - b) + 1;
            w == if d < 9_223_372_036_854_775_807 then d else 0
  {
    var byTerm, terms := map[x := {a}, y := {b}], [x, y];
    assert Lines(byTerm, x) == {a} && Lines(byTerm, y) == {b};
    assert terms[0] == x && terms[1] == y;
    var lo, hi := if a < b then a else b, if a < b then b else a;
    forall i, j
      ensures Covers(byTerm, terms, i, j) <==> i <= lo && hi <= j
    {
      assert OccursWithin(byTerm, x, i, j) <==> i <= a <= j;
      assert OccursWithin(byTerm, y, i, j) <==> i <= b <= j;
    }
    assert Covers(byTerm, terms, lo, hi);
    assert a in Lines(byTerm, terms[0]) && b in Lines(byTerm, terms[1]);
  }

  /** With a term that never occurs there is no window. */
  lemma NoWindow(byTerm: Occurrences, terms: seq<string>, t: string, w: int)
    requires t in terms && Lines(byTerm, t) == {} && WindowResult(byTerm, terms, w)
    ensures w == 0
  {
    var i :| 0 <= i < |terms| && terms[i] == t;
    assert Lines(byTerm, terms[i]) == {};
  }

  /** Of three alternatives, one without a window, the smaller window counts. */
  lemma BestOfThree(a: int, b: int, best: int)
    requires a > 0 && b > 0
    ensures BestOf([0, a, b], best) <==> best == if a < b then a else b
    ensures BestOf([0], best) <==> best == 0
  {
    var ws := [0, a, b];
    assert ws[1] == a && ws[2] == b;
    assert [0][0] == 0;
  }
}
