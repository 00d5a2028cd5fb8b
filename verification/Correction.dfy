/** Typo correction of query terms against a lexicon (fuse/fuse.go). Strings
    are sequences of runes; lowercasing and the letter-or-digit test are the
    Unicode library's and enter as functions. */
module Correction {
  import opened Levenshtein
  import opened Sequences

  const MIN_CORRECTION_LEN: nat := 3

  datatype Correction = Correction(original: string, corrected: string)

  function AbsLenDiff(a: string, b: string): nat {
    if |a| > |b| then |a| - |b| else |b| - |a|
  }

  predicate Eligible(dict: set<string>, word: bool, lower: string, maxDist: int) {
    maxDist > 0 && word && |lower| >= MIN_CORRECTION_LEN && lower !in dict
  }

  /** Entry i is within maxDist of the word and strictly nearer than every other. */
  ghost predicate UniqueNearest(entries: seq<string>, lower: string, maxDist: int, i: int) {
    && 0 <= i < |entries|
    && Lev(lower, entries[i]) <= maxDist
    && forall j :: 0 <= j < |entries| && j != i ==> Lev(lower, entries[j]) > Lev(lower, entries[i])
  }

  /** What the scan knows after the first n entries: how many attain the least
      distance seen, if that is at most maxDist, and one that does. */
  ghost predicate Scanned(entries: seq<string>, n: nat, lower: string, maxDist: int,
                          best: string, bestDist: int, ties: nat) {
    && n <= |entries|
    && bestDist <= maxDist + 1
    && (forall j :: 0 <= j < n ==> Lev(lower, entries[j]) >= bestDist)
    && (bestDist == maxDist + 1 ==> ties == 0)
    && (ties == 0 ==> bestDist == maxDist + 1)
    && (ties > 0 ==> exists i :: 0 <= i < n && entries[i] == best && Lev(lower, entries[i]) == bestDist)
    && (ties == 1 ==> forall i, j :: 0 <= i < j < n ==>
                        Lev(lower, entries[i]) > bestDist || Lev(lower, entries[j]) > bestDist)
    && (ties > 1 ==> exists i, j :: 0 <= i < j < n && Lev(lower, entries[i]) == bestDist
                                    && Lev(lower, entries[j]) == bestDist)
  }

  lemma ScannedFar(entries: seq<string>, n: nat, lower: string, maxDist: int, best: string, bestDist: int, ties: nat)
    requires Scanned(entries, n, lower, maxDist, best, bestDist, ties)
    requires n < |entries| && Lev(lower, entries[n]) > bestDist
    ensures Scanned(entries, n + 1, lower, maxDist, best, bestDist, ties)
  {
    hide Lev;
  }

  lemma ScannedTooFar(entries: seq<string>, n: nat, lower: string, maxDist: int, best: string, bestDist: int, ties: nat)
    requires Scanned(entries, n, lower, maxDist, best, bestDist, ties)
    requires n < |entries| && Lev(lower, entries[n]) > maxDist
    ensures Scanned(entries, n + 1, lower, maxDist, best, bestDist, ties)
  {
    hide Lev;
  }

  lemma ScannedAll(entries: seq<string>, lower: string, maxDist: int, best: string, bestDist: int, ties: nat)
    requires Scanned(entries, |entries|, lower, maxDist, best, bestDist, ties)
    ensures (bestDist <= maxDist && ties == 1) <==> exists i :: UniqueNearest(entries, lower, maxDist, i)
    ensures ties == 1 ==>
              exists i :: 0 <= i < |entries| && UniqueNearest(entries, lower, maxDist, i) && entries[i] == best
  {
    hide Lev;
    if ties == 1 {
      var i :| 0 <= i < |entries| && entries[i] == best && Lev(lower, entries[i]) == bestDist;
      assert UniqueNearest(entries, lower, maxDist, i);
    }
    if ties > 1 {
      var i, j :| 0 <= i < j < |entries| && Lev(lower, entries[i]) == bestDist && Lev(lower, entries[j]) == bestDist;
      forall k ensures !UniqueNearest(entries, lower, maxDist, k) {
        assert k != i || k != j;
      }
    }
  }

  lemma ScannedNone(entries: seq<string>, lower: string, maxDist: int)
    ensures Scanned(entries, 0, lower, maxDist, "", maxDist + 1, 0)
  {}

  lemma ScannedBetter(entries: seq<string>, n: nat, lower: string, maxDist: int, best: string, bestDist: int, ties: nat)
    requires Scanned(entries, n, lower, maxDist, best, bestDist, ties)
    requires n < |entries| && Lev(lower, entries[n]) < bestDist
    ensures Scanned(entries, n + 1, lower, maxDist, entries[n], Lev(lower, entries[n]), 1)
  {
    hide Lev;
  }

  lemma ScannedTie(entries: seq<string>, n: nat, lower: string, maxDist: int, best: string, bestDist: int, ties: nat)
    requires Scanned(entries, n, lower, maxDist, best, bestDist, ties)
    requires n < |entries| && Lev(lower, entries[n]) == bestDist <= maxDist
    ensures Scanned(entries, n + 1, lower, maxDist, best, bestDist, ties + 1)
  {
    hide Lev;
  }

  /** A term is replaced exactly when it is eligible and one entry alone is
      nearest to it, within maxDist. The length test only saves work. */
  method CorrectTerm(entries: seq<string>, dict: set<string>, term: string, maxDist: int,
                     toLower: string -> string, wordy: string -> bool)
    returns (result: string, fixed: bool)
    ensures fixed <==> Eligible(dict, wordy(term), toLower(term), maxDist)
                       && exists i :: UniqueNearest(entries, toLower(term), maxDist, i)
    ensures fixed ==> exists i :: 0 <= i < |entries| && entries[i] == result
                                  && UniqueNearest(entries, toLower(term), maxDist, i)
    ensures !fixed ==> result == term
  {
    hide Scanned, Lev, UniqueNearest;
    if maxDist <= 0 || !wordy(term) {
      return term, false;
    }
    var lower := toLower(term);
    if |lower| < MIN_CORRECTION_LEN || lower in dict {
      return term, false;
    }
    ScannedNone(entries, lower, maxDist);
    var best, bestDist, ties := "", maxDist + 1, 0;
    var n := 0;
    while n < |entries|
      invariant 0 <= n <= |entries|
      invariant Scanned(entries, n, lower, maxDist, best, bestDist, ties)
    {
      var e := entries[n];
      LevAtLeastLengthDiff(lower, e);
      if AbsLenDiff(lower, e) > maxDist {
        ScannedTooFar(entries, n, lower, maxDist, best, bestDist, ties);
        n := n + 1;
        continue;
      }
      var d := EditDistance(lower, e);
      if d > maxDist {
        ScannedTooFar(entries, n, lower, maxDist, best, bestDist, ties);
        n := n + 1;
        continue;
      }
      if d < bestDist {
        ScannedBetter(entries, n, lower, maxDist, best, bestDist, ties);
        best, bestDist, ties := e, d, 1;
        n := n + 1;
        continue;
      }
      if d == bestDist {
        ScannedTie(entries, n, lower, maxDist, best, bestDist, ties);
        ties := ties + 1;
      } else {
        ScannedFar(entries, n, lower, maxDist, best, bestDist, ties);
      }
      n := n + 1;
    }
    ScannedAll(entries, lower, maxDist, best, bestDist, ties);
    if bestDist <= maxDist && ties == 1 {
      return best, true;
    }
    return term, false;
  }

  // -------------------------------------------------------- the whole term list

  /** x is in the lexicon, within maxDist, and strictly nearer than every other. */
  ghost predicate OnlyNearest(dict: set<string>, lower: string, maxDist: int, x: string) {
    && x in dict
    && Lev(lower, x) <= maxDist
    && forall y :: y in dict && y != x ==> Lev(lower, y) > Lev(lower, x)
  }

  lemma NearestEntry(entries: seq<string>, dict: set<string>, lower: string, maxDist: int, i: nat)
    requires Distinct(entries) && forall x :: x in dict <==> x in entries
    requires i < |entries|
    ensures UniqueNearest(entries, lower, maxDist, i) <==> OnlyNearest(dict, lower, maxDist, entries[i])
  {
    hide Lev;
    if OnlyNearest(dict, lower, maxDist, entries[i]) {
      forall j | 0 <= j < |entries| && j != i ensures Lev(lower, entries[j]) > Lev(lower, entries[i]) {
        assert entries[j] in dict;
      }
    }
  }

  /** The non-empty lexicon entries in lower case. */
  function Lexicon(lexicon: seq<string>, toLower: string -> string): set<string> {
    set w | w in lexicon && toLower(w) != "" :: toLower(w)
  }

  /** The replacement of a term, if it has one. */
  ghost predicate Replaces(dict: set<string>, maxDist: int, toLower: string -> string, wordy: string -> bool,
                           term: string, x: string) {
    Eligible(dict, wordy(term), toLower(term), maxDist) && OnlyNearest(dict, toLower(term), maxDist, x)
  }

  ghost predicate Replaceable(dict: set<string>, maxDist: int, toLower: string -> string, wordy: string -> bool,
                              term: string) {
    exists x :: Replaces(dict, maxDist, toLower, wordy, term, x)
  }

  /** A term is replaced if it can be, and stays as it is otherwise. */
  ghost predicate Outcome(dict: set<string>, maxDist: int, toLower: string -> string, wordy: string -> bool,
                          term: string, result: string) {
    if Replaceable(dict, maxDist, toLower, wordy, term) then Replaces(dict, maxDist, toLower, wordy, term, result)
    else result == term
  }

  lemma ReplacementUnique(dict: set<string>, maxDist: int, toLower: string -> string, wordy: string -> bool,
                          term: string, x: string, y: string)
    requires Replaces(dict, maxDist, toLower, wordy, term, x)
    requires Replaces(dict, maxDist, toLower, wordy, term, y)
    ensures x == y
  {
    hide Lev;
  }

  /** The corrections of a term list in order. */
  ghost function Applied(dict: set<string>, maxDist: int, toLower: string -> string, wordy: string -> bool,
                         terms: seq<string>, out: seq<string>): seq<Correction>
    requires |terms| == |out|
  {
    if terms == [] then []
    else
      var n := |terms| - 1;
      var before := Applied(dict, maxDist, toLower, wordy, terms[..n], out[..n]);
      if Replaceable(dict, maxDist, toLower, wordy, terms[n]) then before + [Correction(terms[n], out[n])] else before
  }

  method Normalize(lexicon: seq<string>, toLower: string -> string)
    returns (dict: set<string>, entries: seq<string>)
    ensures dict == Lexicon(lexicon, toLower)
    ensures Distinct(entries) && forall x :: x in dict <==> x in entries
  {
    dict, entries := {}, [];
    var i := 0;
    while i < |lexicon|
      invariant 0 <= i <= |lexicon|
      invariant forall x :: x in dict <==> x != "" && exists k :: 0 <= k < i && toLower(lexicon[k]) == x
      invariant Distinct(entries) && forall x :: x in dict <==> x in entries
    {
      var e := toLower(lexicon[i]);
      if e != "" && e !in dict {
        dict := dict + {e};
        entries := entries + [e];
      }
      i := i + 1;
    }
    forall x
      ensures x in dict <==> x in Lexicon(lexicon, toLower)
    {
      if x in Lexicon(lexicon, toLower) {
        var w :| w in lexicon && toLower(w) != "" && toLower(w) == x;
        var k :| 0 <= k < |lexicon| && lexicon[k] == w;
        assert toLower(lexicon[k]) == x;
      }
    }
  }

  method CorrectTerms(lexicon: seq<string>, terms: seq<string>, maxDist: int,
                      toLower: string -> string, wordy: string -> bool)
    returns (out: seq<string>, applied: seq<Correction>)
    ensures |out| == |terms|
    ensures forall i :: 0 <= i < |terms| ==>
              Outcome(Lexicon(lexicon, toLower), maxDist, toLower, wordy, terms[i], out[i])
    ensures applied == Applied(Lexicon(lexicon, toLower), maxDist, toLower, wordy, terms, out)
  {
    hide Outcome, Replaceable, Eligible, UniqueNearest, Applied, Lexicon;
    var dist := if maxDist < 0 then 0 else maxDist;
    var words, entries := Normalize(lexicon, toLower);
    out, applied := [], [];
    NoneApplied(words, maxDist, toLower, wordy, terms);
    var i := 0;
    while i < |terms|
      invariant 0 <= i <= |terms| && |out| == i
      invariant forall k :: 0 <= k < i ==> Outcome(words, maxDist, toLower, wordy, terms[k], out[k])
      invariant applied == Applied(words, maxDist, toLower, wordy, terms[..i], out)
    {
      var corrected, ok := CorrectTerm(entries, words, terms[i], dist, toLower, wordy);
      CorrectedMeans(entries, words, maxDist, dist, toLower, wordy, terms[i], corrected, ok);
      if ok {
        applied := applied + [Correction(terms[i], corrected)];
      }
      out := out + [corrected];
      AppliedStep(words, maxDist, toLower, wordy, terms, i, out);
      assert out[..i] == out[..|out| - 1];
      i := i + 1;
    }
    assert terms[..i] == terms;
  }

  lemma NoneApplied(dict: set<string>, maxDist: int, toLower: string -> string, wordy: string -> bool,
                    terms: seq<string>)
    ensures Applied(dict, maxDist, toLower, wordy, terms[..0], []) == []
  {}

  lemma AppliedStep(dict: set<string>, maxDist: int, toLower: string -> string, wordy: string -> bool,
                    terms: seq<string>, i: nat, out: seq<string>)
    requires i < |terms| && |out| == i + 1
    ensures Applied(dict, maxDist, toLower, wordy, terms[..i + 1], out)
         == Applied(dict, maxDist, toLower, wordy, terms[..i], out[..i])
          + if Replaceable(dict, maxDist, toLower, wordy, terms[i]) then [Correction(terms[i], out[i])] else []
  {
    assert terms[..i + 1][..i] == terms[..i];
  }

  lemma CorrectedMeans(entries: seq<string>, dict: set<string>, maxDist: int, dist: int,
                       toLower: string -> string, wordy: string -> bool, term: string, corrected: string, ok: bool)
    requires Distinct(entries) && forall x :: x in dict <==> x in entries
    requires dist == if maxDist < 0 then 0 else maxDist
    requires ok <==> Eligible(dict, wordy(term), toLower(term), dist)
                     && exists i :: UniqueNearest(entries, toLower(term), dist, i)
    requires ok ==> exists i :: 0 <= i < |entries| && entries[i] == corrected
                                && UniqueNearest(entries, toLower(term), dist, i)
    requires !ok ==> corrected == term
    ensures ok <==> Replaceable(dict, maxDist, toLower, wordy, term)
    ensures Outcome(dict, maxDist, toLower, wordy, term, corrected)
  {
    hide Lev, UniqueNearest, OnlyNearest;
    if ok {
      var i :| 0 <= i < |entries| && UniqueNearest(entries, toLower(term), dist, i) && entries[i] == corrected;
      NearestEntry(entries, dict, toLower(term), dist, i);
      assert Replaces(dict, maxDist, toLower, wordy, term, corrected);
    }
    if exists x :: Replaces(dict, maxDist, toLower, wordy, term, x) {
      var x :| Replaces(dict, maxDist, toLower, wordy, term, x);
      var i := NearestIndex(entries, dict, toLower(term), dist, x);
      assert UniqueNearest(entries, toLower(term), dist, i);
    }
  }

  lemma NearestIndex(entries: seq<string>, dict: set<string>, lower: string, maxDist: int, x: string) returns (i: nat)
    requires Distinct(entries) && forall x :: x in dict <==> x in entries
    requires OnlyNearest(dict, lower, maxDist, x)
    ensures UniqueNearest(entries, lower, maxDist, i)
  {
    i :| 0 <= i < |entries| && entries[i] == x;
    NearestEntry(entries, dict, lower, maxDist, i);
  }

  // ------------------------------------------------------------ the documented rule

  /** x alone lies within maxDist. */
  ghost predicate OneWithin(dict: set<string>, lower: string, maxDist: int, x: string) {
    && x in dict
    && Lev(lower, x) <= maxDist
    && forall y :: y in dict && y != x ==> Lev(lower, y) > maxDist
  }

  /** One entry is strictly nearest, and another lies within maxDist as well. */
  ghost predicate NearestAmongSeveral(dict: set<string>, lower: string, maxDist: int) {
    exists x, y :: OnlyNearest(dict, lower, maxDist, x) && y in dict && y != x && Lev(lower, y) <= maxDist
  }

  /** For an eligible term the code replaces as documented, by the one entry within
      maxDist and not at all without one, if and only if it is not the case that one
      entry is strictly nearest while another lies within maxDist too. */
  lemma FollowsRuleIff(dict: set<string>, maxDist: int, toLower: string -> string, wordy: string -> bool, term: string)
    requires Eligible(dict, wordy(term), toLower(term), maxDist)
    ensures (forall x :: Replaces(dict, maxDist, toLower, wordy, term, x)
                    <==> OneWithin(dict, toLower(term), maxDist, x))
       <==> !NearestAmongSeveral(dict, toLower(term), maxDist)
  {
    hide Lev;
    var lower := toLower(term);
    forall x | OneWithin(dict, lower, maxDist, x)
      ensures OnlyNearest(dict, lower, maxDist, x)
    {
    }
    if NearestAmongSeveral(dict, lower, maxDist) {
      var x, y :| OnlyNearest(dict, lower, maxDist, x) && y in dict && y != x && Lev(lower, y) <= maxDist;
      assert Replaces(dict, maxDist, toLower, wordy, term, x) && !OneWithin(dict, lower, maxDist, x);
    }
  }

  lemma ShortDistances()
    ensures Lev("abc", "ab") == 1 && Lev("abc", "a") == 2
  {
    var c, b := "abc", "ab";
    assert c == b + ['c'] && b == "a" + ['b'];
    DropLast(c);
    DropLast(b);
    assert c[..2] == b && b[..1] == "a";
    NoShorterChain([c, b], c, b);
    NoShorterChain([c, b, "a"], c, "a");
    LevAtLeastLengthDiff(c, b);
    LevAtLeastLengthDiff(c, "a");
  }

  /** With two entries within the distance and one of them nearest, the term is
      replaced, which the documented rule does not allow. */
  lemma ReplacedAmongTwo()
    ensures var id, any := (s: string) => s, (s: string) => true;
            && Eligible({"ab", "a"}, any("abc"), id("abc"), 2)
            && Replaces({"ab", "a"}, 2, id, any, "abc", "ab")
            && forall x :: !OneWithin({"ab", "a"}, "abc", 2, x)
  {
    ShortDistances();
    hide Lev;
    assert "ab" != "a" by {
      assert |"ab"| != |"a"|;
    }
    assert "abc" !in {"ab", "a"} by {
      assert |"abc"| != |"ab"| && |"abc"| != |"a"|;
    }
  }

  /** Only words of three characters or more that are not in the lexicon are eligible. */
  lemma EligibleMeans(dict: set<string>, word: bool, lower: string, maxDist: int)
    ensures Eligible(dict, word, lower, maxDist) <==> maxDist > 0 && word && |lower| > 2 && lower !in dict
  {}

  lemma OneLetterMore()
    ensures Lev("abc", "abcd") == 1
  {
    AppendedOneMore("abc", "abc", 'd');
    LevSelf("abc");
    assert "abc" + ['d'] == "abcd";
    LevAtLeastLengthDiff("abc", "abcd");
  }

  /** A term of two characters is never replaced, one of three is when a letter is
      missing. */
  lemma ShortTermsStay()
    ensures var id, any := (s: string) => s, (s: string) => true;
            && (forall x :: !Replaces({"abc"}, 2, id, any, "ab", x))
            && Replaces({"abcd"}, 1, id, any, "abc", "abcd")
  {
    hide Lev;
    assert |"abc"| == 3 && |"abcd"| == 4;
    OneLetterMore();
  }

  /** Empty entries do not count, though an empty text lies within three edits of a term
      of three characters. */
  lemma EmptyEntriesDropped(lexicon: seq<string>, toLower: string -> string, x: string)
    ensures x in Lexicon(lexicon, toLower) <==> x != "" && exists w :: w in lexicon && toLower(w) == x
    ensures Lexicon([""], s => s) == {} && Lev("abc", "") == 3
  {
    assert |"abc"| == 3;
  }
}
