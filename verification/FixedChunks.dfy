/** Splitting a text at line boundaries into pieces of bounded size
    (chunk/chunk.go, lines 149 to 186). */
module FixedChunks {
  import opened Sections
  import opened Lines
  import opened Folding

  /** strconv.Itoa of a natural number. */
  function Itoa(n: nat): string {
    if n < 10 then ['0' + n as char] else Itoa(n / 10) + ['0' + (n % 10) as char]
  }

  function PartTitle(k: nat): string {
    "part-" + Itoa(k)
  }

  /** strings.LastIndexByte(s, '\n'). */
  function LastNewline(s: string): (r: int)
    ensures -1 <= r < |s|
    ensures r >= 0 ==> s[r] == '\n'
    ensures forall k :: r < k < |s| ==> s[k] != '\n'
  {
    if s == "" then -1 else if s[|s| - 1] == '\n' then |s| - 1 else LastNewline(s[..|s| - 1])
  }

  /** A place to cut s: an end, just after a newline, or after limit bytes without one. */
  ghost predicate CutAllowed(s: string, p: nat, limit: nat) {
    || p == 0 || p == |s|
    || (p < |s| && s[p - 1] == '\n')
    || (limit <= p < |s| && forall q :: p - limit <= q < p ==> s[q] != '\n')
  }

  /** The sections cut s from its start at allowed places, are numbered, of bounded
      size, and no two neighbours fit together. */
  ghost predicate FixedCut(s: string, sections: seq<Section>, limit: nat) {
    && Concat(sections) <= s
    && Sized(sections, limit)
    && (forall k :: 0 <= k < |sections| ==> sections[k].title == PartTitle(k))
    && (forall k :: 0 <= k <= |sections| ==> CutAllowed(s, |Concat(sections[..k])|, limit))
    && (forall k :: 0 < k < |sections| ==> |sections[k - 1].content| + |sections[k].content| > limit)
  }

  function WithPart(sections: seq<Section>, content: string): seq<Section> {
    sections + [Section(PartTitle(|sections|), content)]
  }

  /** Room used after the last section: what comes next does not fit into it. */
  predicate Full(sections: seq<Section>, next: nat, limit: nat) {
    sections == [] || |sections[|sections| - 1].content| + next > limit
  }

  lemma CutsAdded(s: string, sections: seq<Section>, x: Section, limit: nat)
    requires forall k :: 0 <= k <= |sections| ==> CutAllowed(s, |Concat(sections[..k])|, limit)
    requires CutAllowed(s, |Concat(sections + [x])|, limit)
    ensures forall k :: 0 <= k <= |sections| + 1 ==> CutAllowed(s, |Concat((sections + [x])[..k])|, limit)
  {
    hide Concat, CutAllowed;
    forall k | 0 <= k <= |sections| + 1
      ensures CutAllowed(s, |Concat((sections + [x])[..k])|, limit)
    {
      if k <= |sections| {
        assert (sections + [x])[..k] == sections[..k];
      } else {
        assert (sections + [x])[..k] == sections + [x];
      }
    }
  }

  lemma PartAdded(s: string, sections: seq<Section>, content: string, limit: nat)
    requires FixedCut(s, sections, limit) && 0 < |content| <= limit && Full(sections, |content|, limit)
    requires Concat(sections) + content <= s && CutAllowed(s, |Concat(sections)| + |content|, limit)
    ensures FixedCut(s, WithPart(sections, content), limit)
    ensures Concat(WithPart(sections, content)) == Concat(sections) + content
  {
    hide Concat, CutAllowed, Itoa;
    var x := Section(PartTitle(|sections|), content);
    ConcatSnoc(sections, x);
    CutsAdded(s, sections, x, limit);
  }

  lemma InsideLine(s: string, before: string, line: string, rest: string, limit: nat)
    requires s == before + line + rest && IsLine(line) && 0 < limit < |line|
    ensures CutAllowed(s, |before| + limit, limit)
    ensures before + line[..limit] <= s
  {
    forall q | |before| <= q < |before| + limit
      ensures s[q] != '\n'
    {
      assert s[q] == line[q - |before|];
    }
  }

  /** The sections make up s; they and cur are the text before line, which is what
      is left of the line being read; after is the text that follows. */
  ghost predicate Reading(s: string, sections: seq<Section>, cur: string, line: string, after: string, limit: nat) {
    && s == Concat(sections) + cur + line + after
    && FixedCut(s, sections, limit)
    && IsLine(line) && (after != "" && line != "" ==> IsEnded(line))
    && |cur| <= limit && (cur == "" || line + after == "" || cur[|cur| - 1] == '\n')
  }

  /** In a line too long the part to cut off has no newline. */
  lemma NoNewlineInCut(s: string, sections: seq<Section>, line: string, after: string, limit: nat)
    requires Reading(s, sections, "", line, after, limit) && limit < |line|
    ensures LastNewline(line[..limit]) == -1
  {
    var cut := line[..limit];
    assert forall k :: 0 <= k < |cut| ==> cut[k] == line[k] && cut[k] != '\n';
  }

  lemma FlushAllowed(s: string, sections: seq<Section>, cur: string, line: string, after: string, limit: nat)
    requires cur != "" && Reading(s, sections, cur, line, after, limit)
    ensures CutAllowed(s, |Concat(sections)| + |cur|, limit)
  {
    hide FixedCut, Concat, IsLine, IsEnded;
    var before := Concat(sections) + cur;
    assert s == before + (line + after);
    assert before[|before| - 1] == cur[|cur| - 1];
  }

  lemma FlushStep(s: string, sections: seq<Section>, cur: string, line: string, after: string, limit: nat)
    requires cur != "" && Reading(s, sections, cur, line, after, limit) && Full(sections, |cur|, limit)
    ensures Reading(s, WithPart(sections, cur), "", line, after, limit)
  {
    hide FixedCut, Concat, CutAllowed, WithPart, Full, IsLine, IsEnded;
    var before := Concat(sections) + cur;
    assert s == before + (line + after);
    assert before + "" == before;
    FlushAllowed(s, sections, cur, line, after, limit);
    PartAdded(s, sections, cur, limit);
  }

  lemma RestOfLine(line: string, n: nat)
    requires IsLine(line) && n < |line|
    ensures IsLine(line[n..]) && (IsEnded(line) ==> IsEnded(line[n..]))
  {
    var rest := line[n..];
    assert forall k :: 0 <= k < |rest| ==> rest[k] == line[n + k];
  }

  lemma CutStep(s: string, sections: seq<Section>, line: string, after: string, limit: nat)
    requires Reading(s, sections, "", line, after, limit) && 0 < limit < |line| && Full(sections, limit, limit)
    ensures Reading(s, WithPart(sections, line[..limit]), "", line[limit..], after, limit)
  {
    hide FixedCut, Concat, IsLine, IsEnded, CutAllowed, WithPart;
    var before := Concat(sections);
    assert before + "" == before;
    InsideLine(s, before, line, after, limit);
    PartAdded(s, sections, line[..limit], limit);
    RestOfLine(line, limit);
  }

  /** The next line is taken up. */
  lemma NextLine(s: string, sections: seq<Section>, cur: string, lines: seq<string>, j: nat, limit: nat)
    requires j < |lines| && Reading(s, sections, cur, "", Text(lines[j..]), limit)
    requires if j + 1 < |lines| then IsEnded(lines[j]) else IsLine(lines[j])
    ensures Reading(s, sections, cur, lines[j], Text(lines[j + 1..]), limit)
  {
    var after := Text(lines[j + 1..]);
    assert lines[j..] == [lines[j]] + lines[j + 1..];
    TextCons(lines[j], lines[j + 1..]);
    hide FixedCut, Concat;
    assert Concat(sections) + cur + "" + (lines[j] + after) == Concat(sections) + cur + lines[j] + after;
    assert after != "" ==> j + 1 < |lines|;
  }

  /** The line is added to cur. */
  lemma LineTaken(s: string, sections: seq<Section>, cur: string, line: string, after: string, limit: nat)
    requires Reading(s, sections, cur, line, after, limit) && |cur| + |line| <= limit
    ensures Reading(s, sections, cur + line, "", after, limit)
  {
    hide FixedCut, Concat;
    assert Concat(sections) + (cur + line) + "" + after == Concat(sections) + cur + line + after;
  }

  lemma NothingLeft(lines: seq<string>)
    ensures Text(lines[|lines|..]) == ""
  {
    assert lines[|lines|..] == [];
  }

  lemma FirstReading(s: string, limit: nat)
    ensures Reading(s, [], "", "", s, limit)
  {}

  lemma AllRead(s: string, sections: seq<Section>, limit: nat)
    requires Reading(s, sections, "", "", "", limit)
    ensures Concat(sections) == s && FixedCut(s, sections, limit)
  {
    hide FixedCut, Concat;
    assert Concat(sections) + "" + "" + "" == Concat(sections);
  }

  /** The next piece does not fit into the last section: cur does not, or a long
      line is being cut. */
  predicate Pending(sections: seq<Section>, cur: string, line: string, limit: nat) {
    || Full(sections, |cur|, limit)
    || (cur == "" && line != "" && sections != [] && |sections[|sections| - 1].content| == limit)
  }

  method SplitFixed(s: string, limit: nat) returns (sections: seq<Section>)
    requires limit > 0
    ensures Concat(sections) == s
    ensures FixedCut(s, sections, limit)
  {
    var lines := SplitAfter(s);
    SplitAfterText(s);
    SplitAfterLines(s);
    sections := [];
    var cur := "";
    FirstReading(s, limit);
    hide SplitAfter, Text, LastNewline, Reading, IsLine, IsEnded, FixedCut, Concat, CutAllowed, Itoa;
    assert lines[0..] == lines;
    for j := 0 to |lines|
      invariant Reading(s, sections, cur, "", Text(lines[j..]), limit)
      invariant Full(sections, |cur|, limit) && |cur| <= limit
    {
      var line := lines[j];
      ghost var after := Text(lines[j + 1..]);
      NextLine(s, sections, cur, lines, j, limit);
      while |line| > limit
        invariant Reading(s, sections, cur, line, after, limit)
        invariant Pending(sections, cur, line, limit) && |cur| <= limit
        decreases |line|
      {
        if cur != "" {
          FlushStep(s, sections, cur, line, after, limit);
          sections := WithPart(sections, cur);
          cur := "";
        }
        var cut := line[..limit];
        var i := LastNewline(cut);
        if i > 0 {
          cut := cut[..i + 1];
        }
        NoNewlineInCut(s, sections, line, after, limit);
        CutStep(s, sections, line, after, limit);
        sections := WithPart(sections, cut);
        line := line[|cut|..];
      }
      if cur != "" && |cur| + |line| > limit {
        FlushStep(s, sections, cur, line, after, limit);
        sections := WithPart(sections, cur);
        cur := "";
      }
      LineTaken(s, sections, cur, line, after, limit);
      cur := cur + line;
    }
    NothingLeft(lines);
    if cur != "" {
      FlushStep(s, sections, cur, "", "", limit);
      sections := WithPart(sections, cur);
    }
    AllRead(s, sections, limit);
  }

  /** The value of a text of decimal digits. */
  function Value(t: string): int {
    if t == "" then 0 else Value(t[..|t| - 1]) * 10 + (t[|t| - 1] as int - '0' as int)
  }

  /** A number is written in decimal digits, the first not 0 unless it is the only one. */
  lemma {:induction false} ItoaWrites(n: nat)
    ensures Value(Itoa(n)) == n && Itoa(n) != ""
    ensures forall i :: 0 <= i < |Itoa(n)| ==> '0' <= Itoa(n)[i] <= '9'
    ensures Itoa(n)[0] == '0' ==> n == 0
  {
    if n >= 10 {
      ItoaWrites(n / 10);
      var t := Itoa(n / 10);
      assert (t + ['0' + (n % 10) as char])[..|t|] == t;
      assert n == n / 10 * 10 + n % 10;
    } else {
      assert ['0' + n as char][..0] == "";
    }
  }

  /** The pieces are numbered from 0. */
  lemma PartTitles()
    ensures PartTitle(0) == "part-0" && PartTitle(12) == "part-12"
  {
    assert Itoa(12) == Itoa(1) + ['2'];
  }
}
