/** Splitting a text at its own sections (chunk/chunk.go, lines 82 to 131): at
    top-level key lines and at unindented lines after a blank one. */
module TextChunks {
  import opened Sections
  import opened Lines

  /** What the split asks of a line: whether it is blank once trimmed, and the title
      it gives. */
  datatype Reader = Reader(blank: string -> bool, title: string -> string)

  ghost predicate ReaderOk(reader: Reader) {
    reader.blank("")
  }

  predicate IsIndented(line: string) {
    line != "" && (line[0] == ' ' || line[0] == '\t')
  }

  /** Line j opens a new section. */
  predicate Opens(reader: Reader, lines: seq<string>, j: int) {
    && 0 < j < |lines| && !reader.blank(lines[j])
    && (IsKeyLine(lines[j]) || (reader.blank(lines[j - 1]) && !IsIndented(lines[j])))
  }

  /** The first n lines, split at starts: 0 and every line that opens a section. */
  ghost predicate StartsOf(reader: Reader, lines: seq<string>, n: nat, starts: seq<nat>) {
    && 0 < n <= |lines| && starts != [] && starts[0] == 0
    && (forall k, l :: 0 <= k < l < |starts| ==> starts[k] < starts[l])
    && (forall k :: 0 <= k < |starts| ==> starts[k] < n)
    && (forall k :: 0 < k < |starts| ==> Opens(reader, lines, starts[k]))
    && (forall j :: Opens(reader, lines, j) && j < n ==> j in starts)
  }

  /** The section from line i up to line j. */
  function Block(reader: Reader, lines: seq<string>, i: nat, j: nat): Section
    requires i < j <= |lines|
  {
    Section(reader.title(lines[i]), Text(lines[i..j]))
  }

  /** sections are the blocks between consecutive starts, before the last one. */
  ghost predicate BlocksOf(reader: Reader, lines: seq<string>, n: nat, starts: seq<nat>, sections: seq<Section>) {
    && StartsOf(reader, lines, n, starts) && |sections| == |starts| - 1
    && forall k :: 0 < k < |starts| ==> sections[k - 1] == Block(reader, lines, starts[k - 1], starts[k])
  }

  function Last(starts: seq<nat>): nat
    requires starts != []
  {
    starts[|starts| - 1]
  }

  /** sections are all the blocks of the lines. */
  ghost predicate SplitsAt(reader: Reader, lines: seq<string>, starts: seq<nat>, sections: seq<Section>) {
    && sections != [] && BlocksOf(reader, lines, |lines|, starts, sections[..|sections| - 1])
    && sections[|sections| - 1] == Block(reader, lines, Last(starts), |lines|)
  }

  /** The blocks make up the lines. */
  lemma {:induction false} BlocksText(reader: Reader, lines: seq<string>, starts: seq<nat>, sections: seq<Section>,
                                      k: nat)
    requires BlocksOf(reader, lines, |lines|, starts, sections) && k < |starts|
    ensures Concat(sections[..k]) == Text(lines[..starts[k]])
  {
    if k > 0 {
      BlocksText(reader, lines, starts, sections, k - 1);
      var i, j := starts[k - 1], starts[k];
      assert lines[..j] == lines[..i] + lines[i..j];
      TextAppend(lines[..i], lines[i..j]);
      assert sections[..k] == sections[..k - 1] + [sections[k - 1]];
      ConcatSnoc(sections[..k - 1], sections[k - 1]);
    } else {
      assert lines[..0] == [] && sections[..0] == [];
    }
  }

  lemma SplitKeepsText(reader: Reader, lines: seq<string>, starts: seq<nat>, sections: seq<Section>)
    requires SplitsAt(reader, lines, starts, sections)
    ensures Concat(sections) == Text(lines)
  {
    var m := |sections| - 1;
    var i := Last(starts);
    BlocksText(reader, lines, starts, sections[..m], m);
    hide Concat, Text, BlocksOf;
    assert sections[..m][..m] == sections[..m] && sections == sections[..m] + [sections[m]];
    ConcatSnoc(sections[..m], sections[m]);
    assert lines == lines[..i] + lines[i..] && lines[i..] == lines[i..|lines|];
    TextAppend(lines[..i], lines[i..]);
  }

  lemma BlockHasText(reader: Reader, lines: seq<string>, i: nat, j: nat)
    requires i < j <= |lines| && lines[i] != ""
    ensures Text(lines[i..j]) != ""
  {
    assert lines[i..j] == [lines[i]] + lines[i + 1..j];
    TextCons(lines[i], lines[i + 1..j]);
  }

  lemma SplitHasText(reader: Reader, lines: seq<string>, starts: seq<nat>, sections: seq<Section>)
    requires ReaderOk(reader) && SplitsAt(reader, lines, starts, sections) && lines[0] != ""
    ensures forall k :: 0 <= k < |sections| ==> sections[k].content != ""
  {
    forall k | 0 <= k < |sections|
      ensures sections[k].content != ""
    {
      BlockAt(reader, lines, starts, sections, k);
      BlockHasText(reader, lines, starts[k], if k + 1 < |starts| then starts[k + 1] else |lines|);
    }
  }

  ghost predicate Rising(s: seq<nat>) {
    forall k, l :: 0 <= k < l < |s| ==> s[k] < s[l]
  }

  ghost predicate SameElements(a: seq<nat>, b: seq<nat>) {
    forall x :: x in a <==> x in b
  }

  lemma EmptyToo(a: seq<nat>, b: seq<nat>)
    requires SameElements(a, b)
    ensures a == [] ==> b == []
  {
    if b != [] {
      assert b[0] in b;
    }
  }

  lemma SameLast(a: seq<nat>, b: seq<nat>)
    requires Rising(a) && Rising(b) && SameElements(a, b) && a != []
    ensures b != [] && Last(a) == Last(b)
  {
    assert a[|a| - 1] in a;
    assert b[|b| - 1] in b;
  }

  lemma SameFront(a: seq<nat>, b: seq<nat>)
    requires Rising(a) && Rising(b) && SameElements(a, b) && a != [] && b != [] && Last(a) == Last(b)
    ensures SameElements(a[..|a| - 1], b[..|b| - 1])
  {
    var c, d := a[..|a| - 1], b[..|b| - 1];
    forall x: nat
      ensures x in c <==> x in d
    {
      if x in a {
      }
    }
  }

  /** Rising sequences with the same elements are equal. */
  lemma {:induction false} RisingUnique(a: seq<nat>, b: seq<nat>)
    requires Rising(a) && Rising(b) && SameElements(a, b)
    ensures a == b
  {
    EmptyToo(a, b);
    if a != [] {
      SameLast(a, b);
      SameFront(a, b);
      hide SameElements;
      RisingUnique(a[..|a| - 1], b[..|b| - 1]);
      assert a == a[..|a| - 1] + [Last(a)] && b == b[..|b| - 1] + [Last(b)];
    }
  }

  lemma BlockAt(reader: Reader, lines: seq<string>, starts: seq<nat>, sections: seq<Section>, k: nat)
    requires SplitsAt(reader, lines, starts, sections) && k < |sections|
    ensures |sections| == |starts| && Rising(starts) && starts[k] < |lines|
    ensures k + 1 < |starts| ==> starts[k] < starts[k + 1] <= |lines|
    ensures sections[k] == Block(reader, lines, starts[k], if k + 1 < |starts| then starts[k + 1] else |lines|)
  {
    hide Block;
    assert k < |sections| - 1 ==> sections[..|sections| - 1][k + 1 - 1] == sections[k];
  }

  /** There is only one such split of given lines. */
  lemma SplitUnique(reader: Reader, lines: seq<string>, a: seq<nat>, b: seq<nat>, s: seq<Section>, t: seq<Section>)
    requires SplitsAt(reader, lines, a, s) && SplitsAt(reader, lines, b, t)
    ensures s == t
  {
    SameStarts(reader, lines, a, b);
    forall k | 0 <= k < |s|
      ensures k < |t| && s[k] == t[k]
    {
      BlockAt(reader, lines, a, s, k);
      BlockAt(reader, lines, b, t, k);
    }
  }

  lemma SameStarts(reader: Reader, lines: seq<string>, a: seq<nat>, b: seq<nat>)
    requires StartsOf(reader, lines, |lines|, a) && StartsOf(reader, lines, |lines|, b)
    ensures a == b
  {
    forall x
      ensures x in a <==> x in b
    {
    }
    RisingUnique(a, b);
  }

  // -------------------------------------------------------------------- the loop

  /** What the loop holds before line j > 0: the sections closed so far, the text
      and the title of the open one. */
  ghost predicate Gathered(reader: Reader, lines: seq<string>, j: nat, starts: seq<nat>, sections: seq<Section>,
                           cur: string, title: string) {
    && BlocksOf(reader, lines, j, starts, sections)
    && Section(title, cur) == Block(reader, lines, Last(starts), j)
  }

  lemma FirstLine(reader: Reader, lines: seq<string>)
    requires lines != []
    ensures Gathered(reader, lines, 1, [0], [], lines[0], reader.title(lines[0]))
  {
    assert lines[0..1] == [lines[0]] + [];
    TextCons(lines[0], []);
    assert lines[0] + "" == lines[0];
  }

  lemma TextLonger(lines: seq<string>, i: nat, j: nat)
    requires i <= j < |lines|
    ensures Text(lines[i..j + 1]) == Text(lines[i..j]) + lines[j]
  {
    assert lines[i..j + 1] == lines[i..j] + [lines[j]];
  }

  lemma SameSection(reader: Reader, lines: seq<string>, j: nat, starts: seq<nat>, sections: seq<Section>, cur: string,
                    title: string)
    requires Gathered(reader, lines, j, starts, sections, cur, title) && j < |lines| && !Opens(reader, lines, j)
    ensures Gathered(reader, lines, j + 1, starts, sections, cur + lines[j], title)
  {
    hide Text;
    TextLonger(lines, Last(starts), j);
  }

  lemma StartAdded(reader: Reader, lines: seq<string>, j: nat, starts: seq<nat>)
    requires StartsOf(reader, lines, j, starts) && Opens(reader, lines, j) && j < |lines|
    ensures StartsOf(reader, lines, j + 1, starts + [j])
  {
    hide Opens;
  }

  lemma NewSection(reader: Reader, lines: seq<string>, j: nat, starts: seq<nat>, sections: seq<Section>, cur: string,
                   title: string)
    requires Gathered(reader, lines, j, starts, sections, cur, title) && j < |lines| && Opens(reader, lines, j)
    ensures Gathered(reader, lines, j + 1, starts + [j], sections + [Section(title, cur)], lines[j],
                     reader.title(lines[j]))
  {
    hide Opens, Text, StartsOf;
    StartAdded(reader, lines, j, starts);
    TextLonger(lines, j, j);
    assert lines[j..j] == [];
    NoText();
  }

  lemma NoText()
    ensures Text([]) == ""
  {}

  lemma GatheredHasText(reader: Reader, lines: seq<string>, j: nat, starts: seq<nat>, sections: seq<Section>,
                        cur: string, title: string)
    requires Gathered(reader, lines, j, starts, sections, cur, title) && ReaderOk(reader) && lines[0] != ""
    ensures cur != ""
  {
    BlockHasText(reader, lines, Last(starts), j);
  }

  lemma AllGathered(reader: Reader, lines: seq<string>, starts: seq<nat>, sections: seq<Section>, cur: string,
                    title: string)
    requires Gathered(reader, lines, |lines|, starts, sections, cur, title)
    ensures SplitsAt(reader, lines, starts, sections + [Section(title, cur)])
  {
    var all := sections + [Section(title, cur)];
    assert all[..|all| - 1] == sections;
    hide StartsOf, Text;
  }

  /** Splits a text at its own sections. */
  method SplitTOONOrText(s: string, reader: Reader) returns (sections: seq<Section>, ghost starts: seq<nat>)
    requires ReaderOk(reader)
    ensures s == "" ==> sections == []
    ensures s != "" ==> SplitsAt(reader, SplitAfter(s), starts, sections)
  {
    var lines := SplitAfter(s);
    SplitAfterLines(s);
    sections := [];
    starts := [];
    var cur, title := "", "";
    var prevBlank, started := false, false;
    hide SplitAfter, Text, Gathered, SplitsAt, IsKeyLine, IsEnded, IsLine;
    for j := 0 to |lines|
      invariant started <==> j > 0
      invariant j == 0 || s == "" ==> sections == [] && cur == ""
      invariant j > 0 ==> Gathered(reader, lines, j, starts, sections, cur, title)
      invariant j > 0 ==> prevBlank == reader.blank(lines[j - 1])
    {
      var line := lines[j];
      var blank := reader.blank(line);
      if started && !blank && (IsKeyLine(line) || (prevBlank && !IsIndented(line))) {
        NewSection(reader, lines, j, starts, sections, cur, title);
        GatheredHasText(reader, lines, j, starts, sections, cur, title);
        if cur != "" {
          sections := sections + [Section(title, cur)];
          cur := "";
        }
        starts := starts + [j];
        title := reader.title(line);
      } else if !started {
        started := true;
        FirstLine(reader, lines);
        starts := [0];
        title := reader.title(line);
      } else {
        SameSection(reader, lines, j, starts, sections, cur, title);
      }
      assert "" + line == line;
      cur := cur + line;
      prevBlank := blank;
    }
    if s != "" {
      GatheredHasText(reader, lines, |lines|, starts, sections, cur, title);
    }
    if cur != "" {
      AllGathered(reader, lines, starts, sections, cur, title);
      sections := sections + [Section(title, cur)];
    }
  }

  /** A line after the first opens a section when it is a key line that is not blank, or
      neither blank nor indented and the line before is blank; the first never does. */
  lemma OpensMeans(reader: Reader, lines: seq<string>, j: nat)
    requires j < |lines|
    ensures Opens(reader, lines, j) <==>
              && j > 0 && !reader.blank(lines[j])
              && (IsKeyLine(lines[j])
                  || (reader.blank(lines[j - 1])
                      && (lines[j] == "" || (lines[j][0] as int != 32 && lines[j][0] as int != 9))))
  {}
}
