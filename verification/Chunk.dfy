/** Splitting a rendered response into sections (chunk/chunk.go). */
module Chunk {
  import opened Sections
  import opened Lines
  import opened Folding
  import opened FixedChunks
  import opened TextChunks
  import opened JsonScan
  import opened Options
  import JsonKeys
  import JsonText

  const READ_BACK_HEADER_ROOM: nat := 128

  // ---------------------------------------------------------------- JSON objects

  /** Where the section of the k-th member starts; past the last one, the end. */
  function SectionStart(s: string, keys: seq<Key>, k: nat): nat {
    if k == 0 then 0 else if k < |keys| then keys[k].offset else |s|
  }

  ghost predicate KeysIn(s: string, keys: seq<Key>) {
    keys != [] && JsonKeys.OffsetsRise(s, keys, 1)
  }

  lemma StartsRise(s: string, keys: seq<Key>, k: nat)
    requires KeysIn(s, keys) && k < |keys|
    ensures SectionStart(s, keys, k) < SectionStart(s, keys, k + 1) <= |s|
  {
    assert 1 <= keys[k].offset < |s|;
    if k + 1 < |keys| {
      assert keys[k].offset < keys[k + 1].offset < |s|;
    }
  }

  function JsonSection(s: string, keys: seq<Key>, k: nat): Section
    requires KeysIn(s, keys) && k < |keys|
  {
    StartsRise(s, keys, k);
    Section(keys[k].name, s[SectionStart(s, keys, k)..SectionStart(s, keys, k + 1)])
  }

  /** One section a member, from its opening quote to the next member's; the first
      also has what comes before, the last what comes after. */
  ghost predicate SplitsAtKeys(s: string, keys: seq<Key>, sections: seq<Section>) {
    && KeysIn(s, keys) && |sections| == |keys|
    && forall k :: 0 <= k < |keys| ==> sections[k] == JsonSection(s, keys, k)
  }

  lemma {:induction false} JsonSectionsText(s: string, keys: seq<Key>, sections: seq<Section>, k: nat)
    requires SplitsAtKeys(s, keys, sections) && k <= |keys|
    ensures SectionStart(s, keys, k) <= |s|
    ensures Concat(sections[..k]) == s[..SectionStart(s, keys, k)]
  {
    if k > 0 {
      JsonSectionsText(s, keys, sections, k - 1);
      StartsRise(s, keys, k - 1);
      ConcatSnoc(sections[..k - 1], sections[k - 1]);
      hide Concat, KeysIn;
      assert sections[..k] == sections[..k - 1] + [sections[k - 1]];
      var i, j := SectionStart(s, keys, k - 1), SectionStart(s, keys, k);
      assert s[..j] == s[..i] + s[i..j];
    } else {
      assert sections[..0] == [];
    }
  }

  /** Splitting at the keys loses no text. */
  lemma {:induction false} SplitAtKeysKeepsText(s: string, keys: seq<Key>, sections: seq<Section>)
    requires SplitsAtKeys(s, keys, sections)
    ensures Concat(sections) == s
    ensures forall k :: 0 <= k < |sections| ==> sections[k].content != ""
  {
    JsonSectionsText(s, keys, sections, |keys|);
    assert sections[..|keys|] == sections && s[..|s|] == s;
    forall k | 0 <= k < |sections|
      ensures sections[k].content != ""
    {
      StartsRise(s, keys, k);
    }
  }

  /** The sections of a JSON object are its members: as many, in order, each titled
      with its name and, after the first, starting with that name in quotes. */
  lemma ObjectSections(w: string, m: JsonText.Members, tail: string, sections: seq<Section>, k: nat)
    requires JsonText.AllWs(w) && JsonText.MembersOk(m)
    requires var keys := TopLevelKeys(JsonKeys.ObjectText(w, m, tail));
             keys.Some? && SplitsAtKeys(JsonKeys.ObjectText(w, m, tail), keys.value, sections)
    requires k < |sections|
    ensures |sections| == |JsonKeys.Names(m, |w| + 1)|
    ensures var name := JsonKeys.Names(m, |w| + 1)[k];
            && JsonText.ElemsOk(name.elems)
            && sections[k].title == JsonText.Piecewise(name.elems)
            && (k > 0 ==> JsonKeys.At(JsonKeys.ObjectText(w, m, tail), |Concat(sections[..k])|,
                                      JsonText.StringText(name.elems)))
  {
    var s := JsonKeys.ObjectText(w, m, tail);
    var keys := TopLevelKeys(s).value;
    JsonKeys.ObjectKeys(w, m, tail);
    JsonKeys.NameStands(w, m, tail, k);
    JsonSectionsText(s, keys, sections, k);
    hide TopLevelKeys, JsonKeys.ObjectText, JsonKeys.Names, JsonKeys.At, JsonText.StringText, JsonText.Piecewise,
      JsonText.ElemsOk, Concat;
  }

  /** None when s is not read as an object with members. */
  method SplitJSON(s: string) returns (r: Option<seq<Section>>)
    ensures r.Some? <==> TopLevelKeys(s).Some? && TopLevelKeys(s).value != []
    ensures r.Some? ==> SplitsAtKeys(s, TopLevelKeys(s).value, r.value)
  {
    var members := TopLevelJSONKeys(s);
    if members.None? || members.value == [] {
      return None;
    }
    JsonKeys.TopLevelKeysRise(s);
    var keys := members.value;
    hide TopLevelKeys, JsonKeys.OffsetsRise;
    var sections: seq<Section> := [];
    for i := 0 to |keys|
      invariant |sections| == i
      invariant forall k :: 0 <= k < i ==> sections[k] == JsonSection(s, keys, k)
    {
      var start := keys[i].offset;
      if i == 0 {
        start := 0;
      }
      var end := |s|;
      if i + 1 < |keys| {
        end := keys[i + 1].offset;
      }
      StartsRise(s, keys, i);
      sections := sections + [Section(keys[i].name, s[start..end])];
    }
    r := Some(sections);
  }

  // ------------------------------------------------------------------- sections

  predicate HasText(sections: seq<Section>) {
    forall k :: 0 <= k < |sections| ==> sections[k].content != ""
  }

  predicate HasBig(sections: seq<Section>, limit: int) {
    exists k :: 0 <= k < |sections| && |sections[k].content| > limit
  }

  method ExceedsMax(sections: seq<Section>, limit: int) returns (r: bool)
    ensures r <==> HasBig(sections, limit)
  {
    for i := 0 to |sections|
      invariant forall k :: 0 <= k < i ==> |sections[k].content| <= limit
    {
      if |sections[i].content| > limit {
        return true;
      }
    }
    return false;
  }

  /** sections are the split of s at its own structure: at the members of a JSON
      object, otherwise at key lines and paragraphs. */
  ghost predicate Structural(s: string, reader: Reader, sections: seq<Section>) {
    if TopLevelKeys(s).Some? && TopLevelKeys(s).value != []
    then SplitsAtKeys(s, TopLevelKeys(s).value, sections)
    else exists starts :: SplitsAt(reader, SplitAfter(s), starts, sections)
  }

  lemma StructuralKeepsText(s: string, reader: Reader, sections: seq<Section>)
    requires s != "" && ReaderOk(reader) && Structural(s, reader, sections)
    ensures Concat(sections) == s && sections != [] && HasText(sections)
  {
    if TopLevelKeys(s).Some? && TopLevelKeys(s).value != [] {
      SplitAtKeysKeepsText(s, TopLevelKeys(s).value, sections);
    } else {
      SplitAfterText(s);
      SplitAfterLines(s);
      var starts :| SplitsAt(reader, SplitAfter(s), starts, sections);
      SplitKeepsText(reader, SplitAfter(s), starts, sections);
      SplitHasText(reader, SplitAfter(s), starts, sections);
    }
  }

  method SplitStructural(s: string, reader: Reader) returns (sections: seq<Section>)
    requires s != "" && ReaderOk(reader)
    ensures Structural(s, reader, sections)
  {
    var json := SplitJSON(s);
    if json.Some? {
      return json.value;
    }
    ghost var starts;
    sections, starts := SplitTOONOrText(s, reader);
  }

  /** The size of a section for a limit: room is left for a header. */
  function SectionLimit(limit: int): (r: nat)
    ensures r >= MIN_CHUNK
  {
    if limit - READ_BACK_HEADER_ROOM < MIN_CHUNK then MIN_CHUNK else limit - READ_BACK_HEADER_ROOM
  }

  /** Fixed sections are never folded: no two neighbours fit together. */
  lemma FixedStays(s: string, sections: seq<Section>, limit: nat)
    requires FixedCut(s, sections, limit)
    ensures Merged(sections, limit) == sections && Sized(sections, limit)
  {
    forall k | 0 <= k < |sections| - 1
      ensures !Joinable(sections[k], sections[k + 1], limit)
    {
      assert |sections[k + 1 - 1].content| + |sections[k + 1].content| > limit;
    }
    SettledStays(sections, limit);
  }

  /** Folding keeps text and bounds and leaves nothing to fold. */
  lemma Folded(sections: seq<Section>, limit: nat)
    requires Sized(sections, limit)
    ensures Concat(Merged(sections, limit)) == Concat(sections)
    ensures Sized(Merged(sections, limit), limit) && Settled(Merged(sections, limit), limit)
  {
    MergedKeepsText(sections, limit);
    MergedSized(sections, limit);
    OnePassSettles(sections, limit);
  }

  /** The slice is folded where it stands. */
  method MergedSlice(sections: seq<Section>, limit: int) returns (r: seq<Section>)
    ensures r == Merged(sections, limit)
  {
    hide Merged;
    var a := new Section[|sections|](i requires 0 <= i < |sections| => sections[i]);
    assert a[..] == sections;
    var n, passes := MergeSmall(a, limit);
    r := a[..n];
  }

  lemma NothingToSplit(limit: nat)
    ensures Concat([]) == "" && Sized([], limit) && Settled([], limit)
  {}

  lemma BigOrSized(sections: seq<Section>, limit: nat)
    requires HasText(sections)
    ensures HasBig(sections, limit) <==> !Sized(sections, limit)
  {}

  /** r are the sections of s: its own structure, folded, if every part of it is small
      enough, and otherwise fixed pieces. */
  ghost predicate Rendered(s: string, limit: int, reader: Reader, r: seq<Section>) {
    if s == "" then r == []
    else exists structural :: RenderedFrom(s, limit, reader, structural, r)
  }

  ghost predicate RenderedFrom(s: string, limit: int, reader: Reader, structural: seq<Section>, r: seq<Section>) {
    && Concat(r) == s && Structural(s, reader, structural)
    && if Sized(structural, SectionLimit(limit)) then r == Merged(structural, SectionLimit(limit))
       else FixedCut(s, r, SectionLimit(limit))
  }

  /** The sections make up the text, are of bounded size, and none could still be
      folded. */
  lemma RenderedMeans(s: string, limit: int, reader: Reader, r: seq<Section>)
    requires ReaderOk(reader) && Rendered(s, limit, reader, r)
    ensures Concat(r) == s
    ensures Sized(r, SectionLimit(limit)) && Settled(r, SectionLimit(limit))
  {
    hide Concat, Structural, Sized, FixedCut, Merged, Settled;
    NothingToSplit(SectionLimit(limit));
    if s != "" {
      var structural :| RenderedFrom(s, limit, reader, structural, r);
      if Sized(structural, SectionLimit(limit)) {
        Folded(structural, SectionLimit(limit));
      } else {
        FixedStays(s, r, SectionLimit(limit));
        Folded(r, SectionLimit(limit));
      }
    }
  }

  method RenderedSections(s: string, limit: int, reader: Reader) returns (r: seq<Section>)
    requires ReaderOk(reader)
    ensures Rendered(s, limit, reader, r)
    ensures Concat(r) == s
    ensures Sized(r, SectionLimit(limit)) && Settled(r, SectionLimit(limit))
  {
    hide Concat, Sized, Settled, Structural, FixedCut, Merged, HasText, HasBig;
    NothingToSplit(SectionLimit(limit));
    if s == "" {
      return [];
    }
    var max := limit - READ_BACK_HEADER_ROOM;
    if max < MIN_CHUNK {
      max := MIN_CHUNK;
    }
    assert max == SectionLimit(limit);
    hide *;
    var sections := SplitStructural(s, reader);
    ghost var structural := sections;
    StructuralKeepsText(s, reader, sections);
    var big := ExceedsMax(sections, max);
    BigOrSized(sections, max);
    if sections == [] || big {
      sections := SplitFixed(s, max);
      FixedStays(s, sections, max);
    }
    Folded(sections, max);
    r := MergedSlice(sections, max);
    RenderedSo(s, limit, reader, structural, r);
  }

  lemma RenderedSo(s: string, limit: int, reader: Reader, structural: seq<Section>, r: seq<Section>)
    requires s != "" && Concat(r) == s && Structural(s, reader, structural)
    requires Sized(structural, SectionLimit(limit)) ==> r == Merged(structural, SectionLimit(limit))
    requires !Sized(structural, SectionLimit(limit)) ==> FixedCut(s, r, SectionLimit(limit))
    ensures Rendered(s, limit, reader, r)
  {
    hide Concat, Structural, Sized, FixedCut, Merged;
    assert RenderedFrom(s, limit, reader, structural, r);
  }

  // ---------------------------------------------------------- the limit asked for

  /** No section of any text, with room bytes more, exceeds the limit. */
  ghost predicate AlwaysFits(limit: int, room: nat, reader: Reader) {
    forall s: string, r: seq<Section>, k: nat :: Rendered(s, limit, reader, r) && k < |r| ==>
      |r[k].content| + room <= limit
  }

  /** n letters on one line. */
  function Letters(n: nat): (s: string)
    ensures |s| == n && forall i :: 0 <= i < n ==> s[i] == 'a'
  {
    seq(n, _ => 'a')
  }

  lemma LettersAreOneLine(s: string, i: nat)
    requires i <= |s| && forall k :: 0 <= k < |s| ==> s[k] != '\n'
    ensures NewlineFrom(s, i) == |s|
    decreases |s| - i
  {}

  lemma OneLine(s: string)
    requires NewlineFrom(s, 0) == |s|
    ensures SplitAfter(s) == [s]
  {}

  lemma OneBlock(line: string, reader: Reader)
    ensures Block(reader, [line], 0, 1) == Section(reader.title(line), line)
  {
    TextCons(line, []);
    assert [line] + [] == [line] && [line][0..1] == [line];
  }

  lemma OneLineSplits(line: string, reader: Reader)
    ensures SplitsAt(reader, [line], [0], [Section(reader.title(line), line)])
  {
    hide Block, IsKeyLine, IsIndented;
    OneBlock(line, reader);
    assert [Block(reader, [line], 0, 1)][..0] == [];
  }

  lemma LettersAreNoObject(n: nat)
    requires n > 0
    ensures TopLevelKeys(Letters(n)) == None
  {
    hide KeysFrom;
    assert Letters(n)[0] == 'a';
  }

  /** They make one section. */
  lemma LettersRendered(limit: int, reader: Reader, n: nat)
    requires 0 < n <= SectionLimit(limit)
    ensures Rendered(Letters(n), limit, reader, [Section(reader.title(Letters(n)), Letters(n))])
  {
    hide TopLevelKeys, SplitsAt, Concat, SplitAfter, Rendered, Letters, NewlineFrom;
    var s := Letters(n);
    var one := [Section(reader.title(s), s)];
    LettersAreOneLine(s, 0);
    OneLine(s);
    OneLineSplits(s, reader);
    LettersAreNoObject(n);
    SingleSection(one[0], limit);
    RenderedSo(s, limit, reader, one, one);
  }

  lemma SingleSection(x: Section, limit: int)
    ensures Concat([x]) == x.content && Merged([x], SectionLimit(limit)) == [x]
  {
    ConcatOne(x);
  }

  /** The limit holds with room bytes to spare, for every text, if and only if the
      smallest size of a section leaves that room. */
  lemma FitsIff(limit: int, room: nat, reader: Reader)
    requires ReaderOk(reader)
    ensures AlwaysFits(limit, room, reader) <==> SectionLimit(limit) + room <= limit
  {
    hide Rendered;
    forall s: string, r: seq<Section>, k: nat | Rendered(s, limit, reader, r) && k < |r|
      ensures |r[k].content| <= SectionLimit(limit)
    {
      RenderedMeans(s, limit, reader, r);
    }
    var n := SectionLimit(limit);
    LettersRendered(limit, reader, n);
    var one := [Section(reader.title(Letters(n)), Letters(n))];
    assert |one[0].content| == n;
  }

  /** In numbers: below a limit of 640 sections have up to 512 bytes, from there on up to
      128 less than the limit. */
  lemma FitsInNumbers(limit: int, room: nat, reader: Reader)
    requires ReaderOk(reader)
    ensures AlwaysFits(limit, room, reader) <==> if limit < 640 then 512 + room <= limit else room <= 128
  {
    hide AlwaysFits;
    FitsIff(limit, room, reader);
  }

  /** Sections are no larger than the limit asked for exactly from 512 bytes on, and
      with the header put before them when read back exactly from 640 on. */
  lemma WithinLimitIff(limit: int, reader: Reader)
    requires ReaderOk(reader)
    ensures AlwaysFits(limit, 0, reader) <==> limit >= 512
    ensures AlwaysFits(limit, 128, reader) <==> limit >= 640
  {
    hide AlwaysFits;
    FitsInNumbers(limit, 0, reader);
    FitsInNumbers(limit, 128, reader);
  }

  /** Letters that fit are one section, cut nowhere. */
  lemma LettersAreOneSection(limit: int, reader: Reader, n: nat, r: seq<Section>)
    requires 0 < n <= if limit < 640 then 512 else limit - 128
    requires Rendered(Letters(n), limit, reader, r)
    ensures r == [Section(reader.title(Letters(n)), Letters(n))]
  {
    hide TopLevelKeys, SplitsAt, Concat, SplitAfter, Letters, NewlineFrom, Merged, FixedCut;
    var s := Letters(n);
    var one := [Section(reader.title(s), s)];
    LettersAreOneLine(s, 0);
    OneLine(s);
    LettersAreNoObject(n);
    OneLineSplits(s, reader);
    var structural :| RenderedFrom(s, limit, reader, structural, r);
    var starts :| SplitsAt(reader, [s], starts, structural);
    SplitUnique(reader, [s], starts, [0], structural, one);
    SingleSection(one[0], limit);
  }
}
