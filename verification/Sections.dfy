/** Sections of a rendered response (chunk/chunk.go). */
module Sections {

  /** A contiguous slice of a rendered response; content is a string of bytes. */
  datatype Section = Section(title: string, content: string)

  /** The contents of all sections, one after the other. */
  function Concat(sections: seq<Section>): string {
    if sections == [] then "" else Concat(sections[..|sections| - 1]) + sections[|sections| - 1].content
  }

  lemma {:induction false} ConcatAppend(a: seq<Section>, b: seq<Section>)
    ensures Concat(a + b) == Concat(a) + Concat(b)
  {
    if b == [] {
      assert a + b == a;
    } else {
      var n := |b| - 1;
      assert (a + b)[..|a| + n] == a + b[..n];
      ConcatAppend(a, b[..n]);
    }
  }

  lemma ConcatCons(x: Section, s: seq<Section>)
    ensures Concat([x] + s) == x.content + Concat(s)
  {
    ConcatAppend([x], s);
  }

  lemma ConcatSnoc(s: seq<Section>, x: Section)
    ensures Concat(s + [x]) == Concat(s) + x.content
  {
    assert (s + [x])[..|s|] == s;
  }

  lemma ConcatOne(x: Section)
    ensures Concat([x]) == x.content
  {
    assert [x][..0] == [];
  }
}
