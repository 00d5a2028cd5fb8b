/** What the JSON scanner finds in a JSON text: the end of every value, and the
    names of an object with the positions of their opening quotes. */
module JsonKeys {
  import opened JsonText
  import opened JsonScan
  import opened Options

  /** t stands in s at i. */
  predicate At(s: string, i: nat, t: string) {
    i + |t| <= |s| && s[i..i + |t|] == t
  }

  lemma AtSplit(s: string, i: nat, a: string, b: string)
    requires At(s, i, a + b)
    ensures At(s, i, a) && At(s, i + |a|, b)
    ensures i + |a| + |b| <= |s| && |a + b| == |a| + |b|
  {
    assert s[i..i + |a|] == s[i..i + |a + b|][..|a|];
    assert s[i + |a|..i + |a| + |b|] == s[i..i + |a + b|][|a|..];
  }

  lemma AtTwo(s: string, i: nat, a: string, b: string)
    requires At(s, i, Two(a, b))
    ensures At(s, i, a) && At(s, i + |a|, b)
    ensures |Two(a, b)| == |a| + |b| && i + |Two(a, b)| <= |s|
  {
    AtSplit(s, i, a, b);
  }

  lemma AtThree(s: string, i: nat, a: string, b: string, c: string)
    requires At(s, i, Three(a, b, c))
    ensures At(s, i, a) && At(s, i + |a|, b) && At(s, i + |a| + |b|, c)
    ensures |Three(a, b, c)| == |a| + |b| + |c| && i + |Three(a, b, c)| <= |s|
  {
    AtSplit(s, i, a, b + c);
    AtSplit(s, i + |a|, b, c);
  }

  lemma AtFour(s: string, i: nat, a: string, b: string, c: string, d: string)
    requires At(s, i, Four(a, b, c, d))
    ensures At(s, i, a) && At(s, i + |a|, b) && At(s, i + |a| + |b|, c) && At(s, i + |a| + |b| + |c|, d)
    ensures |Four(a, b, c, d)| == |a| + |b| + |c| + |d| && i + |Four(a, b, c, d)| <= |s|
  {
    AtSplit(s, i, a, b + (c + d));
    AtSplit(s, i + |a|, b, c + d);
    AtSplit(s, i + |a| + |b|, c, d);
  }

  lemma AtChar(s: string, i: nat, t: string, k: nat)
    requires At(s, i, t) && k < |t|
    ensures i + k < |s| && s[i + k] == t[k]
  {
    assert s[i..i + |t|][k] == t[k];
  }

  lemma {:induction false} WsSkipped(s: string, i: nat, w: string)
    requires At(s, i, w) && AllWs(w)
    ensures SkipWs(s, i) == SkipWs(s, i + |w|)
    decreases |s| - i
  {
    if w != "" {
      AtChar(s, i, w, 0);
      assert [w[0]] + w[1..] == w;
      AtSplit(s, i, [w[0]], w[1..]);
      WsSkipped(s, i + 1, w[1..]);
    }
  }

  // -------------------------------------------------------------------- strings

  lemma ElemRead(s: string, i: nat, e: Elem)
    requires At(s, i, ElemText(e)) && ElemOk(e)
    ensures StringBody(s, i) == Prepend(ElemMeaning(e), StringBody(s, i + |ElemText(e)|))
  {
    AtChar(s, i, ElemText(e), 0);
    match e
    case Raw(c) =>
    case Esc(c) => AtChar(s, i, ElemText(e), 1);
    case Uni(h) =>
      AtChar(s, i, ElemText(e), 1);
      AtSplit(s, i, "\\u", h);
  }

  lemma ClosingRead(s: string, i: nat)
    requires At(s, i, RestOfString([]))
    ensures StringBody(s, i) == Some(Token(Piecewise([]), i + |RestOfString([])|))
  {
    AtChar(s, i, RestOfString([]), 0);
  }

  lemma FirstRead(s: string, i: nat, es: seq<Elem>, next: nat)
    requires es != [] && ElemsOk(es) && At(s, i, RestOfString(es))
    ensures At(s, i + |ElemText(es[0])|, RestOfString(es[1..]))
    ensures |RestOfString(es)| == |ElemText(es[0])| + |RestOfString(es[1..])|
    ensures StringBody(s, i + |ElemText(es[0])|) == Some(Token(Piecewise(es[1..]), next)) ==>
              StringBody(s, i) == Some(Token(Piecewise(es), next))
  {
    hide At, Two, ElemText, ElemMeaning, StringBody;
    AtTwo(s, i, ElemText(es[0]), RestOfString(es[1..]));
    ElemRead(s, i, es[0]);
  }

  /** The scanner decodes element by element and stops after the closing quote. */
  lemma {:induction false} StringRead(s: string, i: nat, es: seq<Elem>)
    requires At(s, i, RestOfString(es)) && ElemsOk(es)
    ensures StringBody(s, i) == Some(Token(Piecewise(es), i + |RestOfString(es)|))
    decreases |es|
  {
    hide At, StringBody, ElemText, RestOfString, Piecewise;
    if es == [] {
      ClosingRead(s, i);
    } else {
      FirstRead(s, i, es, i + |RestOfString(es)|);
      StringRead(s, i + |ElemText(es[0])|, es[1..]);
    }
  }

  /** As StringRead, from the opening quote. */
  lemma QuotedRead(s: string, i: nat, es: seq<Elem>)
    requires At(s, i, StringText(es)) && ElemsOk(es)
    ensures i < |s| && s[i] == '"'
    ensures StringBody(s, i + 1) == Some(Token(Piecewise(es), i + |StringText(es)|))
  {
    hide StringBody, RestOfString, Piecewise, Two;
    AtTwo(s, i, "\"", RestOfString(es));
    AtChar(s, i, "\"", 0);
    hide At;
    StringRead(s, i + 1, es);
  }

  // -------------------------------------------------------------------- scalars

  /** Not a quote, a bracket or a brace. */
  predicate Neutral(c: char) {
    c != '"' && c != '{' && c != '}' && c != '[' && c != ']'
  }

  lemma ScalarChars(x: Scalar)
    requires ScalarOk(x)
    ensures |ScalarText(x)| > 0
    ensures forall k :: 0 <= k < |ScalarText(x)| ==> Neutral(ScalarText(x)[k]) && !EndsScalar(ScalarText(x)[k])
  {
    if x.Number? {
      DigitChars(x.whole);
      FracChars(x.frac);
      ExpChars(x.exp);
    }
  }

  predicate PlainText(t: string) {
    forall k :: 0 <= k < |t| ==> Neutral(t[k]) && !EndsScalar(t[k])
  }

  lemma DigitChars(d: string)
    requires IsDigits(d)
    ensures PlainText(d)
  {
    forall k | 0 <= k < |d|
      ensures Neutral(d[k]) && !EndsScalar(d[k])
    {
      assert '0' <= d[k] <= '9';
    }
  }

  lemma FracChars(f: string)
    requires FracOk(f)
    ensures PlainText(f)
  {
    if f != "" {
      DigitChars(f[1..]);
      assert forall k :: 0 < k < |f| ==> f[k] == f[1..][k - 1];
    }
  }

  lemma ExpChars(e: string)
    requires ExpOk(e)
    ensures PlainText(e)
  {
    if e != "" && IsDigits(e[1..]) {
      DigitChars(e[1..]);
      assert forall k :: 0 < k < |e| ==> e[k] == e[1..][k - 1];
    } else if e != "" {
      DigitChars(e[2..]);
      assert forall k :: 1 < k < |e| ==> e[k] == e[2..][k - 2];
    }
  }

  lemma {:induction false} ScalarRead(s: string, i: nat, t: string)
    requires At(s, i, t) && PlainText(t)
    ensures ScalarEnd(s, i) == ScalarEnd(s, i + |t|)
    decreases |s| - i
  {
    if t != "" {
      AtChar(s, i, t, 0);
      assert [t[0]] + t[1..] == t;
      AtSplit(s, i, [t[0]], t[1..]);
      ScalarRead(s, i + 1, t[1..]);
    }
  }

  // ------------------------------------------------- values inside a delimited one

  lemma {:induction false} NeutralSkipped(s: string, i: nat, t: string, depth: int)
    requires At(s, i, t) && forall k :: 0 <= k < |t| ==> Neutral(t[k])
    ensures i + |t| <= |s| && DelimitedEnd(s, i, depth) == DelimitedEnd(s, i + |t|, depth)
    decreases |s| - i
  {
    if t != "" {
      AtChar(s, i, t, 0);
      assert [t[0]] + t[1..] == t;
      AtSplit(s, i, [t[0]], t[1..]);
      NeutralSkipped(s, i + 1, t[1..], depth);
    }
  }

  lemma WsSkippedInside(s: string, i: nat, w: string, depth: int)
    requires At(s, i, w) && AllWs(w)
    ensures i + |w| <= |s| && DelimitedEnd(s, i, depth) == DelimitedEnd(s, i + |w|, depth)
  {
    hide DelimitedEnd;
    NeutralSkipped(s, i, w, depth);
  }

  lemma CharSkipped(s: string, i: nat, t: string, depth: int)
    requires At(s, i, t) && |t| == 1 && Neutral(t[0])
    ensures i < |s| && DelimitedEnd(s, i, depth) == DelimitedEnd(s, i + 1, depth)
  {
    AtChar(s, i, t, 0);
  }

  /** The end of a delimited value at depth 0, and the scan after it deeper down. */
  function After(s: string, i: nat, depth: int): Option<nat>
    requires i <= |s|
  {
    if depth == 0 then Some(i) else DelimitedEnd(s, i, depth)
  }

  lemma BracketsSkipped(s: string, i: nat, open: string, inner: string, close: string, depth: nat)
    requires (open == "[" && close == "]") || (open == "{" && close == "}")
    requires At(s, i, Three(open, inner, close))
    requires i + 1 + |inner| <= |s|
    requires DelimitedEnd(s, i + 1, depth + 1) == DelimitedEnd(s, i + 1 + |inner|, depth + 1)
    ensures i + |Three(open, inner, close)| <= |s|
    ensures DelimitedEnd(s, i, depth) == After(s, i + |Three(open, inner, close)|, depth)
  {
    AtThree(s, i, open, inner, close);
    AtChar(s, i, open, 0);
    AtChar(s, i + 1 + |inner|, close, 0);
    hide At, StringBody, Three;
  }

  lemma StringSkipped(s: string, i: nat, es: seq<Elem>, depth: int)
    requires At(s, i, StringText(es)) && ElemsOk(es)
    ensures i + |StringText(es)| <= |s|
    ensures DelimitedEnd(s, i, depth) == DelimitedEnd(s, i + |StringText(es)|, depth)
  {
    hide StringBody, StringText, ElemsOk;
    QuotedRead(s, i, es);
  }

  predicate Delimited(v: Value) {
    v.EmptyArr? || v.Arr? || v.EmptyObj? || v.Obj?
  }

  lemma {:induction false} ValueSkipped(s: string, i: nat, v: Value, depth: nat)
    requires ValueOk(v) && At(s, i, ValueText(v)) && (depth == 0 ==> Delimited(v))
    ensures i + |ValueText(v)| <= |s|
    ensures DelimitedEnd(s, i, depth) == After(s, i + |ValueText(v)|, depth)
    decreases v, 2
  {
    hide At, Three, DelimitedEnd, StringText, ScalarText, ItemsText, MembersText;
    hide ScalarOk, ElemsOk, ItemsOk, MembersOk, AllWs;
    match v
    case Lit(x) =>
      ScalarChars(x);
      NeutralSkipped(s, i, ScalarText(x), depth);
    case Str(es) =>
      StringSkipped(s, i, es, depth);
    case EmptyArr(w) =>
      AtThree(s, i, "[", w, "]");
      WsSkippedInside(s, i + 1, w, depth + 1);
      BracketsSkipped(s, i, "[", w, "]", depth);
    case EmptyObj(w) =>
      AtThree(s, i, "{", w, "}");
      WsSkippedInside(s, i + 1, w, depth + 1);
      BracketsSkipped(s, i, "{", w, "}", depth);
    case Arr(items) =>
      AtThree(s, i, "[", ItemsText(items), "]");
      ItemsSkipped(s, i + 1, items, depth + 1);
      BracketsSkipped(s, i, "[", ItemsText(items), "]", depth);
    case Obj(m) =>
      AtThree(s, i, "{", MembersText(m), "}");
      MembersSkipped(s, i + 1, m, depth + 1);
      BracketsSkipped(s, i, "{", MembersText(m), "}", depth);
  }

  lemma {:induction false} InnerValueSkipped(s: string, i: nat, v: Value, depth: nat)
    requires ValueOk(v) && At(s, i, ValueText(v)) && depth > 0
    ensures i + |ValueText(v)| <= |s|
    ensures DelimitedEnd(s, i, depth) == DelimitedEnd(s, i + |ValueText(v)|, depth)
    decreases v, 3
  {
    hide DelimitedEnd, ValueText, ValueOk;
    ValueSkipped(s, i, v, depth);
  }

  lemma {:induction false} ItemsSkipped(s: string, i: nat, items: Items, depth: nat)
    requires ItemsOk(items) && At(s, i, ItemsText(items)) && depth > 0
    ensures i + |ItemsText(items)| <= |s|
    ensures DelimitedEnd(s, i, depth) == DelimitedEnd(s, i + |ItemsText(items)|, depth)
    decreases items, 2
  {
    hide At, Four, DelimitedEnd, ValueText, ItemsTail, ValueOk, AllWs;
    AtFour(s, i, items.w1, ValueText(items.v), items.w2, ItemsTail(items));
    WsSkippedInside(s, i, items.w1, depth);
    var j := i + |items.w1|;
    InnerValueSkipped(s, j, items.v, depth);
    var k := j + |ValueText(items.v)|;
    WsSkippedInside(s, k, items.w2, depth);
    ItemsTailSkipped(s, k + |items.w2|, items, depth);
  }

  lemma {:induction false} ItemsTailSkipped(s: string, i: nat, items: Items, depth: nat)
    requires ItemsOk(items) && At(s, i, ItemsTail(items)) && depth > 0 && i <= |s|
    ensures i + |ItemsTail(items)| <= |s|
    ensures DelimitedEnd(s, i, depth) == DelimitedEnd(s, i + |ItemsTail(items)|, depth)
    decreases items, 1
  {
    hide At, Two, DelimitedEnd, ItemsText, ValueOk, AllWs;
    if items.Item? {
      AtTwo(s, i, ",", ItemsText(items.rest));
      CharSkipped(s, i, ",", depth);
      ItemsSkipped(s, i + 1, items.rest, depth);
    }
  }

  lemma {:induction false} MembersSkipped(s: string, i: nat, m: Members, depth: nat)
    requires MembersOk(m) && At(s, i, MembersText(m)) && depth > 0
    ensures i + |MembersText(m)| <= |s|
    ensures DelimitedEnd(s, i, depth) == DelimitedEnd(s, i + |MembersText(m)|, depth)
    decreases m, 2
  {
    hide At, Four, DelimitedEnd, MemberText, MembersTail, ValueOk, ElemsOk, AllWs;
    AtFour(s, i, m.w1, MemberText(m), m.w4, MembersTail(m));
    WsSkippedInside(s, i, m.w1, depth);
    var j := i + |m.w1|;
    MemberSkipped(s, j, m, depth);
    var k := j + |MemberText(m)|;
    WsSkippedInside(s, k, m.w4, depth);
    MembersTailSkipped(s, k + |m.w4|, m, depth);
  }

  lemma {:induction false} MemberSkipped(s: string, i: nat, m: Members, depth: nat)
    requires MembersOk(m) && At(s, i, MemberText(m)) && depth > 0
    ensures i + |MemberText(m)| <= |s|
    ensures DelimitedEnd(s, i, depth) == DelimitedEnd(s, i + |MemberText(m)|, depth)
    decreases m, 0
  {
    hide At, Two, Four, DelimitedEnd, StringText, ValueText, ValueOk, ElemsOk, AllWs;
    AtFour(s, i, StringText(m.name), m.w2, ":", Two(m.w3, ValueText(m.v)));
    StringSkipped(s, i, m.name, depth);
    var j := i + |StringText(m.name)|;
    WsSkippedInside(s, j, m.w2, depth);
    var k := j + |m.w2|;
    CharSkipped(s, k, ":", depth);
    AtTwo(s, k + 1, m.w3, ValueText(m.v));
    WsSkippedInside(s, k + 1, m.w3, depth);
    InnerValueSkipped(s, k + 1 + |m.w3|, m.v, depth);
  }

  lemma {:induction false} MembersTailSkipped(s: string, i: nat, m: Members, depth: nat)
    requires MembersOk(m) && At(s, i, MembersTail(m)) && depth > 0 && i <= |s|
    ensures i + |MembersTail(m)| <= |s|
    ensures DelimitedEnd(s, i, depth) == DelimitedEnd(s, i + |MembersTail(m)|, depth)
    decreases m, 1
  {
    hide At, Two, DelimitedEnd, MembersText, ValueOk, AllWs, ElemsOk;
    if m.Member? {
      AtTwo(s, i, ",", MembersText(m.rest));
      CharSkipped(s, i, ",", depth);
      MembersSkipped(s, i + 1, m.rest, depth);
    }
  }

  // ------------------------------------------------------------- the end of a value

  /** A scalar ends at the end of the text or at a character no scalar holds. */
  predicate Ends(s: string, i: nat) {
    i == |s| || (i < |s| && EndsScalar(s[i]))
  }

  lemma PlainEnd(s: string, i: nat, v: Value)
    requires ValueOk(v) && At(s, i, ValueText(v)) && (v.Lit? ==> Ends(s, i + |ValueText(v)|))
    ensures i < |s| && !IsWs(s[i])
    ensures PlainValueEnd(s, i) == Some(i + |ValueText(v)|)
  {
    hide At, Three, StringBody, StringText, ScalarText, ItemsText, MembersText, ScalarOk, ElemsOk, ItemsOk, MembersOk,
      AllWs;
    match v
    case Lit(x) =>
      ScalarChars(x);
      AtChar(s, i, ScalarText(x), 0);
      ScalarRead(s, i, ScalarText(x));
    case Str(es) =>
      QuotedRead(s, i, es);
    case EmptyArr(w) =>
      AtThree(s, i, "[", w, "]");
      AtChar(s, i, "[", 0);
      ValueSkipped(s, i, v, 0);
    case EmptyObj(w) =>
      AtThree(s, i, "{", w, "}");
      AtChar(s, i, "{", 0);
      ValueSkipped(s, i, v, 0);
    case Arr(items) =>
      AtThree(s, i, "[", ItemsText(items), "]");
      AtChar(s, i, "[", 0);
      ValueSkipped(s, i, v, 0);
    case Obj(m) =>
      AtThree(s, i, "{", MembersText(m), "}");
      AtChar(s, i, "{", 0);
      ValueSkipped(s, i, v, 0);
  }

  /** scanJSONValue stops exactly at the end of a value. */
  lemma ValueRead(s: string, i: nat, w: string, v: Value)
    requires AllWs(w) && ValueOk(v) && At(s, i, Two(w, ValueText(v)))
    requires v.Lit? ==> Ends(s, i + |Two(w, ValueText(v))|)
    ensures i + |Two(w, ValueText(v))| <= |s|
    ensures ValueEnd(s, i) == Some(i + |Two(w, ValueText(v))|)
  {
    hide At, Two, ValueText, ValueOk, AllWs, PlainValueEnd;
    AtTwo(s, i, w, ValueText(v));
    WsSkipped(s, i, w);
    PlainEnd(s, i + |w|, v);
  }

  // ---------------------------------------------------------------- top-level names

  /** A name as spelled and the position of its opening quote. */
  datatype Name = Name(elems: seq<Elem>, offset: nat)

  /** The names of an object whose members start at i. */
  function Names(m: Members, i: nat): seq<Name>
    decreases m, 1
  {
    [Name(m.name, i + |m.w1|)] + NamesAfter(m, i + |m.w1| + |MemberText(m)| + |m.w4|)
  }

  /** The names after the first member, which with its whitespace ends at n. */
  function NamesAfter(m: Members, n: nat): seq<Name>
    decreases m, 0
  {
    if m.Member? then Names(m.rest, n + 1) else []
  }

  /** keys are the names in order, decoded element by element, where they stand. */
  ghost predicate Reads(keys: seq<Key>, names: seq<Name>) {
    && |keys| == |names|
    && forall k :: 0 <= k < |keys| ==>
        ElemsOk(names[k].elems) && keys[k] == Key(Piecewise(names[k].elems), names[k].offset)
  }

  lemma MemberRead(s: string, i: nat, m: Members)
    requires MembersOk(m) && At(s, i, MemberText(m)) && (m.v.Lit? ==> Ends(s, i + |MemberText(m)|))
    ensures i < |s| && s[i] == '"' && i + |MemberText(m)| <= |s|
    ensures MemberAfter(s, i) == Some(i + |MemberText(m)|)
    ensures StringBody(s, i + 1).value.text == Piecewise(m.name)
  {
    hide At, Two, Four, StringBody, StringText, ValueText, ValueOk, ElemsOk, AllWs, ValueEnd, Ends;
    AtFour(s, i, StringText(m.name), m.w2, ":", Two(m.w3, ValueText(m.v)));
    QuotedRead(s, i, m.name);
    var j := i + |StringText(m.name)|;
    WsSkipped(s, j, m.w2);
    AtChar(s, j + |m.w2|, ":", 0);
    ValueRead(s, j + |m.w2| + 1, m.w3, m.v);
  }

  lemma EndsAfterWs(s: string, i: nat, w: string)
    requires At(s, i, w) && AllWs(w) && Ends(s, i + |w|)
    ensures Ends(s, i)
  {
    if w != "" {
      AtChar(s, i, w, 0);
    }
  }

  lemma AddName(keys: seq<Key>, names: seq<Name>, key: Key, name: Name)
    requires Reads(keys, names) && ElemsOk(name.elems) && key == Key(Piecewise(name.elems), name.offset)
    ensures Reads([key] + keys, [name] + names)
  {}

  /** After a member stands a comma, or the closing brace. */
  lemma TailStart(s: string, n: nat, m: Members)
    requires At(s, n, MembersTail(m)) && At(s, n + |MembersTail(m)|, "}")
    ensures n < |s| && Ends(s, n) && s[n] == (if m.Member? then ',' else '}')
    ensures m.Member? ==> At(s, n + 1, MembersText(m.rest)) && At(s, n + 1 + |MembersText(m.rest)|, "}")
  {
    hide At, Two, MembersText;
    if m.Member? {
      AtTwo(s, n, ",", MembersText(m.rest));
      AtChar(s, n, ",", 0);
    } else {
      AtChar(s, n, "}", 0);
    }
  }

  lemma LastKey(s: string, i: nat, w: string)
    requires At(s, i, w) && AllWs(w) && i + |w| < |s| && s[i + |w|] == '}'
    ensures KeysFrom(s, AfterComma(s, i)) == Some([])
  {
    WsSkipped(s, i, w);
  }

  lemma NextKey(s: string, i: nat, w: string)
    requires At(s, i, w) && AllWs(w) && i + |w| < |s| && s[i + |w|] == ','
    ensures AfterComma(s, i) == SkipWs(s, i + |w| + 1)
  {
    WsSkipped(s, i, w);
  }

  lemma KeysFromQuote(s: string, i: nat, k: nat)
    requires i < |s| && s[i] == '"' && MemberAfter(s, i) == Some(k)
    ensures KeysFrom(s, i) ==
            PrependKeys([Key(StringBody(s, i + 1).value.text, i)], KeysFrom(s, AfterComma(s, k)))
  {
    hide MemberAfter, AfterComma, StringBody, PrependKeys;
  }

  /** One member is read: its key, and then what follows the comma. */
  lemma KeyRead(s: string, i: nat, m: Members, k: nat, n: nat)
    requires MembersOk(m) && At(s, i, MembersText(m)) && At(s, i + |MembersText(m)|, "}")
    requires k == i + |m.w1| + |MemberText(m)| && n == k + |m.w4|
    ensures i <= k <= n < |s| && At(s, k, m.w4) && s[n] == (if m.Member? then ',' else '}')
    ensures KeysFrom(s, SkipWs(s, i)) ==
            PrependKeys([Key(Piecewise(m.name), i + |m.w1|)], KeysFrom(s, AfterComma(s, k)))
    ensures m.Member? ==> At(s, n + 1, MembersText(m.rest)) && At(s, n + 1 + |MembersText(m.rest)|, "}")
  {
    hide At, Two, Four, MemberText, MembersTail, ElemsOk, AllWs, StringBody, MemberAfter, AfterComma, PrependKeys;
    hide KeysFrom;
    AtFour(s, i, m.w1, MemberText(m), m.w4, MembersTail(m));
    TailStart(s, n, m);
    hide MembersText, MembersOk;
    EndsAfterWs(s, k, m.w4);
    MemberRead(s, i + |m.w1|, m);
    WsSkipped(s, i, m.w1);
    KeysFromQuote(s, i + |m.w1|, k);
  }

  /** The members from i on are read as names. */
  ghost predicate KeysFound(s: string, i: nat, names: seq<Name>)
    requires i <= |s|
  {
    KeysFrom(s, i).Some? && Reads(KeysFrom(s, i).value, names)
  }

  lemma KeyFound(s: string, i: nat, next: nat, m: Members, start: nat, n: nat)
    requires i <= |s| && next <= |s| && ElemsOk(m.name)
    requires n == start + |m.w1| + |MemberText(m)| + |m.w4|
    requires KeysFrom(s, i) == PrependKeys([Key(Piecewise(m.name), start + |m.w1|)], KeysFrom(s, next))
    requires KeysFound(s, next, NamesAfter(m, n))
    ensures KeysFound(s, i, Names(m, start))
  {
    hide KeysFrom, Reads, NamesAfter, MemberText;
    AddName(KeysFrom(s, next).value, NamesAfter(m, n), Key(Piecewise(m.name), start + |m.w1|),
            Name(m.name, start + |m.w1|));
  }

  lemma LastFound(s: string, k: nat, m: Members, n: nat)
    requires m.LastMember? && AllWs(m.w4) && At(s, k, m.w4) && n == k + |m.w4| < |s| && s[n] == '}'
    ensures KeysFound(s, AfterComma(s, k), NamesAfter(m, n))
  {
    LastKey(s, k, m.w4);
  }

  lemma NextFound(s: string, k: nat, m: Members, n: nat)
    requires m.Member? && AllWs(m.w4) && At(s, k, m.w4) && n == k + |m.w4| < |s| && s[n] == ','
    requires KeysFound(s, SkipWs(s, n + 1), Names(m.rest, n + 1))
    ensures KeysFound(s, AfterComma(s, k), NamesAfter(m, n))
  {
    hide KeysFound, Names;
    NextKey(s, k, m.w4);
  }

  lemma MembersParts(m: Members)
    requires MembersOk(m)
    ensures AllWs(m.w4) && ElemsOk(m.name) && (m.Member? ==> MembersOk(m.rest))
  {}

  lemma {:induction false} KeysRead(s: string, i: nat, m: Members)
    requires MembersOk(m) && At(s, i, MembersText(m)) && At(s, i + |MembersText(m)|, "}") && i <= |s|
    ensures KeysFound(s, SkipWs(s, i), Names(m, i))
    decreases m
  {
    hide *;
    var k := i + |m.w1| + |MemberText(m)|;
    var n := k + |m.w4|;
    MembersParts(m);
    KeyRead(s, i, m, k, n);
    if m.LastMember? {
      LastFound(s, k, m, n);
    } else {
      KeysRead(s, n + 1, m.rest);
      NextFound(s, k, m, n);
    }
    KeyFound(s, SkipWs(s, i), AfterComma(s, k), m, i, n);
  }

  /** The text of an object, with whitespace before it and anything after it. */
  function ObjectText(w: string, m: Members, tail: string): string {
    Three(w, ValueText(Obj(m)), tail)
  }

  /** In the text of an object with members the top-level names are found, each
      where its opening quote stands, decoded element by element. */
  lemma ObjectKeys(w: string, m: Members, tail: string)
    requires AllWs(w) && MembersOk(m)
    ensures TopLevelKeys(ObjectText(w, m, tail)).Some?
    ensures Reads(TopLevelKeys(ObjectText(w, m, tail)).value, Names(m, |w| + 1))
  {
    var s := ObjectText(w, m, tail);
    hide At, Two, Three, Four, MembersText, MembersOk, AllWs, KeysFrom, Reads, Names;
    AtThree(s, 0, w, ValueText(Obj(m)), tail);
    AtThree(s, |w|, "{", MembersText(m), "}");
    WsSkipped(s, 0, w);
    AtChar(s, |w|, "{", 0);
    KeysRead(s, |w| + 1, m);
  }

  /** The same for an object without members. */
  lemma EmptyObjectKeys(w: string, inner: string, tail: string)
    requires AllWs(w) && AllWs(inner)
    ensures TopLevelKeys(Three(w, ValueText(EmptyObj(inner)), tail)) == Some([])
  {
    var s := Three(w, ValueText(EmptyObj(inner)), tail);
    hide At, Three, AllWs, StringBody, MemberAfter, AfterComma, PrependKeys;
    AtThree(s, 0, w, ValueText(EmptyObj(inner)), tail);
    AtThree(s, |w|, "{", inner, "}");
    WsSkipped(s, 0, w);
    AtChar(s, |w|, "{", 0);
    WsSkipped(s, |w| + 1, inner);
    AtChar(s, |w| + 1 + |inner|, "}", 0);
  }

  /** The k-th name found is the name meant exactly when it is spelled without a
      surrogate pair. */
  lemma NameFoundIsMeant(w: string, m: Members, tail: string, k: nat)
    requires AllWs(w) && MembersOk(m) && k < |Names(m, |w| + 1)|
    ensures var keys := TopLevelKeys(ObjectText(w, m, tail));
            var name := Names(m, |w| + 1)[k];
            && keys.Some? && |keys.value| == |Names(m, |w| + 1)|
            && ElemsOk(name.elems)
            && keys.value[k].offset == name.offset
            && (keys.value[k].name == Meaning(name.elems) <==> !HasPair(name.elems))
  {
    ObjectKeys(w, m, tail);
    hide ObjectText, TopLevelKeys;
    var name := Names(m, |w| + 1)[k];
    assert ElemsOk(name.elems);
    PiecewiseIffNoPair(name.elems);
  }

  /** The elements of the name in {"\\ud83d\\ude00":null}. */
  function FaceName(): (es: seq<Elem>)
    ensures ElemsOk(es)
  {
    var es := [Uni("d83d"), Uni("de00")];
    assert ElemOk(es[0]) && ElemOk(es[1]);
    es
  }

  function FaceObject(): Members {
    LastMember("", FaceName(), "", "", Lit(Null), "")
  }

  lemma FaceMeaning()
    ensures Meaning(FaceName()) == [Byte(0xf0), Byte(0x9f), Byte(0x98), Byte(0x80)]
    ensures Piecewise(FaceName()) == [Byte(0xef), Byte(0xbf), Byte(0xbd), Byte(0xef), Byte(0xbf), Byte(0xbd)]
  {
    var es := FaceName();
    assert HexValue("d83d") == 0xd83d;
    assert HexValue("de00") == 0xde00;
    assert IsHigh(es[0]) && IsLow(es[1]);
    assert PairValue(es[0], es[1]) == 0x1f600;
    assert es[2..] == [];
    assert es[1..] == [es[1]] && es[1..][1..] == [];
  }

  /** The name spelled with the surrogate pair of U+1F600 stands for one character
      and is found as two replacement characters. */
  lemma FaceNameIsLost(w: string, tail: string)
    requires AllWs(w)
    ensures Meaning(FaceName()) == [Byte(0xf0), Byte(0x9f), Byte(0x98), Byte(0x80)]
    ensures TopLevelKeys(ObjectText(w, FaceObject(), tail)) ==
            Some([Key([Byte(0xef), Byte(0xbf), Byte(0xbd), Byte(0xef), Byte(0xbf), Byte(0xbd)], |w| + 1)])
  {
    hide TopLevelKeys, ObjectText, Meaning, Piecewise, HasPair, FaceName;
    FaceMeaning();
    assert AllWs("");
    assert MembersOk(FaceObject());
    ObjectKeys(w, FaceObject(), tail);
    var keys := TopLevelKeys(ObjectText(w, FaceObject(), tail)).value;
    assert Names(FaceObject(), |w| + 1) == [Name(FaceName(), |w| + 1)];
    assert keys == [Key(Piecewise(FaceName()), |w| + 1)];
  }

  lemma {:induction false} NamesStand(s: string, i: nat, m: Members, k: nat)
    requires At(s, i, MembersText(m)) && k < |Names(m, i)|
    ensures At(s, Names(m, i)[k].offset, StringText(Names(m, i)[k].elems))
    decreases m
  {
    hide At, Two, Four, StringText, ValueText;
    AtFour(s, i, m.w1, MemberText(m), m.w4, MembersTail(m));
    var j := i + |m.w1|;
    if k == 0 {
      AtFour(s, j, StringText(m.name), m.w2, ":", Two(m.w3, ValueText(m.v)));
    } else {
      var n := j + |MemberText(m)| + |m.w4|;
      AtTwo(s, n, ",", MembersText(m.rest));
      NamesStand(s, n + 1, m.rest, k - 1);
    }
  }

  /** Every name found stands in the text, quoted, at its offset. */
  lemma NameStands(w: string, m: Members, tail: string, k: nat)
    requires k < |Names(m, |w| + 1)|
    ensures At(ObjectText(w, m, tail), Names(m, |w| + 1)[k].offset, StringText(Names(m, |w| + 1)[k].elems))
  {
    var s := ObjectText(w, m, tail);
    hide At, Three, MembersText, Names, StringText;
    AtThree(s, 0, w, ValueText(Obj(m)), tail);
    AtThree(s, |w|, "{", MembersText(m), "}");
    NamesStand(s, |w| + 1, m, k);
  }

  // -------------------------------------------------------------------- any text

  /** Offsets rise, and each is the position of a quote. */
  ghost predicate OffsetsRise(s: string, keys: seq<Key>, from: nat) {
    && (forall k :: 0 <= k < |keys| ==> from <= keys[k].offset < |s| && s[keys[k].offset] == '"')
    && forall k, l :: 0 <= k < l < |keys| ==> keys[k].offset < keys[l].offset
  }

  lemma {:induction false} KeysRise(s: string, i: nat)
    requires i <= |s| && KeysFrom(s, i).Some?
    ensures OffsetsRise(s, KeysFrom(s, i).value, i)
    decreases |s| - i
  {
    hide StringBody, MemberAfter, AfterComma;
    if s[i] == '"' {
      KeysRise(s, AfterComma(s, MemberAfter(s, i).value));
    }
  }

  /** Whatever the text, the offsets found rise and stand after the opening brace. */
  lemma TopLevelKeysRise(s: string)
    requires TopLevelKeys(s).Some?
    ensures OffsetsRise(s, TopLevelKeys(s).value, 1)
  {
    hide KeysFrom;
    KeysRise(s, SkipWs(s, SkipWs(s, 0) + 1));
  }
}
