/** JSON texts (RFC 8259, sections 2 to 7): the grammar as trees that keep their
    whitespace and spelling, and the text of a tree. A text is a string of bytes. */
module JsonText {

  predicate IsWs(c: char) {
    c == ' ' || c == '\t' || c == '\r' || c == '\n'
  }

  predicate AllWs(w: string) {
    forall i :: 0 <= i < |w| ==> IsWs(w[i])
  }

  function Two(a: string, b: string): string {
    a + b
  }

  function Three(a: string, b: string, c: string): string {
    a + (b + c)
  }

  function Four(a: string, b: string, c: string, d: string): string {
    a + (b + (c + d))
  }

  // -------------------------------------------------------------------- strings

  /** A character of a string as spelled: itself, a two-character escape, or \u. */
  datatype Elem = Raw(c: char) | Esc(e: char) | Uni(hex: string)

  predicate IsHex(c: char) {
    '0' <= c <= '9' || 'a' <= c <= 'f' || 'A' <= c <= 'F'
  }

  predicate IsHex4(h: string) {
    |h| == 4 && IsHex(h[0]) && IsHex(h[1]) && IsHex(h[2]) && IsHex(h[3])
  }

  function HexDigit(c: char): (v: nat)
    requires IsHex(c)
    ensures v < 16
  {
    if c <= '9' then c as nat - '0' as nat
    else if c <= 'F' then c as nat - 'A' as nat + 10
    else c as nat - 'a' as nat + 10
  }

  function HexValue(h: string): (v: nat)
    requires IsHex4(h)
    ensures v < 0x10000
  {
    HexDigit(h[0]) * 0x1000 + HexDigit(h[1]) * 0x100 + HexDigit(h[2]) * 0x10 + HexDigit(h[3])
  }

  predicate IsShortEscape(c: char) {
    c == '"' || c == '\\' || c == '/' || c == 'b' || c == 'f' || c == 'n' || c == 'r' || c == 't'
  }

  predicate ElemOk(e: Elem) {
    match e
    case Raw(c) => 32 <= c as int < 256 && c != '"' && c != '\\'
    case Esc(c) => IsShortEscape(c)
    case Uni(h) => IsHex4(h)
  }

  function ElemText(e: Elem): (t: string)
    ensures |t| > 0
  {
    match e
    case Raw(c) => [c]
    case Esc(c) => "\\" + [c]
    case Uni(h) => "\\u" + h
  }

  predicate ElemsOk(es: seq<Elem>) {
    forall i :: 0 <= i < |es| ==> ElemOk(es[i])
  }

  /** The characters and the closing quote. */
  function RestOfString(es: seq<Elem>): string {
    if es == [] then "\"" else Two(ElemText(es[0]), RestOfString(es[1..]))
  }

  function StringText(es: seq<Elem>): string {
    Two("\"", RestOfString(es))
  }

  // -------------------------------------------------------------------- scalars

  predicate IsDigits(d: string) {
    |d| > 0 && forall i :: 0 <= i < |d| ==> '0' <= d[i] <= '9'
  }

  datatype Scalar = Null | True | False | Number(minus: bool, whole: string, frac: string, exp: string)

  predicate FracOk(f: string) {
    f == "" || (f[0] == '.' && IsDigits(f[1..]))
  }

  predicate SignedDigits(d: string) {
    d != "" && (d[0] == '+' || d[0] == '-') && IsDigits(d[1..])
  }

  predicate ExpOk(e: string) {
    e == "" || ((e[0] == 'e' || e[0] == 'E') && (IsDigits(e[1..]) || SignedDigits(e[1..])))
  }

  predicate ScalarOk(x: Scalar) {
    x.Number? ==>
      && IsDigits(x.whole) && (x.whole[0] == '0' ==> |x.whole| == 1)
      && FracOk(x.frac) && ExpOk(x.exp)
  }

  function ScalarText(x: Scalar): string {
    match x
    case Null => "null"
    case True => "true"
    case False => "false"
    case Number(minus, whole, frac, exp) => (if minus then "-" else "") + whole + frac + exp
  }

  // --------------------------------------------------------------------- values

  /** A value; every w is whitespace. */
  datatype Value =
    | Lit(scalar: Scalar)
    | Str(chars: seq<Elem>)
    | EmptyArr(w: string)
    | Arr(items: Items)
    | EmptyObj(w: string)
    | Obj(members: Members)

  /** Array items: whitespace, a value, whitespace, with commas between. */
  datatype Items = LastItem(w1: string, v: Value, w2: string) | Item(w1: string, v: Value, w2: string, rest: Items)

  /** Object members: w1 name w2 ":" w3 value w4, with commas between. */
  datatype Members =
    | LastMember(w1: string, name: seq<Elem>, w2: string, w3: string, v: Value, w4: string)
    | Member(w1: string, name: seq<Elem>, w2: string, w3: string, v: Value, w4: string, rest: Members)

  predicate ValueOk(v: Value) {
    match v
    case Lit(x) => ScalarOk(x)
    case Str(es) => ElemsOk(es)
    case EmptyArr(w) => AllWs(w)
    case Arr(items) => ItemsOk(items)
    case EmptyObj(w) => AllWs(w)
    case Obj(members) => MembersOk(members)
  }

  predicate ItemsOk(items: Items) {
    && AllWs(items.w1) && ValueOk(items.v) && AllWs(items.w2)
    && (items.Item? ==> ItemsOk(items.rest))
  }

  predicate MembersOk(m: Members) {
    && AllWs(m.w1) && ElemsOk(m.name) && AllWs(m.w2) && AllWs(m.w3) && ValueOk(m.v) && AllWs(m.w4)
    && (m.Member? ==> MembersOk(m.rest))
  }

  function ValueText(v: Value): string
    decreases v, 2
  {
    match v
    case Lit(x) => ScalarText(x)
    case Str(es) => StringText(es)
    case EmptyArr(w) => Three("[", w, "]")
    case Arr(items) => Three("[", ItemsText(items), "]")
    case EmptyObj(w) => Three("{", w, "}")
    case Obj(members) => Three("{", MembersText(members), "}")
  }

  function ItemsText(items: Items): string
    decreases items, 2
  {
    Four(items.w1, ValueText(items.v), items.w2, ItemsTail(items))
  }

  /** What follows an item. */
  function ItemsTail(items: Items): string
    decreases items, 1
  {
    if items.Item? then Two(",", ItemsText(items.rest)) else ""
  }

  function MembersText(m: Members): string
    decreases m, 2
  {
    Four(m.w1, MemberText(m), m.w4, MembersTail(m))
  }

  /** From the name to the value. */
  function MemberText(m: Members): string
    decreases m, 1
  {
    Four(StringText(m.name), m.w2, ":", Two(m.w3, ValueText(m.v)))
  }

  /** What follows a member. */
  function MembersTail(m: Members): string
    decreases m, 1
  {
    if m.Member? then Two(",", MembersText(m.rest)) else ""
  }

  // ------------------------------------------------------------ decoding of names

  predicate IsHigh(e: Elem) {
    e.Uni? && IsHex4(e.hex) && 0xd800 <= HexValue(e.hex) < 0xdc00
  }

  predicate IsLow(e: Elem) {
    e.Uni? && IsHex4(e.hex) && 0xdc00 <= HexValue(e.hex) < 0xe000
  }

  function Byte(n: nat): char
    requires n < 256
  {
    n as char
  }

  /** UTF-8; a surrogate is written as U+FFFD. */
  function Utf8(v: nat): string
    requires v < 0x110000
  {
    if v < 0x80 then [Byte(v)]
    else if v < 0x800 then [Byte(0xc0 + v / 0x40), Byte(0x80 + v % 0x40)]
    else if 0xd800 <= v < 0xe000 then [Byte(0xef), Byte(0xbf), Byte(0xbd)]
    else if v < 0x10000 then [Byte(0xe0 + v / 0x1000), Byte(0x80 + v / 0x40 % 0x40), Byte(0x80 + v % 0x40)]
    else [Byte(0xf0 + v / 0x40000), Byte(0x80 + v / 0x1000 % 0x40), Byte(0x80 + v / 0x40 % 0x40),
          Byte(0x80 + v % 0x40)]
  }

  function Escaped(c: char): char {
    match c
    case 'n' => '\n'
    case 't' => '\t'
    case 'r' => '\r'
    case 'b' => 8 as char
    case 'f' => 12 as char
    case _ => c
  }

  /** One element decoded on its own. */
  function ElemMeaning(e: Elem): string
    requires ElemOk(e)
  {
    match e
    case Raw(c) => [c]
    case Esc(c) => [Escaped(c)]
    case Uni(h) => Utf8(HexValue(h))
  }

  function PairValue(hi: Elem, lo: Elem): (v: nat)
    requires IsHigh(hi) && IsLow(lo)
    ensures 0x10000 <= v < 0x110000
  {
    0x10000 + (HexValue(hi.hex) - 0xd800) * 0x400 + (HexValue(lo.hex) - 0xdc00)
  }

  /** The text a string stands for (section 7): a high and a low surrogate escape
      in a row are one character. A surrogate on its own is read as U+FFFD. */
  function Meaning(es: seq<Elem>): string
    requires ElemsOk(es)
  {
    if es == [] then ""
    else if |es| > 1 && IsHigh(es[0]) && IsLow(es[1]) then Utf8(PairValue(es[0], es[1])) + Meaning(es[2..])
    else ElemMeaning(es[0]) + Meaning(es[1..])
  }

  /** Every element decoded on its own. */
  function Piecewise(es: seq<Elem>): string
    requires ElemsOk(es)
  {
    if es == [] then "" else ElemMeaning(es[0]) + Piecewise(es[1..])
  }

  predicate HasPair(es: seq<Elem>) {
    exists i :: 0 <= i < |es| - 1 && IsHigh(es[i]) && IsLow(es[i + 1])
  }

  /** Decoding element by element gives the text a string stands for exactly when
      the string has no surrogate pair; with one it is longer. */
  lemma {:induction false} PiecewiseIffNoPair(es: seq<Elem>)
    requires ElemsOk(es)
    ensures !HasPair(es) ==> Piecewise(es) == Meaning(es)
    ensures HasPair(es) ==> |Piecewise(es)| > |Meaning(es)|
  {
    if |es| > 1 && IsHigh(es[0]) && IsLow(es[1]) {
      PiecewiseIffNoPair(es[2..]);
      assert es[1..][1..] == es[2..];
      assert HasPair(es);
    } else if es != [] {
      PiecewiseIffNoPair(es[1..]);
    }
  }

  // ------------------------------------------------------------- what the bytes mean

  /** The bits of a byte that follows. */
  function Bits(c: char): int {
    c as int - 0x80
  }

  /** t is a character as section 3 of RFC 3629 has it: a leading byte for the length,
      and six bits in each byte that follows; v is its value. */
  ghost predicate Encodes(t: string, v: int) {
    && 1 <= |t| <= 4
    && (forall i :: 1 <= i < |t| ==> 0 <= Bits(t[i]) < 64)
    && var c := t[0] as int;
       match |t|
       case 1 => 0 <= c < 0x80 && v == c
       case 2 => 0xc0 <= c < 0xe0 && v == (c - 0xc0) * 64 + Bits(t[1]) && v >= 0x80
       case 3 => 0xe0 <= c < 0xf0 && v == ((c - 0xe0) * 64 + Bits(t[1])) * 64 + Bits(t[2]) && v >= 0x800
       case _ =>
         && 0xf0 <= c < 0xf8 && v >= 0x10000
         && v == (((c - 0xf0) * 64 + Bits(t[1])) * 64 + Bits(t[2])) * 64 + Bits(t[3])
  }

  lemma SixBits(v: nat)
    ensures v == v / 64 * 64 + v % 64 && v / 64 == v / 64 / 64 * 64 + v / 64 % 64
    ensures v / 64 / 64 == v / 64 / 64 / 64 * 64 + v / 64 / 64 % 64
    ensures v / 0x1000 == v / 64 / 64 && v / 0x40000 == v / 64 / 64 / 64
  {}

  /** A character is written as UTF-8 has it; for a surrogate stands U+FFFD. */
  lemma Utf8Encodes(v: nat)
    requires v < 0x110000
    ensures Encodes(Utf8(v), if 0xd800 <= v < 0xe000 then 0xfffd else v)
  {
    if v < 0x800 {
      Utf8Short(v);
    } else if v < 0x10000 {
      Utf8Three(v);
    } else {
      Utf8Four(v);
    }
  }

  lemma Utf8Short(v: nat)
    requires v < 0x800
    ensures Encodes(Utf8(v), v)
  {}

  lemma Utf8Three(v: nat)
    requires 0x800 <= v < 0x10000
    ensures Encodes(Utf8(v), if 0xd800 <= v < 0xe000 then 0xfffd else v)
  {
    SixBits(v);
    assert (0xef - 0xe0) * 64 * 64 + (0xbf - 0x80) * 64 + (0xbd - 0x80) == 0xfffd;
  }

  lemma Utf8Four(v: nat)
    requires 0x10000 <= v < 0x110000
    ensures Encodes(Utf8(v), v)
  {
    SixBits(v);
  }

  /** The value of a digit is its place in the list of digits, in either case. */
  lemma HexDigitMeans(c: char)
    requires IsHex(c)
    ensures c == "0123456789abcdef"[HexDigit(c)] || c == "0123456789ABCDEF"[HexDigit(c)]
  {}

  lemma HexDigitsAre(c: char)
    ensures IsHex(c) <==> exists k :: 0 <= k < 16 && (c == "0123456789abcdef"[k] || c == "0123456789ABCDEF"[k])
  {
    if IsHex(c) {
      HexDigitMeans(c);
    }
  }

  /** Four digits are read in base sixteen. */
  lemma HexValueMeans(h: string)
    requires IsHex4(h)
    ensures HexValue(h) == ((HexDigit(h[0]) * 16 + HexDigit(h[1])) * 16 + HexDigit(h[2])) * 16 + HexDigit(h[3])
  {}

  /** The two-character escapes of section 7. */
  lemma EscapesMean(e: char)
    ensures ElemOk(Esc(e)) <==> e as int in {34, 92, 47, 98, 102, 110, 114, 116}
    ensures ElemOk(Esc(e)) ==>
              ElemMeaning(Esc(e)) == [(match e as int
                                       case 98 => 8
                                       case 102 => 12
                                       case 110 => 10
                                       case 114 => 13
                                       case 116 => 9
                                       case other => other) as char]
  {}
}
