/** The JSON scanner (chunk/chunk.go, lines 246 to 423): what each of its loops
    computes, as a function of the text and a position, and the loops. */
module JsonScan {
  import opened JsonText
  import opened Options

  /** A decoded string and the position after its closing quote. */
  datatype Token = Token(text: string, next: nat)

  /** A top-level name and the position of its opening quote. */
  datatype Key = Key(name: string, offset: nat)

  function SkipWs(s: string, i: nat): (r: nat)
    requires i <= |s|
    ensures i <= r <= |s|
    decreases |s| - i
  {
    if i < |s| && IsWs(s[i]) then SkipWs(s, i + 1) else i
  }

  function Prepend(piece: string, t: Option<Token>): Option<Token> {
    if t.Some? then Some(t.value.(text := piece + t.value.text)) else None
  }

  /** The string whose opening quote is just before i. */
  function StringBody(s: string, i: nat): (r: Option<Token>)
    requires i <= |s|
    ensures r.Some? ==> i < r.value.next <= |s|
    decreases |s| - i
  {
    if i == |s| then None
    else if s[i] == '"' then Some(Token("", i + 1))
    else if s[i] != '\\' then Prepend([s[i]], StringBody(s, i + 1))
    else if i + 1 >= |s| then None
    else if IsShortEscape(s[i + 1]) then Prepend([Escaped(s[i + 1])], StringBody(s, i + 2))
    else if s[i + 1] == 'u' && UnicodeEscape(s, i + 2).Some? then
      Prepend(Utf8(UnicodeEscape(s, i + 2).value), StringBody(s, i + 6))
    else None
  }

  /** The four hex digits at i. */
  function UnicodeEscape(s: string, i: nat): (r: Option<nat>)
    ensures r.Some? ==> r.value < 0x10000 && i + 4 <= |s|
  {
    if i + 4 > |s| then None
    else if IsHex4(s[i..i + 4]) then Some(HexValue(s[i..i + 4]))
    else None
  }

  /** The position after the bracket that brings the depth back to zero. */
  function DelimitedEnd(s: string, i: nat, depth: int): (r: Option<nat>)
    requires i <= |s|
    ensures r.Some? ==> i < r.value <= |s|
    decreases |s| - i
  {
    if i == |s| then None
    else if s[i] == '"' then
      var t := StringBody(s, i + 1);
      if t.None? then None else DelimitedEnd(s, t.value.next, depth)
    else if s[i] == '{' || s[i] == '[' then DelimitedEnd(s, i + 1, depth + 1)
    else if s[i] == '}' || s[i] == ']' then
      if depth == 1 then Some(i + 1) else DelimitedEnd(s, i + 1, depth - 1)
    else DelimitedEnd(s, i + 1, depth)
  }

  predicate EndsScalar(c: char) {
    c == ',' || c == '}' || c == ']' || IsWs(c)
  }

  function ScalarEnd(s: string, i: nat): (r: nat)
    requires i <= |s|
    ensures i <= r <= |s|
    decreases |s| - i
  {
    if i < |s| && !EndsScalar(s[i]) then ScalarEnd(s, i + 1) else i
  }

  /** The position after the value that starts at i. */
  function PlainValueEnd(s: string, i: nat): (r: Option<nat>)
    requires i <= |s|
    ensures r.Some? ==> i < r.value <= |s|
  {
    if i == |s| then None
    else if s[i] == '"' then
      var t := StringBody(s, i + 1);
      if t.None? then None else Some(t.value.next)
    else if s[i] == '{' || s[i] == '[' then DelimitedEnd(s, i, 0)
    else if ScalarEnd(s, i) == i then None
    else Some(ScalarEnd(s, i))
  }

  /** The position after the value that starts at i, after whitespace. */
  function ValueEnd(s: string, i: nat): (r: Option<nat>)
    requires i <= |s|
    ensures r.Some? ==> i < r.value <= |s|
  {
    PlainValueEnd(s, SkipWs(s, i))
  }

  /** The position after an optional comma and whitespace. */
  function AfterComma(s: string, i: nat): (r: nat)
    requires i <= |s|
    ensures i <= r <= |s|
  {
    var j := SkipWs(s, i);
    if j < |s| && s[j] == ',' then SkipWs(s, j + 1) else j
  }

  /** The end of the value of the member whose name ends at i. */
  function MemberEnd(s: string, i: nat): (r: Option<nat>)
    requires i <= |s|
    ensures r.Some? ==> i < r.value <= |s|
  {
    var j := SkipWs(s, i);
    if j == |s| || s[j] != ':' then None else ValueEnd(s, j + 1)
  }

  /** The end of the member whose name opens at i. */
  function MemberAfter(s: string, i: nat): (r: Option<nat>)
    requires i < |s|
    ensures r.Some? ==> i < r.value <= |s| && StringBody(s, i + 1).Some?
  {
    if StringBody(s, i + 1).None? then None else MemberEnd(s, StringBody(s, i + 1).value.next)
  }

  function PrependKeys(keys: seq<Key>, r: Option<seq<Key>>): Option<seq<Key>> {
    if r.Some? then Some(keys + r.value) else None
  }

  /** The names from i on, up to the closing brace. */
  function KeysFrom(s: string, i: nat): Option<seq<Key>>
    requires i <= |s|
    decreases |s| - i
  {
    if i == |s| then None
    else if s[i] == '}' then Some([])
    else if s[i] != '"' then None
    else if MemberAfter(s, i).None? then None
    else PrependKeys([Key(StringBody(s, i + 1).value.text, i)], KeysFrom(s, AfterComma(s, MemberAfter(s, i).value)))
  }

  function TopLevelKeys(s: string): Option<seq<Key>> {
    var i := SkipWs(s, 0);
    if i == |s| || s[i] != '{' then None else KeysFrom(s, SkipWs(s, i + 1))
  }

  // ------------------------------------------------------------------ the loops

  method SkipJSONWS(s: string, start: nat) returns (i: nat)
    requires start <= |s|
    ensures i == SkipWs(s, start)
  {
    i := start;
    while i < |s|
      invariant start <= i <= |s| && SkipWs(s, i) == SkipWs(s, start)
    {
      if !IsWs(s[i]) {
        return;
      }
      i := i + 1;
    }
  }

  method ScanJSONString(s: string, start: nat) returns (r: Option<Token>)
    requires start <= |s|
    ensures r == if start < |s| && s[start] == '"' then StringBody(s, start + 1) else None
  {
    if start >= |s| || s[start] != '"' {
      return None;
    }
    var b: string := "";
    var i := start + 1;
    PrependNothing(StringBody(s, i));
    while i < |s|
      invariant start + 1 <= i <= |s|
      invariant StringBody(s, start + 1) == Prepend(b, StringBody(s, i))
    {
      var c := s[i];
      if c == '"' {
        assert b + "" == b;
        return Some(Token(b, i + 1));
      } else if c == '\\' {
        if i + 1 >= |s| {
          return None;
        }
        var esc := s[i + 1];
        if IsShortEscape(esc) {
          PrependTwice(b, [Escaped(esc)], StringBody(s, i + 2));
          b := b + [Escaped(esc)];
          i := i + 2;
        } else if esc == 'u' {
          var v := UnicodeEscape(s, i + 2);
          if v.None? {
            return None;
          }
          PrependTwice(b, Utf8(v.value), StringBody(s, i + 6));
          b := b + Utf8(v.value);
          i := i + 6;
        } else {
          return None;
        }
      } else {
        PrependTwice(b, [c], StringBody(s, i + 1));
        b := b + [c];
        i := i + 1;
      }
    }
    return None;
  }

  lemma PrependNothing(t: Option<Token>)
    ensures Prepend("", t) == t
  {
    if t.Some? {
      assert "" + t.value.text == t.value.text;
    }
  }

  lemma PrependTwice(a: string, b: string, t: Option<Token>)
    ensures Prepend(a, Prepend(b, t)) == Prepend(a + b, t)
  {
    if t.Some? {
      assert a + (b + t.value.text) == a + b + t.value.text;
    }
  }

  method ScanJSONDelimited(s: string, start: nat) returns (r: Option<nat>)
    requires start <= |s|
    ensures r == DelimitedEnd(s, start, 0)
  {
    var depth := 0;
    var i := start;
    while i < |s|
      invariant start <= i <= |s| && DelimitedEnd(s, start, 0) == DelimitedEnd(s, i, depth)
    {
      var c := s[i];
      if c == '"' {
        var t := ScanJSONString(s, i);
        if t.None? {
          return None;
        }
        i := t.value.next;
      } else {
        if c == '{' || c == '[' {
          depth := depth + 1;
        } else if c == '}' || c == ']' {
          depth := depth - 1;
          if depth == 0 {
            return Some(i + 1);
          }
        }
        i := i + 1;
      }
    }
    return None;
  }

  method ScanJSONScalar(s: string, start: nat) returns (r: Option<nat>)
    requires start <= |s|
    ensures r == if ScalarEnd(s, start) == start then None else Some(ScalarEnd(s, start))
  {
    var i := start;
    while i < |s|
      invariant start <= i <= |s| && ScalarEnd(s, i) == ScalarEnd(s, start)
    {
      if EndsScalar(s[i]) {
        break;
      }
      i := i + 1;
    }
    return if i == start then None else Some(i);
  }

  method ScanJSONValue(s: string, start: nat) returns (r: Option<nat>)
    requires start <= |s|
    ensures r == ValueEnd(s, start)
  {
    var i := SkipJSONWS(s, start);
    if i >= |s| {
      return None;
    }
    if s[i] == '"' {
      var t := ScanJSONString(s, i);
      r := if t.None? then None else Some(t.value.next);
    } else if s[i] == '{' || s[i] == '[' {
      r := ScanJSONDelimited(s, i);
    } else {
      r := ScanJSONScalar(s, i);
    }
  }

  method TopLevelJSONKeys(s: string) returns (r: Option<seq<Key>>)
    ensures r == TopLevelKeys(s)
  {
    KeysStart(s);
    hide KeysFrom, StringBody, SkipWs, PrependKeys, ValueEnd, TopLevelKeys;
    var i := SkipJSONWS(s, 0);
    if i >= |s| || s[i] != '{' {
      return None;
    }
    i := SkipJSONWS(s, i + 1);
    var members: seq<Key> := [];
    while true
      invariant i <= |s|
      invariant TopLevelKeys(s) == PrependKeys(members, KeysFrom(s, i))
      decreases |s| - i
    {
      KeysStep(s, i, members);
      if i >= |s| {
        return None;
      }
      if s[i] == '}' {
        return Some(members);
      }
      if s[i] != '"' {
        return None;
      }
      var start := i;
      var t := ScanJSONString(s, i);
      if t.None? {
        return None;
      }
      i := SkipJSONWS(s, t.value.next);
      if i >= |s| || s[i] != ':' {
        return None;
      }
      var end := ScanJSONValue(s, i + 1);
      if end.None? {
        return None;
      }
      members := members + [Key(t.value.text, start)];
      i := SkipJSONWS(s, end.value);
      if i < |s| && s[i] == ',' {
        i := SkipJSONWS(s, i + 1);
      }
    }
  }

  /** One turn of the loop over the members. */
  lemma KeysStep(s: string, i: nat, before: seq<Key>)
    requires i <= |s|
    ensures i < |s| && s[i] == '}' ==> PrependKeys(before, KeysFrom(s, i)) == Some(before)
    ensures i == |s| || (s[i] != '}' && s[i] != '"') ==> PrependKeys(before, KeysFrom(s, i)) == None
    ensures i < |s| && s[i] == '"' && MemberAfter(s, i).None? ==> PrependKeys(before, KeysFrom(s, i)) == None
    ensures i < |s| && s[i] == '"' && MemberAfter(s, i).Some? ==>
              PrependKeys(before, KeysFrom(s, i)) ==
              PrependKeys(before + [Key(StringBody(s, i + 1).value.text, i)],
                          KeysFrom(s, AfterComma(s, MemberAfter(s, i).value)))
  {
    assert before + [] == before;
    if i < |s| && s[i] == '"' && MemberAfter(s, i).Some? {
      PrependKeysTwice(before, [Key(StringBody(s, i + 1).value.text, i)],
                       KeysFrom(s, AfterComma(s, MemberAfter(s, i).value)));
    }
  }

  lemma KeysStart(s: string)
    ensures var i := SkipWs(s, 0);
            if i == |s| || s[i] != '{' then TopLevelKeys(s) == None
            else TopLevelKeys(s) == PrependKeys([], KeysFrom(s, SkipWs(s, i + 1)))
  {
    hide KeysFrom, SkipWs;
    var i := SkipWs(s, 0);
    if i < |s| && s[i] == '{' {
      var r := KeysFrom(s, SkipWs(s, i + 1));
      assert r.Some? ==> [] + r.value == r.value;
    }
  }

  lemma PrependKeysTwice(a: seq<Key>, b: seq<Key>, r: Option<seq<Key>>)
    ensures PrependKeys(a, PrependKeys(b, r)) == PrependKeys(a + b, r)
  {
    if r.Some? {
      assert a + (b + r.value) == a + b + r.value;
    }
  }
}
