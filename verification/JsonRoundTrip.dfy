/** Reading back what was written (RFC 8259). */
module JsonRoundTrip {
  import opened JsonText

  /** The values the server sends: exact integers, any strings, keys without NUL. */
  predicate Sendable(v: Json)
    decreases v
  {
    match v
    case Int(i) => -EXACT <= i <= EXACT
    case Float(_) => false
    case Arr(items) => forall i :: 0 <= i < |items| ==> Sendable(items[i])
    case Obj(ms) => forall i :: 0 <= i < |ms| ==> NoNul(ms[i].key) && Sendable(ms[i].value)
    case _ => true
  }

  predicate NoNul(s: Bytes) {
    forall i :: 0 <= i < |s| ==> s[i] != 0
  }

  /** `here` stands at `p`. */
  predicate At(t: Bytes, p: nat, here: Bytes) {
    p + |here| <= |t| && t[p..p + |here|] == here
  }

  lemma AtSplit(t: Bytes, p: nat, a: Bytes, b: Bytes)
    requires At(t, p, a + b)
    ensures At(t, p, a) && At(t, p + |a|, b) && p + |a| + |b| <= |t|
  {
    assert t[p..p + |a|] == t[p..p + |a + b|][..|a|];
    assert t[p + |a|..p + |a| + |b|] == t[p..p + |a + b|][|a|..];
  }

  lemma AtFirst(t: Bytes, p: nat, here: Bytes, i: nat)
    requires At(t, p, here) && i < |here|
    ensures p + |here| <= |t| && t[p + i] == here[i]
  {
    assert t[p..p + |here|][i] == here[i];
  }

  // ----- strings -----

  lemma HexBack(d: int)
    requires 0 <= d < 16
    ensures HexValue(Hex(d)) == Some(d)
  {
  }

  /** The escape of one byte is read as that byte. */
  lemma EscapeBack(t: Bytes, p: nat, c: Byte)
    requires At(t, p, EscapeByte(c)) && EscapeByte(c)[0] == BACKSLASH
    ensures ParseEscape(t, p + 1) == Some(([c], p + |EscapeByte(c)|))
  {
    var e := EscapeByte(c);
    AtFirst(t, p, e, 1);
    if |e| == 6 {
      var n := c as int;
      AtFirst(t, p, e, 2);
      AtFirst(t, p, e, 3);
      AtFirst(t, p, e, 4);
      AtFirst(t, p, e, 5);
      HexBack(n / 16);
      HexBack(n % 16);
      assert HexValue(48) == Some(0);
      assert Hex4(t, p + 2) == Some(n);
      assert Utf8(n) == [c];
    }
  }

  lemma {:induction false} StringBack(t: Bytes, p: nat, s: Bytes)
    requires At(t, p, EscapeAll(s) + [QUOTE])
    ensures ParseString(t, p) == Some((s, p + |EscapeAll(s)| + 1))
    decreases |s|
  {
    hide At, ParseString, EscapeByte;
    var text := EscapeAll(s) + [QUOTE];
    AtFirst(t, p, text, 0);
    if s == [] {
      StringEnd(t, p);
    } else {
      var e, rest := EscapeByte(s[0]), EscapeAll(s[1..]) + [QUOTE];
      EscapeShape(s[0]);
      assert text == e + rest;
      AtSplit(t, p, e, rest);
      StringBack(t, p + |e|, s[1..]);
      if e[0] == BACKSLASH {
        EscapeBack(t, p, s[0]);
      }
      StringStep(t, p, s[0], p + |e|);
      assert [s[0]] + s[1..] == s;
    }
  }

  lemma EscapeShape(c: Byte)
    ensures var e := EscapeByte(c);
            |e| > 0 && e[0] != QUOTE && (e[0] != BACKSLASH ==> e == [c])
  {
  }

  lemma StringEnd(t: Bytes, p: nat)
    requires p < |t| && t[p] == QUOTE
    ensures var r := ParseString(t, p); r.Some? && r.value.0 == [] && r.value.1 == p + 1
  {
  }

  /** One byte of a string, written as itself or as an escape. */
  lemma StringStep(t: Bytes, p: nat, c: Byte, q: nat)
    requires p < |t| && t[p] != QUOTE && ParseString(t, q).Some?
    requires if t[p] == BACKSLASH then ParseEscape(t, p + 1) == Some(([c], q)) else t[p] == c && q == p + 1
    ensures ParseString(t, p) == Some(([c] + ParseString(t, q).value.0, ParseString(t, q).value.1))
  {
  }

  lemma {:induction false} NoNulKept(s: Bytes)
    requires NoNul(s)
    ensures UpToNul(s) == s
    decreases |s|
  {
    if s != [] {
      NoNulKept(s[1..]);
    }
  }

  // ----- integers -----

  lemma {:induction false} DigitsBack(n: nat)
    ensures AllDigits(Digits(n)) && DigitsValue(Digits(n)) == n
    decreases n
  {
    if n >= 10 {
      DigitsBack(n / 10);
      var d := Digits(n);
      assert d[..|d| - 1] == Digits(n / 10);
    }
  }

  lemma {:induction false} DigitsShort(n: nat, k: nat)
    requires n < Ten(k) && k > 0
    ensures |Digits(n)| <= k
    decreases k
  {
    if n >= 10 {
      DigitsShort(n / 10, k - 1);
    }
  }

  function Ten(k: nat): nat {
    if k == 0 then 1 else 10 * Ten(k - 1)
  }

  lemma ExactIsShort(n: nat)
    requires n <= EXACT
    ensures |Digits(n)| <= 16
  {
    assert Ten(4) == 10000;
    assert Ten(8) == 10000 * Ten(4);
    assert Ten(12) == 10000 * Ten(8);
    assert Ten(16) == 10000 * Ten(12);
    DigitsShort(n, 16);
  }

  lemma {:induction false} NumberEndAt(t: Bytes, p: nat, here: Bytes)
    requires At(t, p, here) && forall i :: 0 <= i < |here| ==> IsNumberChar(here[i])
    requires p + |here| < |t| ==> !IsNumberChar(t[p + |here|])
    ensures NumberEnd(t, p) == p + |here|
    decreases |here|
  {
    if here != [] {
      AtFirst(t, p, here, 0);
      AtSplit(t, p, here[..1], here[1..]) by {
        assert here[..1] + here[1..] == here;
      }
      NumberEndAt(t, p + 1, here[1..]);
    }
  }

  lemma IntBack(t: Bytes, p: nat, i: int)
    requires At(t, p, IntText(i)) && -EXACT <= i <= EXACT
    requires p + |IntText(i)| < |t| ==> !IsNumberChar(t[p + |IntText(i)|])
    ensures ParseNumber(t, p) == Some((Int(i), p + |IntText(i)|))
  {
    hide At, Digits, DigitsValue, NumberEnd;
    var n := if i < 0 then -i else i;
    DigitsBack(n);
    ExactIsShort(n);
    var text := IntText(i);
    AtFirst(t, p, text, 0);
    AtIs(t, p, text);
    if i < 0 {
      AtSplit(t, p, [MINUS], Digits(n));
      NumberEndAt(t, p + 1, Digits(n));
      assert text[1..] == Digits(n);
    } else {
      NumberEndAt(t, p, text);
    }
    NumberIs(text, i);
  }

  lemma AtIs(t: Bytes, p: nat, here: Bytes)
    requires At(t, p, here)
    ensures p + |here| <= |t| && t[p..p + |here|] == here
  {
  }

  lemma NumberIs(text: Bytes, i: int)
    requires text == IntText(i) && -EXACT <= i <= EXACT
    ensures NumberOf(text) == Int(i)
  {
    hide Digits, DigitsValue;
    var n := if i < 0 then -i else i;
    DigitsBack(n);
    if i < 0 {
      assert text[1..] == Digits(n);
    }
  }

  // ----- values -----

  /** A number must not run on into what follows it. */
  predicate Stops(t: Bytes, end: nat) {
    end < |t| ==> !IsNumberChar(t[end])
  }

  lemma {:induction false} FirstByte(v: Json)
    requires Sendable(v)
    ensures var s := Text(v); |s| > 0 && !IsSpace(s[0]) && s[0] != RBRACKET && s[0] != RBRACE
  {
  }

  lemma NoSpace(t: Bytes, p: nat)
    requires p < |t| ==> !IsSpace(t[p])
    ensures SkipSpace(t, p) == p
  {
  }

  lemma {:induction false} ValueBack(t: Bytes, p: nat, v: Json)
    requires Sendable(v) && At(t, p, Text(v)) && Stops(t, p + |Text(v)|)
    ensures ParseValue(t, p) == Some((v, p + |Text(v)|))
    decreases v, 2
  {
    hide ParseArray, ParseObject, ParseString, ParseNumber, SkipSpace, ItemsText, MembersText, EscapeAll, Digits;
    var s := Text(v);
    FirstByte(v);
    AtFirst(t, p, s, 0);
    NoSpace(t, p);
    match v
    case Null =>
    case Bool(b) =>
    case Int(i) => IntBack(t, p, i);
    case Float(_) =>
    case Str(bytes) =>
      assert s == [QUOTE] + (EscapeAll(bytes) + [QUOTE]);
      AtSplit(t, p, [QUOTE], EscapeAll(bytes) + [QUOTE]);
      StringBack(t, p + 1, bytes);
    case Arr(items) => ArrayBack(t, p, items);
    case Obj(members) => ObjectBack(t, p, members);
  }

  lemma {:induction false} ArrayBack(t: Bytes, p: nat, items: seq<Json>)
    requires Sendable(Arr(items)) && At(t, p, Text(Arr(items)))
    ensures ParseArray(t, p + 1) == Some((items, p + |Text(Arr(items))|))
    decreases items, 1
  {
    hide ParseItems;
    var body := ItemsText(items) + [RBRACKET];
    assert Text(Arr(items)) == [LBRACKET] + body;
    AtSplit(t, p, [LBRACKET], body);
    AtFirst(t, p + 1, body, 0);
    if items != [] {
      FirstByte(items[0]);
      assert body[0] == Text(items[0])[0];
      NoSpace(t, p + 1);
      ItemsBack(t, p + 1, items);
    } else {
      assert body[0] == RBRACKET;
      NoSpace(t, p + 1);
    }
  }

  lemma {:induction false} ItemsBack(t: Bytes, p: nat, items: seq<Json>)
    requires items != [] && (forall i :: 0 <= i < |items| ==> Sendable(items[i]))
    requires At(t, p, ItemsText(items) + [RBRACKET])
    ensures ParseItems(t, p) == Some((items, p + |ItemsText(items)| + 1))
    decreases items, 0
  {
    hide ParseValue, ParseItems, Text, At, SkipSpace, Sendable;
    var first := Text(items[0]);
    var text := ItemsText(items) + [RBRACKET];
    if |items| == 1 {
      assert text == first + [RBRACKET];
      AtSplit(t, p, first, [RBRACKET]);
      AtFirst(t, p + |first|, [RBRACKET], 0);
      NoSpace(t, p + |first|);
      ValueBack(t, p, items[0]);
      LastItem(t, p, items[0], p + |first|);
      assert [items[0]] == items;
    } else {
      var rest := ItemsText(items[1..]) + [RBRACKET];
      assert text == first + ([COMMA] + rest);
      AtSplit(t, p, first, [COMMA] + rest);
      AtFirst(t, p + |first|, [COMMA] + rest, 0);
      AtSplit(t, p + |first|, [COMMA], rest);
      NoSpace(t, p + |first|);
      ValueBack(t, p, items[0]);
      FirstOfRest(items[1..]);
      AtFirst(t, p + |first| + 1, rest, 0);
      NoSpace(t, p + |first| + 1);
      ItemsBack(t, p + |first| + 1, items[1..]);
      NextItem(t, p, items[0], p + |first|, items[1..], p + |text|);
      assert [items[0]] + items[1..] == items;
    }
  }

  lemma LastItem(t: Bytes, p: nat, v: Json, q: nat)
    requires ParseValue(t, p) == Some((v, q)) && q < |t| && SkipSpace(t, q) == q && t[q] == RBRACKET
    ensures ParseItems(t, p) == Some(([v], q + 1))
  {
  }

  lemma NextItem(t: Bytes, p: nat, v: Json, q: nat, rest: seq<Json>, end: nat)
    requires ParseValue(t, p) == Some((v, q)) && q < |t| && SkipSpace(t, q) == q && t[q] == COMMA
    requires SkipSpace(t, q + 1) == q + 1 && ParseItems(t, q + 1) == Some((rest, end))
    ensures ParseItems(t, p) == Some(([v] + rest, end))
  {
  }

  lemma FirstOfRest(items: seq<Json>)
    requires items != [] && Sendable(items[0])
    ensures var s := ItemsText(items) + [RBRACKET]; |s| > 0 && !IsSpace(s[0])
  {
    FirstByte(items[0]);
    assert (ItemsText(items) + [RBRACKET])[0] == Text(items[0])[0];
  }

  lemma {:induction false} ObjectBack(t: Bytes, p: nat, members: seq<Member>)
    requires Sendable(Obj(members)) && At(t, p, Text(Obj(members)))
    ensures ParseObject(t, p + 1) == Some((members, p + |Text(Obj(members))|))
    decreases members, 3
  {
    hide ParseMembers;
    var body := MembersText(members) + [RBRACE];
    assert Text(Obj(members)) == [LBRACE] + body;
    AtSplit(t, p, [LBRACE], body);
    AtFirst(t, p + 1, body, 0);
    if members != [] {
      assert body[0] == QUOTE;
      NoSpace(t, p + 1);
      MembersBack(t, p + 1, members);
    } else {
      assert body[0] == RBRACE;
      NoSpace(t, p + 1);
    }
  }

  function MemberText(m: Member): Bytes {
    StringText(UpToNul(m.key)) + [COLON] + Text(m.value)
  }

  lemma {:induction false} MemberBack(t: Bytes, p: nat, m: Member)
    requires NoNul(m.key) && Sendable(m.value) && At(t, p, MemberText(m)) && Stops(t, p + |MemberText(m)|)
    ensures ParseMember(t, p) == Some((m, p + |MemberText(m)|))
    decreases m, 3
  {
    hide ParseValue, ParseString, Text, EscapeAll;
    NoNulKept(m.key);
    var key, value := EscapeAll(m.key) + [QUOTE], Text(m.value);
    assert MemberText(m) == [QUOTE] + (key + ([COLON] + value));
    AtSplit(t, p, [QUOTE], key + ([COLON] + value));
    AtSplit(t, p + 1, key, [COLON] + value);
    AtSplit(t, p + 1 + |key|, [COLON], value);
    AtFirst(t, p, [QUOTE], 0);
    AtFirst(t, p + 1 + |key|, [COLON], 0);
    NoSpace(t, p);
    NoSpace(t, p + 1 + |key|);
    StringBack(t, p + 1, m.key);
    assert m.value < m;
    ValueBack(t, p + 2 + |key|, m.value);
  }

  lemma {:induction false} MembersBack(t: Bytes, p: nat, members: seq<Member>)
    requires members != [] && (forall i :: 0 <= i < |members| ==> NoNul(members[i].key) && Sendable(members[i].value))
    requires At(t, p, MembersText(members) + [RBRACE])
    ensures ParseMembers(t, p) == Some((members, p + |MembersText(members)| + 1))
    decreases members, 2
  {
    hide ParseMember, ParseMembers, Text, StringText, At, SkipSpace, Sendable;
    var first := MemberText(members[0]);
    var text := MembersText(members) + [RBRACE];
    if |members| == 1 {
      assert text == first + [RBRACE];
      AtSplit(t, p, first, [RBRACE]);
      AtFirst(t, p + |first|, [RBRACE], 0);
      NoSpace(t, p + |first|);
      MemberBack(t, p, members[0]);
      LastMember(t, p, members[0], p + |first|);
      assert [members[0]] == members;
    } else {
      var rest := MembersText(members[1..]) + [RBRACE];
      assert text == first + ([COMMA] + rest);
      AtSplit(t, p, first, [COMMA] + rest);
      AtFirst(t, p + |first|, [COMMA] + rest, 0);
      AtSplit(t, p + |first|, [COMMA], rest);
      NoSpace(t, p + |first|);
      MemberBack(t, p, members[0]);
      MembersBack(t, p + |first| + 1, members[1..]);
      NextMember(t, p, members[0], p + |first|, members[1..], p + |text|);
      assert [members[0]] + members[1..] == members;
    }
  }

  lemma LastMember(t: Bytes, p: nat, m: Member, q: nat)
    requires ParseMember(t, p) == Some((m, q)) && q < |t| && SkipSpace(t, q) == q && t[q] == RBRACE
    ensures ParseMembers(t, p) == Some(([m], q + 1))
  {
  }

  lemma NextMember(t: Bytes, p: nat, m: Member, q: nat, rest: seq<Member>, end: nat)
    requires ParseMember(t, p) == Some((m, q)) && q < |t| && SkipSpace(t, q) == q && t[q] == COMMA
    requires ParseMembers(t, q + 1) == Some((rest, end))
    ensures ParseMembers(t, p) == Some(([m] + rest, end))
  {
  }

  /** Parsing the text of a value, followed by the end or any delimiter, gives the
      value and stops right behind its text. */
  lemma RoundTrip(v: Json, rest: Bytes)
    requires Sendable(v) && (rest == [] || !IsNumberChar(rest[0]))
    ensures ParseValue(Text(v) + rest, 0) == Some((v, |Text(v)|))
  {
    var t := Text(v) + rest;
    assert t[0..|Text(v)|] == Text(v);
    ValueBack(t, 0, v);
  }

  /** Different values have different texts. */
  lemma TextInjective(v: Json, u: Json)
    requires Sendable(v) && Sendable(u) && Text(v) == Text(u)
    ensures v == u
  {
    RoundTrip(v, []);
    RoundTrip(u, []);
  }
}
