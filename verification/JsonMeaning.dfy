/** What the parser reads beyond the server's own texts: white space between tokens,
    numbers of any form, and every escape (RFC 8259; UTF-8 is RFC 3629). */
module JsonMeaning {
  import opened JsonText
  import opened JsonRoundTrip

  // ----- white space -----

  /** Space, tab, line feed and carriage return. */
  predicate Blank(c: Byte) {
    c == 32 || c == 9 || c == 10 || c == 13
  }

  predicate Blanks(s: Bytes) {
    forall i :: 0 <= i < |s| ==> Blank(s[i])
  }

  /** A value with what stands between its tokens. */
  datatype Spaced =
    | Scalar(v: Json)
    | Array(empty: Bytes, items: seq<Item>)
    | Object(empty: Bytes, pairs: seq<Pair>)

  datatype Item = Item(before: Bytes, item: Spaced, after: Bytes)

  datatype Pair = Pair(before: Bytes, key: Bytes, mid: Bytes, gap: Bytes, value: Spaced, after: Bytes)

  predicate Proper(d: Spaced)
    decreases d
  {
    match d
    case Scalar(v) => Sendable(v) && !v.Arr? && !v.Obj?
    case Array(e, items) =>
      Blanks(e) && forall i :: 0 <= i < |items| ==> Blanks(items[i].before) && Proper(items[i].item) && Blanks(items[i].after)
    case Object(e, pairs) =>
      Blanks(e) && forall i :: 0 <= i < |pairs| ==>
        && Blanks(pairs[i].before) && NoNul(pairs[i].key) && Blanks(pairs[i].mid) && Blanks(pairs[i].gap)
        && Proper(pairs[i].value) && Blanks(pairs[i].after)
  }

  function Meant(d: Spaced): Json
    decreases d
  {
    match d
    case Scalar(v) => v
    case Array(_, items) => Arr(seq(|items|, i requires 0 <= i < |items| => Meant(items[i].item)))
    case Object(_, pairs) => Obj(seq(|pairs|, i requires 0 <= i < |pairs| => Member(pairs[i].key, Meant(pairs[i].value))))
  }

  function Laid(d: Spaced): Bytes
    decreases d, 1
  {
    match d
    case Scalar(v) => Text(v)
    case Array(e, items) => [LBRACKET] + (if items == [] then e + [RBRACKET] else LaidItems(items))
    case Object(e, pairs) => [LBRACE] + (if pairs == [] then e + [RBRACE] else LaidPairs(pairs))
  }

  /** One or more items, and the closing bracket. */
  function LaidItems(items: seq<Item>): Bytes
    requires items != []
    decreases items, 0
  {
    var i := items[0];
    assert i.item < i;
    i.before + (Laid(i.item) + (i.after + (if |items| == 1 then [RBRACKET] else [COMMA] + LaidItems(items[1..]))))
  }

  function LaidPairs(pairs: seq<Pair>): Bytes
    requires pairs != []
    decreases pairs, 0
  {
    var m := pairs[0];
    assert m.value < m;
    m.before + LaidPair(m) + (if |pairs| == 1 then [RBRACE] else [COMMA] + LaidPairs(pairs[1..]))
  }

  /** From the key on. */
  function LaidPair(m: Pair): Bytes
    decreases m, 2
  {
    [QUOTE] + (EscapeAll(m.key) + [QUOTE] + (m.mid + ([COLON] + (m.gap + (Laid(m.value) + m.after)))))
  }

  lemma {:induction false} SkipBlanks(t: Bytes, p: nat, g: Bytes)
    requires At(t, p, g) && Blanks(g) && (p + |g| < |t| ==> !Blank(t[p + |g|]))
    ensures SkipSpace(t, p) == p + |g|
    decreases |g|
  {
    if g != [] {
      AtFirst(t, p, g, 0);
      assert g == [g[0]] + g[1..];
      AtSplit(t, p, [g[0]], g[1..]);
      SkipBlanks(t, p + 1, g[1..]);
    }
  }

  /** A value's text starts with no blank, and no bracket that closes. */
  lemma StartsSolid(d: Spaced)
    requires Proper(d)
    ensures Laid(d) != [] && !Blank(Laid(d)[0]) && Laid(d)[0] != RBRACKET && Laid(d)[0] != RBRACE
  {
    if d.Scalar? {
      FirstByte(d.v);
    }
  }

  lemma BlankIs(c: Byte)
    ensures Blank(c) <==> IsSpace(c)
    ensures Blank(c) ==> !IsNumberChar(c)
  {
  }

  /** What follows a value: a blank or a delimiter. */
  predicate Ends(t: Bytes, p: nat) {
    p < |t| ==> Blank(t[p]) || t[p] == COMMA || t[p] == RBRACKET || t[p] == RBRACE
  }

  lemma EndsStops(t: Bytes, p: nat)
    requires Ends(t, p)
    ensures Stops(t, p)
  {
  }

  /** A value behind any blanks, with any blanks between its tokens, is read as the value. */
  lemma {:induction false} SpacedBack(t: Bytes, p: nat, g: Bytes, d: Spaced)
    requires Proper(d) && Blanks(g) && At(t, p, g + Laid(d)) && Ends(t, p + |g| + |Laid(d)|)
    ensures ParseValue(t, p) == Some((Meant(d), p + |g| + |Laid(d)|))
    decreases d, 4
  {
    hide ParseArray, ParseObject, ParseString, ParseNumber, SkipSpace, LaidItems, LaidPairs, Text, Sendable, At;
    AtSplit(t, p, g, Laid(d));
    StartsSolid(d);
    var q := p + |g|;
    AtFirst(t, q, Laid(d), 0);
    SkipBlanks(t, p, g);
    SkipNone(t, q);
    match d
    case Scalar(v) =>
      EndsStops(t, q + |Laid(d)|);
      ValueBack(t, q, v);
      SameValue(t, p, q);
    case Array(e, items) => ItemsOf(t, q, e, items);
    case Object(e, pairs) => PairsOf(t, q, e, pairs);
  }

  lemma SkipNone(t: Bytes, p: nat)
    requires p < |t| && !Blank(t[p])
    ensures SkipSpace(t, p) == p
  {
  }

  /** Leading blanks are skipped. */
  lemma SameValue(t: Bytes, p: nat, q: nat)
    requires SkipSpace(t, p) == q && SkipSpace(t, q) == q
    ensures ParseValue(t, p) == ParseValue(t, q)
  {
    hide ParseArray, ParseObject, ParseString, ParseNumber, SkipSpace;
  }

  lemma EmptyArray(t: Bytes, from: nat, q: nat)
    requires SkipSpace(t, from) == q && q < |t| && t[q] == RBRACKET
    ensures var r := ParseArray(t, from); r.Some? && r.value.0 == [] && r.value.1 == q + 1
  {
    hide SkipSpace, ParseItems;
  }

  lemma FullArray(t: Bytes, from: nat, q: nat)
    requires SkipSpace(t, from) == q && q < |t| && t[q] != RBRACKET
    ensures ParseArray(t, from) == ParseItems(t, q)
  {
    hide SkipSpace, ParseItems;
  }

  lemma {:induction false} ItemsOf(t: Bytes, p: nat, e: Bytes, items: seq<Item>)
    requires Proper(Array(e, items)) && At(t, p, Laid(Array(e, items)))
    ensures ParseArray(t, p + 1) == Some((Meant(Array(e, items)).items, p + |Laid(Array(e, items))|))
    decreases items, 3
  {
    hide ParseArray, ParseItems, SkipSpace, LaidItems, At;
    if items == [] {
      assert Laid(Array(e, [])) == [LBRACKET] + (e + [RBRACKET]);
      hide Laid;
      AtSplit(t, p, [LBRACKET], e + [RBRACKET]);
      AtSplit(t, p + 1, e, [RBRACKET]);
      AtFirst(t, p + 1 + |e|, [RBRACKET], 0);
      SkipBlanks(t, p + 1, e);
      EmptyArray(t, p + 1, p + 1 + |e|);
      assert Meant(Array(e, items)).items == [];
    } else {
      assert Laid(Array(e, items)) == [LBRACKET] + LaidItems(items);
      assert Proper(items[0].item) && Blanks(items[0].before);
      hide Laid;
      FirstItem(t, p, items);
      FullArray(t, p + 1, p + 1 + |items[0].before|);
      ItemsBackS(t, p + 1 + |items[0].before|, items);
      assert Meant(Array(e, items)).items == Meant(Array([], items)).items;
    }
  }

  /** Up to the first byte of the first item. */
  lemma FirstItem(t: Bytes, p: nat, items: seq<Item>)
    requires items != [] && Proper(items[0].item) && Blanks(items[0].before) && At(t, p, [LBRACKET] + LaidItems(items))
    ensures var n, s := |items[0].before|, LaidItems(items);
            && n <= |s| && At(t, p + 1 + n, s[n..]) && SkipSpace(t, p + 1) == p + 1 + n
            && p + 1 + n < |t| && t[p + 1 + n] != RBRACKET
  {
    hide SkipSpace, LaidItems, At, Proper;
    var before, n := items[0].before, |items[0].before|;
    AtSplit(t, p, [LBRACKET], LaidItems(items));
    ItemShape(items);
    var rest := LaidItems(items)[n..];
    AtSplit(t, p + 1, before, rest);
    StartsSolid(items[0].item);
    AtFirst(t, p + 1 + n, rest, 0);
    hide Laid;
    SkipBlanks(t, p + 1, before);
  }

  lemma ItemShape(items: seq<Item>)
    requires items != [] && Proper(items[0].item)
    ensures var i := items[0];
            var rest := Laid(i.item) + (i.after + (if |items| == 1 then [RBRACKET] else [COMMA] + LaidItems(items[1..])));
            && LaidItems(items) == i.before + rest && LaidItems(items)[|i.before|..] == rest
            && rest != [] && rest[0] == Laid(i.item)[0] && Laid(i.item) != []
  {
    StartsSolid(items[0].item);
    hide Laid;
  }

  /** Items from the first byte of the first on. */
  lemma {:induction false} ItemsBackS(t: Bytes, p: nat, items: seq<Item>)
    requires items != [] && (forall i :: 0 <= i < |items| ==> Blanks(items[i].before) && Proper(items[i].item) && Blanks(items[i].after))
    requires var s := LaidItems(items); |items[0].before| <= |s| && At(t, p, s[|items[0].before|..])
    ensures ParseItems(t, p) == Some((Meant(Array([], items)).items, p + |LaidItems(items)| - |items[0].before|))
    decreases items, 2
  {
    hide ParseValue, ParseItems, SkipSpace, Laid, LaidItems, At, Proper;
    var i := items[0];
    assert i.item < i;
    ItemShape(items);
    var close := if |items| == 1 then [RBRACKET] else [COMMA] + LaidItems(items[1..]);
    var text := Laid(i.item);
    var q := p + |text| + |i.after|;
    Delimited(t, p, text, i.after, close);
    assert [] + text == text;
    SpacedBack(t, p, [], i.item);
    if |items| == 1 {
      LastItemS(t, p, Meant(i.item), p + |text|, q);
      assert Meant(Array([], items)).items == [Meant(i.item)];
    } else {
      var rest := items[1..];
      AtSplit(t, q, [COMMA], LaidItems(rest));
      ItemShape(rest);
      var tail := LaidItems(rest)[|rest[0].before|..];
      AtSplit(t, q + 1, rest[0].before, tail);
      StartsSolid(rest[0].item);
      AtFirst(t, q + 1 + |rest[0].before|, tail, 0);
      SkipBlanks(t, q + 1, rest[0].before);
      ItemsBackS(t, q + 1 + |rest[0].before|, rest);
      NextItemS(t, p, Meant(i.item), p + |text|, q, q + 1 + |rest[0].before|, Meant(Array([], rest)).items, q + 1 + |LaidItems(rest)|);
      assert Meant(Array([], items)).items == [Meant(i.item)] + Meant(Array([], rest)).items;
    }
  }

  /** What stands behind a text: blanks, and then a delimiter. */
  lemma Delimited(t: Bytes, p: nat, text: Bytes, after: Bytes, close: Bytes)
    requires At(t, p, text + (after + close)) && Blanks(after) && close != []
    requires close[0] == COMMA || close[0] == RBRACKET || close[0] == RBRACE
    ensures var q := p + |text| + |after|;
            && At(t, p, text) && At(t, p + |text|, after) && At(t, q, close) && q < |t| && t[q] == close[0]
            && Ends(t, p + |text|) && SkipSpace(t, p + |text|) == q
  {
    hide At, SkipSpace;
    AtSplit(t, p, text, after + close);
    AtSplit(t, p + |text|, after, close);
    AtFirst(t, p + |text| + |after|, close, 0);
    AfterEnds(t, p + |text|, after);
    SkipBlanks(t, p + |text|, after);
  }

  /** Behind a value stand its blanks, and then a delimiter. */
  lemma AfterEnds(t: Bytes, p: nat, g: Bytes)
    requires At(t, p, g) && Blanks(g) && p + |g| < |t|
    requires t[p + |g|] == COMMA || t[p + |g|] == RBRACKET || t[p + |g|] == RBRACE
    ensures Ends(t, p)
  {
    if g != [] {
      AtFirst(t, p, g, 0);
    }
  }

  lemma LastItemS(t: Bytes, p: nat, v: Json, q0: nat, q: nat)
    requires ParseValue(t, p) == Some((v, q0)) && SkipSpace(t, q0) == q && q < |t| && t[q] == RBRACKET
    ensures ParseItems(t, p) == Some(([v], q + 1))
  {
    hide ParseValue, SkipSpace;
  }

  lemma NextItemS(t: Bytes, p: nat, v: Json, q0: nat, q: nat, r: nat, rest: seq<Json>, end: nat)
    requires ParseValue(t, p) == Some((v, q0)) && SkipSpace(t, q0) == q && q < |t| && t[q] == COMMA
    requires SkipSpace(t, q + 1) == r && ParseItems(t, r) == Some((rest, end))
    ensures ParseItems(t, p) == Some(([v] + rest, end))
  {
    hide ParseValue, SkipSpace;
  }

  lemma EmptyObject(t: Bytes, from: nat, q: nat)
    requires SkipSpace(t, from) == q && q < |t| && t[q] == RBRACE
    ensures var r := ParseObject(t, from); r.Some? && r.value.0 == [] && r.value.1 == q + 1
  {
    hide SkipSpace, ParseMembers;
  }

  lemma FullObject(t: Bytes, from: nat, q: nat)
    requires SkipSpace(t, from) == q && q < |t| && t[q] != RBRACE
    ensures ParseObject(t, from) == ParseMembers(t, q)
  {
    hide SkipSpace, ParseMembers;
  }

  lemma {:induction false} PairsOf(t: Bytes, p: nat, e: Bytes, pairs: seq<Pair>)
    requires Proper(Object(e, pairs)) && At(t, p, Laid(Object(e, pairs)))
    ensures ParseObject(t, p + 1) == Some((Meant(Object(e, pairs)).members, p + |Laid(Object(e, pairs))|))
    decreases pairs, 3
  {
    hide ParseObject, ParseMembers, SkipSpace, LaidPairs, At;
    if pairs == [] {
      assert Laid(Object(e, [])) == [LBRACE] + (e + [RBRACE]);
      hide Laid;
      AtSplit(t, p, [LBRACE], e + [RBRACE]);
      AtSplit(t, p + 1, e, [RBRACE]);
      AtFirst(t, p + 1 + |e|, [RBRACE], 0);
      SkipBlanks(t, p + 1, e);
      EmptyObject(t, p + 1, p + 1 + |e|);
      assert Meant(Object(e, pairs)).members == [];
    } else {
      assert Laid(Object(e, pairs)) == [LBRACE] + LaidPairs(pairs);
      assert Blanks(pairs[0].before) && Proper(Object([], pairs));
      hide Laid, Proper;
      FirstPair(t, p, pairs);
      var n, rest := |pairs[0].before|, LaidPairs(pairs)[|pairs[0].before|..];
      FullObject(t, p + 1, p + 1 + n);
      assert [] + rest == rest;
      PairsBackS(t, p + 1 + n, [], pairs);
      assert Meant(Object(e, pairs)).members == Meant(Object([], pairs)).members;
    }
  }

  lemma FirstPair(t: Bytes, p: nat, pairs: seq<Pair>)
    requires pairs != [] && Blanks(pairs[0].before) && At(t, p, [LBRACE] + LaidPairs(pairs))
    ensures var n, s := |pairs[0].before|, LaidPairs(pairs);
            && n <= |s| && At(t, p + 1 + n, s[n..]) && SkipSpace(t, p + 1) == p + 1 + n
            && p + 1 + n < |t| && t[p + 1 + n] != RBRACE
  {
    hide SkipSpace, LaidPairs, LaidPair, At;
    var before, n := pairs[0].before, |pairs[0].before|;
    AtSplit(t, p, [LBRACE], LaidPairs(pairs));
    PairShape(pairs);
    var rest := LaidPairs(pairs)[n..];
    AtSplit(t, p + 1, before, rest);
    AtFirst(t, p + 1 + n, rest, 0);
    SkipBlanks(t, p + 1, before);
  }

  lemma PairShape(pairs: seq<Pair>)
    requires pairs != []
    ensures var m := pairs[0];
            var rest := LaidPair(m) + (if |pairs| == 1 then [RBRACE] else [COMMA] + LaidPairs(pairs[1..]));
            && LaidPairs(pairs) == m.before + rest && LaidPairs(pairs)[|m.before|..] == rest && rest != [] && rest[0] == QUOTE
  {
    hide Laid;
  }

  /** Pairs from the first key's quote on, behind blanks. */
  lemma {:induction false} PairsBackS(t: Bytes, p: nat, g: Bytes, pairs: seq<Pair>)
    requires pairs != [] && Blanks(g) && Proper(Object([], pairs))
    requires var s := LaidPairs(pairs); |pairs[0].before| <= |s| && At(t, p, g + s[|pairs[0].before|..])
    ensures ParseMembers(t, p) == Some((Meant(Object([], pairs)).members, p + |g| + |LaidPairs(pairs)| - |pairs[0].before|))
    decreases pairs, 2
  {
    hide ParseMember, ParseMembers, SkipSpace, Laid, LaidPair, LaidPairs, At, Proper;
    var m := pairs[0];
    PairShape(pairs);
    var close := if |pairs| == 1 then [RBRACE] else [COMMA] + LaidPairs(pairs[1..]);
    FirstPairProper(pairs);
    var q := p + |g| + |LaidPair(m)|;
    PairDelimited(t, p, g, m, close);
    PairBack(t, p, g, m);
    var v := Member(m.key, Meant(m.value));
    if |pairs| == 1 {
      LastMemberS(t, p, v, q - |m.after|, q);
      assert Meant(Object([], pairs)).members == [v];
    } else {
      var rest := pairs[1..];
      AtSplit(t, q, [COMMA], LaidPairs(rest));
      PairShape(rest);
      PairsBackS(t, q + 1, rest[0].before, rest);
      NextMemberS(t, p, v, q - |m.after|, q, Meant(Object([], rest)).members, q + 1 + |LaidPairs(rest)|);
      assert Meant(Object([], pairs)).members == [v] + Meant(Object([], rest)).members;
    }
  }

  lemma PairDelimited(t: Bytes, p: nat, g: Bytes, m: Pair, close: Bytes)
    requires At(t, p, g + (LaidPair(m) + close)) && Blanks(m.after) && close != [] && (close[0] == COMMA || close[0] == RBRACE)
    ensures |m.after| <= |LaidPair(m)|
    ensures var q := p + |g| + |LaidPair(m)|;
            && At(t, p, g + LaidPair(m)) && At(t, q, close) && q < |t| && t[q] == close[0]
            && SkipSpace(t, q - |m.after|) == q
  {
    hide At, SkipSpace, LaidPair;
    assert g + (LaidPair(m) + close) == (g + LaidPair(m)) + close;
    AtSplit(t, p, g + LaidPair(m), close);
    AtSplit(t, p, g, LaidPair(m));
    var q := p + |g| + |LaidPair(m)|;
    AtFirst(t, q, close, 0);
    AtEndOf(t, p + |g|, m);
    SkipBlanks(t, q - |m.after|, m.after);
  }

  lemma FirstPairProper(pairs: seq<Pair>)
    requires pairs != [] && Proper(Object([], pairs))
    ensures var m := pairs[0];
            && Blanks(m.before) && NoNul(m.key) && Blanks(m.mid) && Blanks(m.gap) && Proper(m.value) && Blanks(m.after)
    ensures |pairs| > 1 ==> Proper(Object([], pairs[1..])) && Blanks(pairs[1].before)
  {
  }

  /** The blanks behind a pair's value. */
  lemma AtEndOf(t: Bytes, p: nat, m: Pair)
    requires At(t, p, LaidPair(m))
    ensures |m.after| <= |LaidPair(m)| && At(t, p + |LaidPair(m)| - |m.after|, m.after)
  {
    hide At;
    var n := |LaidPair(m)| - |m.after|;
    assert LaidPair(m) == LaidPair(m)[..n] + m.after;
    AtSplit(t, p, LaidPair(m)[..n], m.after);
  }

  /** A pair up to the colon. */
  lemma KeyBack(t: Bytes, p: nat, g: Bytes, m: Pair)
    requires Blanks(g) && Blanks(m.mid) && At(t, p, g + LaidPair(m))
    ensures var s := p + |g|;
            var q0 := s + 1 + |EscapeAll(m.key)| + 1;
            var q := q0 + |m.mid|;
            && s < |t| && t[s] == QUOTE && SkipSpace(t, p) == s && ParseString(t, s + 1) == Some((m.key, q0))
            && SkipSpace(t, q0) == q && q < |t| && t[q] == COLON && At(t, q + 1, m.gap + (Laid(m.value) + m.after))
            && q + 1 + |m.gap| + |Laid(m.value)| + |m.after| == p + |g| + |LaidPair(m)|
  {
    hide ParseValue, ParseString, SkipSpace, Laid, EscapeAll, At;
    var key, tail := EscapeAll(m.key) + [QUOTE], m.gap + (Laid(m.value) + m.after);
    var s := p + |g|;
    AtSplit(t, p, g, LaidPair(m));
    PairText(m);
    hide LaidPair;
    AtSplit(t, s, [QUOTE], key + (m.mid + ([COLON] + tail)));
    AtFirst(t, s, [QUOTE], 0);
    SkipBlanks(t, p, g);
    AtSplit(t, s + 1, key, m.mid + ([COLON] + tail));
    StringBack(t, s + 1, m.key);
    var q0 := s + 1 + |key|;
    AtSplit(t, q0, m.mid, [COLON] + tail);
    AtSplit(t, q0 + |m.mid|, [COLON], tail);
    AtFirst(t, q0 + |m.mid|, [COLON], 0);
    SkipBlanks(t, q0, m.mid);
  }

  lemma PairText(m: Pair)
    ensures LaidPair(m) == [QUOTE] + ((EscapeAll(m.key) + [QUOTE]) + (m.mid + ([COLON] + (m.gap + (Laid(m.value) + m.after)))))
  {
    hide Laid, EscapeAll;
  }

  lemma {:induction false} PairBack(t: Bytes, p: nat, g: Bytes, m: Pair)
    requires Blanks(g) && NoNul(m.key) && Blanks(m.mid) && Blanks(m.gap) && Proper(m.value) && Blanks(m.after)
    requires At(t, p, g + LaidPair(m))
    requires var q := p + |g| + |LaidPair(m)|; q < |t| && (t[q] == COMMA || t[q] == RBRACE)
    ensures ParseMember(t, p) == Some((Member(m.key, Meant(m.value)), p + |g| + |LaidPair(m)| - |m.after|))
    decreases m, 3
  {
    hide ParseValue, ParseString, SkipSpace, Laid, LaidPair, EscapeAll, At, Proper;
    var value := Laid(m.value);
    var s := p + |g|;
    var q0 := s + 1 + |EscapeAll(m.key)| + 1;
    var q := q0 + |m.mid|;
    KeyBack(t, p, g, m);
    assert m.gap + (value + m.after) == (m.gap + value) + m.after;
    AtSplit(t, q + 1, m.gap + value, m.after);
    var end := q + 1 + |m.gap| + |value|;
    AfterEnds(t, end, m.after);
    assert m.value < m;
    SpacedBack(t, q + 1, m.gap, m.value);
    MemberStep(t, p, s, m.key, q0, q, Meant(m.value), end);
  }

  lemma MemberStep(t: Bytes, p: nat, s: nat, key: Bytes, q0: nat, q: nat, v: Json, end: nat)
    requires SkipSpace(t, p) == s && s < |t| && t[s] == QUOTE && ParseString(t, s + 1) == Some((key, q0))
    requires SkipSpace(t, q0) == q && q < |t| && t[q] == COLON && ParseValue(t, q + 1) == Some((v, end))
    ensures ParseMember(t, p) == Some((Member(key, v), end))
  {
    hide ParseValue, ParseString, SkipSpace;
  }

  lemma LastMemberS(t: Bytes, p: nat, m: Member, q0: nat, q: nat)
    requires ParseMember(t, p) == Some((m, q0)) && SkipSpace(t, q0) == q && q < |t| && t[q] == RBRACE
    ensures ParseMembers(t, p) == Some(([m], q + 1))
  {
    hide ParseMember, SkipSpace;
  }

  lemma NextMemberS(t: Bytes, p: nat, m: Member, q0: nat, q: nat, rest: seq<Member>, end: nat)
    requires ParseMember(t, p) == Some((m, q0)) && SkipSpace(t, q0) == q && q < |t| && t[q] == COMMA
    requires ParseMembers(t, q + 1) == Some((rest, end))
    ensures ParseMembers(t, p) == Some(([m] + rest, end))
  {
    hide ParseMember, SkipSpace;
  }

  /** Blanks before a value and between its tokens change nothing. */
  lemma BlanksDoNotMatter(before: Bytes, d: Spaced, rest: Bytes)
    requires Proper(d) && Blanks(before)
    requires rest == [] || Blank(rest[0]) || rest[0] == COMMA || rest[0] == RBRACKET || rest[0] == RBRACE
    ensures ParseValue(before + Laid(d) + rest, 0) == Some((Meant(d), |before| + |Laid(d)|))
  {
    hide Laid, Meant, Proper, ParseValue, At, Blanks, Ends;
    var here := before + Laid(d);
    AtFront(here, rest);
    SpacedBack(here + rest, 0, before, d);
  }

  lemma AtFront(here: Bytes, rest: Bytes)
    requires rest == [] || Blank(rest[0]) || rest[0] == COMMA || rest[0] == RBRACKET || rest[0] == RBRACE
    ensures At(here + rest, 0, here) && Ends(here + rest, |here|)
  {
    assert (here + rest)[0..|here|] == here;
  }

  // ----- numbers -----

  /** A character of a number: a digit, `.`, `e`, `E` or a sign. */
  predicate InNumber(c: Byte) {
    48 <= c <= 57 || c == 46 || c == 101 || c == 69 || c == 43 || c == 45
  }

  /** A number is read whole, whatever its form, up to 63 characters; longer ones are
      refused. */
  lemma NumberIsWhole(t: Bytes, p: nat, n: nat)
    requires 0 < n && p + n <= |t| && (forall i :: p <= i < p + n ==> InNumber(t[i])) && (p + n < |t| ==> !InNumber(t[p + n]))
    ensures n < 64 ==> ParseNumber(t, p) == Some((NumberOf(t[p..p + n]), p + n))
    ensures n >= 64 ==> ParseNumber(t, p).None?
  {
    hide NumberEnd;
    EndOfRun(t, p, p + n);
    if t[p] == MINUS || t[p] == PLUS {
      EndOfRun(t, p + 1, p + n);
    }
  }

  lemma {:induction false} EndOfRun(t: Bytes, p: nat, q: nat)
    requires p <= q <= |t| && (forall i :: p <= i < q ==> InNumber(t[i])) && (q < |t| ==> !InNumber(t[q]))
    ensures NumberEnd(t, p) == q
    decreases q - p
  {
    if p < q {
      EndOfRun(t, p + 1, q);
    }
  }

  /** Digits up to 2^53 are that integer, and all else keeps its text. */
  lemma IntegersAreExact(s: Bytes)
    ensures AllDigits(s) && DigitsValue(s) <= 9007199254740992 ==> NumberOf(s) == Int(DigitsValue(s))
    ensures !AllDigits(s) && (s == [] || (s[0] != MINUS && s[0] != PLUS)) ==> NumberOf(s) == Float(s)
    ensures AllDigits(s) && DigitsValue(s) > 9007199254740992 ==> NumberOf(s) == Float(s)
  {
    if AllDigits(s) {
      assert IsDigit(s[0]);
    }
  }

  // ----- escapes -----

  predicate Reads(r: Parsed<Bytes>, bytes: Bytes, end: nat) {
    r == Some((bytes, end))
  }

  /** The value of a hexadecimal digit, and -1 for what is none. */
  function HexOf(c: Byte): int {
    if 48 <= c <= 57 then c as int - 48 else if 65 <= c <= 70 then c as int - 55 else if 97 <= c <= 102 then c as int - 87 else -1
  }

  lemma HexDigits(c: Byte)
    ensures HexValue(c) == if HexOf(c) < 0 then None else Some(HexOf(c))
  {
  }

  /** The eight short escapes; `e` is the letter behind the backslash. */
  lemma ShortEscapes(t: Bytes, p: nat)
    requires p < |t|
    ensures t[p] == 34 || t[p] == 92 || t[p] == 47 ==> Reads(ParseEscape(t, p), [t[p]], p + 1)
    ensures t[p] == 98 ==> Reads(ParseEscape(t, p), [8], p + 1)
    ensures t[p] == 102 ==> Reads(ParseEscape(t, p), [12], p + 1)
    ensures t[p] == 110 ==> Reads(ParseEscape(t, p), [10], p + 1)
    ensures t[p] == 114 ==> Reads(ParseEscape(t, p), [13], p + 1)
    ensures t[p] == 116 ==> Reads(ParseEscape(t, p), [9], p + 1)
    ensures t[p] !in {34, 92, 47, 98, 102, 110, 114, 116, 117} ==> ParseEscape(t, p) == None
  {
  }

  /** Four hexadecimal digits stand at `p` and have this value. */
  predicate FourDigits(t: Bytes, p: nat, v: nat) {
    && p + 4 <= |t| && HexOf(t[p]) >= 0 && HexOf(t[p + 1]) >= 0 && HexOf(t[p + 2]) >= 0 && HexOf(t[p + 3]) >= 0
    && v == 4096 * HexOf(t[p]) + 256 * HexOf(t[p + 1]) + 16 * HexOf(t[p + 2]) + HexOf(t[p + 3])
  }

  lemma FourDigitsRead(t: Bytes, p: nat, v: nat)
    requires FourDigits(t, p, v)
    ensures Hex4(t, p) == Some(v)
  {
    hide HexValue;
    HexDigits(t[p]);
    HexDigits(t[p + 1]);
    HexDigits(t[p + 2]);
    HexDigits(t[p + 3]);
  }

  /** `\uXXXX` is the character of that code, and two of them that are surrogates the one
      beyond the basic plane that UTF-16 writes so. */
  lemma UnicodeEscapes(t: Bytes, p: nat, v: nat, w: nat)
    requires p < |t| && t[p] == LOWER_U && FourDigits(t, p + 1, v)
    ensures v < 0x10000
    ensures !(0xD800 <= v <= 0xDBFF) ==> Reads(ParseEscape(t, p), Utf8(v), p + 5)
    ensures 0xD800 <= v <= 0xDBFF && 0xDC00 <= w <= 0xDFFF && p + 7 <= |t| && t[p + 5] == BACKSLASH && t[p + 6] == LOWER_U
            && FourDigits(t, p + 7, w) ==>
              0x10000 + (v - 0xD800) * 0x400 + (w - 0xDC00) < 0x110000
              && Reads(ParseEscape(t, p), Utf8(0x10000 + (v - 0xD800) * 0x400 + (w - 0xDC00)), p + 11)
  {
    hide Hex4, FourDigits, Utf8;
    FourDigitsRead(t, p + 1, v);
    if p + 7 <= |t| && FourDigits(t, p + 7, w) {
      FourDigitsRead(t, p + 7, w);
    }
  }

  // ----- UTF-8 -----

  predicate Continues(b: Byte) {
    0x80 <= b < 0xC0
  }

  /** The character a sequence encodes; overlong forms encode none. */
  predicate Encodes(b: Bytes, cp: nat) {
    || (|b| == 1 && b[0] as int == cp < 0x80)
    || (|b| == 2 && Continues(b[1]) && cp == (b[0] as int - 0xC0) * 0x40 + (b[1] as int - 0x80) && 0x80 <= cp < 0x800)
    || (|b| == 3 && Continues(b[1]) && Continues(b[2])
        && cp == (b[0] as int - 0xE0) * 0x1000 + (b[1] as int - 0x80) * 0x40 + (b[2] as int - 0x80) && 0x800 <= cp < 0x10000)
    || (|b| == 4 && Continues(b[1]) && Continues(b[2]) && Continues(b[3])
        && cp == (b[0] as int - 0xF0) * 0x40000 + (b[1] as int - 0x80) * 0x1000 + (b[2] as int - 0x80) * 0x40 + (b[3] as int - 0x80)
        && 0x10000 <= cp < 0x110000)
  }

  lemma Utf8Encodes(cp: nat)
    requires cp < 0x110000
    ensures Encodes(Utf8(cp), cp)
  {
    SixBits(cp);
    SixBits(cp / 64);
    SixBits(cp / 4096);
    assert cp / 64 / 64 == cp / 4096 && cp / 4096 / 64 == cp / 0x40000;
  }

  lemma SixBits(n: nat)
    ensures n == n / 64 * 64 + n % 64 && 0 <= n % 64 < 64
  {
  }

  // ----- characters -----

  predicate Says(s: Bytes, text: string) {
    |s| == |text| && forall i :: 0 <= i < |s| ==> s[i] as int == text[i] as int
  }

  /** The words and the punctuation of RFC 8259. */
  lemma WordsAre()
    ensures Says(Text(Null), "null") && Says(Text(Bool(true)), "true") && Says(Text(Bool(false)), "false")
    ensures Says(Text(Arr([])), "[]") && Says(Text(Obj([])), "{}") && Says(Text(Str([])), "\"\"")
    ensures Says([COMMA], ",") && Says([COLON], ":") && Says([BACKSLASH], "\\") && Says([LOWER_U], "u") && Says([MINUS, PLUS], "-+")
  {
  }

  /** What the server may send: any value but a fraction, its integers within 2^53, its
      keys without a NUL byte. */
  lemma SendableIs(i: int, s: Bytes, items: seq<Json>, ms: seq<Member>)
    ensures Sendable(Null) && Sendable(Bool(true)) && Sendable(Bool(false)) && Sendable(Str(s)) && !Sendable(Float(s))
    ensures Sendable(Int(i)) <==> -9007199254740992 <= i <= 9007199254740992
    ensures Sendable(Arr(items)) <==> forall k :: 0 <= k < |items| ==> Sendable(items[k])
    ensures Sendable(Obj(ms)) <==> forall k :: 0 <= k < |ms| ==> Sendable(ms[k].value) && 0 !in ms[k].key
  {
  }

  /** What a string's byte is written as: itself, unless it is a quote, a backslash or a
      control character; of those seven have a short escape, the others a hexadecimal one. */
  lemma EscapedAre(c: Byte)
    ensures EscapeByte(c) == [c] <==> c >= 32 && c as int != '"' as int && c as int != '\\' as int
    ensures Says(EscapeByte(34), "\\\"") && Says(EscapeByte(92), "\\\\") && Says(EscapeByte(8), "\\b") && Says(EscapeByte(12), "\\f")
    ensures Says(EscapeByte(10), "\\n") && Says(EscapeByte(13), "\\r") && Says(EscapeByte(9), "\\t")
    ensures c < 32 && c !in {8, 9, 10, 12, 13} ==>
              |EscapeByte(c)| == 6 && Says(EscapeByte(c)[..4], "\\u00")
              && c as int == 16 * HexOf(EscapeByte(c)[4]) + HexOf(EscapeByte(c)[5])
  {
  }
}
