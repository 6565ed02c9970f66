/** The parser's cursor and buffers, and the serializer's growing buffer. */
module JsonParser {
  import opened JsonText
  import opened JsonRoundTrip

  class Parser {
    const text: Bytes
    var p: nat
    var error: bool

    constructor (text: Bytes)
      ensures this.text == text && p == 0 && !error
    {
      this.text := text;
      p, error := 0, false;
    }

    /** The cursor is where the parse `r` ends, or an error is set. */
    ghost predicate At<T>(r: Parsed<T>)
      reads this
    {
      error == r.None? && (r.Some? ==> p == r.value.1)
    }

    method SkipWs()
      modifies this`p
      ensures p == SkipSpace(text, old(p))
    {
      while p < |text| && IsSpace(text[p])
        invariant SkipSpace(text, old(p)) == SkipSpace(text, p)
        decreases |text| - p
      {
        p := p + 1;
      }
    }

    method ParseHex4() returns (v: nat)
      requires !error
      modifies this
      ensures var r := Hex4(text, old(p));
              error == r.None? && (r.Some? ==> v == r.value && p == old(p) + 4)
      ensures v < 0x10000
    {
      v := 0;
      if p + 4 > |text| { error := true; return; }
      var a, b, c, d := HexValue(text[p]), HexValue(text[p + 1]), HexValue(text[p + 2]), HexValue(text[p + 3]);
      if a.None? || b.None? || c.None? || d.None? { error := true; return; }
      v := ((a.value * 16 + b.value) * 16 + c.value) * 16 + d.value;
      p := p + 4;
    }

    /** The letter of an escape is next. */
    method Escape() returns (bytes: Bytes)
      requires !error
      modifies this
      ensures At(ParseEscape(text, old(p)))
      ensures !error ==> bytes == ParseEscape(text, old(p)).value.0
    {
      hide Utf8, Hex4;
      bytes := [];
      if p >= |text| { error := true; return; }
      var e := text[p];
      p := p + 1;
      if e == QUOTE || e == BACKSLASH || e == 47 { bytes := [e]; }
      else if e == 98 { bytes := [8]; }
      else if e == 102 { bytes := [12]; }
      else if e == 110 { bytes := [10]; }
      else if e == 114 { bytes := [13]; }
      else if e == 116 { bytes := [9]; }
      else if e == LOWER_U {
        var cp: nat := ParseHex4();
        if error { return; }
        if 0xD800 <= cp <= 0xDBFF && p + 2 <= |text| && text[p] == BACKSLASH && text[p + 1] == LOWER_U {
          p := p + 2;
          var lo := ParseHex4();
          if error { return; }
          if 0xDC00 <= lo <= 0xDFFF {
            cp := 0x10000 + (cp - 0xD800) * 1024 + (lo - 0xDC00);
          }
        }
        bytes := Utf8(cp);
      } else {
        error := true;
      }
    }

    /** Appends to what the buffer holds. */
    static method Fill(buf: array<Byte>, n: nat, bytes: Bytes)
      requires n + |bytes| <= buf.Length
      modifies buf
      ensures buf[..n + |bytes|] == old(buf[..n]) + bytes
    {
      for i := 0 to |bytes|
        invariant buf[..n] == old(buf[..n]) && forall j :: 0 <= j < i ==> buf[n + j] == bytes[j]
      {
        buf[n + i] := bytes[i];
      }
    }

    /** A string, after its opening quote, decoded into a buffer no longer than what
        is left of the source. */
    method String() returns (s: Bytes)
      requires !error && p <= |text|
      modifies this
      ensures At(ParseString(text, old(p)))
      ensures !error ==> s == ParseString(text, old(p)).value.0
    {
      hide ParseString, ParseEscape;
      var buf := new Byte[|text| - p + 1](_ => 0);
      var n: nat := 0;
      s := [];
      ghost var start := p;
      while p < |text|
        invariant !error && start <= p <= |text| && n <= p - start && buf.Length == |text| - start + 1 && fresh(buf)
        invariant var r, rest := ParseString(text, start), ParseString(text, p);
                  r.Some? == rest.Some? && (r.Some? ==> r.value.1 == rest.value.1 && r.value.0 == buf[..n] + rest.value.0)
        decreases |text| - p
      {
        StringCases(text, p);
        ghost var done := buf[..n];
        var c := text[p];
        p := p + 1;
        if c == QUOTE {
          s := buf[..n];
          assert done + [] == done;
          return;
        }
        if c == BACKSLASH {
          EscapeFits(text, p);
          var bytes := Escape();
          if error { return; }
          Fill(buf, n, bytes);
          Regroup(done, bytes, ParseString(text, p));
          n := n + |bytes|;
        } else {
          buf[n] := c;
          assert buf[..n + 1] == done + [c];
          Regroup(done, [c], ParseString(text, p));
          n := n + 1;
        }
      }
      StringCases(text, p);
      error := true;
    }

    method Number() returns (v: Json)
      requires !error && p < |text|
      modifies this
      ensures At(ParseNumber(text, old(p)))
      ensures !error ==> v == ParseNumber(text, old(p)).value.0
    {
      v := Null;
      var start := p;
      if text[p] == MINUS || text[p] == PLUS {
        p := p + 1;
      }
      ghost var from := p;
      while p < |text| && IsNumberChar(text[p])
        invariant !error && from <= p <= |text| && NumberEnd(text, from) == NumberEnd(text, p)
        decreases |text| - p
      {
        p := p + 1;
      }
      if p - start <= 0 || p - start >= 64 { error := true; return; }
      v := NumberOf(text[start..p]);
    }

    /** One of the words. */
    method Literal(word: Bytes) returns (ok: bool)
      requires p <= |text|
      modifies this`p
      ensures ok == Begins(text, old(p), word) && p == if ok then old(p) + |word| else old(p)
    {
      ok := p + |word| <= |text| && text[p..p + |word|] == word;
      if ok {
        p := p + |word|;
      }
    }

    method Value() returns (v: Json)
      requires !error && p <= |text|
      modifies this
      ensures At(ParseValue(text, old(p)))
      ensures !error ==> v == ParseValue(text, old(p)).value.0
      decreases |text| - p, 1
    {
      hide ParseString, ParseNumber, ParseArray, ParseObject;
      v := Null;
      SkipWs();
      if p >= |text| { error := true; return; }
      var c := text[p];
      if c == LBRACE {
        p := p + 1;
        var ms := Object();
        v := Obj(ms);
      } else if c == LBRACKET {
        p := p + 1;
        var items := Array();
        v := Arr(items);
      } else if c == QUOTE {
        p := p + 1;
        var s := String();
        v := Str(s);
      } else if c == 116 {
        var ok := Literal(TRUE);
        error := !ok;
        v := Bool(true);
      } else if c == 102 {
        var ok := Literal(FALSE);
        error := !ok;
        v := Bool(false);
      } else if c == 110 {
        var ok := Literal(NULL);
        error := !ok;
      } else if c == MINUS || c == PLUS || IsDigit(c) {
        v := Number();
      } else {
        error := true;
      }
    }

    /** The items of an array, after its bracket. */
    method Array() returns (items: seq<Json>)
      requires !error && p <= |text|
      modifies this
      ensures At(ParseArray(text, old(p)))
      ensures !error ==> items == ParseArray(text, old(p)).value.0
      decreases |text| - p, 3
    {
      hide ParseValue, ParseItems;
      items := [];
      ghost var start := p;
      SkipWs();
      if p < |text| && text[p] == RBRACKET {
        p := p + 1;
        return;
      }
      ghost var first := p;
      while true
        invariant !error && start <= first <= p <= |text|
        invariant var r, rest := ParseItems(text, first), ParseItems(text, p);
                  r.Some? == rest.Some? && (r.Some? ==> r.value.1 == rest.value.1 && r.value.0 == items + rest.value.0)
        decreases |text| - p
      {
        ItemsCases(text, p);
        var v := Value();
        if error { return; }
        SkipWs();
        if p >= |text| { error := true; return; }
        var c := text[p];
        p := p + 1;
        ghost var before := items;
        items := items + [v];
        if c == RBRACKET { return; }
        if c != COMMA { error := true; return; }
        SkipWs();
        RegroupItems(before, v, ParseItems(text, p));
      }
    }

    method Entry() returns (m: Member)
      requires !error && p <= |text|
      modifies this
      ensures At(ParseMember(text, old(p)))
      ensures !error ==> m == ParseMember(text, old(p)).value.0
      decreases |text| - p, 2
    {
      hide ParseValue, ParseString;
      m := Member([], Null);
      SkipWs();
      if p >= |text| || text[p] != QUOTE { error := true; return; }
      p := p + 1;
      var key := String();
      if error { return; }
      SkipWs();
      if p >= |text| || text[p] != COLON { error := true; return; }
      p := p + 1;
      var v := Value();
      m := Member(key, v);
    }

    method Object() returns (members: seq<Member>)
      requires !error && p <= |text|
      modifies this
      ensures At(ParseObject(text, old(p)))
      ensures !error ==> members == ParseObject(text, old(p)).value.0
      decreases |text| - p, 3
    {
      hide ParseMember, ParseMembers;
      members := [];
      ghost var start := p;
      SkipWs();
      if p < |text| && text[p] == RBRACE {
        p := p + 1;
        return;
      }
      ghost var first := p;
      while true
        invariant !error && start <= first <= p <= |text|
        invariant var r, rest := ParseMembers(text, first), ParseMembers(text, p);
                  r.Some? == rest.Some? && (r.Some? ==> r.value.1 == rest.value.1 && r.value.0 == members + rest.value.0)
        decreases |text| - p
      {
        MembersCases(text, p);
        var m := Entry();
        if error { return; }
        SkipWs();
        if p >= |text| { error := true; return; }
        var c := text[p];
        p := p + 1;
        ghost var before := members;
        members := members + [m];
        if c == RBRACE { return; }
        if c != COMMA { error := true; return; }
        RegroupMembers(before, m, ParseMembers(text, p));
      }
    }
  }

  lemma ItemsCases(t: Bytes, p: nat)
    ensures var r, v := ParseItems(t, p), ParseValue(t, p);
            if v.None? then r.None?
            else
              var q := SkipSpace(t, v.value.1);
              if q < |t| && t[q] == RBRACKET then r.Some? && r.value.0 == [v.value.0] && r.value.1 == q + 1
              else if q < |t| && t[q] == COMMA then
                var rest := ParseItems(t, SkipSpace(t, q + 1));
                r == if rest.None? then None else Some(([v.value.0] + rest.value.0, rest.value.1))
              else r.None?
  {
    hide ParseValue;
  }

  lemma RegroupItems(a: seq<Json>, v: Json, r: Parsed<seq<Json>>)
    ensures r.Some? ==> a + ([v] + r.value.0) == (a + [v]) + r.value.0
  {
  }

  lemma MembersCases(t: Bytes, p: nat)
    ensures var r, m := ParseMembers(t, p), ParseMember(t, p);
            if m.None? then r.None?
            else
              var q := SkipSpace(t, m.value.1);
              if q < |t| && t[q] == RBRACE then r.Some? && r.value.0 == [m.value.0] && r.value.1 == q + 1
              else if q < |t| && t[q] == COMMA then
                var rest := ParseMembers(t, q + 1);
                r == if rest.None? then None else Some(([m.value.0] + rest.value.0, rest.value.1))
              else r.None?
  {
    hide ParseMember;
  }

  lemma RegroupMembers(a: seq<Member>, m: Member, r: Parsed<seq<Member>>)
    ensures r.Some? ==> a + ([m] + r.value.0) == (a + [m]) + r.value.0
  {
  }

  lemma EscapeFits(t: Bytes, p: nat)
    ensures var r := ParseEscape(t, p); r.Some? ==> p < r.value.1 <= |t| && |r.value.0| <= r.value.1 - p
  {
    hide ParseEscape;
  }

  lemma Regroup(a: Bytes, b: Bytes, r: Parsed<Bytes>)
    ensures r.Some? ==> a + (b + r.value.0) == (a + b) + r.value.0
  {
  }

  lemma StringCases(t: Bytes, p: nat)
    ensures p >= |t| ==> ParseString(t, p) == None
    ensures p < |t| && t[p] == QUOTE ==>
              var r := ParseString(t, p); r.Some? && r.value.0 == [] && r.value.1 == p + 1
    ensures p < |t| && t[p] == BACKSLASH ==>
              var e := ParseEscape(t, p + 1);
              ParseString(t, p) ==
              if e.None? || ParseString(t, e.value.1).None? then None
              else Some((e.value.0 + ParseString(t, e.value.1).value.0, ParseString(t, e.value.1).value.1))
    ensures p < |t| && t[p] != QUOTE && t[p] != BACKSLASH ==>
              var r := ParseString(t, p + 1);
              ParseString(t, p) == if r.None? then None else Some(([t[p]] + r.value.0, r.value.1))
  {
  }

  /** `text` is what the serializer writes for `u`, and a delimiter or the end. */
  predicate Written(u: Json, rest: Bytes, text: Bytes) {
    Sendable(u) && text == Text(u) + rest && (rest == [] || !IsNumberChar(rest[0]))
  }

  /** What a text says: the value at its start, or nothing. */
  method JsonParse(text: Bytes) returns (v: Option<Json>)
    ensures v == if ParseValue(text, 0).None? then None else Some(ParseValue(text, 0).value.0)
    ensures forall u, rest :: Written(u, rest, text) ==> v == Some(u)
  {
    hide ParseValue, Text, Sendable;
    var ps := new Parser(text);
    var w := ps.Value();
    v := if ps.error then None else Some(w);
    forall u, rest | Written(u, rest, text) ensures v == Some(u)
    {
      RoundTrip(u, rest);
    }
  }

  // ----- the serializer -----

  /** A buffer that doubles when it is full. */
  class Writer {
    var buf: array<Byte>
    var len: nat

    ghost predicate Valid()
      reads this
    {
      len <= buf.Length
    }

    ghost function Contents(): Bytes
      requires Valid()
      reads this, buf
    {
      buf[..len]
    }

    constructor ()
      ensures Valid() && Contents() == [] && fresh(buf)
    {
      buf := new Byte[0];
      len := 0;
    }

    method Put(s: Bytes)
      requires Valid()
      modifies this, buf
      ensures Valid() && Contents() == old(Contents()) + s && (buf == old(buf) || fresh(buf))
    {
      Grow(|s|);
      ghost var before := buf[..len];
      for i := 0 to |s|
        modifies buf
        invariant buf[..len] == before && buf[len..len + i] == s[..i]
      {
        buf[len + i] := s[i];
      }
      assert buf[..len + |s|] == before + s;
      len := len + |s|;
    }

    /** Room for `n` more bytes. */
    method Grow(n: nat)
      requires Valid()
      modifies this`buf
      ensures Valid() && Contents() == old(Contents()) && len + n <= buf.Length && (buf == old(buf) || fresh(buf))
    {
      if len + n <= buf.Length { return; }
      var cap: nat := buf.Length;
      while len + n > cap
        modifies {}
        invariant buf.Length <= cap
        decreases len + n - cap
      {
        cap := if cap == 0 then 256 else cap * 2;
      }
      var bigger := new Byte[cap](_ => 0);
      for i := 0 to len
        modifies bigger
        invariant bigger[..i] == buf[..i]
      {
        bigger[i] := buf[i];
      }
      buf := bigger;
    }

    method EmitString(s: Bytes)
      requires Valid()
      modifies this, buf
      ensures Valid() && Contents() == old(Contents()) + StringText(s) && (buf == old(buf) || fresh(buf))
    {
      hide EscapeByte, EscapeAll;
      ghost var start := Contents();
      Put([QUOTE]);
      assert s[..0] == [] && s[0..] == s;
      for i := 0 to |s|
        invariant Valid() && (buf == old(buf) || fresh(buf))
        invariant start + [QUOTE] + EscapeAll(s) == Contents() + EscapeAll(s[i..])
      {
        EscapeNext(s, i);
        Put(EscapeByte(s[i]));
      }
      EscapeEnd(s);
      assert Contents() + [] == Contents();
      assert Contents() == start + ([QUOTE] + EscapeAll(s));
      Put([QUOTE]);
    }

    method Serialize(v: Json)
      requires Valid()
      modifies this, buf
      ensures Valid() && Contents() == old(Contents()) + Text(v) && (buf == old(buf) || fresh(buf))
      decreases v, 1
    {
      hide ItemsText, MembersText, IntText;
      match v
      case Null => Put(NULL);
      case Bool(b) => Put(if b then TRUE else FALSE);
      case Int(i) => Put(IntText(i));
      case Float(text) => Put(text);
      case Str(s) => EmitString(s);
      case Arr(items) =>
        Put([LBRACKET]);
        SerializeItems(items);
        Put([RBRACKET]);
      case Obj(members) =>
        Put([LBRACE]);
        SerializeMembers(members);
        Put([RBRACE]);
    }

    method SerializeItems(items: seq<Json>)
      requires Valid()
      modifies this, buf
      ensures Valid() && Contents() == old(Contents()) + ItemsText(items) && (buf == old(buf) || fresh(buf))
      decreases items, 0
    {
      hide Text;
      ghost var start := Contents();
      assert items[0..] == items;
      for i := 0 to |items|
        invariant Valid() && (buf == old(buf) || fresh(buf))
        invariant start + ItemsText(items) ==
                  Contents() + (if 0 < i < |items| then [COMMA] else []) + ItemsText(items[i..])
      {
        NextItemText(items, i);
        if i > 0 {
          Put([COMMA]);
        }
        Serialize(items[i]);
      }
      assert items[|items|..] == [];
    }

    method SerializeMember(m: Member)
      requires Valid()
      modifies this, buf
      ensures Valid() && Contents() == old(Contents()) + MemberText(m) && (buf == old(buf) || fresh(buf))
      decreases m, 2
    {
      hide Text, StringText;
      EmitString(UpToNul(m.key));
      Put([COLON]);
      assert m.value < m;
      Serialize(m.value);
    }

    method SerializeMembers(members: seq<Member>)
      requires Valid()
      modifies this, buf
      ensures Valid() && Contents() == old(Contents()) + MembersText(members) && (buf == old(buf) || fresh(buf))
      decreases members, 0
    {
      hide Text, StringText, MemberText, MembersText;
      ghost var start := Contents();
      assert members[0..] == members;
      for i := 0 to |members|
        invariant Valid() && (buf == old(buf) || fresh(buf))
        invariant start + MembersText(members) ==
                  Contents() + (if 0 < i < |members| then [COMMA] else []) + MembersText(members[i..])
      {
        NextMemberText(members, i);
        if i > 0 {
          Put([COMMA]);
        }
        SerializeMember(members[i]);
      }
      NoMembers(members);
    }
  }

  lemma EscapeNext(s: Bytes, i: nat)
    requires i < |s|
    ensures EscapeAll(s[i..]) == EscapeByte(s[i]) + EscapeAll(s[i + 1..])
  {
    assert s[i..][0] == s[i] && s[i..][1..] == s[i + 1..];
  }

  lemma EscapeEnd(s: Bytes)
    ensures EscapeAll(s[|s|..]) == []
  {
  }

  lemma NextItemText(items: seq<Json>, i: nat)
    requires i < |items|
    ensures ItemsText(items[i..]) ==
            Text(items[i]) + (if i + 1 < |items| then [COMMA] else []) + ItemsText(items[i + 1..])
  {
    hide Text;
    assert items[i..][0] == items[i] && items[i..][1..] == items[i + 1..];
  }

  lemma NoMembers(members: seq<Member>)
    ensures members[|members|..] == [] && MembersText([]) == []
  {
  }

  lemma NextMemberText(members: seq<Member>, i: nat)
    requires i < |members|
    ensures MembersText(members[i..]) ==
            MemberText(members[i])
            + (if i + 1 < |members| then [COMMA] else []) + MembersText(members[i + 1..])
  {
    hide Text, StringText;
    assert members[i..][0] == members[i] && members[i..][1..] == members[i + 1..];
  }
}
