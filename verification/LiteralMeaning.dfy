/** The two languages' escapes as tables of characters, and how many digits each takes. */
module LiteralMeaning {
  import opened StringLiteral

  predicate Is(b: Byte, c: char) {
    b == c as int
  }

  /** The byte is character `at` of the list. */
  predicate Stands(b: Byte, list: string, at: int) {
    0 <= at < |list| && Is(b, list[at])
  }

  predicate Listed(b: Byte, list: string) {
    exists at :: 0 <= at < |list| && Stands(b, list, at)
  }

  lemma Among(b: Byte, list: string)
    requires |list| <= 16
    ensures Listed(b, list) <==>
            || Stands(b, list, 0) || Stands(b, list, 1) || Stands(b, list, 2) || Stands(b, list, 3)
            || Stands(b, list, 4) || Stands(b, list, 5) || Stands(b, list, 6) || Stands(b, list, 7)
            || Stands(b, list, 8) || Stands(b, list, 9) || Stands(b, list, 10) || Stands(b, list, 11)
            || Stands(b, list, 12) || Stands(b, list, 13) || Stands(b, list, 14) || Stands(b, list, 15)
  {
  }

  // ----- FC -----

  /** `\n`, `\t`, `\r`, `\0`, and a backslash or a quote for itself. */
  lemma FcEscapes(b: Byte)
    ensures SimpleEscape(b).Some? <==> Listed(b, "ntr0\\\"'")
    ensures forall i :: Stands(b, "ntr0\\\"'", i) ==> SimpleEscape(b) == Some([10, 9, 13, 0, 92, 34, 39][i])
  {
    assert |"ntr0\\\"'"| == 7;
    Among(b, "ntr0\\\"'");
  }

  lemma HexDigits(b: Byte)
    ensures HexDigit(b).Some? <==> Listed(b, "0123456789abcdef") || Listed(b, "ABCDEF")
    ensures forall i :: Stands(b, "0123456789abcdef", i) ==> HexDigit(b) == Some(i)
    ensures forall i :: Stands(b, "ABCDEF", i) ==> HexDigit(b) == Some(10 + i)
  {
    Among(b, "0123456789abcdef");
    Among(b, "ABCDEF");
  }

  /** `\x` and two digits is that byte, `%%` one percent sign. */
  lemma FcSpellings(hi: Byte, lo: Byte, i: int, j: int)
    requires Stands(hi, "0123456789abcdef", i) && Stands(lo, "0123456789abcdef", j)
    ensures Lexed(Hex(hi, lo)) && Meaning(Hex(hi, lo)) == 16 * i + j
    ensures var s := Spelling(Hex(hi, lo)); |s| == 4 && Is(s[0], '\\') && Is(s[1], 'x') && s[2..] == [hi, lo]
    ensures Is(Meaning(TwoPercents), '%')
    ensures var s := Spelling(TwoPercents); |s| == 2 && Is(s[0], '%') && Is(s[1], '%')
  {
    HexDigits(hi);
    HexDigits(lo);
  }

  // ----- C -----

  /** C11 6.4.4.4: `\'`, `\"`, `\?`, `\\`, `\a`, `\b`, `\f`, `\n`, `\r`, `\t`, `\v`. */
  lemma CEscapes(b: Byte)
    ensures CSimple(b).Some? <==> Listed(b, "'\"?\\abfnrtv")
    ensures forall i :: Stands(b, "'\"?\\abfnrtv", i) ==> CSimple(b) == Some([39, 34, 63, 92, 7, 8, 12, 10, 13, 9, 11][i])
  {
    assert |"'\"?\\abfnrtv"| == 11;
    Among(b, "'\"?\\abfnrtv");
  }

  /** C11 5.2.1.1: the nine trigraphs. */
  lemma CTrigraphs(b: Byte)
    ensures Trigraph(b).Some? <==> Listed(b, "=(/)'<!>-")
    ensures forall i :: Stands(b, "=(/)'<!>-", i) ==> Trigraph(b).Some? && Stands(Trigraph(b).value, "#[\\]^{|}~", i)
  {
    assert |"=(/)'<!>-"| == 9 && |"#[\\]^{|}~"| == 9;
    Among(b, "=(/)'<!>-");
  }

  lemma OctalDigits(b: Byte)
    ensures Octal(b) <==> Listed(b, "01234567")
    ensures forall i :: Stands(b, "01234567", i) ==> b as int - 48 == i
  {
    Among(b, "01234567");
  }

  /** One to three octal digits, no more, are one byte, if it is one. */
  lemma OctalEscape(d: seq<int>, s: seq<Byte>, rest: seq<Byte>)
    requires 1 <= |d| <= 3 && |s| == |d| && forall i :: 0 <= i < |d| ==> Stands(s[i], "01234567", d[i])
    requires |d| == 3 || rest == [] || !Listed(rest[0], "01234567")
    ensures var v := if |d| == 1 then d[0] else if |d| == 2 then 8 * d[0] + d[1] else 64 * d[0] + 8 * d[1] + d[2];
            Read([BACKSLASH] + s + rest) == if 0 <= v < 256 then Before([v], Read(rest)) else None
  {
    hide Read, Octal, Before, OctalValue;
    var after := s + rest;
    forall i | 0 <= i < |s| ensures Octal(after[i]) && after[i] as int - 48 == d[i] {
      OctalDigits(s[i]);
      assert after[i] == s[i];
    }
    if rest != [] {
      OctalDigits(rest[0]);
      assert after[|s|] == rest[0];
    }
    RunOf(after, |s|);
    assert after[..|s|] == s && after[|s|..] == rest;
    ValueOf(s, d);
    ReadOctal(after);
    assert [BACKSLASH] + s + rest == [BACKSLASH] + after;
  }

  lemma ReadOctal(s: seq<Byte>)
    requires s != [] && Octal(s[0])
    ensures var n := OctalRun(s, 3);
            Read([BACKSLASH] + s) ==
            if n > 0 && OctalValue(s[..n]) < 256 then Before([OctalValue(s[..n])], Read(s[n..])) else None
  {
    hide OctalRun, OctalValue, HexRun, HexValue, Before;
    var text, n := [BACKSLASH] + s, OctalRun(s, 3);
    assert text[1] == s[0] && CSimple(text[1]).None?;
    assert text[1..] == s;
    assert text[1 + n..] == s[n..];
  }

  lemma ReadHex(s: seq<Byte>)
    ensures var n := HexRun(s);
            Read([BACKSLASH, LETTER_X] + s) ==
            if n > 0 && HexValue(s[..n]) < 256 then Before([HexValue(s[..n])], Read(s[n..])) else None
  {
    var text, n := [BACKSLASH, LETTER_X] + s, HexRun(s);
    assert text[2..] == s && text[2 + n..] == s[n..];
  }

  lemma RunOf(s: seq<Byte>, n: nat)
    requires 1 <= n <= 3 && n <= |s| && (forall i :: 0 <= i < n ==> Octal(s[i])) && (n == 3 || n == |s| || !Octal(s[n]))
    ensures OctalRun(s, 3) == n
  {
    hide Octal;
    assert OctalRun(s, 3) == 1 + OctalRun(s[1..], 2);
    assert n >= 2 ==> OctalRun(s[1..], 2) == 1 + OctalRun(s[1..][1..], 1);
    assert n >= 3 ==> OctalRun(s[1..][1..], 1) == 1 + OctalRun(s[1..][1..][1..], 0);
  }

  lemma ValueOf(s: seq<Byte>, d: seq<int>)
    requires 1 <= |d| <= 3 && |s| == |d| && forall i :: 0 <= i < |d| ==> Octal(s[i]) && s[i] as int - 48 == d[i]
    ensures OctalValue(s) == if |d| == 1 then d[0] else if |d| == 2 then 8 * d[0] + d[1] else 64 * d[0] + 8 * d[1] + d[2]
  {
    assert |s| >= 2 ==> s[..|s| - 1][|s| - 2] == s[|s| - 2];
    assert OctalValue([]) == 0;
    if |s| == 1 {
      assert s[..0] == [];
    } else if |s| == 2 {
      assert s[..1][..0] == [];
      assert OctalValue(s[..1]) == d[0];
    } else {
      assert s[..2][..1] == s[..1] && s[..1][..0] == [];
      assert OctalValue(s[..1]) == d[0];
      assert OctalValue(s[..2]) == 8 * d[0] + d[1];
    }
  }

  /** All the hexadecimal digits behind `\x` are one byte, if it is one. */
  lemma HexEscape(s: seq<Byte>, rest: seq<Byte>)
    requires s != [] && (forall i :: 0 <= i < |s| ==> HexDigit(s[i]).Some?) && (rest == [] || HexDigit(rest[0]).None?)
    ensures Read([BACKSLASH, LETTER_X] + s + rest) == if HexValue(s) < 256 then Before([HexValue(s)], Read(rest)) else None
  {
    hide Read, HexDigit, HexValue, Before;
    HexRunOf(s, rest);
    assert (s + rest)[..|s|] == s && (s + rest)[|s|..] == rest;
    ReadHex(s + rest);
    assert [BACKSLASH, LETTER_X] + s + rest == [BACKSLASH, LETTER_X] + (s + rest);
  }

  lemma {:induction false} HexRunOf(s: seq<Byte>, rest: seq<Byte>)
    requires (forall i :: 0 <= i < |s| ==> HexDigit(s[i]).Some?) && (rest == [] || HexDigit(rest[0]).None?)
    ensures HexRun(s + rest) == |s|
  {
    hide HexDigit;
    if s == [] {
      assert s + rest == rest;
    } else {
      assert (s + rest)[1..] == s[1..] + rest && (s + rest)[0] == s[0];
      HexRunOf(s[1..], rest);
    }
  }

  lemma HexValueOf(s: seq<Byte>, b: Byte)
    requires forall i :: 0 <= i < |s| ==> HexDigit(s[i]).Some?
    ensures HexValue([]) == 0
    ensures forall i :: Stands(b, "0123456789abcdef", i) ==> HexDigit(b).Some? && HexValue(s + [b]) == 16 * HexValue(s) + i
    ensures forall i :: Stands(b, "ABCDEF", i) ==> HexDigit(b).Some? && HexValue(s + [b]) == 16 * HexValue(s) + 10 + i
  {
    hide HexDigit;
    HexDigits(b);
    if HexDigit(b).Some? {
      assert (s + [b])[..|s|] == s;
    }
  }

  // ----- what is emitted -----

  /** Printable ASCII and bytes above it stand for themselves, except the quote, the
      question mark and the backslash; all others start with a backslash. */
  lemma RawBytes(b: Byte)
    ensures CByte(b, false) == [b] <==> b >= 32 && b != 127 && !Listed(b, "\"?\\")
    ensures CByte(b, false) != [b] ==> Is(CByte(b, false)[0], '\\')
    ensures if Is(b, '%') then var s := CByte(b, true); |s| == 2 && Is(s[0], '%') && Is(s[1], '%')
            else CByte(b, true) == CByte(b, false)
  {
    Among(b, "\"?\\");
  }
}
