/** String literals on their way from FC source to C source: FC's escapes decoded to
    bytes, and bytes written so that a C compiler reads them back. */
module StringLiteral {

  type Byte = x: int | 0 <= x < 256
  datatype Option<T> = None | Some(value: T)

  const NUL := 0
  const TAB := 9
  const LF := 10
  const CR := 13
  const QUOTE := 34
  const PERCENT := 37
  const APOSTROPHE := 39
  const ZERO := 48
  const QUESTION := 63
  const BACKSLASH := 92
  const LETTER_C := 99
  const LETTER_N := 110
  const LETTER_R := 114
  const LETTER_T := 116
  const LETTER_X := 120

  // ----- FC's escapes -----

  function HexDigit(b: Byte): Option<nat> {
    if 48 <= b <= 57 then Some(b - 48)
    else if 97 <= b <= 102 then Some(b - 87)
    else if 65 <= b <= 70 then Some(b - 55)
    else None
  }

  function SimpleEscape(b: Byte): Option<Byte> {
    if b == LETTER_N then Some(LF)
    else if b == LETTER_T then Some(TAB)
    else if b == LETTER_R then Some(CR)
    else if b == ZERO then Some(NUL)
    else if b == BACKSLASH || b == QUOTE || b == APOSTROPHE then Some(b)
    else None
  }

  /** One element of a literal's source text. */
  datatype Element = Raw(b: Byte) | TwoPercents | Escape(c: Byte) | Hex(hi: Byte, lo: Byte)

  predicate Lexed(e: Element) {
    match e
    case Raw(b) => b != BACKSLASH
    case TwoPercents => true
    case Escape(c) => SimpleEscape(c).Some?
    case Hex(hi, lo) => HexDigit(hi).Some? && HexDigit(lo).Some?
  }

  function Spelling(e: Element): seq<Byte> {
    match e
    case Raw(b) => [b]
    case TwoPercents => [PERCENT, PERCENT]
    case Escape(c) => [BACKSLASH, c]
    case Hex(hi, lo) => [BACKSLASH, LETTER_X, hi, lo]
  }

  function Meaning(e: Element): Byte
    requires Lexed(e)
  {
    match e
    case Raw(b) => b
    case TwoPercents => PERCENT
    case Escape(c) => SimpleEscape(c).value
    case Hex(hi, lo) => 16 * HexDigit(hi).value + HexDigit(lo).value
  }

  function Spelled(es: seq<Element>): seq<Byte> {
    if es == [] then [] else Spelling(es[0]) + Spelled(es[1..])
  }

  function Meant(es: seq<Element>): seq<Byte>
    requires forall i :: 0 <= i < |es| ==> Lexed(es[i])
  {
    if es == [] then [] else [Meaning(es[0])] + Meant(es[1..])
  }

  /** A percent sign that stands alone is not followed by another. */
  predicate Unambiguous(es: seq<Element>) {
    forall i :: 0 <= i < |es| - 1 && es[i] == Raw(PERCENT) ==> es[i + 1] != TwoPercents && es[i + 1] != Raw(PERCENT)
  }

  /** The next byte of the value, and how much source it takes. */
  function DecodeStep(s: seq<Byte>): (r: (Byte, nat))
    requires s != []
    ensures 1 <= r.1 <= |s|
  {
    if s[0] == PERCENT && |s| > 1 && s[1] == PERCENT then (PERCENT, 2)
    else if s[0] == BACKSLASH && |s| > 1 then
      if s[1] == LETTER_X && |s| > 3 && HexDigit(s[2]).Some? && HexDigit(s[3]).Some?
      then (16 * HexDigit(s[2]).value + HexDigit(s[3]).value, 4)
      else if SimpleEscape(s[1]).Some? then (SimpleEscape(s[1]).value, 2)
      else (s[1], 2)
    else (s[0], 1)
  }

  function Decoded(s: seq<Byte>): seq<Byte> {
    if s == [] then [] else var (b, n) := DecodeStep(s); [b] + Decoded(s[n..])
  }

  /** Sizes and, given a buffer, fills it: the same count both times. */
  method DecodeStrLit(s: seq<Byte>, out: array?<Byte>) returns (n: nat)
    requires out != null ==> out.Length >= |Decoded(s)|
    modifies if out == null then {} else {out}
    ensures n == |Decoded(s)|
    ensures out != null ==> out[..n] == Decoded(s)
  {
    hide Decoded, DecodeStep;
    n := 0;
    var i := 0;
    ghost var done: seq<Byte> := [];
    assert s[0..] == s;
    while i < |s|
      invariant i <= |s| && n == |done|
      invariant Decoded(s) == done + Decoded(s[i..])
      invariant out != null ==> n <= out.Length && out[..n] == done
    {
      DecodedOnce(s[i..]);
      var (b, width) := DecodeStep(s[i..]);
      assert s[i..][width..] == s[i + width..];
      ghost var left := Decoded(s[i + width..]);
      assert done + ([b] + left) == (done + [b]) + left;
      if out != null {
        out[n] := b;
      }
      done := done + [b];
      n := n + 1;
      i := i + width;
    }
    DecodedNone();
    assert s[i..] == [];
  }

  lemma DecodedOnce(s: seq<Byte>)
    requires s != []
    ensures Decoded(s) == [DecodeStep(s).0] + Decoded(s[DecodeStep(s).1..])
  {
  }

  lemma DecodedNone()
    ensures Decoded([]) == []
  {
  }

  lemma {:induction false} DecodeMeans(es: seq<Element>)
    requires (forall i :: 0 <= i < |es| ==> Lexed(es[i])) && Unambiguous(es)
    ensures Decoded(Spelled(es)) == Meant(es)
  {
    if es != [] {
      var rest := Spelled(es[1..]);
      assert Unambiguous(es[1..]) by {
        forall i | 0 <= i < |es[1..]| - 1 && es[1..][i] == Raw(PERCENT)
          ensures es[1..][i + 1] != TwoPercents && es[1..][i + 1] != Raw(PERCENT)
        {
          assert es[i + 1] == Raw(PERCENT);
        }
      }
      if es[0] == Raw(PERCENT) && |es| > 1 {
        assert es[0 + 1] != TwoPercents && es[0 + 1] != Raw(PERCENT);
        assert rest == Spelling(es[1]) + Spelled(es[1..][1..]);
        assert rest[0] == Spelling(es[1])[0];
      }
      StepMeans(es[0], rest);
      assert (Spelling(es[0]) + rest)[|Spelling(es[0])|..] == rest;
      DecodeMeans(es[1..]);
    }
  }

  lemma StepMeans(e: Element, rest: seq<Byte>)
    requires Lexed(e) && (e == Raw(PERCENT) ==> rest == [] || rest[0] != PERCENT)
    ensures DecodeStep(Spelling(e) + rest) == (Meaning(e), |Spelling(e)|)
  {
  }

  // ----- C's reading of a literal -----

  predicate Octal(b: Byte) {
    48 <= b < 56
  }

  function OctalRun(s: seq<Byte>, most: nat): (n: nat)
    ensures n <= most && n <= |s| && forall i :: 0 <= i < n ==> Octal(s[i])
  {
    if most == 0 || s == [] || !Octal(s[0]) then 0 else 1 + OctalRun(s[1..], most - 1)
  }

  function HexRun(s: seq<Byte>): (n: nat)
    ensures n <= |s| && forall i :: 0 <= i < n ==> HexDigit(s[i]).Some?
  {
    if s == [] || HexDigit(s[0]).None? then 0 else 1 + HexRun(s[1..])
  }

  function OctalValue(s: seq<Byte>): nat
    requires forall i :: 0 <= i < |s| ==> Octal(s[i])
  {
    if s == [] then 0 else assert Octal(s[|s| - 1]); 8 * OctalValue(s[..|s| - 1]) + (s[|s| - 1] as int - 48)
  }

  function HexValue(s: seq<Byte>): nat
    requires forall i :: 0 <= i < |s| ==> HexDigit(s[i]).Some?
  {
    if s == [] then 0 else 16 * HexValue(s[..|s| - 1]) + HexDigit(s[|s| - 1]).value
  }

  /** C11 6.4.4.4: the simple escapes. */
  function CSimple(b: Byte): Option<Byte> {
    if b == APOSTROPHE || b == QUOTE || b == QUESTION || b == BACKSLASH then Some(b)
    else if b == 97 then Some(7)
    else if b == 98 then Some(8)
    else if b == 102 then Some(12)
    else if b == LETTER_N then Some(LF)
    else if b == LETTER_R then Some(CR)
    else if b == LETTER_T then Some(TAB)
    else if b == 118 then Some(11)
    else None
  }

  /** The bytes of a literal body, or none when it is not one: an octal escape takes at
      most three digits, a hexadecimal one all that follow, and either must fit. */
  function Read(s: seq<Byte>): Option<seq<Byte>> {
    if s == [] then Some([])
    else if s[0] == BACKSLASH then
      if |s| == 1 then None
      else if CSimple(s[1]).Some? then Before([CSimple(s[1]).value], Read(s[2..]))
      else if Octal(s[1]) then
        var n := OctalRun(s[1..], 3);
        var v := OctalValue(s[1..][..n]);
        if v < 256 && n > 0 then Before([v], Read(s[1 + n..])) else None
      else if s[1] == LETTER_X then
        var n := HexRun(s[2..]);
        var v := HexValue(s[2..][..n]);
        if v < 256 && n > 0 then Before([v], Read(s[2 + n..])) else None
      else None
    else if s[0] == QUOTE || s[0] == LF then None
    else Before([s[0]], Read(s[1..]))
  }

  function Before(bytes: seq<Byte>, rest: Option<seq<Byte>>): Option<seq<Byte>> {
    if rest.Some? then Some(bytes + rest.value) else None
  }

  /** C11 5.2.1.1: the third character of a trigraph, and what it stands for. */
  function Trigraph(b: Byte): Option<Byte> {
    if b == 61 then Some(35)            // =  #
    else if b == 40 then Some(91)       // (  [
    else if b == 47 then Some(92)       // /  \
    else if b == 41 then Some(93)       // )  ]
    else if b == 39 then Some(94)       // '  ^
    else if b == 60 then Some(123)      // <  {
    else if b == 33 then Some(124)      // !  |
    else if b == 62 then Some(125)      // >  }
    else if b == 45 then Some(126)      // -  ~
    else None
  }

  predicate TrigraphAt(s: seq<Byte>, i: nat) {
    i + 2 < |s| && s[i] == QUESTION && s[i + 1] == QUESTION && Trigraph(s[i + 2]).Some?
  }

  /** Translation phase 1. */
  function Phase1(s: seq<Byte>): seq<Byte> {
    if s == [] then []
    else if TrigraphAt(s, 0) then [Trigraph(s[2]).value] + Phase1(s[3..])
    else [s[0]] + Phase1(s[1..])
  }

  lemma {:induction false} NoTrigraphs(s: seq<Byte>)
    ensures Phase1(s) == s <==> !exists i :: 0 <= i < |s| && TrigraphAt(s, i)
    ensures |Phase1(s)| <= |s|
    decreases |s|
  {
    if s != [] {
      if TrigraphAt(s, 0) {
        NoTrigraphs(s[3..]);
        assert |Phase1(s)| < |s|;
      } else {
        NoTrigraphs(s[1..]);
        if i :| 0 <= i < |s| && TrigraphAt(s, i) {
          assert i > 0 && TrigraphAt(s[1..], i - 1);
        }
        if i :| 0 <= i < |s[1..]| && TrigraphAt(s[1..], i) {
          assert TrigraphAt(s, i + 1);
        }
        assert s == [s[0]] + s[1..];
      }
    }
  }

  // ----- the emitted bytes -----

  function CByte(b: Byte, fmt: bool): (out: seq<Byte>)
    ensures 1 <= |out| <= 4
  {
    if b == BACKSLASH then [BACKSLASH, BACKSLASH]
    else if b == QUOTE then [BACKSLASH, QUOTE]
    else if b == LF then [BACKSLASH, LETTER_N]
    else if b == CR then [BACKSLASH, LETTER_R]
    else if b == TAB then [BACKSLASH, LETTER_T]
    else if b == QUESTION then [BACKSLASH, QUESTION]
    else if b == PERCENT then if fmt then [PERCENT, PERCENT] else [PERCENT]
    else if b < 0x20 || b == 0x7f then [BACKSLASH, 48 + b / 64, 48 + b / 8 % 8, 48 + b % 8]
    else [b]
  }

  function CBytes(bytes: seq<Byte>): seq<Byte> {
    if bytes == [] then [] else CByte(bytes[0], false) + CBytes(bytes[1..])
  }

  /** What one emitted byte contributes to the literal's value. */
  function Kept(b: Byte, fmt: bool): seq<Byte> {
    if fmt && b == PERCENT then [PERCENT, PERCENT] else [b]
  }

  lemma BeforeBefore(a: seq<Byte>, b: seq<Byte>, rest: Option<seq<Byte>>)
    ensures Before(a, Before(b, rest)) == Before(a + b, rest)
  {
    if rest.Some? {
      assert a + (b + rest.value) == (a + b) + rest.value;
    }
  }

  /** Whatever follows, a digit included, an emitted byte is read as itself. */
  lemma ByteReads(b: Byte, fmt: bool, rest: seq<Byte>)
    ensures Read(CByte(b, fmt) + rest) == Before(Kept(b, fmt), Read(rest))
  {
    var s := CByte(b, fmt) + rest;
    assert s[|CByte(b, fmt)|..] == rest;
    if fmt && b == PERCENT {
      assert s[1..] == [PERCENT] + rest;
      assert s[1..][1..] == rest;
      assert Read(s[1..]) == Before([PERCENT], Read(rest));
      BeforeBefore([PERCENT], [PERCENT], Read(rest));
      assert [PERCENT] + [PERCENT] == [PERCENT, PERCENT];
    } else if b != TAB && b != LF && b != CR && (b < 0x20 || b == 0x7f) {
      OctalReads(b, rest);
    }
  }

  lemma OctalReads(b: Byte, rest: seq<Byte>)
    requires b < 0x80
    ensures Read([BACKSLASH, 48 + b / 64, 48 + b / 8 % 8, 48 + b % 8] + rest) == Before([b], Read(rest))
  {
    var digits := [48 + b / 64, 48 + b / 8 % 8, 48 + b % 8];
    var s := [BACKSLASH, 48 + b / 64, 48 + b / 8 % 8, 48 + b % 8] + rest;
    assert s[1..] == digits + rest && s[4..] == rest;
    ThreeDigits(digits, rest);
    assert s[1..][..3] == digits;
    OctalOf(b);
  }

  lemma ThreeDigits(digits: seq<Byte>, rest: seq<Byte>)
    requires |digits| == 3 && forall i :: 0 <= i < 3 ==> Octal(digits[i])
    ensures OctalRun(digits + rest, 3) == 3
  {
    var s := digits + rest;
    assert OctalRun(s[1..][1..], 1) == 1 + OctalRun(s[1..][1..][1..], 0);
    assert OctalRun(s[1..], 2) == 2;
  }

  lemma OctalOf(b: Byte)
    requires b < 0x80
    ensures OctalValue([48 + b / 64, 48 + b / 8 % 8, 48 + b % 8]) == b
  {
    var digits := [48 + b / 64, 48 + b / 8 % 8, 48 + b % 8];
    assert digits[..2] == [48 + b / 64, 48 + b / 8 % 8] && digits[..2][..1] == [48 + b / 64] && digits[..1][..0] == [];
    assert OctalValue(digits[..1]) == b / 64;
    assert OctalValue(digits[..2]) == 8 * (b / 64) + b / 8 % 8;
    assert OctalValue(digits) == 8 * (8 * (b / 64) + b / 8 % 8) + b % 8 == b;
  }

  /** Every question mark follows a backslash. */
  predicate Guarded(s: seq<Byte>) {
    forall i :: 0 <= i < |s| && s[i] == QUESTION ==> i > 0 && s[i - 1] == BACKSLASH
  }

  lemma GuardedReads(s: seq<Byte>)
    requires Guarded(s)
    ensures Phase1(s) == s
  {
    NoTrigraphs(s);
  }

  lemma {:induction false} BytesGuarded(bytes: seq<Byte>)
    ensures Guarded(CBytes(bytes))
  {
    if bytes != [] {
      BytesGuarded(bytes[1..]);
    }
  }

  lemma {:induction false} BytesRead(bytes: seq<Byte>)
    ensures Read(CBytes(bytes)) == Some(bytes)
  {
    if bytes != [] {
      BytesRead(bytes[1..]);
      ByteReads(bytes[0], false, CBytes(bytes[1..]));
      assert bytes == [bytes[0]] + bytes[1..];
    }
  }

  /** A C compiler reads the emitted literal as exactly the bytes FC meant. */
  lemma LiteralReadsBack(es: seq<Element>)
    requires (forall i :: 0 <= i < |es| ==> Lexed(es[i])) && Unambiguous(es)
    ensures Read(Phase1(CBytes(Decoded(Spelled(es))))) == Some(Meant(es))
  {
    DecodeMeans(es);
    BytesGuarded(Meant(es));
    GuardedReads(CBytes(Meant(es)));
    BytesRead(Meant(es));
  }

  method EmitStrLitBody(s: seq<Byte>) returns (body: seq<Byte>)
    ensures Read(Phase1(body)) == Some(Decoded(s))
  {
    var n := DecodeStrLit(s, null);
    var buf := new Byte[n];
    n := DecodeStrLit(s, buf);
    body := [];
    for i := 0 to n
      invariant buf[..] == Decoded(s)
      invariant CBytes(buf[..]) == body + CBytes(buf[i..])
    {
      assert buf[i..][1..] == buf[i + 1..];
      body := body + CByte(buf[i], false);
    }
    assert body == CBytes(Decoded(s));
    BytesGuarded(Decoded(s));
    GuardedReads(body);
    BytesRead(Decoded(s));
  }

  // ----- raw text: the name a `%T` segment writes -----

  /** Bytes that mean themselves in a C literal. */
  predicate Plain(s: seq<Byte>) {
    forall i :: 0 <= i < |s| ==> s[i] != BACKSLASH && s[i] != QUOTE && s[i] != LF
  }

  lemma {:induction false} PlainReads(s: seq<Byte>, rest: seq<Byte>)
    requires Plain(s)
    ensures Read(s + rest) == Before(s, Read(rest))
  {
    hide OctalRun, HexRun, OctalValue, HexValue, CSimple;
    if s == [] {
      assert s + rest == rest;
      assert Read(rest).Some? ==> s + Read(rest).value == Read(rest).value;
    } else {
      PlainReads(s[1..], rest);
      assert (s + rest)[1..] == s[1..] + rest;
      BeforeBefore([s[0]], s[1..], Read(rest));
      assert [s[0]] + s[1..] == s;
    }
  }

  lemma {:induction false} ReadIsShort(s: seq<Byte>)
    ensures Read(s).Some? ==> |Read(s).value| <= |s|
    decreases |s|
  {
    if s != [] && Read(s).Some? {
      if s[0] != BACKSLASH {
        ReadIsShort(s[1..]);
      } else if CSimple(s[1]).Some? {
        ReadIsShort(s[2..]);
      } else if Octal(s[1]) {
        ReadIsShort(s[1 + OctalRun(s[1..], 3)..]);
      } else {
        ReadIsShort(s[2 + HexRun(s[2..])..]);
      }
    }
  }

  /** Text written raw, a type's name and the plain text around it, is read back
      exactly when no `??` in it comes before one of the nine trigraph characters. */
  lemma RawExact(s: seq<Byte>)
    requires Plain(s)
    ensures Read(Phase1(s)) == Some(s) <==> !exists i :: 0 <= i < |s| && TrigraphAt(s, i)
  {
    NoTrigraphs(s);
    PlainReads(s, []);
    assert s + [] == s;
    ReadIsShort(Phase1(s));
    if exists i :: 0 <= i < |s| && TrigraphAt(s, i) {
      TrigraphShortens(s);
    }
  }

  lemma {:induction false} TrigraphShortens(s: seq<Byte>)
    requires exists i :: 0 <= i < |s| && TrigraphAt(s, i)
    ensures |Phase1(s)| < |s|
    decreases |s|
  {
    if TrigraphAt(s, 0) {
      NoTrigraphs(s[3..]);
    } else {
      var i :| 0 <= i < |s| && TrigraphAt(s, i);
      assert TrigraphAt(s[1..], i - 1);
      TrigraphShortens(s[1..]);
    }
  }
}
