/** What a format spec prints, told by C11 7.21.6.1 in terms of characters and places,
    and what each segment's budget is. */
module SpecMeaning {
  import opened FormatSpec
  import opened FormatBudget
  import StringLiteral

  type Byte = StringLiteral.Byte

  // ----- characters -----

  lemma Alphabet(c: char)
    ensures Flag(c) <==> c in "-+ #0"
    ensures Digit(c) <==> c in "0123456789"
    ensures Integral(c) <==> c in "diuoxX"
    ensures Conversion(c) <==> Integral(c) || c in "feEgG" || c in "cs" || c in "pT"
    ensures Base(c) == if c in "xX" then 16 else if c == 'o' then 8 else 10
  {
  }

  const LOWER := "0123456789abcdef"
  const UPPER := "0123456789ABCDEF"

  /** Place by place, the last digit being the remainder. */
  predicate Denotes(s: string, b: nat, upper: bool, n: nat)
    requires 2 <= b <= 16
  {
    if s == [] then n == 0
    else s[|s| - 1] == (if upper then UPPER else LOWER)[n % b] && Denotes(s[..|s| - 1], b, upper, n / b)
  }

  lemma DigitIs(d: nat, upper: bool)
    requires d < 16
    ensures DigitOf(d, upper) == (if upper then UPPER else LOWER)[d]
  {
    assert |LOWER| == |UPPER| == 16;
    if d < 8 {
    } else {
    }
  }

  lemma DenotesMore(s: string, b: nat, upper: bool, n: nat)
    requires 2 <= b <= 16 && Denotes(s, b, upper, n / b)
    ensures Denotes(s + [DigitOf(n % b, upper)], b, upper, n)
  {
    DigitIs(n % b, upper);
    assert (s + [DigitOf(n % b, upper)])[..|s|] == s;
  }

  lemma Less(n: nat, b: nat)
    requires 2 <= b <= n
    ensures 0 < n / b < n
  {
    assert b * (n / b) <= n;
  }

  /** The digits denote the number, and start with a zero only for zero. */
  lemma {:induction false} DigitsDenote(n: nat, b: nat, upper: bool)
    requires 2 <= b <= 16
    ensures Denotes(Digits(n, b, upper), b, upper, n)
    ensures Digits(n, b, upper)[0] == '0' <==> n == 0
    decreases n
  {
    hide DigitOf, Denotes;
    if n < b {
      Small(n, b);
      NotZero(n, upper);
      NoDigits(b, upper);
      DenotesMore([], b, upper, n);
      assert [] + [DigitOf(n % b, upper)] == Digits(n, b, upper);
    } else {
      Less(n, b);
      DigitsDenote(n / b, b, upper);
      DenotesMore(Digits(n / b, b, upper), b, upper, n);
    }
  }

  lemma NoDigits(b: nat, upper: bool)
    requires 2 <= b <= 16
    ensures Denotes([], b, upper, 0)
  {
  }

  lemma Small(n: nat, b: nat)
    requires n < b
    ensures n % b == n && n / b == 0
  {
  }

  lemma NotZero(d: nat, upper: bool)
    requires d < 16
    ensures DigitOf(d, upper) == '0' <==> d == 0
  {
  }

  lemma {:induction false} NumberDenotes(s: string)
    requires forall i :: 0 <= i < |s| ==> Digit(s[i])
    ensures Denotes(s, 10, false, Number(s))
    decreases |s|
  {
    if s != [] {
      var front, d := s[..|s| - 1], s[|s| - 1] as int - '0' as int;
      NumberDenotes(front);
      assert Digit(s[|s| - 1]) && 0 <= d < 10;
      TenTimes(Number(front), d);
      DigitIs(d, false);
    }
  }

  lemma TenTimes(n: nat, d: nat)
    requires d < 10
    ensures (10 * n + d) % 10 == d && (10 * n + d) / 10 == n
  {
  }

  /** A width or precision is its number; all above 32767 count as one more. */
  lemma FieldIs(s: string)
    requires forall i :: 0 <= i < |s| ==> Digit(s[i])
    ensures Field(s) == if Number(s) <= 32767 then Number(s) else 32768
  {
  }

  // ----- an integer -----

  lemma TypeRanges(named: bool, v: int)
    ensures InRange(IntType(true, 8, named), v) <==> -128 <= v <= 127
    ensures InRange(IntType(false, 8, named), v) <==> 0 <= v <= 255
    ensures InRange(IntType(true, 16, named), v) <==> -32768 <= v <= 32767
    ensures InRange(IntType(false, 16, named), v) <==> 0 <= v <= 65535
    ensures InRange(IntType(true, 32, named), v) <==> -2147483648 <= v <= 2147483647
    ensures InRange(IntType(false, 32, named), v) <==> 0 <= v <= 4294967295
    ensures InRange(IntType(true, 64, named), v) <==> -9223372036854775808 <= v <= 9223372036854775807
    ensures InRange(IntType(false, 64, named), v) <==> 0 <= v <= 18446744073709551615
  {
  }

  predicate AllAre(s: string, c: char) {
    forall i :: 0 <= i < |s| ==> s[i] == c
  }

  lemma {:induction false} RepeatIs(c: char, n: int)
    ensures AllAre(Repeat(c, n), c)
    decreases if n < 0 then 0 else n
  {
    if n > 0 {
      RepeatIs(c, n - 1);
    }
  }

  /** `%d` and `%i` print the value of a signed type, everything else its bits. */
  predicate SignedPrint(conv: char, t: IntType) {
    conv in "di" && t.signed
  }

  /** What is printed in digits. */
  predicate Magnitude(conv: char, t: IntType, v: int, mag: nat) {
    if SignedPrint(conv, t) then mag == v || mag == -v
    else mag == v || (v < 0 && mag == v + match t.bits case 8 => 256 case 16 => 65536 case 32 => 4294967296 case _ => 18446744073709551616)
  }

  /** The sign and the prefix in front of the digits. */
  predicate Front(sp: Spec, t: IntType, v: int, front: string) {
    if SignedPrint(sp.conversion, t) then front == if v < 0 then "-" else if sp.plus then "+" else if sp.space then " " else ""
    else front == if sp.hash && v != 0 && sp.conversion == 'x' then "0x" else if sp.hash && v != 0 && sp.conversion == 'X' then "0X" else ""
  }

  /** The digits, with as many zeros in front as the precision asks for, and one at least
      under `%#o`; nothing at all for a zero with precision 0. */
  predicate Numbered(sp: Spec, mag: nat, zeros: string, digits: string) {
    && AllAre(zeros, '0')
    && Denotes(digits, if sp.conversion in "xX" then 16 else if sp.conversion == 'o' then 8 else 10, sp.conversion == 'X', mag)
    && (if mag == 0 then digits == if sp.precision == 0 then "" else "0" else digits != "" && digits[0] != '0')
    && var octal := sp.hash && sp.conversion == 'o' && (mag != 0 || sp.precision == 0);
       |zeros| == if sp.precision > |digits| then sp.precision - |digits| else if octal then 1 else 0
  }

  /** Filled up to the width: with blanks on the right under `-`, with zeros behind the
      sign under `0` without a precision, else with blanks on the left. */
  predicate Filled(sp: Spec, front: string, number: string, pad: string, out: string) {
    && |pad| == (if sp.width > |front| + |number| then sp.width - |front| - |number| else 0)
    && if sp.minus then AllAre(pad, ' ') && out == front + number + pad
       else if sp.zero && sp.precision < 0 then AllAre(pad, '0') && out == front + pad + number
       else AllAre(pad, ' ') && out == pad + front + number
  }

  lemma NumeralIs(sp: Spec, mag: nat) returns (zeros: string, digits: string)
    requires Integral(sp.conversion)
    ensures Numeral(sp, mag) == zeros + digits && Numbered(sp, mag, zeros, digits)
  {
    hide Digits, Denotes, DigitOf;
    var b := Base(sp.conversion);
    Alphabet(sp.conversion);
    DigitsDenote(mag, b, sp.conversion == 'X');
    var all := Digits(mag, b, sp.conversion == 'X');
    ZeroIs(b, sp.conversion == 'X');
    digits := if mag == 0 && sp.precision == 0 then "" else all;
    var need := sp.precision - |digits|;
    RepeatIs('0', need);
    zeros := Repeat('0', need);
    if sp.hash && sp.conversion == 'o' && (mag != 0 || sp.precision == 0) && need <= 0 {
      assert zeros == "" && zeros + digits == digits;
      zeros := "0";
    }
  }

  lemma ZeroIs(b: nat, upper: bool)
    requires 2 <= b <= 16
    ensures Digits(0, b, upper) == "0" && Denotes("", b, upper, 0) && Denotes("0", b, upper, 0)
  {
    assert "0"[..0] == "";
  }

  /** What `printf` prints for an integer. */
  lemma PrintedIs(sp: Spec, t: IntType, v: int)
    returns (mag: nat, front: string, zeros: string, digits: string, pad: string)
    requires Integral(sp.conversion) && Exists(t) && InRange(t, v)
    ensures Magnitude(sp.conversion, t, v, mag) && Front(sp, t, v, front) && Numbered(sp, mag, zeros, digits)
    ensures Filled(sp, front, zeros + digits, pad, Printed(sp, t, v))
  {
    hide Numeral, Digits, Denotes, Repeat, Numbered;
    var passed := Passed(sp.conversion, t, v);
    mag := if passed < 0 then -passed else passed;
    assert mag == 0 <==> v == 0;
    front := Sign(sp, t, v) + Prefix(sp, mag);
    zeros, digits := NumeralIs(sp, mag);
    var fill := sp.width - |front| - |zeros + digits|;
    RepeatIs(' ', fill);
    RepeatIs('0', fill);
    pad := Repeat(if !sp.minus && sp.zero && sp.precision < 0 then '0' else ' ', fill);
  }

  // ----- budgets -----

  /** The digits of the widest value, and its sign: four bits, or three, a digit. */
  function WidestField(conv: char, t: IntType): nat {
    var bits := if t.named then 64 else t.bits;
    if conv in "xX" then bits / 4
    else if conv == 'o' then (bits + 2) / 3
    else if bits == 64 then 20
    else (match bits case 8 => 3 case 16 => 5 case _ => 10) + if t.signed then 1 else 0
  }

  /** A numeric segment may take its type's widest field or its precision and a sign,
      whichever is more, one byte each for `+` and a blank, two for `#`; and its width, if
      that is more. */
  lemma BudgetIs(t: IntType, sp: Spec)
    requires (Integral(sp.conversion) && Exists(t)) || sp.conversion == 'c'
    ensures var flags := (if sp.plus then 1 else 0) + (if sp.space then 1 else 0) + if sp.hash then 2 else 0;
            var typed := if sp.conversion == 'c' then 1 else WidestField(sp.conversion, t);
            var asked := if sp.conversion == 'c' || sp.precision <= 0 then 0
                         else if SignedPrint(sp.conversion, t) then sp.precision + 1 else sp.precision;
            var field := (if asked > typed then asked else typed) + flags;
            NumericBound(t, sp) == if sp.width > field then sp.width else field
  {
    hide TypeBound, WidestField;
    if sp.conversion != 'c' {
      FieldIsWidest(sp.conversion, t);
    }
  }

  lemma FieldIsWidest(conv: char, t: IntType)
    requires Integral(conv) && Exists(t)
    ensures TypeBound(conv, t) == WidestField(conv, t)
  {
    assert 8 / 4 == 2 && 16 / 4 == 4 && 32 / 4 == 8 && 64 / 4 == 16;
    assert (8 + 2) / 3 == 3 && (16 + 2) / 3 == 6 && (32 + 2) / 3 == 11 && (64 + 2) / 3 == 22;
  }

  /** Text takes its own bytes. A string with a precision takes that or its width; one
      without takes its width, and at run time its own length where that is more. */
  lemma SharesAre(seg: Segment, s: seq<Byte>, at: nat, vals: seq<Value>)
    ensures seg.Literal? ==> SegBudget(seg) == Budget(false, |seg.bytes|)
    ensures seg.TypeName? ==> SegBudget(seg) == Budget(false, |seg.text|)
    ensures seg.Str? && seg.spec.precision >= 0 ==>
              SegBudget(seg) == Budget(false, if seg.spec.width > seg.spec.precision then seg.spec.width else seg.spec.precision)
    ensures seg.Str? && seg.spec.precision < 0 ==> SegBudget(seg) == Budget(true, seg.spec.width)
    ensures at < |vals| && vals[at] == StrValue(s) ==>
              forall w: nat :: TermValue(LengthOf(w, at), vals) == if |s| > w then |s| else w
  {
  }

  // ----- strings -----

  predicate Blank(pad: seq<Byte>) {
    forall i :: 0 <= i < |pad| ==> pad[i] == 32
  }

  /** `%s` prints the bytes before a NUL byte, the precision and the end, whichever comes
      first, with blanks up to the width: on the right under `-`, else on the left. */
  lemma StringIs(s: seq<Byte>, sp: Spec) returns (n: nat, pad: seq<Byte>)
    ensures n <= |s| && (forall i :: 0 <= i < n ==> s[i] != 0) && (sp.precision >= 0 ==> n <= sp.precision)
    ensures n == |s| || s[n] == 0 || n == sp.precision
    ensures Blank(pad) && |pad| == if sp.width > n then sp.width - n else 0
    ensures Padded(UpToNul(Clipped(s, sp.precision)), sp) == if sp.minus then s[..n] + pad else pad + s[..n]
  {
    hide UpToNul, Padded;
    var clip := Clipped(s, sp.precision);
    FirstNul(clip);
    n := |UpToNul(clip)|;
    assert UpToNul(clip) == clip[..n] == s[..n];
    assert forall i :: 0 <= i < n ==> s[i] == UpToNul(clip)[i];
    pad := PadIs(s[..n], sp);
  }

  lemma PadIs(s: seq<Byte>, sp: Spec) returns (pad: seq<Byte>)
    ensures Blank(pad) && |pad| == if sp.width > |s| then sp.width - |s| else 0
    ensures Padded(s, sp) == if sp.minus then s + pad else pad + s
  {
    pad := seq(if sp.width > |s| then sp.width - |s| else 0, _ => 32);
    if sp.width <= |s| {
      assert pad == [] && s + pad == s && pad + s == s;
    }
  }

  lemma {:induction false} FirstNul(s: seq<Byte>)
    ensures |UpToNul(s)| < |s| ==> s[|UpToNul(s)|] == 0
    decreases |s|
  {
    if s != [] && s[0] != 0 {
      FirstNul(s[1..]);
    }
  }

  /** A character's byte, whatever the character. */
  lemma BytesAre(s: string, i: nat)
    requires i < |s|
    ensures |Bytes(s)| == |s| && (s[i] as int < 256 ==> Bytes(s)[i] == s[i] as int)
  {
  }

  // ----- the stored result -----

  /** The largest length a str of the target can have, and what `snprintf` leaves: all of
      the text if it fits with its NUL byte, else its first bytes, and the count of all. */
  lemma LimitsAre(text: seq<Byte>, size: nat, intMax: nat)
    ensures LenMax(16) == 32767 && LenMax(32) == 2147483647 && LenMax(64) == 9223372036854775807
    ensures |text| <= intMax ==> Snprintf(text, size, intMax).1 == |text|
    ensures |text| < size && |text| <= intMax ==> Snprintf(text, size, intMax).0 == StringLiteral.Some(text)
    ensures 0 < size <= |text| <= intMax ==> Snprintf(text, size, intMax).0 == StringLiteral.Some(text[..size - 1])
    ensures |text| > intMax ==> Snprintf(text, size, intMax).1 < 0 && Snprintf(text, size, intMax).0.None?
  {
  }

  /** The values a segment may have: any of its integer type, any byte, any string, a
      terminated one without a NUL byte; literal text and a type's name have none. */
  lemma ValuesAre(seg: Segment, v: Value)
    ensures seg.Int? ==> (Suits(seg, v) <==> v.IntValue? && InRange(seg.t, v.v))
    ensures seg.Char? ==> (Suits(seg, v) <==> v.CharValue?)
    ensures seg.Str? ==> (Suits(seg, v) <==> v.StrValue? && (seg.terminated ==> 0 !in v.bytes))
    ensures HasValue(seg) <==> seg.Int? || seg.Char? || seg.Str?
  {
  }

  /** One value for each such segment, in order. */
  lemma ValuesInTurn(seg: Segment, v: Value, segs: seq<Segment>, vals: seq<Value>)
    ensures AllSuit([], vals) <==> vals == []
    ensures HasValue(seg) ==> (AllSuit([seg] + segs, [v] + vals) <==> Suits(seg, v) && AllSuit(segs, vals))
    ensures !HasValue(seg) ==> (AllSuit([seg] + segs, vals) <==> AllSuit(segs, vals))
  {
    assert ([seg] + segs)[1..] == segs && ([v] + vals)[1..] == vals;
  }

  /** The output is each segment's, one after the other. */
  lemma OutputInTurn(seg: Segment, v: Value, segs: seq<Segment>, vals: seq<Value>)
    requires AllSuit(segs, vals)
    ensures Output([], []) == []
    ensures seg.Literal? ==> Output([seg] + segs, vals) == seg.bytes + Output(segs, vals)
    ensures seg.TypeName? ==> Output([seg] + segs, vals) == seg.text + Output(segs, vals)
    ensures HasValue(seg) && Suits(seg, v) ==> Output([seg] + segs, [v] + vals) == Shown(seg, v) + Output(segs, vals)
  {
    assert ([seg] + segs)[1..] == segs && ([v] + vals)[1..] == vals;
  }
}
