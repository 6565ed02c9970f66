/** Format specs: how they are read, and what C prints for an integer (C11 7.21.6.1). */
module FormatSpec {

  const MAX_FIELD := 32767

  /** Flags, width, precision (-1 when absent) and conversion. */
  datatype Spec = Spec(minus: bool, plus: bool, space: bool, hash: bool, zero: bool, width: nat, precision: int, conversion: char)

  // ----- reading a spec -----

  predicate Flag(c: char) {
    c == '-' || c == '+' || c == ' ' || c == '#' || c == '0'
  }

  predicate Digit(c: char) {
    '0' <= c <= '9'
  }

  predicate Conversion(c: char) {
    c in "diuxXofeEgGscpT"
  }

  function FlagRun(s: string): (n: nat)
    ensures n <= |s| && (forall i :: 0 <= i < n ==> Flag(s[i])) && (n < |s| ==> !Flag(s[n]))
  {
    if s == [] || !Flag(s[0]) then 0 else 1 + FlagRun(s[1..])
  }

  function DigitRun(s: string): (n: nat)
    ensures n <= |s| && (forall i :: 0 <= i < n ==> Digit(s[i])) && (n < |s| ==> !Digit(s[n]))
  {
    if s == [] || !Digit(s[0]) then 0 else 1 + DigitRun(s[1..])
  }

  function Number(s: string): nat
    requires forall i :: 0 <= i < |s| ==> Digit(s[i])
  {
    if s == [] then 0
    else assert Digit(s[|s| - 1]); 10 * Number(s[..|s| - 1]) + (s[|s| - 1] as int - '0' as int)
  }

  function Field(s: string): nat
    requires forall i :: 0 <= i < |s| ==> Digit(s[i])
  {
    if Number(s) > MAX_FIELD then MAX_FIELD + 1 else Number(s)
  }

  /** A digit run's value, one past the largest field once it is larger. */
  method ScanField(s: string, at: nat) returns (end: nat, value: nat)
    requires at <= |s|
    ensures end == at + DigitRun(s[at..]) <= |s| && value == Field(s[at..end])
  {
    hide Field, DigitRun;
    end, value := at, 0;
    FieldNone();
    assert s[at..at] == "";
    while end < |s| && Digit(s[end])
      invariant at <= end <= |s| && at + DigitRun(s[at..]) == end + DigitRun(s[end..])
      invariant forall i :: at <= i < end ==> Digit(s[i])
      invariant value == Field(s[at..end])
    {
      RunStep(s, end);
      assert s[at..end + 1] == s[at..end] + [s[end]];
      FieldStep(s[at..end], s[end]);
      if value < MAX_FIELD + 1 { value := value * 10 + (s[end] as int - '0' as int); }
      if value > MAX_FIELD + 1 { value := MAX_FIELD + 1; }
      end := end + 1;
    }
    RunEnds(s, end);
  }

  lemma FieldNone()
    ensures Field("") == 0
  {
  }

  lemma FieldStep(s: string, c: char)
    requires (forall i :: 0 <= i < |s| ==> Digit(s[i])) && Digit(c)
    ensures forall i :: 0 <= i < |s + [c]| ==> Digit((s + [c])[i])
    ensures Field(s) <= MAX_FIELD + 1
    ensures var next := if Field(s) < MAX_FIELD + 1 then Field(s) * 10 + (c as int - '0' as int) else Field(s);
            Field(s + [c]) == if next > MAX_FIELD + 1 then MAX_FIELD + 1 else next
  {
    assert (s + [c])[..|s|] == s;
    assert Number(s + [c]) == 10 * Number(s) + (c as int - '0' as int);
  }

  lemma RunStep(s: string, at: nat)
    requires at < |s| && Digit(s[at])
    ensures DigitRun(s[at..]) == 1 + DigitRun(s[at + 1..])
  {
    assert s[at..][1..] == s[at + 1..];
  }

  lemma RunEnds(s: string, at: nat)
    requires at <= |s| && (at == |s| || !Digit(s[at]))
    ensures DigitRun(s[at..]) == 0
  {
  }

  /** The parts of a spec's text. */
  datatype Parts = Parts(flags: string, width: string, dotted: bool, precision: string, conversion: char)

  predicate Written(p: Parts) {
    && (forall i :: 0 <= i < |p.flags| ==> Flag(p.flags[i]))
    && (forall i :: 0 <= i < |p.width| ==> Digit(p.width[i])) && (p.width == [] || p.width[0] != '0')
    && (forall i :: 0 <= i < |p.precision| ==> Digit(p.precision[i])) && (!p.dotted ==> p.precision == [])
    && Conversion(p.conversion)
  }

  function Text(p: Parts): string {
    p.flags + p.width + (if p.dotted then "." + p.precision else "") + [p.conversion]
  }

  function Read(p: Parts): Spec
    requires Written(p)
  {
    Spec('-' in p.flags, '+' in p.flags, ' ' in p.flags, '#' in p.flags, '0' in p.flags, Field(p.width),
         if p.dotted then Field(p.precision) else -1, p.conversion)
  }

  method ScanFlags(text: string) returns (s: nat, minus: bool, plus: bool, space: bool, hash: bool, zero: bool)
    ensures s == FlagRun(text) <= |text|
    ensures minus == ('-' in text[..s]) && plus == ('+' in text[..s]) && space == (' ' in text[..s])
    ensures hash == ('#' in text[..s]) && zero == ('0' in text[..s])
  {
    s, minus, plus, space, hash, zero := 0, false, false, false, false, false;
    while s < |text| && Flag(text[s])
      invariant s <= |text| && FlagRun(text) == s + FlagRun(text[s..])
      invariant minus == ('-' in text[..s]) && plus == ('+' in text[..s]) && space == (' ' in text[..s])
      invariant hash == ('#' in text[..s]) && zero == ('0' in text[..s])
    {
      assert text[..s + 1] == text[..s] + [text[s]];
      assert text[s..][1..] == text[s + 1..];
      match text[s] {
        case '-' => minus := true;
        case '+' => plus := true;
        case ' ' => space := true;
        case '#' => hash := true;
        case _ => zero := true;
      }
      s := s + 1;
    }
  }

  /** What the scan finds: where the flags, the width and the precision end. */
  ghost predicate Scanned(text: string, flags: nat, widthEnd: nat, end: nat, spec: Spec, ok: bool) {
    && flags == FlagRun(text) && widthEnd == flags + DigitRun(text[flags..]) <= |text|
    && spec.minus == ('-' in text[..flags]) && spec.plus == ('+' in text[..flags]) && spec.space == (' ' in text[..flags])
    && spec.hash == ('#' in text[..flags]) && spec.zero == ('0' in text[..flags])
    && spec.width == Field(text[flags..widthEnd])
    && (if widthEnd < |text| && text[widthEnd] == '.'
        then end == widthEnd + 1 + DigitRun(text[widthEnd + 1..]) <= |text| && spec.precision == Field(text[widthEnd + 1..end])
        else end == widthEnd && spec.precision == -1)
    && ok == (end < |text| && Conversion(text[end])) && (ok ==> spec.conversion == text[end])
  }

  /** The spec's fields, where its precision starts, and its length through the
      conversion, or 0. */
  method InterpSpecScan(text: string) returns (n: nat, precAt: nat, spec: Spec)
    ensures forall p: Parts, rest: string :: Written(p) && text == Text(p) + rest ==>
              n == |Text(p)| && precAt == |p.flags| + |p.width| && spec == Read(p)
    ensures n > 0 ==> exists p: Parts, rest: string :: Written(p) && text == Text(p) + rest
  {
    hide FlagRun, DigitRun, Field, Text, Written, Read;
    var flags, minus, plus, space, hash, zero := ScanFlags(text);
    var s, width := ScanField(text, flags);
    precAt := s;
    var precision: int := -1;
    if s < |text| && text[s] == '.' {
      s, precision := ScanField(text, s + 1);
    }
    var ok := s < |text| && Conversion(text[s]);
    n := if ok then s + 1 else 0;
    spec := Spec(minus, plus, space, hash, zero, width, precision, if ok then text[s] else '\0');
    assert Scanned(text, flags, precAt, s, spec, ok);
    if ok {
      ghost var p, rest := ScanIsWritten(text, flags, precAt, s, spec);
    }
    forall p: Parts, rest: string | Written(p) && text == Text(p) + rest
      ensures n == |Text(p)| && precAt == |p.flags| + |p.width| && spec == Read(p)
    {
      ScanReads(p, rest, flags, precAt, s, spec, ok);
    }
  }

  lemma ScanIsWritten(text: string, flags: nat, widthEnd: nat, end: nat, spec: Spec) returns (p: Parts, rest: string)
    requires Scanned(text, flags, widthEnd, end, spec, true)
    ensures Written(p) && text == Text(p) + rest
  {
    hide FlagRun, DigitRun, Field, Text, Conversion;
    var dotted := text[widthEnd] == '.';
    p := Parts(text[..flags], text[flags..widthEnd], dotted, if dotted then text[widthEnd + 1..end] else "", text[end]);
    rest := text[end + 1..];
    RunIsDigits(text, flags);
    if dotted {
      RunIsDigits(text, widthEnd + 1);
    }
    FlagsAreFlags(text);
    Joined(text, flags, widthEnd, end, p, rest);
  }

  lemma FlagsAreFlags(text: string)
    ensures var n := FlagRun(text);
            && (forall i :: 0 <= i < n ==> Flag(text[..n][i]))
            && (DigitRun(text[n..]) > 0 ==> text[n] != '0')
  {
    hide FlagRun, DigitRun;
    var n := FlagRun(text);
    assert DigitRun(text[n..]) > 0 ==> n < |text|;
  }

  lemma RunIsDigits(text: string, at: nat)
    requires at <= |text|
    ensures var end := at + DigitRun(text[at..]);
            end <= |text| && forall i :: 0 <= i < end - at ==> Digit(text[at..end][i])
  {
    hide DigitRun;
    var tail := text[at..];
    var n := DigitRun(tail);
    assert forall i :: 0 <= i < n ==> Digit(tail[i]);
    assert text[at..at + n] == tail[..n];
  }

  lemma Joined(text: string, f: nat, w: nat, end: nat, p: Parts, rest: string)
    requires f <= w <= end < |text| && (if text[w] == '.' then w < end else w == end)
    requires p == Parts(text[..f], text[f..w], text[w] == '.', if text[w] == '.' then text[w + 1..end] else "", text[end])
    requires rest == text[end + 1..]
    ensures text == Text(p) + rest
  {
    assert text[..f] + text[f..w] == text[..w];
    if text[w] == '.' {
      assert "." + text[w + 1..end] == text[w..end];
    } else {
      assert text[w..end] == "";
    }
    assert text[..w] + text[w..end] == text[..end];
    assert text[..end] + [text[end]] == text[..end + 1];
    assert text[..end + 1] + text[end + 1..] == text;
  }

  lemma ScanReads(p: Parts, rest: string, flags: nat, widthEnd: nat, end: nat, spec: Spec, ok: bool)
    requires Written(p) && Scanned(Text(p) + rest, flags, widthEnd, end, spec, ok)
    ensures ok && end + 1 == |Text(p)| && widthEnd == |p.flags| + |p.width| && spec == Read(p)
  {
    hide FlagRun, DigitRun, Field, Text;
    Parsed(p, rest);
  }

  lemma {:induction false} FlagsEnd(flags: string, rest: string)
    requires (forall i :: 0 <= i < |flags| ==> Flag(flags[i])) && (rest == [] || !Flag(rest[0]))
    ensures FlagRun(flags + rest) == |flags|
  {
    if flags != [] {
      FlagsEnd(flags[1..], rest);
      assert (flags + rest)[1..] == flags[1..] + rest;
    } else {
      assert flags + rest == rest;
    }
  }

  lemma {:induction false} DigitsEnd(digits: string, rest: string)
    requires (forall i :: 0 <= i < |digits| ==> Digit(digits[i])) && (rest == [] || !Digit(rest[0]))
    ensures DigitRun(digits + rest) == |digits|
  {
    if digits != [] {
      DigitsEnd(digits[1..], rest);
      assert (digits + rest)[1..] == digits[1..] + rest;
    } else {
      assert digits + rest == rest;
    }
  }

  /** Where each part of a written spec ends. */
  lemma Parsed(p: Parts, rest: string)
    requires Written(p)
    ensures var text := Text(p) + rest;
            var f := |p.flags|;
            var w := f + |p.width|;
            && FlagRun(text) == f && DigitRun(text[f..]) == |p.width|
            && text[..f] == p.flags && text[f..w] == p.width && w < |text|
            && (p.dotted <==> text[w] == '.')
            && (p.dotted ==> DigitRun(text[w + 1..]) == |p.precision| && text[w + 1..w + 1 + |p.precision|] == p.precision
                             && w + 1 + |p.precision| + 1 == |Text(p)| && text[w + 1 + |p.precision|] == p.conversion)
            && (!p.dotted ==> w + 1 == |Text(p)| && text[w] == p.conversion)
  {
    hide FlagRun, DigitRun;
    var text := Text(p) + rest;
    var f := |p.flags|;
    var w := f + |p.width|;
    var last := [p.conversion] + rest;
    var afterWidth := (if p.dotted then "." + p.precision else "") + last;
    Shape(p, rest, last, afterWidth);
    FlagsEnd(p.flags, p.width + afterWidth);
    DigitsEnd(p.width, afterWidth);
    if p.dotted {
      DigitsEnd(p.precision, last);
    }
  }

  lemma Shape(p: Parts, rest: string, last: string, afterWidth: string)
    requires last == [p.conversion] + rest && afterWidth == (if p.dotted then "." + p.precision else "") + last
    ensures var text := Text(p) + rest;
            var f := |p.flags|;
            var w := f + |p.width|;
            && text == p.flags + (p.width + afterWidth) && w < |text|
            && text[..f] == p.flags && text[f..] == p.width + afterWidth && text[f..w] == p.width && text[w] == afterWidth[0]
            && (p.dotted ==> text[w + 1..] == p.precision + last && text[w + 1..w + 1 + |p.precision|] == p.precision
                             && w + 1 + |p.precision| + 1 == |Text(p)| && text[w + 1 + |p.precision|] == p.conversion)
            && (!p.dotted ==> w + 1 == |Text(p)| && text[w] == p.conversion)
  {
  }

  // ----- printing an integer -----

  /** `named`: isize or usize, whose width the target decides. */
  datatype IntType = IntType(signed: bool, bits: nat, named: bool)

  predicate Exists(t: IntType) {
    t.bits == 16 || t.bits == 32 || t.bits == 64 || (t.bits == 8 && !t.named)
  }

  function Pow(b: nat, k: nat): nat {
    if k == 0 then 1 else b * Pow(b, k - 1)
  }

  function Half(bits: nat): int {
    if bits == 8 then 0x80 else if bits == 16 then 0x8000 else if bits == 32 then 0x8000_0000 else 0x8000_0000_0000_0000
  }

  predicate InRange(t: IntType, v: int) {
    if t.signed then -Half(t.bits) <= v < Half(t.bits) else 0 <= v < 2 * Half(t.bits)
  }

  /** The conversions that print the bit pattern, and `%d` of an unsigned value. */
  predicate IsUnsigned(conv: char, t: IntType) {
    conv == 'u' || conv == 'x' || conv == 'X' || conv == 'o' || ((conv == 'd' || conv == 'i') && !t.signed)
  }

  predicate Integral(conv: char) {
    conv == 'd' || conv == 'i' || conv == 'u' || conv == 'x' || conv == 'X' || conv == 'o'
  }

  /** The argument as it is passed: its bit pattern at its own width, or its value. */
  function Passed(conv: char, t: IntType, v: int): int {
    if IsUnsigned(conv, t) && v < 0 then v + 2 * Half(t.bits) else v
  }

  function Base(conv: char): (b: nat)
    ensures b >= 2
  {
    if conv == 'x' || conv == 'X' then 16 else if conv == 'o' then 8 else 10
  }

  function DigitOf(d: nat, upper: bool): char
    requires d < 16
  {
    if d < 10 then ('0' as int + d) as char else if upper then ('A' as int + d - 10) as char else ('a' as int + d - 10) as char
  }

  function Digits(n: nat, b: nat, upper: bool): (s: string)
    requires 2 <= b <= 16
    ensures |s| >= 1
    decreases n
  {
    if n < b then [DigitOf(n, upper)]
    else
      assert n / b < n by { assert b * (n / b) <= n; }
      Digits(n / b, b, upper) + [DigitOf(n % b, upper)]
  }

  function Repeat(c: char, n: int): (s: string)
    ensures |s| == if n < 0 then 0 else n
  {
    if n <= 0 then [] else [c] + Repeat(c, n - 1)
  }

  /** The digits: none for a zero with precision 0, at least the precision otherwise,
      and at least one zero in front under `%#o`. */
  function Numeral(sp: Spec, mag: nat): string {
    var plain := if mag == 0 && sp.precision == 0 then "" else Digits(mag, Base(sp.conversion), sp.conversion == 'X');
    var padded := Repeat('0', sp.precision - |plain|) + plain;
    if sp.hash && sp.conversion == 'o' && (padded == [] || padded[0] != '0') then "0" + padded else padded
  }

  function Sign(sp: Spec, t: IntType, v: int): string {
    if IsUnsigned(sp.conversion, t) then ""
    else if v < 0 then "-"
    else if sp.plus then "+"
    else if sp.space then " "
    else ""
  }

  function Prefix(sp: Spec, mag: nat): string {
    if sp.hash && mag != 0 && sp.conversion == 'x' then "0x"
    else if sp.hash && mag != 0 && sp.conversion == 'X' then "0X"
    else ""
  }

  /** What `printf` prints. */
  function Printed(sp: Spec, t: IntType, v: int): (s: string)
  {
    var passed := Passed(sp.conversion, t, v);
    var mag := if passed < 0 then -passed else passed;
    var front, numeral := Sign(sp, t, v) + Prefix(sp, mag), Numeral(sp, mag);
    var fill := sp.width - |front| - |numeral|;
    if sp.minus then front + numeral + Repeat(' ', fill)
    else if sp.zero && sp.precision < 0 then front + Repeat('0', fill) + numeral
    else Repeat(' ', fill) + front + numeral
  }

  // ----- the budget of an integer -----

  function MostDigits(conv: char, bits: nat): nat {
    if Base(conv) == 16 then (if bits == 8 then 2 else if bits == 16 then 4 else if bits == 32 then 8 else 16)
    else if Base(conv) == 8 then (if bits == 8 then 3 else if bits == 16 then 6 else if bits == 32 then 11 else 22)
    else (if bits == 8 then 3 else if bits == 16 then 5 else if bits == 32 then 10 else 20)
  }

  lemma {:induction false} FewDigits(n: nat, b: nat, upper: bool, k: nat)
    requires 2 <= b <= 16 && k >= 1 && n < Pow(b, k)
    ensures |Digits(n, b, upper)| <= k
    decreases k
  {
    if n >= b {
      assert k > 1 by { assert Pow(b, 1) == b * Pow(b, 0) == b; }
      assert n / b < Pow(b, k - 1) by {
        assert n < b * Pow(b, k - 1);
        Quotient(n, b, Pow(b, k - 1));
      }
      FewDigits(n / b, b, upper, k - 1);
    }
  }

  lemma Quotient(n: nat, b: nat, m: nat)
    requires b > 0 && n < b * m
    ensures n / b < m
  {
  }

  lemma Powers(conv: char, bits: nat)
    requires bits == 8 || bits == 16 || bits == 32 || bits == 64
    ensures 2 * Half(bits) <= Pow(Base(conv), MostDigits(conv, bits))
  {
    assert Pow(16, 2) == 0x100 && Pow(16, 4) == 0x1_0000 && Pow(16, 8) == 0x1_0000_0000 && Pow(16, 16) == 0x1_0000_0000_0000_0000;
    assert Pow(8, 3) == 0x200 && Pow(8, 6) == 0x4_0000 && Pow(8, 11) == 0x2_0000_0000 && Pow(8, 22) == 0x4_0000_0000_0000_0000;
    assert Pow(10, 3) == 1000 && Pow(10, 5) == 100000 && Pow(10, 10) == 10000000000 && Pow(10, 20) == 100000000000000000000;
  }
}
