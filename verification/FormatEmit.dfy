/** From a checked interpolation to the emitted format and arguments, and what C's
    `snprintf` (C11 7.21.6.1) makes of them. */
module FormatEmit {
  import opened StringLiteral
  import opened Trigraphs
  import opened FormatSpec
  import opened FormatString
  import FormatBudget

  type Value = FormatBudget.Value
  type Segment = FormatBudget.Segment

  // ----- what was checked -----

  datatype Operand = OfInt(t: IntType) | OfByte | OfStr | OfCstr

  datatype Source = Literal(bytes: seq<Byte>) | TypeName(text: seq<Byte>) | Formatted(parts: Parts, operand: Operand)

  predicate Suitable(conv: char, op: Operand) {
    match op
    case OfInt(t) => Integral(conv) && Exists(t)
    case OfByte => conv == 'c'
    case _ => conv == 's'
  }

  /** The modifiers the type checker lets a conversion carry. */
  predicate ModsAllowed(sp: Spec, op: Operand) {
    && (sp.plus || sp.space ==> op.OfInt? && !IsUnsigned(sp.conversion, op.t)) && !(sp.plus && sp.space)
    && (sp.hash ==> sp.conversion == 'x' || sp.conversion == 'X' || sp.conversion == 'o')
    && (sp.zero ==> op.OfInt? && !sp.minus && sp.precision < 0)
    && (sp.precision >= 0 ==> op.OfInt? || sp.conversion == 's')
  }

  predicate Accepted(src: Source) {
    match src
    case Literal(_) => true
    case TypeName(text) => forall i :: 0 <= i < |text| ==> Printable(text[i])
    case Formatted(p, op) =>
      Written(p) && var sp := FormatSpec.Read(p);
                    sp.width <= MAX_FIELD && sp.precision <= MAX_FIELD && Suitable(sp.conversion, op) && ModsAllowed(sp, op)
  }

  predicate AllAccepted(srcs: seq<Source>) {
    forall i :: 0 <= i < |srcs| ==> Accepted(srcs[i])
  }

  /** The segment the budget is computed from. */
  function Seg(src: Source): Segment
    requires Accepted(src)
  {
    match src
    case Literal(bytes) => FormatBudget.Literal(bytes)
    case TypeName(text) => FormatBudget.TypeName(text)
    case Formatted(p, OfInt(t)) => FormatBudget.Int(FormatSpec.Read(p), t)
    case Formatted(p, OfByte) => FormatBudget.Char(FormatSpec.Read(p))
    case Formatted(p, OfStr) => FormatBudget.Str(FormatSpec.Read(p), false)
    case Formatted(p, OfCstr) => FormatBudget.Str(FormatSpec.Read(p), true)
  }

  function Segs(srcs: seq<Source>): (segs: seq<Segment>)
    requires AllAccepted(srcs)
    ensures |segs| == |srcs| && forall i :: 0 <= i < |srcs| ==> segs[i] == Seg(srcs[i])
  {
    seq(|srcs|, i requires 0 <= i < |srcs| => Seg(srcs[i]))
  }

  // ----- what is emitted -----

  function Middle(p: Parts, star: bool): string {
    if star then ".*" else if p.dotted then "." + p.precision else ""
  }

  /** A directive's text up to its letter. */
  function ModText(p: Parts, star: bool, long: bool): string {
    p.flags + p.width + Middle(p, star) + if long then "ll" else ""
  }

  /** `%d` of an unsigned value is emitted as `%u`. */
  function Letter(conv: char, op: Operand): char {
    if op.OfInt? && (conv == 'd' || conv == 'i') && IsUnsigned(conv, op.t) then 'u' else conv
  }

  function PieceOf(src: Source): Piece
    requires Accepted(src)
  {
    match src
    case Literal(bytes) => Lit(bytes)
    case TypeName(text) => Name(text)
    case Formatted(p, op) => Conv(FormatBudget.Bytes(ModText(p, op.OfStr?, op.OfInt?)), Code(Letter(p.conversion, op)), PassOf(p, op))
  }

  function PassOf(p: Parts, op: Operand): Passing
    requires Written(p)
  {
    match op
    case OfInt(t) => if IsUnsigned(p.conversion, t) then AsUnsigned(t.bits) else AsLong
    case OfByte => AsInt
    case OfStr => AsStr(FormatSpec.Read(p).precision)
    case OfCstr => AsPointer
  }

  function Code(c: char): Byte {
    c as int % 256
  }

  function Pieces(srcs: seq<Source>): (ps: seq<Piece>)
    requires AllAccepted(srcs)
    ensures |ps| == |srcs| && forall i :: 0 <= i < |srcs| ==> ps[i] == PieceOf(srcs[i])
  {
    seq(|srcs|, i requires 0 <= i < |srcs| => PieceOf(srcs[i]))
  }

  // ----- C's directives -----

  /** A directive's modifiers: `star` for `.*`, `long` for `ll`. */
  datatype Mods = Mods(sp: Spec, star: bool, long: bool)

  function ReadMods(m: string, letter: char): Option<Mods> {
    var f := FlagRun(m);
    var w := DigitRun(m[f..]);
    ReadRest(m[..f], m[f..][..w], m[f..][w..], letter)
  }

  function ReadRest(flags: string, width: string, rest: string, letter: char): Option<Mods>
    requires forall i :: 0 <= i < |width| ==> Digit(width[i])
  {
    var dotted := rest != [] && rest[0] == '.';
    var star := dotted && |rest| > 1 && rest[1] == '*';
    var digits := if dotted && !star then rest[1..] else "";
    var n := DigitRun(digits);
    var tail := if star then rest[2..] else if dotted then digits[n..] else rest;
    var sp := Spec('-' in flags, '+' in flags, ' ' in flags, '#' in flags, '0' in flags, Number(width),
                   if dotted && !star then Number(digits[..n]) else -1, letter);
    if tail == "" || tail == "ll" then Some(Mods(sp, star, tail == "ll")) else None
  }

  datatype CValue = CInt(v: int) | CLong(v: int) | CULong(v: int) | CPtr(memory: seq<Byte>)

  const LONG := IntType(true, 64, false)
  const ULONG := IntType(false, 64, false)

  /** Undefined unless the length modifier is the argument's. */
  function CInteger(mods: Mods, t: IntType, v: int): Option<seq<Byte>> {
    if mods.long && !mods.star && InRange(t, v) && Integral(mods.sp.conversion) && (mods.sp.hash ==> Base(mods.sp.conversion) != 10)
    then Some(FormatBudget.Bytes(FormatSpec.Printed(mods.sp, t, v)))
    else None
  }

  /** Undefined unless the precision or a NUL byte ends the string inside its memory. */
  function CString(memory: seq<Byte>, precision: int, sp: Spec): Option<seq<Byte>> {
    if 0 <= precision <= |memory| || NUL in memory
    then Some(FormatBudget.Padded(FormatBudget.UpToNul(FormatBudget.Clipped(memory, precision)), sp))
    else None
  }

  function CPrint(mods: Mods, args: seq<CValue>): Option<seq<Byte>> {
    var sp := mods.sp;
    var bare := !mods.long && !sp.hash && !sp.zero;
    match sp.conversion
    case 'd' | 'i' => if |args| == 1 && args[0].CLong? then CInteger(mods, LONG, args[0].v) else None
    case 'u' | 'x' | 'X' | 'o' => if |args| == 1 && args[0].CULong? then CInteger(mods, ULONG, args[0].v) else None
    case 'c' =>
      if |args| == 1 && args[0].CInt? && bare && !mods.star && sp.precision < 0 then Some(FormatBudget.Padded([args[0].v % 256], sp)) else None
    case 's' =>
      if mods.star then
        if |args| == 2 && args[0].CInt? && args[0].v >= 0 && args[1].CPtr? && bare then CString(args[1].memory, args[0].v, sp) else None
      else if |args| == 1 && args[0].CPtr? && bare then CString(args[0].memory, sp.precision, sp) else None
    case _ => None
  }

  // ----- C's arguments -----

  /** A conversion to the unsigned type of so many bits. */
  function AtWidth(bits: nat, v: int): int {
    v % (2 * Half(bits))
  }

  /** A str's memory is its bytes, a cstr's ends with a NUL byte. */
  function Eval(arg: Arg, vals: seq<Value>, intMax: nat): Option<CValue> {
    if arg.Zero? then Some(CInt(0))
    else if arg.temp >= |vals| then None
    else match (arg, vals[arg.temp])
      case (Cast(AsLong, _), IntValue(v)) => Some(CLong(v))
      case (Cast(AsUnsigned(bits), _), IntValue(v)) => Some(CULong(AtWidth(bits, v)))
      case (Cast(AsInt, _), CharValue(c)) => Some(CInt(c))
      case (Cast(AsPointer, _), StrValue(bytes)) => Some(CPtr(bytes + [NUL]))
      case (Length(limit, _), StrValue(bytes)) =>
        var n := if |bytes| < limit || limit < 0 then |bytes| else limit;
        if n <= intMax then Some(CInt(n)) else None
      case (Bytes(_), StrValue(bytes)) => Some(CPtr(bytes))
      case _ => None
  }

  function Evals(args: seq<Arg>, vals: seq<Value>, intMax: nat): Option<seq<CValue>> {
    if args == [] then Some([])
    else
      var first, rest := Eval(args[0], vals, intMax), Evals(args[1..], vals, intMax);
      if first.Some? && rest.Some? then Some([first.value] + rest.value) else None
  }

  function Chars(bytes: seq<Byte>): (s: string)
    ensures |s| == |bytes| && forall i :: 0 <= i < |s| ==> s[i] == bytes[i] as char
  {
    seq(|bytes|, i requires 0 <= i < |bytes| => bytes[i] as char)
  }

  function CShow(mods: seq<Byte>, letter: Byte, args: seq<Arg>, vals: seq<Value>, intMax: nat): Option<seq<Byte>> {
    var m, vs := ReadMods(Chars(mods), letter as char), Evals(args, vals, intMax);
    if m.None? || vs.None? then None else CPrint(m.value, vs.value)
  }

  function ShowOf(vals: seq<Value>, intMax: nat): Show {
    (mods: seq<Byte>, letter: Byte, args: seq<Arg>) => CShow(mods, letter, args, vals, intMax)
  }

  // ----- the directives are read as they were written -----

  predicate ModChar(c: char) {
    Flag(c) || Digit(c) || c == '.' || c == '*' || c == 'l'
  }

  predicate AllMods(s: string, star: bool) {
    (forall i :: 0 <= i < |s| ==> ModChar(s[i])) && (star <==> '*' in s)
  }

  lemma ModsJoin(s: string, t: string, a: bool, b: bool)
    requires AllMods(s, a) && AllMods(t, b)
    ensures AllMods(s + t, a || b)
  {
  }

  lemma ModTextChars(p: Parts, star: bool, long: bool)
    requires Written(p)
    ensures AllMods(ModText(p, star, long), star)
  {
    hide AllMods;
    PartChars(p, star, long);
    ModsJoin(p.flags, p.width, false, false);
    ModsJoin(p.flags + p.width, Middle(p, star), false, star);
    ModsJoin(p.flags + p.width + Middle(p, star), if long then "ll" else "", star, false);
  }

  lemma PartChars(p: Parts, star: bool, long: bool)
    requires Written(p)
    ensures AllMods(p.flags, false) && AllMods(p.width, false) && AllMods(Middle(p, star), star) && AllMods(if long then "ll" else "", false)
  {
  }

  lemma ModCodes(s: string, star: bool)
    requires AllMods(s, star)
    ensures Chars(FormatBudget.Bytes(s)) == s
    ensures forall i :: 0 <= i < |s| ==> Modifier(FormatBudget.Bytes(s)[i])
    ensures STAR in FormatBudget.Bytes(s) <==> star
  {
    var bs := FormatBudget.Bytes(s);
    forall i | 0 <= i < |s| ensures bs[i] == s[i] as int && Modifier(bs[i]) {
      assert ModChar(s[i]);
    }
    if star {
      var i :| 0 <= i < |s| && s[i] == '*';
      assert bs[i] == STAR;
    }
  }

  lemma ModsAre(p: Parts, star: bool, long: bool, letter: char)
    requires Written(p)
    ensures ReadMods(ModText(p, star, long), letter)
              == Some(Mods(Spec('-' in p.flags, '+' in p.flags, ' ' in p.flags, '#' in p.flags, '0' in p.flags,
                                Number(p.width), if p.dotted && !star then Number(p.precision) else -1, letter), star, long))
  {
    hide FlagRun, DigitRun, Number, ReadRest, Middle;
    var tail := if long then "ll" else "";
    var rest := Middle(p, star) + tail;
    var m := ModText(p, star, long);
    assert m == p.flags + (p.width + rest);
    MiddleReads(p, star, tail);
    FlagsEnd(p.flags, p.width + rest);
    DigitsEnd(p.width, rest);
    assert m[|p.flags|..] == p.width + rest && m[..|p.flags|] == p.flags;
    assert (p.width + rest)[..|p.width|] == p.width && (p.width + rest)[|p.width|..] == rest;
    RestReads(p, star, long, letter);
  }

  lemma RestReads(p: Parts, star: bool, long: bool, letter: char)
    requires Written(p)
    ensures ReadRest(p.flags, p.width, Middle(p, star) + (if long then "ll" else ""), letter)
              == Some(Mods(Spec('-' in p.flags, '+' in p.flags, ' ' in p.flags, '#' in p.flags, '0' in p.flags,
                                Number(p.width), if p.dotted && !star then Number(p.precision) else -1, letter), star, long))
  {
    hide DigitRun, Number, Middle, Written;
    MiddleReads(p, star, if long then "ll" else "");
  }

  lemma MiddleReads(p: Parts, star: bool, tail: string)
    requires Written(p) && (tail == "" || tail == "ll")
    ensures var s := Middle(p, star) + tail;
            && (s != [] ==> !Flag(s[0]) && !Digit(s[0]))
            && (s != [] && s[0] == '.' <==> star || p.dotted)
            && (star ==> |s| > 1 && s[1] == '*' && s[2..] == tail)
            && (!star && p.dotted ==> (|s| > 1 ==> s[1] != '*') && s[1..] == p.precision + tail
                                      && DigitRun(s[1..]) == |p.precision| && s[1..][..|p.precision|] == p.precision && s[1..][|p.precision|..] == tail)
            && (!star && !p.dotted ==> s == tail)
  {
    hide DigitRun;
    var s := Middle(p, star) + tail;
    if star {
      assert s[2..] == tail;
    } else if p.dotted {
      DigitsEnd(p.precision, tail);
      assert s[1..] == p.precision + tail;
      assert (p.precision + tail)[..|p.precision|] == p.precision && (p.precision + tail)[|p.precision|..] == tail;
      assert s[0] == '.' && (|s| > 1 ==> s[1] == (p.precision + tail)[0]);
    } else {
      assert s == tail;
    }
  }

  lemma PieceWellFormed(src: Source)
    requires Accepted(src)
    ensures WellFormed(PieceOf(src))
  {
    hide FormatBudget.Bytes, ModText, AllMods, FormatSpec.Read;
    if src.Formatted? {
      var p, op := src.parts, src.operand;
      ModTextChars(p, op.OfStr?, op.OfInt?);
      ModCodes(ModText(p, op.OfStr?, op.OfInt?), op.OfStr?);
    }
  }

  // ----- one conversion -----

  /** The spec C reads back, and its letter. */
  lemma DirectiveReads(p: Parts, op: Operand)
    requires Accepted(Formatted(p, op))
    ensures var piece := PieceOf(Formatted(p, op));
            var sp := FormatSpec.Read(p).(conversion := Letter(p.conversion, op));
            && piece.letter as char == Letter(p.conversion, op)
            && ReadMods(Chars(piece.mods), piece.letter as char) == Some(Mods(if op.OfStr? then sp.(precision := -1) else sp, op.OfStr?, op.OfInt?))
  {
    hide FormatBudget.Bytes, ModText, AllMods, ReadMods, Number;
    var letter := Letter(p.conversion, op);
    ModTextChars(p, op.OfStr?, op.OfInt?);
    ModCodes(ModText(p, op.OfStr?, op.OfInt?), op.OfStr?);
    ModsAre(p, op.OfStr?, op.OfInt?, letter);
  }

  /** `long long` and `unsigned long long` print every value as its own type would. */
  lemma Widened(sp: Spec, t: IntType, v: int)
    requires Integral(sp.conversion) && Exists(t) && InRange(t, v)
    ensures var c := if IsUnsigned(sp.conversion, t) then ULONG else LONG;
            var letter := Letter(sp.conversion, OfInt(t));
            var passed := if IsUnsigned(sp.conversion, t) then AtWidth(t.bits, v) else v;
            InRange(c, passed) && FormatSpec.Printed(sp.(conversion := letter), c, passed) == FormatSpec.Printed(sp, t, v)
  {
    hide Digits, Repeat, Half, InRange, Numeral, Sign, Prefix, AtWidth, Passed, IsUnsigned, Exists;
    var out := sp.(conversion := Letter(sp.conversion, OfInt(t)));
    var c := if IsUnsigned(sp.conversion, t) then ULONG else LONG;
    var passed := if IsUnsigned(sp.conversion, t) then AtWidth(t.bits, v) else v;
    CastKeeps(sp.conversion, t, v);
    var mag := if passed < 0 then -passed else passed;
    SamePrefix(sp, t, mag);
    SameSign(sp, t, v, c, passed);
  }

  lemma CastKeeps(conv: char, t: IntType, v: int)
    requires Integral(conv) && Exists(t) && InRange(t, v)
    ensures var c := if IsUnsigned(conv, t) then ULONG else LONG;
            var passed := if IsUnsigned(conv, t) then AtWidth(t.bits, v) else v;
            InRange(c, passed) && passed == Passed(conv, t, v) == Passed(Letter(conv, OfInt(t)), c, passed)
  {
  }

  lemma SamePrefix(sp: Spec, t: IntType, mag: nat)
    ensures var out := sp.(conversion := Letter(sp.conversion, OfInt(t)));
            Prefix(out, mag) == Prefix(sp, mag) && Numeral(out, mag) == Numeral(sp, mag)
  {
    hide Digits, Repeat;
  }

  lemma SameSign(sp: Spec, t: IntType, v: int, c: IntType, passed: int)
    requires Integral(sp.conversion) && c == (if IsUnsigned(sp.conversion, t) then ULONG else LONG)
    requires !IsUnsigned(sp.conversion, t) ==> passed == v
    ensures Sign(sp.(conversion := Letter(sp.conversion, OfInt(t))), c, passed) == Sign(sp, t, v)
  {
  }

  lemma {:induction false} NulEnds(bytes: seq<Byte>)
    requires NUL !in bytes
    ensures FormatBudget.UpToNul(bytes + [NUL]) == bytes
  {
    if bytes == [] {
      assert FormatBudget.UpToNul([NUL]) == [];
    } else {
      NulEnds(bytes[1..]);
      assert (bytes + [NUL])[1..] == bytes[1..] + [NUL];
    }
  }

  lemma CstrShown(bytes: seq<Byte>, sp: Spec)
    requires NUL !in bytes
    ensures CString(bytes + [NUL], sp.precision, sp) == Some(FormatBudget.Padded(FormatBudget.UpToNul(FormatBudget.Clipped(bytes, sp.precision)), sp))
  {
    hide FormatBudget.UpToNul;
    NulEnds(bytes);
    assert (bytes + [NUL])[|bytes|] == NUL;
    if 0 <= sp.precision <= |bytes| {
      assert (bytes + [NUL])[..sp.precision] == bytes[..sp.precision];
      assert bytes[..|bytes|] == bytes;
    }
  }

  lemma StrShown(bytes: seq<Byte>, limit: int, sp: Spec)
    ensures var n := if |bytes| < limit || limit < 0 then |bytes| else limit;
            CString(bytes, n, sp.(precision := -1)) == Some(FormatBudget.Padded(FormatBudget.UpToNul(FormatBudget.Clipped(bytes, limit)), sp))
  {
    assert bytes[..|bytes|] == bytes;
  }

  lemma EvalsOne(a: Arg, vals: seq<Value>, intMax: nat)
    requires Eval(a, vals, intMax).Some?
    ensures Evals([a], vals, intMax) == Some([Eval(a, vals, intMax).value])
  {
    var first := Eval(a, vals, intMax).value;
    assert [a][1..] == [] && Evals([], vals, intMax) == Some([]);
    assert [first] + [] == [first];
  }

  lemma EvalsTwo(a: Arg, b: Arg, vals: seq<Value>, intMax: nat)
    requires Eval(a, vals, intMax).Some? && Eval(b, vals, intMax).Some?
    ensures Evals([a, b], vals, intMax) == Some([Eval(a, vals, intMax).value, Eval(b, vals, intMax).value])
  {
    var first, second := Eval(a, vals, intMax).value, Eval(b, vals, intMax).value;
    EvalsOne(b, vals, intMax);
    assert [a, b][1..] == [b];
    assert [first] + [second] == [first, second];
  }

  lemma ReadConversion(p: Parts)
    requires Written(p)
    ensures FormatSpec.Read(p).conversion == p.conversion
  {
  }

  predicate Shows(src: Source, vals: seq<Value>, k: nat, intMax: nat)
    requires Accepted(src) && src.Formatted? && k < |vals| && FormatBudget.Suits(Seg(src), vals[k])
  {
    Output(PieceOf(src), k, ShowOf(vals, intMax)) == Some(FormatBudget.Shown(Seg(src), vals[k]))
  }

  lemma LetterKind(sp: Spec, t: IntType)
    requires Integral(sp.conversion) && ModsAllowed(sp, OfInt(t))
    ensures var letter := Letter(sp.conversion, OfInt(t));
            && Integral(letter) && (sp.hash ==> Base(letter) != 10)
            && (letter == 'd' || letter == 'i' <==> !IsUnsigned(sp.conversion, t))
  {
  }

  lemma IntShows(src: Source, vals: seq<Value>, k: nat, intMax: nat)
    requires Accepted(src) && src.Formatted? && src.operand.OfInt? && k < |vals| && FormatBudget.Suits(Seg(src), vals[k])
    ensures Shows(src, vals, k, intMax)
  {
    hide ReadMods, Chars, FormatSpec.Printed, FormatBudget.Bytes, ModText, FormatSpec.Read, Evals, InRange, Half, AtWidth, IsUnsigned, Letter, Base, ModsAllowed;
    var p, t, v := src.parts, src.operand.t, vals[k];
    ReadConversion(p);
    LetterKind(FormatSpec.Read(p), t);
    DirectiveReads(p, src.operand);
    Widened(FormatSpec.Read(p), t, v.v);
    EvalsOne(Cast(PassOf(p, src.operand), k), vals, intMax);
  }

  lemma OtherShows(src: Source, vals: seq<Value>, k: nat, intMax: nat)
    requires Accepted(src) && src.Formatted? && !src.operand.OfInt? && k < |vals| && FormatBudget.Suits(Seg(src), vals[k])
    requires intMax >= MAX_FIELD && !FormatBudget.ArgAborts(Seg(src), vals[k], intMax)
    ensures Shows(src, vals, k, intMax)
  {
    hide ReadMods, Chars, FormatBudget.Bytes, FormatBudget.UpToNul, FormatBudget.Padded, FormatBudget.Clipped, ModText, FormatSpec.Read, Evals;
    var p, op, v := src.parts, src.operand, vals[k];
    var sp := FormatSpec.Read(p);
    ReadConversion(p);
    DirectiveReads(p, op);
    match op {
      case OfByte => EvalsOne(Cast(AsInt, k), vals, intMax);
      case OfStr =>
        EvalsTwo(Length(sp.precision, k), FormatString.Bytes(k), vals, intMax);
        StrShown(v.bytes, sp.precision, sp);
      case OfCstr =>
        EvalsOne(Cast(AsPointer, k), vals, intMax);
        CstrShown(v.bytes, sp);
    }
  }

  // ----- the whole interpolation -----

  lemma {:induction false} OutputsAre(srcs: seq<Source>, vals: seq<Value>, k: nat, intMax: nat)
    requires AllAccepted(srcs) && k <= |vals| && FormatBudget.AllSuit(Segs(srcs), vals[k..])
    requires intMax >= MAX_FIELD && !FormatBudget.AnyAborts(Segs(srcs), vals[k..], intMax)
    ensures Outputs(Pieces(srcs), k, ShowOf(vals, intMax)) == Some(FormatBudget.Output(Segs(srcs), vals[k..]))
  {
    hide PieceOf, Seg, ShowOf, FormatBudget.Shown, FormatBudget.ArgAborts, FormatBudget.Suits;
    if srcs != [] {
      var src := srcs[0];
      assert Accepted(src);
      assert Pieces(srcs)[1..] == Pieces(srcs[1..]) && Segs(srcs)[1..] == Segs(srcs[1..]);
      Kinds(src);
      if src.Formatted? {
        assert vals[k..][1..] == vals[k + 1..] && vals[k..][0] == vals[k];
        OutputsAre(srcs[1..], vals, k + 1, intMax);
        if src.operand.OfInt? {
          IntShows(src, vals, k, intMax);
        } else {
          OtherShows(src, vals, k, intMax);
        }
      } else {
        OutputsAre(srcs[1..], vals, k, intMax);
      }
    }
  }

  lemma Kinds(src: Source)
    requires Accepted(src)
    ensures src.Formatted? <==> PieceOf(src).Conv?
    ensures src.Formatted? <==> FormatBudget.HasValue(Seg(src))
    ensures src.Literal? ==> PieceOf(src) == Lit(src.bytes) && Seg(src) == FormatBudget.Literal(src.bytes)
    ensures src.TypeName? ==> PieceOf(src) == Name(src.text) && Seg(src) == FormatBudget.TypeName(src.text)
  {
  }

  lemma AllPiecesWellFormed(srcs: seq<Source>)
    requires AllAccepted(srcs)
    ensures AllWellFormed(Pieces(srcs))
  {
    forall i | 0 <= i < |srcs| ensures WellFormed(Pieces(srcs)[i]) {
      assert Accepted(srcs[i]);
      PieceWellFormed(srcs[i]);
    }
  }

  lemma NulShown(vals: seq<Value>, intMax: nat)
    ensures ShowOf(vals, intMax)([], LETTER_C, [Zero]) == Some([NUL])
  {
    EvalsOne(Zero, vals, intMax);
    assert Chars([]) == "";
  }

  /** Every accepted interpolation whose arguments do not abort: the directives take the
      arguments they are given, no string is read past its memory, and what C prints is
      the text the buffer was sized for, if and only if no trigraph stands in the
      emitted literal. */
  lemma SnprintfPrintsOutput(srcs: seq<Source>, vals: seq<Value>, intMax: nat)
    requires AllAccepted(srcs) && FormatBudget.AllSuit(Segs(srcs), vals)
    requires intMax >= MAX_FIELD && !FormatBudget.AnyAborts(Segs(srcs), vals, intMax)
    ensures Outputs(Pieces(srcs), 0, ShowOf(vals, intMax)) == Some(FormatBudget.Output(Segs(srcs), vals))
    ensures Works(Pieces(srcs), ShowOf(vals, intMax)) <==> !HasTrigraph(Formats(Pieces(srcs)))
  {
    hide FormatBudget.AnyAborts, FormatBudget.AllSuit, FormatBudget.Output, Works, Formats, Outputs, CShow;
    assert vals[0..] == vals;
    OutputsAre(srcs, vals, 0, intMax);
    AllPiecesWellFormed(srcs);
    NulShown(vals, intMax);
    FormatMeans(Pieces(srcs), ShowOf(vals, intMax));
  }

  // ----- the emitted statement -----

  /** `fc_to_int` of a length that no `int` has. */
  predicate Stops(arg: Arg, vals: seq<Value>, intMax: nat) {
    && arg.Length? && arg.temp < |vals| && vals[arg.temp].StrValue?
    && (|vals[arg.temp].bytes| < arg.limit || arg.limit < 0) && |vals[arg.temp].bytes| > intMax
  }

  predicate AnyStops(args: seq<Arg>, vals: seq<Value>, intMax: nat) {
    exists i :: 0 <= i < |args| && Stops(args[i], vals, intMax)
  }

  lemma StopsEither(a: seq<Arg>, b: seq<Arg>, vals: seq<Value>, intMax: nat)
    ensures AnyStops(a + b, vals, intMax) <==> AnyStops(a, vals, intMax) || AnyStops(b, vals, intMax)
  {
    hide Stops;
    if AnyStops(a, vals, intMax) {
      var i :| 0 <= i < |a| && Stops(a[i], vals, intMax);
      assert (a + b)[i] == a[i];
    }
    if AnyStops(b, vals, intMax) {
      var i :| 0 <= i < |b| && Stops(b[i], vals, intMax);
      assert (a + b)[|a| + i] == b[i];
    }
  }

  lemma PieceStops(src: Source, vals: seq<Value>, k: nat, intMax: nat)
    requires Accepted(src) && src.Formatted? && k < |vals| && FormatBudget.Suits(Seg(src), vals[k])
    ensures AnyStops(PieceArgs(PieceOf(src), k), vals, intMax) <==> FormatBudget.ArgAborts(Seg(src), vals[k], intMax)
  {
    hide ModText, FormatBudget.Bytes, FormatSpec.Read;
    var args := PieceArgs(PieceOf(src), k);
    if Stops(args[0], vals, intMax) {
      assert AnyStops(args, vals, intMax);
    }
  }

  lemma {:induction false} LiteralsPass(bytes: seq<Byte>, vals: seq<Value>, intMax: nat)
    ensures !AnyStops(ByteArgs(bytes), vals, intMax)
  {
    if bytes != [] {
      LiteralsPass(bytes[1..], vals, intMax);
      StopsEither(if bytes[0] == NUL then [Zero] else [], ByteArgs(bytes[1..]), vals, intMax);
    }
  }

  lemma {:induction false} AbortsAgree(srcs: seq<Source>, vals: seq<Value>, k: nat, intMax: nat)
    requires AllAccepted(srcs) && k <= |vals| && FormatBudget.AllSuit(Segs(srcs), vals[k..])
    ensures AnyStops(Args(Pieces(srcs), k), vals, intMax) <==> FormatBudget.AnyAborts(Segs(srcs), vals[k..], intMax)
  {
    hide PieceOf, Seg, FormatBudget.ArgAborts, FormatBudget.Suits, AnyStops;
    if srcs == [] {
      NothingStops(vals, intMax);
    } else {
      var src := srcs[0];
      assert Accepted(src);
      assert Pieces(srcs)[1..] == Pieces(srcs[1..]) && Segs(srcs)[1..] == Segs(srcs[1..]);
      Kinds(src);
      var here, next := PieceArgs(PieceOf(src), k), Next(PieceOf(src), k);
      StopsEither(here, Args(Pieces(srcs[1..]), next), vals, intMax);
      if src.Formatted? {
        assert vals[k..][1..] == vals[k + 1..] && vals[k..][0] == vals[k];
        PieceStops(src, vals, k, intMax);
      } else {
        NothingStops(vals, intMax);
        if src.Literal? {
          LiteralsPass(src.bytes, vals, intMax);
        }
      }
      AbortsAgree(srcs[1..], vals, next, intMax);
    }
  }

  lemma NothingStops(vals: seq<Value>, intMax: nat)
    ensures !AnyStops([], vals, intMax)
  {
  }

  /** What a C compiler makes of the emitted statement: it sums the budgets, caps the
      sum, evaluates the arguments, reads the literal, and prints. */
  function RunEmitted(body: seq<Byte>, args: seq<Arg>, terms: seq<FormatBudget.Term>, vals: seq<Value>, intMax: nat, repr: nat): FormatBudget.Outcome {
    var flen := FormatBudget.Sum(terms, vals);
    if flen > FormatBudget.LenMax(64) then FormatBudget.Undefined
    else if repr < 64 && flen > FormatBudget.LenMax(repr) then FormatBudget.Aborted
    else if AnyStops(args, vals, intMax) then FormatBudget.Aborted
    else
      var format := StringLiteral.Read(Phase1(body));
      var items := if format.None? then None else Parse(format.value);
      var text := if items.None? then None else FormatString.Printed(items.value, args, ShowOf(vals, intMax));
      if text.None? then FormatBudget.Undefined
      else
        var (buffer, written) := FormatBudget.Snprintf(text.value, flen + 1, intMax);
        FormatBudget.Stored(buffer, if 0 <= written <= flen then written else flen)
  }

  /** The emitted statement does what an interpolation means, unless its literal has a
      trigraph. */
  lemma EmittedInterpolates(srcs: seq<Source>, vals: seq<Value>, intMax: nat, repr: nat)
    requires AllAccepted(srcs) && FormatBudget.AllSuit(Segs(srcs), vals) && intMax >= MAX_FIELD
    requires !HasTrigraph(Formats(Pieces(srcs)))
    ensures RunEmitted(Formats(Pieces(srcs)), Args(Pieces(srcs), 0), FormatBudget.Terms(Segs(srcs)), vals, intMax, repr)
              == FormatBudget.Interpolate(Segs(srcs), vals, intMax, repr)
  {
    hide FormatBudget.AnyAborts, FormatBudget.AllSuit, FormatBudget.Output, FormatBudget.Sum, FormatBudget.Terms, Formats, Args, AnyStops, Parse, CShow;
    assert vals[0..] == vals;
    AbortsAgree(srcs, vals, 0, intMax);
    if !FormatBudget.AnyAborts(Segs(srcs), vals, intMax) {
      SnprintfPrintsOutput(srcs, vals, intMax);
    }
  }

  // ----- the emitter -----

  lemma BytesJoin(a: string, b: string)
    ensures FormatBudget.Bytes(a + b) == FormatBudget.Bytes(a) + FormatBudget.Bytes(b)
  {
  }

  lemma BytesOne(c: char)
    ensures FormatBudget.Bytes([c]) == [Code(c)]
  {
  }

  /** What is cut out of a spec's text. */
  lemma Cuts(p: Parts)
    ensures var text, n, precAt := Text(p), |Text(p)| - 1, |p.flags| + |p.width|;
            && text[..n] == ModText(p, false, false) && text[n] == p.conversion && precAt <= n
            && text[..n] + "ll" == ModText(p, false, true) && text[..precAt] + ".*" == ModText(p, true, false)
  {
    var text, n, precAt := Text(p), |Text(p)| - 1, |p.flags| + |p.width|;
    assert text[..n] == p.flags + p.width + Middle(p, false);
    assert text[..precAt] == p.flags + p.width;
    assert text[..n] + "" == text[..n];
  }

  /** A directive, composed from its spec's text. */
  method Directive(text: string, op: Operand, ghost p: Parts) returns (d: seq<Byte>)
    requires Accepted(Formatted(p, op)) && text == Text(p)
    ensures d == Format(PieceOf(Formatted(p, op)))
  {
    hide FormatSpec.Read, Text, Written, ModText, FormatBudget.Bytes;
    ReadConversion(p);
    Cuts(p);
    var n := |text| - 1;
    match op {
      case OfStr =>
        var _, precAt, _ := InterpSpecScan(text);
        assert text == Text(p) + "";
        BytesJoin(text[..precAt] + ".*", "s");
        assert text[..precAt] + ".*s" == (text[..precAt] + ".*") + "s";
        BytesOne('s');
        d := [PERCENT] + FormatBudget.Bytes(text[..precAt] + ".*s");
      case OfInt(t) =>
        var cc := text[n];
        if (cc == 'd' || cc == 'i') && IsUnsigned(cc, t) { cc := 'u'; }
        d := [PERCENT] + FormatBudget.Bytes(text[..n] + "ll") + [Code(cc)];
      case _ =>
        BytesJoin(text[..n], [text[n]]);
        assert text == text[..n] + [text[n]];
        BytesOne(text[n]);
        d := [PERCENT] + FormatBudget.Bytes(text);
    }
  }

  /** One value's arguments. */
  method Pass(text: string, op: Operand, k: nat, ghost p: Parts) returns (args: seq<Arg>)
    requires Accepted(Formatted(p, op)) && text == Text(p)
    ensures args == PieceArgs(PieceOf(Formatted(p, op)), k)
  {
    hide FormatSpec.Read, ModText;
    ReadConversion(p);
    match op {
      case OfStr =>
        var _, _, sp := InterpSpecScan(text);
        assert text == Text(p) + "";
        args := [Length(sp.precision, k), FormatString.Bytes(k)];
      case OfInt(t) =>
        var conv := text[|text| - 1];
        args := [Cast(if IsUnsigned(conv, t) then AsUnsigned(t.bits) else AsLong, k)];
      case OfByte => args := [Cast(AsInt, k)];
      case OfCstr => args := [Cast(AsPointer, k)];
    }
  }

  method EmitFormat(srcs: seq<Source>) returns (body: seq<Byte>)
    requires AllAccepted(srcs)
    ensures body == Formats(Pieces(srcs))
  {
    hide Formats, FormatBytes, PieceOf;
    ghost var ps := Pieces(srcs);
    body := [];
    assert ps[0..] == ps;
    for i := 0 to |srcs|
      invariant Formats(ps) == body + Formats(ps[i..])
    {
      FormatsStep(ps, i);
      assert Accepted(srcs[i]);
      Kinds(srcs[i]);
      ghost var left := Formats(ps[i + 1..]);
      assert body + (Format(ps[i]) + left) == (body + Format(ps[i])) + left;
      var part: seq<Byte>;
      match srcs[i] {
        case Literal(bytes) => part := EmitBytes(bytes);
        case TypeName(text) => part := text;
        case Formatted(p, op) => part := Directive(Text(p), op, p);
      }
      body := body + part;
    }
    FormatsStep(ps, |ps|);
  }

  lemma FormatsStep(ps: seq<Piece>, i: nat)
    requires i <= |ps|
    ensures i < |ps| ==> Formats(ps[i..]) == Format(ps[i]) + Formats(ps[i + 1..])
    ensures i == |ps| ==> Formats(ps[i..]) == []
  {
    if i < |ps| {
      assert ps[i..][1..] == ps[i + 1..];
    }
  }

  /** The arguments in order, each value from the temporary it was evaluated into. */
  method EmitArgs(srcs: seq<Source>) returns (args: seq<Arg>)
    requires AllAccepted(srcs)
    ensures args == Args(Pieces(srcs), 0)
  {
    hide ByteArgs, Args, PieceOf;
    ghost var ps := Pieces(srcs);
    args := [];
    var k := 0;
    assert ps[0..] == ps;
    for i := 0 to |srcs|
      invariant Args(ps, 0) == args + Args(ps[i..], k)
    {
      ArgsStep(ps, i, k);
      assert Accepted(srcs[i]);
      Kinds(srcs[i]);
      ghost var left := Args(ps[i + 1..], Next(ps[i], k));
      assert args + (PieceArgs(ps[i], k) + left) == (args + PieceArgs(ps[i], k)) + left;
      match srcs[i] {
        case Literal(bytes) =>
          var zeros := EmitZeros(bytes);
          args := args + zeros;
        case TypeName(_) =>
        case Formatted(p, op) =>
          var some := Pass(Text(p), op, k, p);
          args := args + some;
          k := k + 1;
      }
    }
    ArgsStep(ps, |ps|, k);
  }

  lemma ArgsStep(ps: seq<Piece>, i: nat, k: nat)
    requires i <= |ps|
    ensures i < |ps| ==> Args(ps[i..], k) == PieceArgs(ps[i], k) + Args(ps[i + 1..], Next(ps[i], k))
    ensures i == |ps| ==> Args(ps[i..], k) == []
  {
    if i < |ps| {
      assert ps[i..][1..] == ps[i + 1..];
    }
  }

  method EmitBytes(bytes: seq<Byte>) returns (run: seq<Byte>)
    ensures run == FormatBytes(bytes)
  {
    hide FormatBytes, CByte;
    run := [];
    assert bytes[0..] == bytes;
    for j := 0 to |bytes|
      invariant FormatBytes(bytes) == run + FormatBytes(bytes[j..])
    {
      BytesStep(bytes, j);
      ghost var left := FormatBytes(bytes[j + 1..]);
      var out := if bytes[j] == NUL then [PERCENT, LETTER_C] else CByte(bytes[j], true);
      assert run + (out + left) == (run + out) + left;
      run := run + out;
    }
    BytesStep(bytes, |bytes|);
  }

  lemma BytesStep(bytes: seq<Byte>, j: nat)
    requires j <= |bytes|
    ensures j < |bytes| ==> FormatBytes(bytes[j..]) == FormatByte(bytes[j]) + FormatBytes(bytes[j + 1..])
    ensures j == |bytes| ==> FormatBytes(bytes[j..]) == []
  {
    if j < |bytes| {
      assert bytes[j..][1..] == bytes[j + 1..];
    }
  }

  method EmitZeros(bytes: seq<Byte>) returns (zeros: seq<Arg>)
    ensures zeros == ByteArgs(bytes)
  {
    zeros := [];
    for j := 0 to |bytes|
      invariant ByteArgs(bytes) == zeros + ByteArgs(bytes[j..])
    {
      assert bytes[j..][1..] == bytes[j + 1..];
      if bytes[j] == NUL {
        zeros := zeros + [Zero];
      }
    }
  }

  lemma SegsChecked(srcs: seq<Source>)
    requires AllAccepted(srcs)
    ensures FormatBudget.AllChecked(Segs(srcs))
  {
    forall i | 0 <= i < |srcs| ensures FormatBudget.Checked(Segs(srcs)[i]) {
      assert Accepted(srcs[i]);
    }
  }

  /** The whole statement: the sum, the literal and the arguments. Whatever the values,
      running it is what the interpolation means, unless the literal has a trigraph. */
  method EmitInterpString(srcs: seq<Source>) returns (terms: seq<FormatBudget.Term>, body: seq<Byte>, args: seq<Arg>)
    requires AllAccepted(srcs)
    ensures !HasTrigraph(body) ==>
              forall vals: seq<Value>, intMax: nat, repr: nat :: FormatBudget.AllSuit(Segs(srcs), vals) && intMax >= MAX_FIELD ==>
                RunEmitted(body, args, terms, vals, intMax, repr) == FormatBudget.Interpolate(Segs(srcs), vals, intMax, repr)
  {
    hide RunEmitted, FormatBudget.Interpolate, FormatBudget.AllSuit, Formats, Args, FormatBudget.Terms, HasTrigraph;
    SegsChecked(srcs);
    terms := FormatBudget.EmitLength(Segs(srcs));
    body := EmitFormat(srcs);
    args := EmitArgs(srcs);
    if !HasTrigraph(body) {
      forall vals: seq<Value>, intMax: nat, repr: nat | FormatBudget.AllSuit(Segs(srcs), vals) && intMax >= MAX_FIELD
        ensures RunEmitted(body, args, terms, vals, intMax, repr) == FormatBudget.Interpolate(Segs(srcs), vals, intMax, repr)
      {
        EmittedInterpolates(srcs, vals, intMax, repr);
      }
    }
  }
}
