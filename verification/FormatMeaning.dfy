/** Which interpolations the type checker lets through, which directives have no meaning
    in C, and how a type's name is written, told character by character. */
module FormatMeaning {
  import opened StringLiteral
  import opened FormatSpec
  import opened FormatEmit
  import FormatString
  import FormatBudget
  import TypeNames

  // ----- what is accepted -----

  predicate Numeric(conv: char) {
    conv in "diuxXo"
  }

  predicate Wide(t: IntType) {
    t.bits in {8, 16, 32, 64} && (t.named ==> t.bits != 8)
  }

  /** The signed decimal conversions of a signed type. */
  predicate HasSign(conv: char, op: Operand) {
    op.OfInt? && conv in "di" && op.t.signed
  }

  /** Which specs the theorems about interpolations take: a flag written twice, which the
      checker refuses, is let through; otherwise the letter suits the operand, `+` and a
      blank stand, one of them at most, before a signed decimal, `#` before hexadecimal or
      octal, `0` before an integer without `-` and without a precision, a precision before
      an integer or a string, and no number is above 32767. */
  lemma AcceptedWhen(p: Parts, op: Operand)
    requires Written(p)
    ensures Accepted(Formatted(p, op)) <==>
            && (match op
                case OfInt(t) => Numeric(p.conversion) && Wide(t)
                case OfByte => p.conversion == 'c'
                case OfStr => p.conversion == 's'
                case OfCstr => p.conversion == 's')
            && ('+' in p.flags ==> HasSign(p.conversion, op) && ' ' !in p.flags)
            && (' ' in p.flags ==> HasSign(p.conversion, op))
            && ('#' in p.flags ==> p.conversion in "xXo")
            && ('0' in p.flags ==> op.OfInt? && '-' !in p.flags && !p.dotted)
            && (p.dotted ==> op.OfInt? || p.conversion == 's')
            && Number(p.width) <= 32767 && (p.dotted ==> Number(p.precision) <= 32767)
  {
    hide Number;
  }

  /** A name is accepted when none of its bytes ends the literal, escapes, starts a
      conversion or ends the string. */
  lemma NameAccepted(text: seq<Byte>)
    ensures Accepted(TypeName(text)) <==>
            forall i :: 0 <= i < |text| ==> text[i] !in {0, 10, '"' as int, '%' as int, '\\' as int}
  {
  }

  // ----- what C refuses to give a meaning -----

  predicate Bare(sp: Spec) {
    !sp.hash && !sp.zero
  }

  /** An integer's directive has a meaning only with `ll`, without `.*`, and with an
      argument of the directive's own type; `#` only before hexadecimal and octal. */
  lemma IntegerDirectives(m: Mods, args: seq<CValue>)
    requires Numeric(m.sp.conversion) && CPrint(m, args).Some?
    ensures m.long && !m.star && |args| == 1
    ensures if m.sp.conversion in "di" then args[0].CLong? && -9223372036854775808 <= args[0].v <= 9223372036854775807
            else args[0].CULong? && 0 <= args[0].v <= 18446744073709551615
    ensures m.sp.hash ==> m.sp.conversion in "xXo"
  {
  }

  /** A character takes an `int`, a string a pointer, and under `.*` an `int` that is not
      negative before it; neither takes `ll`, `#` or `0`, nor a character a precision. A
      string must end inside its memory: by its precision, or by a NUL byte. */
  lemma TextDirectives(m: Mods, args: seq<CValue>)
    requires !Numeric(m.sp.conversion) && CPrint(m, args).Some?
    ensures m.sp.conversion in "cs" && !m.long && Bare(m.sp)
    ensures m.sp.conversion == 'c' ==> |args| == 1 && args[0].CInt? && !m.star && m.sp.precision < 0
    ensures m.sp.conversion == 's' && m.star ==>
              |args| == 2 && args[0].CInt? && args[1].CPtr? && args[0].v >= 0
              && (args[0].v <= |args[1].memory| || 0 in args[1].memory)
    ensures m.sp.conversion == 's' && !m.star ==>
              |args| == 1 && args[0].CPtr? && (0 <= m.sp.precision <= |args[0].memory| || 0 in args[0].memory)
  {
  }

  /** A conversion to an unsigned type keeps a value that fits and adds the type's size to
      a negative one. */
  lemma Conversions(v: int)
    ensures (0 <= v < 256 ==> AtWidth(8, v) == v) && (-128 <= v < 0 ==> AtWidth(8, v) == v + 256)
    ensures (0 <= v < 65536 ==> AtWidth(16, v) == v) && (-32768 <= v < 0 ==> AtWidth(16, v) == v + 65536)
    ensures (0 <= v < 4294967296 ==> AtWidth(32, v) == v) && (-2147483648 <= v < 0 ==> AtWidth(32, v) == v + 4294967296)
    ensures (0 <= v < 18446744073709551616 ==> AtWidth(64, v) == v)
            && (-9223372036854775808 <= v < 0 ==> AtWidth(64, v) == v + 18446744073709551616)
  {
    hide AtWidth;
    WidthIs(8, 256, v);
    WidthIs(16, 65536, v);
    WidthIs(32, 4294967296, v);
    WidthIs(64, 18446744073709551616, v);
  }

  lemma WidthIs(bits: nat, m: int, v: int)
    requires m > 0 && 2 * Half(bits) == m
    ensures (0 <= v < m ==> AtWidth(bits, v) == v) && (-m <= v < 0 ==> AtWidth(bits, v) == v + m)
  {
    if 0 <= v < m {
      Small(v, m);
    } else if -m <= v < 0 {
      Small(v + m, m);
      assert (v + m) % m == v % m;
    }
  }

  lemma Small(v: nat, m: nat)
    requires v < m
    ensures v % m == v
  {
  }

  /** A length above the largest `int` stops the program; any other is passed as it is. */
  lemma LengthsPassed(s: seq<Byte>, limit: int, vals: seq<Value>, intMax: nat)
    requires vals == [FormatBudget.StrValue(s)] && limit < 0
    ensures Eval(FormatString.Length(limit, 0), vals, intMax) == if |s| <= intMax then Some(CInt(|s|)) else None
  {
  }

  // ----- names of types -----

  function Chars(s: string): seq<Byte> {
    FormatBudget.Bytes(s)
  }

  lemma Marks()
    ensures Chars("*") == [42] && Chars("?") == [63] && Chars("!") == [33] && Chars("[]") == [91, 93]
    ensures Chars("[") == [91] && Chars("]") == [93] && Chars("(") == [40] && Chars(")") == [41]
    ensures Chars("{") == [123] && Chars("}") == [125] && Chars("<") == [60] && Chars(">") == [62]
    ensures Chars(", ") == [44, 32] && Chars(") -> ") == [41, 32, 45, 62, 32] && Chars("const ") == [99, 111, 110, 115, 116, 32]
  {
  }

  /** An element whose name starts with `const ` goes into parentheses before a suffix. */
  function Element(name: seq<Byte>): seq<Byte> {
    if Chars("const ") <= name then Chars("(") + name + Chars(")") else name
  }

  /** How a name is made from the names of its parts. */
  lemma NamesAre(u: TypeNames.Ty, n: seq<Byte>, isConst: bool)
    ensures var name, quals := TypeNames.TypeName(u), if isConst then Chars("const ") else [];
            && TypeNames.TypeName(TypeNames.Named(n)) == n
            && TypeNames.TypeName(TypeNames.Pointer(u, isConst)) == quals + Element(name) + Chars("*")
            && TypeNames.TypeName(TypeNames.Slice(u, isConst)) == quals + Element(name) + Chars("[]")
            && TypeNames.TypeName(TypeNames.Fixed(u, n)) == Element(name) + Chars("[") + n + Chars("]")
            && TypeNames.TypeName(TypeNames.OptionOf(u)) == name + Chars("?")
            && TypeNames.TypeName(TypeNames.ResultOf(u)) == name + Chars("!")
  {
    hide FormatBudget.Bytes, Chars, Element, TypeNames.Listed, TypeNames.Inner;
    Marks();
    ElementIs(TypeNames.TypeName(u));
  }

  lemma ElementIs(name: seq<Byte>)
    ensures Element(name) == TypeNames.Inner(name)
  {
    hide FormatBudget.Bytes, Chars;
    Marks();
    assert Chars("(") + name + Chars(")") == [40] + (name + [41]);
  }

  lemma ListNamesAre(u: TypeNames.Ty, ps: seq<TypeNames.Ty>, n: seq<Byte>)
    ensures var name, list := TypeNames.TypeName(u), TypeNames.Listed(ps);
            && TypeNames.TypeName(TypeNames.Func(ps, u)) == Chars("(") + list + Chars(") -> ") + name
            && TypeNames.TypeName(TypeNames.Tuple(ps)) == Chars("{") + list + Chars("}")
            && TypeNames.TypeName(TypeNames.Instance(n, ps)) == n + Chars("<") + list + Chars(">")
  {
    hide FormatBudget.Bytes, Chars, TypeNames.Listed;
    Marks();
  }

  /** Names in a list have a comma and a blank between them. */
  lemma ListsAre(us: seq<TypeNames.Ty>, u: TypeNames.Ty)
    ensures TypeNames.Listed([]) == [] && TypeNames.Listed([u]) == TypeNames.TypeName(u)
    ensures us != [] ==> TypeNames.Listed([u] + us) == TypeNames.TypeName(u) + Chars(", ") + TypeNames.Listed(us)
  {
    hide FormatBudget.Bytes, Chars, TypeNames.TypeName;
    Marks();
    assert ([u] + us)[1..] == us;
  }

  /** Letters, digits and a few other characters. */
  predicate NameChar(c: char) {
    '0' <= c <= '9' || 'A' <= c <= 'Z' || 'a' <= c <= 'z' || c in "_: *-"
  }

  predicate Word(n: seq<Byte>) {
    n != [] && forall i :: 0 <= i < |n| ==> NameChar(n[i] as char)
  }

  predicate AllSound(ts: seq<TypeNames.Ty>) {
    forall i :: 0 <= i < |ts| ==> TypeNames.Sound(ts[i])
  }

  lemma NameBytes(b: Byte)
    ensures TypeNames.NameByte(b) <==> NameChar(b as char)
  {
  }

  /** Which types have a name: those whose own names are words, an instance having an
      argument at least. */
  lemma SoundWhen(u: TypeNames.Ty, ps: seq<TypeNames.Ty>, n: seq<Byte>, isConst: bool)
    ensures TypeNames.Sound(TypeNames.Named(n)) <==> Word(n)
    ensures TypeNames.Sound(TypeNames.Pointer(u, isConst)) <==> TypeNames.Sound(u)
    ensures TypeNames.Sound(TypeNames.Slice(u, isConst)) <==> TypeNames.Sound(u)
    ensures TypeNames.Sound(TypeNames.Fixed(u, n)) <==> TypeNames.Sound(u) && Word(n)
    ensures TypeNames.Sound(TypeNames.OptionOf(u)) <==> TypeNames.Sound(u)
    ensures TypeNames.Sound(TypeNames.ResultOf(u)) <==> TypeNames.Sound(u)
    ensures TypeNames.Sound(TypeNames.Func(ps, u)) <==> AllSound(ps) && TypeNames.Sound(u)
    ensures TypeNames.Sound(TypeNames.Tuple(ps)) <==> AllSound(ps)
    ensures TypeNames.Sound(TypeNames.Instance(n, ps)) <==> Word(n) && ps != [] && AllSound(ps)
  {
    hide NameChar, TypeNames.NameByte;
    forall i | 0 <= i < |n| ensures TypeNames.NameByte(n[i]) <==> NameChar(n[i] as char) {
      NameBytes(n[i]);
    }
  }

  /** Literal bytes are none that could make a trigraph, nor is a name without a question
      mark. */
  lemma NoQuestionIn(bytes: seq<Byte>)
    ensures FormatString.NoQuestion(FormatString.Lit(bytes))
    ensures FormatString.NoQuestion(FormatString.Name(bytes)) <==> '?' as int !in bytes
  {
  }
}
