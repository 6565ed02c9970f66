/** The names `%T` writes, and which of them a C compiler misreads. */
module TypeNames {
  import opened StringLiteral
  import opened FormatString

  const BANG: Byte := 33
  const OPEN: Byte := 40
  const CLOSE: Byte := 41
  const LESS: Byte := 60
  const GREATER: Byte := 62

  /** `Named`: a primitive type, a struct, union or enum without type arguments, or one
      of the names that are not spelled from their parts: `any*`, `const any*`, `str`,
      `const str`, `cstr` and `const cstr`. A constant type argument is one too. */
  datatype Ty =
    | Named(name: seq<Byte>)
    | Pointer(inner: Ty, isConst: bool)
    | Slice(inner: Ty, isConst: bool)
    | Fixed(inner: Ty, size: seq<Byte>)
    | OptionOf(inner: Ty)
    | ResultOf(inner: Ty)
    | Func(params: seq<Ty>, ret: Ty)
    | Tuple(elems: seq<Ty>)
    | Instance(name: seq<Byte>, args: seq<Ty>)

  /** Letters, digits, `_`, `:`, the space after `const`, the star of `any*` and a
      minus sign. */
  predicate NameByte(b: Byte) {
    48 <= b <= 58 || 65 <= b <= 90 || b == 95 || 97 <= b <= 122 || b == 32 || b == STAR || b == 45
  }

  predicate Spelled(s: seq<Byte>) {
    s != [] && forall i :: 0 <= i < |s| ==> NameByte(s[i])
  }

  predicate Sound(t: Ty) {
    match t
    case Named(s) => Spelled(s)
    case Pointer(u, _) => Sound(u)
    case Slice(u, _) => Sound(u)
    case Fixed(u, n) => Sound(u) && Spelled(n)
    case OptionOf(u) => Sound(u)
    case ResultOf(u) => Sound(u)
    case Func(ps, r) => Sound(r) && forall i :: 0 <= i < |ps| ==> Sound(ps[i])
    case Tuple(es) => forall i :: 0 <= i < |es| ==> Sound(es[i])
    case Instance(s, bs) => Spelled(s) && bs != [] && forall i :: 0 <= i < |bs| ==> Sound(bs[i])
  }

  const CONST_: seq<Byte> := [99, 111, 110, 115, 116, 32]     // "const "
  const ARROW: seq<Byte> := [CLOSE, 32, 45, 62, 32]           // ") -> "
  const COMMA: seq<Byte> := [44, 32]                          // ", "
  const BRACKETS: seq<Byte> := [91, 93]                       // "[]"

  /** An inner type that starts with `const ` goes into parentheses before a suffix. */
  function Inner(name: seq<Byte>): seq<Byte> {
    if CONST_ <= name then [OPEN] + (name + [CLOSE]) else name
  }

  function TypeName(t: Ty): seq<Byte>
    decreases t, 1
  {
    match t
    case Named(s) => s
    case Pointer(u, c) => (if c then CONST_ else []) + (Inner(TypeName(u)) + [STAR])
    case Slice(u, c) => (if c then CONST_ else []) + (Inner(TypeName(u)) + BRACKETS)
    case Fixed(u, n) => Inner(TypeName(u)) + ([91] + (n + [93]))
    case OptionOf(u) => TypeName(u) + [QUESTION]
    case ResultOf(u) => TypeName(u) + [BANG]
    case Func(ps, r) => [OPEN] + (Listed(ps) + (ARROW + TypeName(r)))
    case Tuple(es) => [123] + (Listed(es) + [125])
    case Instance(s, bs) => s + ([LESS] + (Listed(bs) + [GREATER]))
  }

  /** Names with commas between. */
  function Listed(ts: seq<Ty>): seq<Byte>
    decreases ts, 0
  {
    if ts == [] then []
    else if |ts| == 1 then TypeName(ts[0])
    else TypeName(ts[0]) + (COMMA + Listed(ts[1..]))
  }

  // ----- which names hold a trigraph -----

  /** The name ends in `?`. */
  predicate Ends1(t: Ty) {
    t.OptionOf? || (t.Func? && Ends1(t.ret))
  }

  /** The name ends in `??`. */
  predicate Ends2(t: Ty) {
    (t.OptionOf? && Ends1(t.inner)) || (t.Func? && Ends2(t.ret))
  }

  predicate StartsConst(t: Ty) {
    CONST_ <= TypeName(t)
  }

  /** An option of an option stands before `)`, `!` or `>`. */
  predicate Doubled(t: Ty)
    decreases t, 1
  {
    match t
    case Named(_) => false
    case Pointer(u, _) => Doubled(u) || (StartsConst(u) && Ends2(u))
    case Slice(u, _) => Doubled(u) || (StartsConst(u) && Ends2(u))
    case Fixed(u, _) => Doubled(u) || (StartsConst(u) && Ends2(u))
    case OptionOf(u) => Doubled(u)
    case ResultOf(u) => Doubled(u) || Ends2(u)
    case Func(ps, r) => AnyDoubled(ps) || Doubled(r) || (ps != [] && Ends2(ps[|ps| - 1]))
    case Tuple(es) => AnyDoubled(es)
    case Instance(_, bs) => AnyDoubled(bs) || (bs != [] && Ends2(bs[|bs| - 1]))
  }

  predicate AnyDoubled(ts: seq<Ty>)
    decreases ts, 0
  {
    ts != [] && (Doubled(ts[0]) || AnyDoubled(ts[1..]))
  }

  /** The last bytes of a text. */
  predicate Tail1(s: seq<Byte>) {
    |s| >= 1 && s[|s| - 1] == QUESTION
  }

  predicate Tail2(s: seq<Byte>) {
    |s| >= 2 && s[|s| - 1] == QUESTION && s[|s| - 2] == QUESTION
  }

  /** A trigraph in a joined text is in a part, or across the seam. */
  lemma Join(a: seq<Byte>, b: seq<Byte>)
    requires b == [] || b[0] != QUESTION || b == [QUESTION]
    ensures HasTrigraph(a + b) <==> HasTrigraph(a) || HasTrigraph(b) || (b != [] && Tail2(a) && Trigraph(b[0]).Some?)
    ensures Tail1(a + b) <==> if b == [] then Tail1(a) else Tail1(b)
    ensures Tail2(a + b) <==> if b == [] then Tail2(a) else if b == [QUESTION] then Tail1(a) else Tail2(b)
  {
    var s := a + b;
    if b == [] {
      assert s == a;
    }
    if HasTrigraph(a) {
      var i :| 0 <= i < |a| && TrigraphAt(a, i);
      assert TrigraphAt(s, i);
    }
    if HasTrigraph(b) {
      var i :| 0 <= i < |b| && TrigraphAt(b, i);
      assert TrigraphAt(s, |a| + i);
    }
    if b != [] && Tail2(a) && Trigraph(b[0]).Some? {
      assert TrigraphAt(s, |a| - 2);
    }
    if HasTrigraph(s) {
      var i :| 0 <= i < |s| && TrigraphAt(s, i);
      if i + 2 < |a| {
        assert TrigraphAt(a, i);
      } else if i >= |a| {
        assert TrigraphAt(b, i - |a|);
      } else {
        assert i == |a| - 2;
      }
    }
  }

  /** A text without question marks. */
  lemma Clean(s: seq<Byte>)
    requires QUESTION !in s
    ensures !HasTrigraph(s) && !Tail1(s) && !Tail2(s)
  {
  }

  ghost predicate Described(s: seq<Byte>, doubled: bool, one: bool, two: bool) {
    && s != [] && s[0] != QUESTION
    && (HasTrigraph(s) <==> doubled) && (Tail1(s) <==> one) && (Tail2(s) <==> two)
  }

  lemma Suffixed(s: seq<Byte>, suffix: seq<Byte>, doubled: bool, one: bool, two: bool)
    requires Described(s, doubled, one, two) && suffix != [] && QUESTION !in suffix
    ensures Described(s + suffix, doubled || (two && Trigraph(suffix[0]).Some?), false, false)
  {
    Clean(suffix);
    Join(s, suffix);
  }

  lemma Prefixed(prefix: seq<Byte>, s: seq<Byte>, doubled: bool, one: bool, two: bool)
    requires Described(s, doubled, one, two) && QUESTION !in prefix
    ensures Described(prefix + s, doubled, one, two)
  {
    Clean(prefix);
    Join(prefix, s);
    if prefix == [] {
      assert prefix + s == s;
    }
  }

  lemma InnerDescribed(s: seq<Byte>, doubled: bool, one: bool, two: bool)
    requires Described(s, doubled, one, two)
    ensures if CONST_ <= s then Described(Inner(s), doubled || two, false, false) else Inner(s) == s
  {
    if CONST_ <= s {
      Suffixed(s, [CLOSE], doubled, one, two);
      Prefixed([OPEN], s + [CLOSE], doubled || two, false, false);
    }
  }

  /** A suffixed inner type, behind a `const ` or not. */
  lemma Wrapped(t: Ty, suffix: seq<Byte>, isConst: bool)
    requires Described(TypeName(t), Doubled(t), Ends1(t), Ends2(t))
    requires suffix != [] && QUESTION !in suffix && Trigraph(suffix[0]).None?
    ensures Described((if isConst then CONST_ else []) + (Inner(TypeName(t)) + suffix), Doubled(t) || (StartsConst(t) && Ends2(t)), false, false)
  {
    hide Described, Doubled, Ends1, Ends2, TypeName, HasTrigraph;
    InnerDescribed(TypeName(t), Doubled(t), Ends1(t), Ends2(t));
    if StartsConst(t) {
      Suffixed(Inner(TypeName(t)), suffix, Doubled(t) || Ends2(t), false, false);
    } else {
      Suffixed(TypeName(t), suffix, Doubled(t), Ends1(t), Ends2(t));
    }
    Prefixed(if isConst then CONST_ else [], Inner(TypeName(t)) + suffix, Doubled(t) || (StartsConst(t) && Ends2(t)), false, false);
  }

  lemma Questioned(s: seq<Byte>, doubled: bool, one: bool, two: bool)
    requires Described(s, doubled, one, two)
    ensures Described(s + [QUESTION], doubled, true, one)
  {
    Join(s, [QUESTION]);
  }

  /** `( .. )`, `< .. >` or `{ .. }` around a list. */
  lemma Bracketed(prefix: seq<Byte>, list: seq<Byte>, suffix: seq<Byte>, empty: bool, doubled: bool, one: bool, two: bool)
    requires prefix != [] && QUESTION !in prefix && suffix != [] && QUESTION !in suffix
    requires if empty then list == [] && !doubled && !two else Described(list, doubled, one, two)
    ensures Described(prefix + (list + suffix), doubled || (two && Trigraph(suffix[0]).Some?), false, false)
  {
    hide HasTrigraph;
    if empty {
      assert list + suffix == suffix;
      Clean(suffix);
      Prefixed(prefix, suffix, false, false, false);
    } else {
      Suffixed(list, suffix, doubled, one, two);
      Prefixed(prefix, list + suffix, doubled || (two && Trigraph(suffix[0]).Some?), false, false);
    }
  }

  lemma JoinedDescribed(a: seq<Byte>, b: seq<Byte>, da: bool, db: bool, one: bool, two: bool)
    requires Described(a, da, false, false) && Described(b, db, one, two)
    ensures Described(a + b, da || db, one, two)
  {
    Join(a, b);
  }

  lemma SpelledClean(s: seq<Byte>)
    requires Spelled(s)
    ensures Described(s, false, false, false) && QUESTION !in s
  {
    Clean(s);
  }

  /** What the shape of a type says about its name. */
  lemma {:induction false} Describe(t: Ty)
    requires Sound(t)
    ensures Described(TypeName(t), Doubled(t), Ends1(t), Ends2(t))
    decreases t, 1
  {
    hide Described, HasTrigraph, Listed, AnyDoubled, Inner, Spelled;
    match t
    case Named(s) => SpelledClean(s);
    case Pointer(u, c) =>
      Describe(u);
      Wrapped(u, [STAR], c);
    case Slice(u, c) =>
      Describe(u);
      Wrapped(u, BRACKETS, c);
    case Fixed(u, n) =>
      Describe(u);
      SpelledClean(n);
      Wrapped(u, [91] + (n + [93]), false);
      assert [] + (Inner(TypeName(u)) + ([91] + (n + [93]))) == TypeName(t);
    case OptionOf(u) =>
      Describe(u);
      Questioned(TypeName(u), Doubled(u), Ends1(u), Ends2(u));
    case ResultOf(u) =>
      Describe(u);
      Suffixed(TypeName(u), [BANG], Doubled(u), Ends1(u), Ends2(u));
    case Func(ps, r) =>
      DescribeFunc(ps, r);
    case Tuple(es) =>
      DescribeList(es);
      Bracketed([123], Listed(es), [125], es == [], AnyDoubled(es), es != [] && Ends1(es[|es| - 1]), es != [] && Ends2(es[|es| - 1]));
    case Instance(s, bs) =>
      DescribeList(bs);
      SpelledClean(s);
      Bracketed(s + [LESS], Listed(bs), [GREATER], false, AnyDoubled(bs), Ends1(bs[|bs| - 1]), Ends2(bs[|bs| - 1]));
      assert s + ([LESS] + (Listed(bs) + [GREATER])) == (s + [LESS]) + (Listed(bs) + [GREATER]);
  }

  lemma {:induction false} DescribeFunc(ps: seq<Ty>, r: Ty)
    requires Sound(Func(ps, r))
    ensures Described(TypeName(Func(ps, r)), Doubled(Func(ps, r)), Ends1(Func(ps, r)), Ends2(Func(ps, r)))
    decreases Func(ps, r), 0
  {
    hide Described, HasTrigraph, Listed, AnyDoubled;
    Describe(r);
    DescribeList(ps);
    var two := ps != [] && Ends2(ps[|ps| - 1]);
    Bracketed([OPEN], Listed(ps), ARROW, ps == [], AnyDoubled(ps), ps != [] && Ends1(ps[|ps| - 1]), two);
    JoinedDescribed([OPEN] + (Listed(ps) + ARROW), TypeName(r), AnyDoubled(ps) || two, Doubled(r), Ends1(r), Ends2(r));
    assert [OPEN] + (Listed(ps) + (ARROW + TypeName(r))) == ([OPEN] + (Listed(ps) + ARROW)) + TypeName(r);
  }

  lemma ListedIs(ts: seq<Ty>)
    ensures Listed(ts) == if ts == [] then [] else if |ts| == 1 then TypeName(ts[0]) else TypeName(ts[0]) + (COMMA + Listed(ts[1..]))
    ensures AnyDoubled(ts) <==> ts != [] && (Doubled(ts[0]) || (|ts| > 1 && AnyDoubled(ts[1..])))
  {
    if |ts| == 1 {
      assert ts[1..] == [] && !AnyDoubled(ts[1..]);
    }
  }

  lemma {:induction false} DescribeList(ts: seq<Ty>)
    requires forall i :: 0 <= i < |ts| ==> Sound(ts[i])
    ensures ts == [] ==> Listed(ts) == [] && !AnyDoubled(ts)
    ensures ts != [] ==> Described(Listed(ts), AnyDoubled(ts), Ends1(ts[|ts| - 1]), Ends2(ts[|ts| - 1]))
    decreases ts, 0
  {
    hide Described, HasTrigraph, Ends1, Ends2, Doubled, TypeName, Listed, AnyDoubled;
    ListedIs(ts);
    if |ts| == 1 {
      Describe(ts[0]);
    } else if |ts| > 1 {
      Describe(ts[0]);
      DescribeList(ts[1..]);
      var last := ts[|ts| - 1];
      Suffixed(TypeName(ts[0]), COMMA, Doubled(ts[0]), Ends1(ts[0]), Ends2(ts[0]));
      JoinedDescribed(TypeName(ts[0]) + COMMA, Listed(ts[1..]), Doubled(ts[0]), AnyDoubled(ts[1..]), Ends1(last), Ends2(last));
      assert TypeName(ts[0]) + (COMMA + Listed(ts[1..])) == (TypeName(ts[0]) + COMMA) + Listed(ts[1..]);
    }
  }

  // ----- reading a name back -----

  lemma {:induction false} NamePrintable(t: Ty)
    requires Sound(t)
    ensures forall b :: b in TypeName(t) ==> Printable(b)
    decreases t, 1
  {
    hide Listed, Inner;
    match t
    case Named(_) =>
    case Pointer(u, _) =>
      NamePrintable(u);
      InnerPrintable(TypeName(u));
    case Slice(u, _) =>
      NamePrintable(u);
      InnerPrintable(TypeName(u));
    case Fixed(u, _) =>
      NamePrintable(u);
      InnerPrintable(TypeName(u));
    case OptionOf(u) => NamePrintable(u);
    case ResultOf(u) => NamePrintable(u);
    case Func(ps, r) =>
      NamePrintable(r);
      ListPrintable(ps);
    case Tuple(es) => ListPrintable(es);
    case Instance(_, bs) => ListPrintable(bs);
  }

  lemma InnerPrintable(name: seq<Byte>)
    requires forall b :: b in name ==> Printable(b)
    ensures forall b :: b in Inner(name) ==> Printable(b)
  {
  }

  lemma {:induction false} ListPrintable(ts: seq<Ty>)
    requires forall i :: 0 <= i < |ts| ==> Sound(ts[i])
    ensures forall b :: b in Listed(ts) ==> Printable(b)
    decreases ts, 0
  {
    if ts != [] {
      NamePrintable(ts[0]);
      ListPrintable(ts[1..]);
    }
  }

  /** `%T` of a type alone prints its name if and only if no option of an option stands
      last in a parameter list, last among type arguments, under a result, or inside
      the parentheses of a `const` element. */
  lemma NameReadsBack(t: Ty, show: Show)
    requires Sound(t) && show([], LETTER_C, [Zero]) == Some([NUL])
    ensures WellFormed(Name(TypeName(t))) && (Works([Name(TypeName(t))], show) <==> !Doubled(t))
  {
    hide Doubled, Ends1, Ends2;
    NamePrintable(t);
    Describe(t);
    var ps := [Name(TypeName(t))];
    assert ps[1..] == [] && Formats(ps) == TypeName(t) + [] == TypeName(t);
    FormatMeans(ps, show);
  }

  const I32: seq<Byte> := [105, 51, 50]
  const CONST_STR: seq<Byte> := CONST_ + [115, 116, 114]

  /** A function from an option of an option. */
  function FromDoubled(name: seq<Byte>): Ty {
    Func([OptionOf(OptionOf(Named(name)))], Named(I32))
  }

  /** `(i32??) -> i32`, and with `const str`, the type of a string literal, for the
      first. */
  lemma TypeNameMisread(show: Show)
    requires show([], LETTER_C, [Zero]) == Some([NUL])
    ensures Sound(FromDoubled(I32)) && !Works([Name(TypeName(FromDoubled(I32)))], show)
    ensures TypeName(FromDoubled(I32)) == [OPEN, 105, 51, 50, QUESTION, QUESTION, CLOSE, 32, 45, 62, 32, 105, 51, 50]
    ensures Sound(FromDoubled(CONST_STR)) && !Works([Name(TypeName(FromDoubled(CONST_STR)))], show)
  {
    hide Works, TypeName, Doubled, Sound, FromDoubled;
    NameOfFunc(I32);
    NameOfFunc(CONST_STR);
    assert [OPEN] + (I32 + [QUESTION, QUESTION] + (ARROW + I32)) == [OPEN, 105, 51, 50, QUESTION, QUESTION, CLOSE, 32, 45, 62, 32, 105, 51, 50];
    NameReadsBack(FromDoubled(I32), show);
    NameReadsBack(FromDoubled(CONST_STR), show);
  }

  lemma NameOfFunc(name: seq<Byte>)
    requires Spelled(name)
    ensures Sound(FromDoubled(name)) && Doubled(FromDoubled(name))
    ensures TypeName(FromDoubled(name)) == [OPEN] + (name + [QUESTION, QUESTION] + (ARROW + I32))
  {
    hide TypeName, Listed, Sound, Doubled, Ends2, Spelled;
    SpelledI32();
    NameOfTwo(name);
    NameOfTwo(I32);
    NameOfOne(OptionOf(OptionOf(Named(name))), Named(I32));
  }

  lemma SpelledI32()
    ensures Spelled(I32)
  {
  }

  lemma NameOfTwo(name: seq<Byte>)
    requires Spelled(name)
    ensures TypeName(Named(name)) == name && Sound(Named(name))
    ensures var two := OptionOf(OptionOf(Named(name))); TypeName(two) == name + [QUESTION, QUESTION] && Sound(two) && Ends2(two)
  {
    assert TypeName(OptionOf(Named(name))) == name + [QUESTION];
    assert name + [QUESTION] + [QUESTION] == name + [QUESTION, QUESTION];
    assert Sound(OptionOf(Named(name))) && Ends1(OptionOf(Named(name)));
  }

  lemma NameOfOne(u: Ty, r: Ty)
    requires Sound(u) && Sound(r) && Ends2(u)
    ensures TypeName(Func([u], r)) == [OPEN] + (TypeName(u) + (ARROW + TypeName(r)))
    ensures Sound(Func([u], r)) && Doubled(Func([u], r))
  {
    hide TypeName, Sound, Ends2;
    assert Listed([u]) == TypeName(u);
    FuncName([u], r);
  }

  lemma FuncName(ps: seq<Ty>, r: Ty)
    requires Sound(r) && forall i :: 0 <= i < |ps| ==> Sound(ps[i])
    ensures TypeName(Func(ps, r)) == [OPEN] + (Listed(ps) + (ARROW + TypeName(r))) && Sound(Func(ps, r))
  {
  }
}
