/** What FC's integers and C's are, told by numbers alone: the ranges of the types, the
    result of each operation, and where C leaves a result undefined. */
module IntMeaning {
  import opened IntModular
  import opened IntSource
  import opened IntTarget
  import IntCorrect
  import IntBounds

  // ----- the ranges -----

  function Low(p: Platform, t: IntType): int {
    match t
    case I8 => -128
    case I16 => -32768
    case I32 => -2147483648
    case I64 => -9223372036854775808
    case Isize => if p.ptrBits == 16 then -32768 else if p.ptrBits == 32 then -2147483648 else -9223372036854775808
    case _ => 0
  }

  function High(p: Platform, t: IntType): int {
    match t
    case I8 => 127
    case U8 => 255
    case I16 => 32767
    case U16 => 65535
    case I32 => 2147483647
    case U32 => 4294967295
    case I64 => 9223372036854775807
    case U64 => 18446744073709551615
    case Isize => if p.ptrBits == 16 then 32767 else if p.ptrBits == 32 then 2147483647 else 9223372036854775807
    case Usize => if p.ptrBits == 16 then 65535 else if p.ptrBits == 32 then 4294967295 else 18446744073709551615
  }

  lemma Powers()
    ensures Pow2(7) == 128 && Pow2(8) == 256
    ensures Pow2(15) == 32768 && Pow2(16) == 65536
    ensures Pow2(31) == 2147483648 && Pow2(32) == 4294967296
    ensures Pow2(63) == 9223372036854775808 && Pow2(64) == 18446744073709551616
  {
    Small();
    hide Pow2;
    Pow2Add(4, 3);
    Pow2Add(4, 4);
    Pow2Add(8, 7);
    Pow2Add(8, 8);
    Pow2Add(16, 15);
    Pow2Add(16, 16);
    Pow2Add(32, 31);
    Pow2Add(32, 32);
  }

  lemma Small()
    ensures Pow2(3) == 8 && Pow2(4) == 16
  {
    assert Pow2(0) == 1 && Pow2(1) == 2 && Pow2(2) == 4;
  }

  /** A type has exactly the values from its lowest to its highest, in FC and in C, and
      wraps around after as many as there are. */
  lemma Ranges(p: Platform, t: IntType, x: int)
    requires p.Valid()
    ensures InRange(p, t, x) <==> Low(p, t) <= x <= High(p, t)
    ensures Fits(CTypeOf(p, t).bits, CTypeOf(p, t).signed, x) <==> Low(p, t) <= x <= High(p, t)
    ensures Pow2(Bits(p, t)) == High(p, t) - Low(p, t) + 1
  {
    hide Pow2;
    Powers();
  }

  /** The types that C promotes to `int`, whatever its width; and the widenings: to a
      fixed width, and to whatever holds every value. */
  lemma Widenings(p: Platform, from: IntType, to: IntType)
    ensures IsSubint(from) <==> High(p, from) <= 65535 && !from.Isize? && !from.Usize?
    ensures CanWiden(from, to) <==>
            from == to || (!from.Isize? && !from.Usize? && !to.Isize? && !to.Usize?
                           && Low(p, to) <= Low(p, from) && High(p, from) <= High(p, to))
  {
  }

  // ----- the operations -----

  /** `v` is the value of the type that `exact` wraps to. */
  predicate WrapsTo(p: Platform, t: IntType, exact: int, v: int) {
    Low(p, t) <= v <= High(p, t) && (v - exact) % (High(p, t) - Low(p, t) + 1) == 0
  }

  lemma WrappedIs(p: Platform, t: IntType, exact: int)
    requires p.Valid()
    ensures WrapsTo(p, t, exact, Wrapped(p, t, exact))
  {
    hide Pow2, Low, High;
    var n := Bits(p, t);
    var v := Wrapped(p, t, exact);
    WrapFits(n, IsSigned(t), exact);
    Ranges(p, t, v);
    var k: int :| v == exact + k * Pow2(n);
    Multiple(k, Pow2(n));
  }

  lemma Multiple(k: int, m: int)
    requires m > 0
    ensures (k * m) % m == 0
  {
    IntCorrect.QuotientUnique(k * m, m, k, 0);
  }

  /** An overflowing result wraps, or aborts under `checked`; any other is exact. */
  predicate Overflows(p: Platform, t: IntType, checked: bool, exact: int, o: Outcome) {
    if Low(p, t) <= exact <= High(p, t) then o == Value(exact)
    else if checked then o == Aborts
    else o.Value? && WrapsTo(p, t, exact, o.v)
  }

  lemma Settles(p: Platform, t: IntType, checked: bool, exact: int)
    requires p.Valid()
    ensures Overflows(p, t, checked, exact, Settle(p, t, checked, exact))
  {
    hide Low, High, Pow2;
    Ranges(p, t, exact);
    WrappedIs(p, t, exact);
    if InRange(p, t, exact) {
      WrapId(Bits(p, t), IsSigned(t), exact);
    }
  }

  /** Every operation on two values. */
  lemma Operations(p: Platform, t: IntType, checked: bool, guarded: bool, s: IntType, x: int, y: int)
    requires p.Valid()
    ensures var a, b := Operand(t, x), Operand(t, y);
            && Overflows(p, t, checked, x + y, Eval(p, Arith(Add, checked, a, b)))
            && Overflows(p, t, checked, x - y, Eval(p, Arith(Sub, checked, a, b)))
            && Overflows(p, t, checked, x * y, Eval(p, Arith(Mul, checked, a, b)))
            && Overflows(p, t, checked, -x, Eval(p, Neg(checked, a)))
            && Overflows(p, t, false, -x - 1, Eval(p, BitNot(a)))
            && Overflows(p, s, checked, x, Eval(p, Cast(checked, s, a)))
  {
    hide Settle, Wrapped, Low, High, Overflows;
    assert Eval(p, Operand(t, x)) == Value(x) && Eval(p, Operand(t, y)) == Value(y);
    Settles(p, t, checked, x + y);
    Settles(p, t, checked, x - y);
    Settles(p, t, checked, x * y);
    Settles(p, t, checked, -x);
    Settles(p, t, false, -x - 1);
    Settles(p, s, checked, x);
    Unchecked(p, t, -x - 1);
  }

  lemma Unchecked(p: Platform, t: IntType, exact: int)
    requires p.Valid()
    ensures Settle(p, t, false, exact) == Value(Wrapped(p, t, exact))
  {
  }

  /** Division truncates: the quotient and the remainder are the only numbers with
      `x == q * y + r`, a remainder smaller than the divisor, and of the dividend's sign. */
  lemma Truncates(x: int, y: int, q: int, r: int)
    requires y != 0
    ensures q == Quotient(x, y) && r == Remainder(x, y) <==>
            x == q * y + r && Abs(r) < Abs(y) && (r == 0 || (r < 0 <==> x < 0))
  {
    hide Quotient, Remainder;
    var q0, r0 := Parts(x, y);
    if x == q * y + r && Abs(r) < Abs(y) && (r == 0 || (r < 0 <==> x < 0)) {
      OnePair(x, y, q, r, q0, r0);
    }
  }

  lemma Parts(x: int, y: int) returns (q: int, r: int)
    requires y != 0
    ensures q == Quotient(x, y) && r == Remainder(x, y)
    ensures x == q * y + r && Abs(r) < Abs(y) && (r == 0 || (r < 0 <==> x < 0))
  {
    q, r := Quotient(x, y), Remainder(x, y);
    var a, b := Abs(x), Abs(y);
    var m, n := NatDiv(a, b), NatMod(a, b);
    assert a == b * m + n && 0 <= n < b;
    hide NatDiv, NatMod;
    if x < 0 && y < 0 {
      assert m * y == -(b * m);
    } else if x < 0 {
      assert -m * y == -(b * m);
    } else if y < 0 {
      assert -m * y == b * m;
    } else {
      assert m * y == b * m;
    }
  }

  lemma OnePair(x: int, y: int, q: int, r: int, q0: int, r0: int)
    requires y != 0 && x == q * y + r && x == q0 * y + r0 && Abs(r) < Abs(y) && Abs(r0) < Abs(y)
    requires (r == 0 || (r < 0 <==> x < 0)) && (r0 == 0 || (r0 < 0 <==> x < 0))
    ensures q == q0 && r == r0
  {
    assert (q - q0) * y == r0 - r;
    assert Abs(r0 - r) < Abs(y);
    if q - q0 >= 1 {
      assert Abs((q - q0) * y) >= Abs(y) by { Scaled(q - q0, y); }
    } else if q - q0 <= -1 {
      assert Abs((q - q0) * y) >= Abs(y) by { Scaled(q - q0, y); }
    }
  }

  lemma Scaled(k: int, y: int)
    requires k != 0
    ensures Abs(k * y) >= Abs(y)
  {
    if k > 0 {
      if y >= 0 { assert k * y >= y; } else { assert k * y <= y; }
    } else {
      if y >= 0 { assert k * y <= -y; } else { assert k * y >= -y; }
    }
  }

  /** A zero divisor aborts, or is not looked at under `unguarded`; otherwise `/` gives
      the quotient, the minimum by -1 overflowing, and `%` the remainder. */
  lemma Divisions(p: Platform, t: IntType, checked: bool, guarded: bool, x: int, y: int)
    requires p.Valid()
    ensures var div, rem := Eval(p, Div(checked, guarded, Operand(t, x), Operand(t, y))), Eval(p, Rem(guarded, Operand(t, x), Operand(t, y)));
            if y == 0 then div == rem == if guarded then Aborts else Unspecified
            else Overflows(p, t, checked, Quotient(x, y), div) && rem == Value(Remainder(x, y))
  {
    hide Settle, Overflows, Quotient, Remainder;
    assert Eval(p, Operand(t, x)) == Value(x) && Eval(p, Operand(t, y)) == Value(y);
    if y != 0 {
      Settles(p, t, checked, Quotient(x, y));
    }
  }

  /** Shifting multiplies by a power of two and wraps, or divides and rounds down; the
      count is taken modulo the width, a negative one too. */
  lemma Shifts(p: Platform, t: IntType, s: IntType, x: int, y: int, k: nat)
    requires p.Valid() && k < Bits(p, t) && (y - k) % Bits(p, t) == 0
    ensures Overflows(p, t, false, x * Pow2(k), Eval(p, Shl(Operand(t, x), Operand(s, y))))
    ensures var o := Eval(p, Shr(Operand(t, x), Operand(s, y)));
            o.Value? && o.v * Pow2(k) <= x < (o.v + 1) * Pow2(k)
  {
    hide Settle, Overflows, Low, High, Pow2, Wrapped, Bits;
    CountIs(y, k, Bits(p, t));
    assert Eval(p, Operand(t, x)) == Value(x) && Eval(p, Operand(s, y)) == Value(y);
    Settles(p, t, false, x * Pow2(k));
    Unchecked(p, t, x * Pow2(k));
    RoundsDown(x, Pow2(k));
  }

  lemma CountIs(y: int, k: nat, n: nat)
    requires k < n && (y - k) % n == 0
    ensures y % n == k
  {
    var q := (y - k) / n;
    assert y - k == q * n + (y - k) % n;
    IntCorrect.QuotientUnique(y, n, q, k);
  }

  lemma RoundsDown(x: int, m: int)
    requires m > 0
    ensures (x / m) * m <= x < (x / m + 1) * m
  {
    var q := x / m;
    assert x == q * m + x % m;
    assert (q + 1) * m == q * m + m;
  }

  /** All of these type check, for all values of the types. */
  lemma Admitted(p: Platform, t: IntType, s: IntType, op: Op, flag: bool, x: int, y: int, z: int)
    requires p.Valid()
    requires Low(p, t) <= x <= High(p, t) && Low(p, t) <= y <= High(p, t) && Low(p, s) <= z <= High(p, s)
    ensures var a, b, c := Operand(t, x), Operand(t, y), Operand(s, z);
            && WellTyped(p, Arith(op, flag, a, b)) && WellTyped(p, Div(flag, flag, a, b)) && WellTyped(p, Rem(flag, a, b))
            && WellTyped(p, Shl(a, c)) && WellTyped(p, Shr(a, c)) && WellTyped(p, BitNot(a)) && WellTyped(p, Cast(flag, s, a))
            && (Low(p, t) < 0 ==> WellTyped(p, Neg(flag, a)))
  {
    hide InRange, Low, High;
    Ranges(p, t, x);
    Ranges(p, t, y);
    Ranges(p, s, z);
    OnlySignedNegative(p, t);
  }

  lemma OnlySignedNegative(p: Platform, t: IntType)
    ensures Low(p, t) < 0 ==> IsSigned(t)
  {
  }

  // ----- C -----

  /** Types narrower than `int` are promoted to it; of two others the wider one wins,
      and of two equally wide the unsigned one. */
  lemma Conversions(p: Platform, a: CType, b: CType)
    requires p.Valid()
    ensures a.bits < p.intBits && b.bits < p.intBits ==> Common(p, a, b) == CType(p.intBits, true)
    ensures a.bits >= p.intBits && b.bits < a.bits ==> Common(p, a, b) == Common(p, b, a) == a
    ensures a.bits >= p.intBits && b.bits == a.bits ==> Common(p, a, b) == CType(a.bits, a.signed && b.signed)
  {
  }

  /** Signed arithmetic of the width of `int` or wider is exact, and undefined when the
      result does not fit. */
  lemma SignedOverflow(p: Platform, w: nat, x: int, y: int)
    requires p.Valid() && (w == 16 || w == 32 || w == 64) && p.intBits <= w
    requires -Pow2(w - 1) <= x < Pow2(w - 1) && -Pow2(w - 1) <= y < Pow2(w - 1)
    ensures var t := CType(w, true);
            var a, b := Typed(t, x), Typed(t, y);
            && (Binary(p, CAdd, a, b) == if -Pow2(w - 1) <= x + y < Pow2(w - 1) then Ok(t, x + y) else Undefined)
            && (Binary(p, CSub, a, b) == if -Pow2(w - 1) <= x - y < Pow2(w - 1) then Ok(t, x - y) else Undefined)
            && (Binary(p, CMul, a, b) == if -Pow2(w - 1) <= x * y < Pow2(w - 1) then Ok(t, x * y) else Undefined)
  {
    hide Pow2, Wrap;
    var t := CType(w, true);
    WrapId(w, true, x);
    WrapId(w, true, y);
    assert Common(p, t, t) == t;
    ArithmeticIs(w, x + y);
    ArithmeticIs(w, x - y);
    ArithmeticIs(w, x * y);
    hide Common, Arithmetic;
  }

  lemma ArithmeticIs(w: nat, r: int)
    requires w > 0
    ensures Arithmetic(CType(w, true), r) == if -Pow2(w - 1) <= r < Pow2(w - 1) then Ok(CType(w, true), r) else Undefined
  {
    hide Pow2;
  }

  /** Dividing by zero is undefined, and so is the minimum by -1, remainder included. */
  lemma UndefinedDivision(p: Platform, w: nat, x: int, y: int)
    requires p.Valid() && (w == 16 || w == 32 || w == 64) && p.intBits <= w
    requires -Pow2(w - 1) <= x < Pow2(w - 1) && -Pow2(w - 1) <= y < Pow2(w - 1)
    requires y == 0 || (x == -Pow2(w - 1) && y == -1)
    ensures var a, b := Typed(CType(w, true), x), Typed(CType(w, true), y);
            Binary(p, CDiv, a, b).Undefined? && Binary(p, CRem, a, b).Undefined?
  {
    hide Pow2, Wrap, Remainder, Quotient;
    var t := CType(w, true);
    WrapId(w, true, x);
    WrapId(w, true, y);
    assert Common(p, t, t) == t;
    if y != 0 {
      Truncates(x, y, Pow2(w - 1), 0);
      ArithmeticIs(w, Pow2(w - 1));
    }
  }

  /** So is shifting by a count that the type does not have, and a negative value left. */
  lemma UndefinedShift(p: Platform, w: nat, x: int, y: int)
    requires p.Valid() && w >= p.intBits
    ensures var a, b := Typed(CType(w, true), x), Typed(CType(w, true), y);
            && (x < 0 || y < 0 || y >= w ==> ShiftLeft(p, a, b).Undefined?)
            && (y < 0 || y >= w ==> ShiftRight(p, a, b).Undefined?)
  {
    hide Pow2;
  }

  /** C does not say which operand comes first: an undefined one makes the whole
      undefined, even where the other one aborts. */
  lemma UndefinedOperand(p: Platform, op: COp, a: C, b: C, env: Env)
    ensures Run(p, a, env).Undefined? || Run(p, b, env).Undefined? ==>
              Run(p, CBin(op, a, b), env).Undefined? && Run(p, CShl(a, b), env).Undefined? && Run(p, CShr(a, b), env).Undefined?
    ensures !Run(p, a, env).Undefined? && !Run(p, b, env).Undefined? && (Run(p, a, env).Aborted? || Run(p, b, env).Aborted?) ==>
              Run(p, CBin(op, a, b), env).Aborted? && Run(p, CShl(a, b), env).Aborted? && Run(p, CShr(a, b), env).Aborted?
  {
    hide Binary, ShiftLeft, ShiftRight;
  }

  /** A comparison is 1 or 0, of type `int`. */
  lemma Comparisons(p: Platform, w: nat, x: int, y: int)
    requires p.Valid() && (w == 16 || w == 32 || w == 64) && p.intBits <= w
    requires -Pow2(w - 1) <= x < Pow2(w - 1) && -Pow2(w - 1) <= y < Pow2(w - 1)
    ensures var a, b := Typed(CType(w, true), x), Typed(CType(w, true), y);
            && Binary(p, CLt, a, b) == Ok(CType(p.intBits, true), if x < y then 1 else 0)
            && Binary(p, CGt, a, b) == Ok(CType(p.intBits, true), if x > y then 1 else 0)
            && Binary(p, CGe, a, b) == Ok(CType(p.intBits, true), if x >= y then 1 else 0)
            && Binary(p, CEq, a, b) == Ok(CType(p.intBits, true), if x == y then 1 else 0)
  {
    hide Pow2, Wrap;
    WrapId(w, true, x);
    WrapId(w, true, y);
    assert Common(p, CType(w, true), CType(w, true)) == CType(w, true);
  }

  // ----- bounds -----

  /** A bound is compared at the width of the length or of its own type, whichever is
      more, and at 64 bits where that is the pointer's; two bounds at the wider of theirs. */
  lemma ComparedAt(repr: nat, t: IntType, lo: IntBounds.Bound, hi: IntBounds.Bound, e: C)
    requires repr == 16 || repr == 32 || repr == 64
    ensures IntBounds.GuardBits(repr, t) == match t
                                            case I8 => repr case U8 => repr case I16 => repr case U16 => repr
                                            case I32 => if repr == 64 then 64 else 32 case U32 => if repr == 64 then 64 else 32
                                            case _ => 64
    ensures IntBounds.BoundBits(repr, IntBounds.Absent) == repr
    ensures IntBounds.BoundBits(repr, IntBounds.Written(t, e)) == IntBounds.GuardBits(repr, t)
    ensures var a, b := IntBounds.BoundBits(repr, lo), IntBounds.BoundBits(repr, hi);
            IntBounds.SliceBits(repr, lo, hi) == if a < b then b else a
  {
  }

  /** Subslices of subslices are taken in turn, and the first that aborts ends it. */
  lemma SubslicesInTurn(p: Platform, repr: nat, s: IntBounds.Slice, r: IntBounds.Range, rs: seq<IntBounds.Range>)
    requires p.Valid() && IntBounds.ValidRepr(repr)
    ensures IntBounds.SubsliceAll(p, repr, s, []) == IntBounds.Made(s)
    ensures IntBounds.SubsliceAll(p, repr, s, [r] + rs) ==
            match IntBounds.Subslice(p, repr, s, r)
            case None => IntBounds.Step.None
            case Made(s1) => IntBounds.SubsliceAll(p, repr, s1, rs)
  {
    hide IntBounds.Subslice;
    assert ([r] + rs)[1..] == rs;
  }

  /** The platforms: `int` of 16 or 32 bits, pointers at least as wide. */
  lemma Platforms(p: Platform)
    ensures p.Valid() <==> p.intBits in {16, 32} && p.ptrBits in {16, 32, 64} && p.ptrBits >= p.intBits
    ensures forall repr: nat :: IntBounds.ValidRepr(repr) <==> repr in {16, 32, 64}
  {
  }

  /** Operands may be expressions themselves, of any depth. */
  lemma Nested(p: Platform, l: Expr, r: Expr, op: Op, flag: bool, t: IntType)
    requires p.Valid() && WellTyped(p, l) && WellTyped(p, r)
    ensures WellTyped(p, Shl(l, r)) && WellTyped(p, Shr(l, r)) && WellTyped(p, BitNot(l)) && WellTyped(p, Cast(flag, t, l))
    ensures TypeOf(l) == TypeOf(r) ==>
              WellTyped(p, Arith(op, flag, l, r)) && WellTyped(p, Div(flag, flag, l, r)) && WellTyped(p, Rem(flag, l, r))
    ensures TypeOf(l) in {I8, I16, I32, I64, Isize} ==> WellTyped(p, Neg(flag, l))
    ensures TypeOf(Arith(op, flag, l, r)) == TypeOf(Shl(l, r)) == TypeOf(BitNot(l)) == TypeOf(l) && TypeOf(Cast(flag, t, l)) == t
  {
  }

  // ----- types in C -----

  predicate SameTypes(a: Env, b: Env) {
    a.Keys == b.Keys && forall n :: n in a ==> a[n].t == b[n].t
  }

  lemma {:induction false} TypeOnly(p: Platform, e: C, a: Env, b: Env)
    requires SameTypes(a, b)
    ensures StaticType(p, e, a) == StaticType(p, e, b)
    decreases e
  {
    hide Common, Promote;
    match e
    case CBin(_, x, y) =>
      TypeOnly(p, x, a, b);
      TypeOnly(p, y, a, b);
    case CNeg(x) => TypeOnly(p, x, a, b);
    case CCompl(x) => TypeOnly(p, x, a, b);
    case CShl(x, _) => TypeOnly(p, x, a, b);
    case CShr(x, _) => TypeOnly(p, x, a, b);
    case CMask(x, _) => TypeOnly(p, x, a, b);
    case CTernary(_, x, y) =>
      TypeOnly(p, x, a, b);
      TypeOnly(p, y, a, b);
    case CInit(n, t, _, body) => TypeOnly(p, body, a[n := Typed(t, 0)], b[n := Typed(t, 0)]);
    case CAbortIf(_, body) => TypeOnly(p, body, a, b);
    case _ =>
  }

  /** What an expression yields has the type that C gives it without evaluating it. */
  lemma {:induction false} TypesAreStatic(p: Platform, e: C, env: Env)
    ensures Run(p, e, env).Ok? ==> Run(p, e, env).t == StaticType(p, e, env)
    decreases e
  {
    hide Common, Promote, Convert, Wrap, Fits, Pow2;
    match e
    case CBin(_, x, y) =>
      TypesAreStatic(p, x, env);
      TypesAreStatic(p, y, env);
    case CNeg(x) => TypesAreStatic(p, x, env);
    case CCompl(x) => TypesAreStatic(p, x, env);
    case CShl(x, _) => TypesAreStatic(p, x, env);
    case CShr(x, _) => TypesAreStatic(p, x, env);
    case CMask(x, _) => TypesAreStatic(p, x, env);
    case CInit(n, t, x, body) =>
      var r := Run(p, x, env);
      if r.Ok? {
        var inner := env[n := Typed(t, Convert(t, r.v))];
        TypesAreStatic(p, body, inner);
        TypeOnly(p, body, inner, env[n := Typed(t, 0)]);
      }
    case CAbortIf(_, body) => TypesAreStatic(p, body, env);
    case _ =>
  }
}
