/** The emitted C is free of undefined behaviour and computes FC's values: for
    every platform, every expression, and every operand value. */
module IntCorrect {
  import opened IntModular
  import opened IntSource
  import opened IntTarget
  import opened IntLowering

  /** `C` result `r` is FC outcome `o` of type `t`. An expression may keep the
      promoted type in C; its value is in the range of the FC type. */
  predicate Agrees(p: Platform, t: IntType, o: Outcome, r: Result)
    requires p.Valid()
  {
    match o
    case Value(v) =>
      r.Ok? && r.v == v && InRange(p, t, v) && (r.t == CTypeOf(p, t) || r.t == Promote(p, CTypeOf(p, t)))
    case Aborts => r.Aborted?
    case Unspecified => true
  }

  /** An operand that has been evaluated to `v`. */
  predicate Holds(p: Platform, t: IntType, r: Result, v: int)
    requires p.Valid()
  {
    Agrees(p, t, Value(v), r)
  }

  // ----- one evaluation step each -----

  lemma RunCast(p: Platform, t: CType, x: C, env: Env)
    ensures Run(p, CCast(t, x), env) ==
            (var r := Run(p, x, env); if r.Ok? then Ok(t, Convert(t, r.v)) else r)
  {
    hide Wrap, Pow2, Fits, Convert, Common, Promote, Arithmetic, Binary, ShiftLeft, ShiftRight, StaticType, Stop, Truth, Infinite, Masked, Minus, Flipped;
  }

  lemma RunBin(p: Platform, op: COp, a: C, b: C, env: Env)
    ensures Run(p, CBin(op, a, b), env) ==
            (var x := Run(p, a, env);
             var y := Run(p, b, env);
             if x.Ok? && y.Ok? then Binary(p, op, Typed(x.t, x.v), Typed(y.t, y.v)) else Stop(x, y))
  {
    hide Wrap, Pow2, Fits, Convert, Common, Promote, Arithmetic, Binary, ShiftLeft, ShiftRight, StaticType, Stop, Truth, Infinite, Masked, Minus, Flipped;
  }

  lemma RunNeg(p: Platform, x: C, env: Env)
    ensures Run(p, CNeg(x), env) ==
            (var r := Run(p, x, env); if r.Ok? then Arithmetic(Promote(p, r.t), Minus(r.v)) else r)
  {
    hide Wrap, Pow2, Fits, Convert, Common, Promote, Arithmetic, Binary, ShiftLeft, ShiftRight, StaticType, Stop, Truth, Infinite, Masked, Minus, Flipped;
  }

  lemma RunCompl(p: Platform, x: C, env: Env)
    ensures Run(p, CCompl(x), env) ==
            (var r := Run(p, x, env); if r.Ok? then Arithmetic(Promote(p, r.t), Flipped(r.v)) else r)
  {
    hide Wrap, Pow2, Fits, Convert, Common, Promote, Arithmetic, Binary, ShiftLeft, ShiftRight, StaticType, Stop, Truth, Infinite, Masked, Minus, Flipped;
  }

  lemma RunShl(p: Platform, a: C, b: C, env: Env)
    ensures Run(p, CShl(a, b), env) ==
            (var x := Run(p, a, env);
             var y := Run(p, b, env);
             if x.Ok? && y.Ok? then ShiftLeft(p, Typed(x.t, x.v), Typed(y.t, y.v)) else Stop(x, y))
  {
    hide Wrap, Pow2, Fits, Convert, Common, Promote, Arithmetic, Binary, ShiftLeft, ShiftRight, StaticType, Stop, Truth, Infinite, Masked, Minus, Flipped;
  }

  lemma RunShr(p: Platform, a: C, b: C, env: Env)
    ensures Run(p, CShr(a, b), env) ==
            (var x := Run(p, a, env);
             var y := Run(p, b, env);
             if x.Ok? && y.Ok? then ShiftRight(p, Typed(x.t, x.v), Typed(y.t, y.v)) else Stop(x, y))
  {
    hide Wrap, Pow2, Fits, Convert, Common, Promote, Arithmetic, Binary, ShiftLeft, ShiftRight, StaticType, Stop, Truth, Infinite, Masked, Minus, Flipped;
  }

  lemma RunMask(p: Platform, x: C, m: nat, env: Env)
    ensures Run(p, CMask(x, m), env) ==
            (var r := Run(p, x, env);
             if r.Ok? then
               var t := Common(p, r.t, CInt(p)); Ok(t, Convert(t, r.v) % (m + 1))
             else r)
  {
    hide Wrap, Pow2, Fits, Convert, Common, Promote, Arithmetic, Binary, ShiftLeft, ShiftRight, StaticType, Stop, Truth, Infinite;
  }

  lemma RunOverflow(p: Platform, op: COp, t: CType, a: C, b: C, env: Env)
    ensures Run(p, COverflow(op, t, a, b), env) ==
            (var x := Run(p, a, env);
             var y := Run(p, b, env);
             if !x.Ok? || !y.Ok? then Stop(x, y)
             else
               var exact := Infinite(op, x.v, y.v);
               if t.bits > 0 && Fits(t.bits, t.signed, exact) then Ok(t, exact) else Aborted)
  {
    hide Wrap, Pow2, Fits, Convert, Common, Promote, Arithmetic, Binary, ShiftLeft, ShiftRight, StaticType, Stop, Truth, Infinite, Masked, Minus, Flipped;
  }

  lemma RunInit(p: Platform, n: nat, t: CType, x: C, body: C, env: Env)
    ensures Run(p, CInit(n, t, x, body), env) ==
            (var r := Run(p, x, env);
             if r.Ok? then Run(p, body, env[n := Typed(t, Convert(t, r.v))]) else r)
  {
    hide Wrap, Pow2, Fits, Convert, Common, Promote, Arithmetic, Binary, ShiftLeft, ShiftRight, StaticType, Stop, Truth, Infinite, Masked, Minus, Flipped;
  }

  lemma RunAbortIf(p: Platform, c: C, body: C, env: Env)
    ensures Run(p, CAbortIf(c, body), env) ==
            (var r := Run(p, c, env);
             if !r.Ok? then r else if r.v != 0 then Aborted else Run(p, body, env))
  {
    hide Wrap, Pow2, Fits, Convert, Common, Promote, Arithmetic, Binary, ShiftLeft, ShiftRight, StaticType, Stop, Truth, Infinite, Masked, Minus, Flipped;
  }

  /** Both branches are casts to the type `t`. */
  lemma RunTernary(p: Platform, c: C, t: CType, a: C, b: C, env: Env)
    ensures Run(p, CTernary(c, CCast(t, a), CCast(t, b)), env) ==
            (var x := Run(p, c, env);
             if !x.Ok? then x
             else
               var r := if x.v != 0 then Run(p, CCast(t, a), env) else Run(p, CCast(t, b), env);
               if r.Ok? then Ok(Common(p, t, t), Convert(Common(p, t, t), r.v)) else r)
  {
    hide Run, StaticType, Convert, Common;
    TernaryPicks(p, c, CCast(t, a), CCast(t, b), env);
    CastType(p, t, a, env);
    CastType(p, t, b, env);
  }

  lemma TernaryPicks(p: Platform, c: C, a: C, b: C, env: Env)
    ensures Run(p, CTernary(c, a, b), env) ==
            (var x := Run(p, c, env);
             if !x.Ok? then x
             else
               var t := Common(p, StaticType(p, a, env), StaticType(p, b, env));
               var r := if x.v != 0 then Run(p, a, env) else Run(p, b, env);
               if r.Ok? then Ok(t, Convert(t, r.v)) else r)
  {
    hide StaticType, Convert, Common;
  }

  lemma CastType(p: Platform, t: CType, x: C, env: Env)
    ensures StaticType(p, CCast(t, x), env) == t
  {
  }

  lemma RunAnd(p: Platform, a: C, b: C, env: Env)
    ensures Run(p, CAnd(a, b), env) ==
            (var x := Run(p, a, env);
             if !x.Ok? then x
             else if x.v == 0 then Truth(p, false)
             else
               var y := Run(p, b, env);
               if y.Ok? then Truth(p, y.v != 0) else y)
  {
  }

  lemma RunOr(p: Platform, a: C, b: C, env: Env)
    ensures Run(p, COr(a, b), env) ==
            (var x := Run(p, a, env);
             if !x.Ok? then x
             else if x.v != 0 then Truth(p, true)
             else
               var y := Run(p, b, env);
               if y.Ok? then Truth(p, y.v != 0) else y)
  {
  }

  lemma RunLeaf(p: Platform, t: CType, v: int, n: nat, env: Env)
    ensures Run(p, CConst(t, v), env) == Ok(t, v)
    ensures n in env ==> Run(p, CTemp(n), env) == Ok(env[n].t, env[n].v)
  {
  }

  // ----- conversions -----

  lemma TypeFacts(p: Platform, t: IntType)
    requires p.Valid()
    ensures Bits(p, t) >= 8 && (IsSubint(t) ==> Bits(p, t) <= 16) && (!IsSubint(t) ==> Bits(p, t) >= p.intBits)
    ensures Promote(p, CTypeOf(p, t)).bits >= p.intBits >= 16
    ensures Bits(p, t) < p.intBits ==> IsSubint(t) && 2 * Bits(p, t) <= p.intBits
  {
  }

  /** Conversion between a type and its promoted type keeps the value. */
  lemma PromoteKeeps(p: Platform, t: IntType, v: int)
    requires p.Valid() && InRange(p, t, v)
    ensures var q := Promote(p, CTypeOf(p, t));
            q.bits > 0 && Fits(q.bits, q.signed, v) && Convert(q, v) == v
    ensures Convert(CTypeOf(p, t), v) == v
  {
    TypeFacts(p, t);
    var q := Promote(p, CTypeOf(p, t));
    FitsWider(Bits(p, t), IsSigned(t), v, q.bits, q.signed);
    WrapId(q.bits, q.signed, v);
    WrapId(Bits(p, t), IsSigned(t), v);
  }

  lemma CommonSame(p: Platform, t: IntType, a: CType, b: CType)
    requires p.Valid()
    requires a == CTypeOf(p, t) || a == Promote(p, CTypeOf(p, t))
    requires b == CTypeOf(p, t) || b == Promote(p, CTypeOf(p, t))
    ensures Common(p, a, b) == Promote(p, CTypeOf(p, t)) == Promote(p, a)
  {
  }

  /** A signed or small type compared with an `int` constant keeps both values. */
  lemma CommonWithInt(p: Platform, t: IntType, v: int, k: int)
    requires p.Valid() && InRange(p, t, v) && -1 <= k <= 0 && (k < 0 ==> IsSigned(t))
    ensures var q := Common(p, CTypeOf(p, t), CInt(p)); Convert(q, v) == v && Convert(q, k) == k
  {
    hide Wrap, Pow2;
    TypeFacts(p, t);
    var q := Common(p, CTypeOf(p, t), CInt(p));
    PromoteKeeps(p, t, v);
    FitsWider(Bits(p, t), IsSigned(t), v, q.bits, q.signed);
    WrapId(q.bits, q.signed, v);
    WrapId(q.bits, q.signed, k);
  }

  /** Casting through a type of at least `n` bits keeps the residue. */
  lemma ConvertCongruent(t: CType, v: int, x: int, n: nat)
    requires 0 < n <= t.bits && Congruent(v, x, n)
    ensures Congruent(Convert(t, v), x, n)
  {
    WrapCongruent(t.bits, t.signed, v, n);
    CongruentTrans(Convert(t, v), v, x, n);
  }

  lemma ConvertFinal(p: Platform, t: IntType, v: int, x: int)
    requires p.Valid() && Congruent(v, x, Bits(p, t))
    ensures Convert(CTypeOf(p, t), v) == Wrapped(p, t, x) && InRange(p, t, Wrapped(p, t, x))
  {
    TypeFacts(p, t);
    WrapSame(Bits(p, t), IsSigned(t), v, x);
    WrapFits(Bits(p, t), IsSigned(t), x);
  }

  // ----- +, -, * -----

  lemma ExactCongruent(op: Op, x: int, x': int, y: int, y': int, n: nat)
    requires Congruent(x, x', n) && Congruent(y, y', n)
    ensures Congruent(Exact(op, x, y), Exact(op, x', y'), n)
  {
    match op
    case Add => CongruentAdd(x, x', y, y', n);
    case Sub =>
      CongruentNeg(y, y', n);
      CongruentAdd(x, x', -y, -y', n);
    case Mul => CongruentMul(x, x', y, y', n);
  }

  /** Unsigned arithmetic of at least `n` bits is arithmetic modulo 2^n. */
  lemma UnsignedBinary(p: Platform, op: Op, w: CType, x: int, x': int, y: int, y': int, n: nat)
    requires p.Valid() && !w.signed && w.bits >= p.intBits && 0 < n <= w.bits
    requires Congruent(x, x', n) && Congruent(y, y', n)
    ensures var r := Binary(p, COpOf(op), Typed(w, x), Typed(w, y));
            r.Ok? && r.t == w && Congruent(r.v, Exact(op, x', y'), n)
    ensures var r := Binary(p, COpOf(op), Typed(w, x), Typed(w, y));
            Fits(w.bits, false, r.v)
  {
    hide Congruent, Wrap, Pow2;
    ConvertCongruent(w, x, x', n);
    ConvertCongruent(w, y, y', n);
    var e := Exact(op, Convert(w, x), Convert(w, y));
    ExactCongruent(op, Convert(w, x), x', Convert(w, y), y', n);
    ConvertCongruent(w, e, Exact(op, x', y'), n);
    WrapFits(w.bits, false, e);
  }

  lemma ArithCorrect(p: Platform, op: Op, checked: bool, t: IntType, a: C, b: C, env: Env, x: int, y: int)
    requires p.Valid() && Holds(p, t, Run(p, a, env), x) && Holds(p, t, Run(p, b, env), y)
    ensures Agrees(p, t, ArithOn(p, t, op, checked, x, y), Run(p, LowerArith(p, op, checked, t, a, b), env))
  {
    hide Run, Binary, Congruent, Wrap, Pow2, MinOf, MaxOf, Fits;
    if checked {
      CheckedArith(p, op, t, a, b, env, x, y);
    } else if IsSubint(t) {
      SubintArith(p, op, t, a, b, env, x, y);
    } else if IsSigned(t) {
      SignedArith(p, op, t, a, b, env, x, y);
    } else {
      UnsignedArith(p, op, t, a, b, env, x, y);
    }
  }

  lemma CheckedArith(p: Platform, op: Op, t: IntType, a: C, b: C, env: Env, x: int, y: int)
    requires p.Valid() && Holds(p, t, Run(p, a, env), x) && Holds(p, t, Run(p, b, env), y)
    ensures Agrees(p, t, ArithOn(p, t, op, true, x, y), Run(p, LowerArith(p, op, true, t, a, b), env))
  {
    hide Run, Wrap, Pow2, MinOf, MaxOf, Fits;
    TypeFacts(p, t);
    RunOverflow(p, COpOf(op), CTypeOf(p, t), a, b, env);
    if InRange(p, t, Exact(op, x, y)) {
      WrapId(Bits(p, t), IsSigned(t), Exact(op, x, y));
    }
  }

  lemma SignedArith(p: Platform, op: Op, t: IntType, a: C, b: C, env: Env, x: int, y: int)
    requires p.Valid() && !IsSubint(t) && IsSigned(t) && Holds(p, t, Run(p, a, env), x) && Holds(p, t, Run(p, b, env), y)
    ensures Agrees(p, t, ArithOn(p, t, op, false, x, y), Run(p, LowerArith(p, op, false, t, a, b), env))
  {
    hide Run, Binary, Congruent, Wrap, Pow2, MinOf, MaxOf, Fits, Convert;
    TypeFacts(p, t);
    var n := Bits(p, t);
    var u := Unsigned(p, t);
    CongruentSelf(x, n);
    CongruentSelf(y, n);
    ConvertCongruent(u, x, x, n);
    ConvertCongruent(u, y, y, n);
    UnsignedBinary(p, op, u, Convert(u, x), x, Convert(u, y), y, n);
    RunCast(p, u, a, env);
    RunCast(p, u, b, env);
    var sum := CBin(COpOf(op), CCast(u, a), CCast(u, b));
    RunBin(p, COpOf(op), CCast(u, a), CCast(u, b), env);
    RunCast(p, CTypeOf(p, t), sum, env);
    ConvertFinal(p, t, Run(p, sum, env).v, Exact(op, x, y));
  }

  lemma UnsignedArith(p: Platform, op: Op, t: IntType, a: C, b: C, env: Env, x: int, y: int)
    requires p.Valid() && !IsSubint(t) && !IsSigned(t) && Holds(p, t, Run(p, a, env), x) && Holds(p, t, Run(p, b, env), y)
    ensures Agrees(p, t, ArithOn(p, t, op, false, x, y), Run(p, LowerArith(p, op, false, t, a, b), env))
  {
    hide Run, Binary, Congruent, Wrap, Pow2, MinOf, MaxOf, Fits, Convert;
    TypeFacts(p, t);
    var n := Bits(p, t);
    var u := CTypeOf(p, t);
    CongruentSelf(x, n);
    CongruentSelf(y, n);
    UnsignedBinary(p, op, u, x, x, y, y, n);
    RunBin(p, COpOf(op), a, b, env);
    var r := Binary(p, COpOf(op), Typed(u, x), Typed(u, y));
    WrapSame(n, false, r.v, Exact(op, x, y));
    WrapId(n, false, r.v);
  }

  lemma SubintArith(p: Platform, op: Op, t: IntType, a: C, b: C, env: Env, x: int, y: int)
    requires p.Valid() && IsSubint(t) && Holds(p, t, Run(p, a, env), x) && Holds(p, t, Run(p, b, env), y)
    ensures Agrees(p, t, ArithOn(p, t, op, false, x, y), Run(p, LowerArith(p, op, false, t, a, b), env))
  {
    hide Run, Binary, Congruent, Wrap, Pow2, MinOf, MaxOf, Fits, Convert;
    TypeFacts(p, t);
    var n := Bits(p, t);
    var u, w := Unsigned(p, t), CUnsigned(p);
    SubintOperand(p, t, a, env, x);
    SubintOperand(p, t, b, env, y);
    var x', y' := Convert(w, Convert(u, x)), Convert(w, Convert(u, y));
    UnsignedBinary(p, op, w, x', x, y', y, n);
    var a', b' := CCast(w, CCast(u, a)), CCast(w, CCast(u, b));
    var sum := CBin(COpOf(op), a', b');
    RunBin(p, COpOf(op), a', b', env);
    var r := Run(p, sum, env);
    var exact := Exact(op, x, y);
    ConvertCongruent(u, r.v, exact, n);
    ConvertFinal(p, t, r.v, exact);
    ConvertFinal(p, t, Convert(u, r.v), exact);
    RunCast(p, u, sum, env);
    RunCast(p, CTypeOf(p, t), sum, env);
    RunCast(p, CTypeOf(p, t), CCast(u, sum), env);
  }

  /** `(unsigned)(U)a`. */
  lemma SubintOperand(p: Platform, t: IntType, a: C, env: Env, x: int)
    requires p.Valid() && IsSubint(t) && Holds(p, t, Run(p, a, env), x)
    ensures var u, w := Unsigned(p, t), CUnsigned(p);
            && Run(p, CCast(w, CCast(u, a)), env) == Ok(w, Convert(w, Convert(u, x)))
            && Congruent(Convert(w, Convert(u, x)), x, Bits(p, t))
  {
    hide Run, Congruent, Wrap, Pow2, MinOf, MaxOf, Fits, Convert;
    TypeFacts(p, t);
    var n := Bits(p, t);
    var u, w := Unsigned(p, t), CUnsigned(p);
    CongruentSelf(x, n);
    ConvertCongruent(u, x, x, n);
    ConvertCongruent(w, Convert(u, x), x, n);
    RunCast(p, u, a, env);
    RunCast(p, w, CCast(u, a), env);
  }

  // ----- shifts -----

  /** The masked count. */
  lemma MaskCorrect(p: Platform, t: IntType, s: IntType, b: C, env: Env, y: int)
    requires p.Valid() && Holds(p, s, Run(p, b, env), y)
    ensures var r := Run(p, CMask(b, Bits(p, t) - 1), env);
            r.Ok? && r.v == y % Bits(p, t) && 0 <= r.v < Bits(p, t)
  {
    hide Run, Congruent, Wrap, Pow2, MinOf, MaxOf, Fits;
    TypeFacts(p, t);
    RunMask(p, b, Bits(p, t) - 1, env);
    var c := Common(p, Run(p, b, env).t, CInt(p));
    var m := WidthIsPower(p, t);
    WrapCongruent(c.bits, c.signed, y, m);
    SameResidue(Convert(c, y), y, m);
  }

  lemma WidthIsPower(p: Platform, t: IntType) returns (m: nat)
    requires p.Valid()
    ensures m <= 6 && Bits(p, t) == Pow2(m)
  {
    m := if Bits(p, t) == 8 then 3 else if Bits(p, t) == 16 then 4 else if Bits(p, t) == 32 then 5 else 6;
    assert Pow2(3) == 8;
    assert Pow2(4) == 2 * Pow2(3) && Pow2(5) == 2 * Pow2(4) && Pow2(6) == 2 * Pow2(5);
  }

  lemma SameResidue(x: int, y: int, n: nat)
    requires Congruent(x, y, n)
    ensures x % Pow2(n) == y % Pow2(n)
  {
    var m := Pow2(n);
    var k :| x == y + k * m;
    var q := y / m;
    assert x == (q + k) * m + y % m by {
      assert (q + k) * m == q * m + k * m;
    }
    QuotientUnique(x, m, q + k, y % m);
  }

  lemma QuotientUnique(x: int, m: int, q: int, r: int)
    requires m > 0 && x == q * m + r && 0 <= r < m
    ensures x % m == r
  {
    var d := x % m - r;
    var k := q - x / m;
    assert d == k * m by {
      assert x == (x / m) * m + x % m;
      assert (q - x / m) * m == q * m - (x / m) * m;
    }
    NoMultiple(d, k, m);
  }

  lemma ShlCorrect(p: Platform, t: IntType, s: IntType, a: C, b: C, env: Env, x: int, y: int)
    requires p.Valid() && Holds(p, t, Run(p, a, env), x) && Holds(p, s, Run(p, b, env), y)
    ensures Agrees(p, t, ShlOn(p, t, x, y), Run(p, LowerShl(p, t, a, b), env))
  {
    hide Run, Congruent, Wrap, Pow2, MinOf, MaxOf, Fits, Convert;
    TypeFacts(p, t);
    MaskCorrect(p, t, s, b, env, y);
    var n := Bits(p, t);
    var k: nat := y % n;
    var u := Unsigned(p, t);
    CongruentSelf(x, n);
    ConvertCongruent(u, x, x, n);
    var x1 := Convert(u, x);
    ConvertFits(u, x);
    NonNegative(n, x1);
    CongruentSelf(Pow2(k), n);
    CongruentMul(x1, x, Pow2(k), Pow2(k), n);
    RunCast(p, u, a, env);
    var mask := CMask(b, n - 1);
    RunShl(p, CCast(u, a), mask, env);
    RunCast(p, CTypeOf(p, t), CShl(CCast(u, a), mask), env);
    var w := Promote(p, u);
    if w.signed {
      ShiftFitsInt(p, n, x1, k);
      ConvertFinal(p, t, x1 * Pow2(k), x * Pow2(k));
    } else {
      ArithmeticUnsigned(w, x1 * Pow2(k), x * Pow2(k), n);
      ConvertFinal(p, t, Arithmetic(w, x1 * Pow2(k)).v, x * Pow2(k));
    }
  }

  lemma ConvertFits(t: CType, v: int)
    requires t.bits > 0
    ensures Fits(t.bits, t.signed, Convert(t, v))
  {
    WrapFits(t.bits, t.signed, v);
  }

  lemma ArithmeticUnsigned(w: CType, v: int, x: int, n: nat)
    requires !w.signed && 0 < n <= w.bits && Congruent(v, x, n)
    ensures var r := Arithmetic(w, v); r.Ok? && r.t == w && Congruent(r.v, x, n) && Fits(w.bits, false, r.v)
  {
    hide Congruent, Wrap, Fits, Pow2;
    assert Arithmetic(w, v).v == Convert(w, v);
    ConvertCongruent(w, v, x, n);
    ConvertFits(w, v);
  }

  lemma NonNegative(n: nat, x: int)
    requires n > 0 && Fits(n, false, x)
    ensures x >= 0
  {
  }

  /** A promoted operand shifted by less than its own width still fits `int`. */
  lemma ShiftFitsInt(p: Platform, n: nat, x: int, k: nat)
    requires p.Valid() && 0 < n && 2 * n <= p.intBits && k < n && Fits(n, false, x)
    ensures x >= 0 && Fits(p.intBits, true, x * Pow2(k))
  {
    hide Pow2;
    Pow2Monotone(k, n - 1);
    Pow2Add(n, n - 1);
    Pow2Monotone(n + (n - 1), p.intBits - 1);
    ProductBelow(x, Pow2(n), Pow2(k), Pow2(n - 1));
  }

  lemma ProductBelow(x: int, a: int, y: int, b: int)
    requires 0 <= x < a && 0 < y <= b
    ensures 0 <= x * y < a * b
  {
    assert x * y <= x * b;
    assert x * b < a * b;
  }

  lemma ShrCorrect(p: Platform, t: IntType, s: IntType, a: C, b: C, env: Env, x: int, y: int)
    requires p.Valid() && Holds(p, t, Run(p, a, env), x) && Holds(p, s, Run(p, b, env), y)
    ensures Agrees(p, t, ShrOn(p, t, x, y), Run(p, LowerShr(p, t, a, b), env))
  {
    hide Run, Wrap, Pow2, Fits;
    TypeFacts(p, t);
    MaskCorrect(p, t, s, b, env, y);
    RunShr(p, a, CMask(b, Bits(p, t) - 1), env);
    CommonSame(p, t, Run(p, a, env).t, Run(p, a, env).t);
    QuotientInRange(Bits(p, t), IsSigned(t), x, Pow2(y % Bits(p, t)));
  }

  lemma QuotientInRange(n: nat, signed: bool, x: int, m: int)
    requires n > 0 && Fits(n, signed, x) && m > 0
    ensures Fits(n, signed, x / m)
  {
    hide Pow2;
    Shrinks(x, m, x / m, x % m);
  }

  lemma Shrinks(x: int, m: int, q: int, r: int)
    requires m > 0 && x == m * q + r && 0 <= r < m
    ensures x >= 0 ==> 0 <= q <= x && r <= x
    ensures x < 0 ==> x <= q < 0
    ensures m >= 2 && x >= 0 ==> 2 * q <= x
  {
    Growth(m, q);
    Growth(m, q + 1);
    assert m * (q + 1) == m * q + m;
  }

  lemma Growth(m: int, k: int)
    requires m > 0
    ensures k >= 0 ==> m * k >= k
    ensures k <= 0 ==> m * k <= k
    ensures m >= 2 && k >= 0 ==> m * k >= 2 * k
  {
  }

  // ----- negation and complement -----

  /** `(T)-(U)x` for the unsigned counterpart `U` of a signed `T`. */
  lemma NegatedCast(p: Platform, t: IntType, a: C, env: Env, x: int)
    requires p.Valid() && IsSigned(t) && Holds(p, t, Run(p, a, env), x)
    ensures Run(p, CCast(CTypeOf(p, t), CNeg(CCast(Unsigned(p, t), a))), env) == Ok(CTypeOf(p, t), Wrapped(p, t, -x))
    ensures InRange(p, t, Wrapped(p, t, -x))
  {
    hide Run, Congruent, Wrap, Pow2, MinOf, MaxOf, Fits, Convert;
    TypeFacts(p, t);
    var n := Bits(p, t);
    var u := Unsigned(p, t);
    CongruentSelf(x, n);
    ConvertCongruent(u, x, x, n);
    var x1 := Convert(u, x);
    ConvertFits(u, x);
    CongruentNeg(x1, x, n);
    RunCast(p, u, a, env);
    RunNeg(p, CCast(u, a), env);
    RunCast(p, CTypeOf(p, t), CNeg(CCast(u, a)), env);
    var w := Promote(p, u);
    if w.signed {
      SmallNegation(p, n, x1);
      ConvertFinal(p, t, -x1, -x);
    } else {
      ArithmeticUnsigned(w, -x1, -x, n);
      ConvertFinal(p, t, Arithmetic(w, -x1).v, -x);
    }
  }

  lemma SmallNegation(p: Platform, n: nat, x: int)
    requires p.Valid() && 0 < n < p.intBits && Fits(n, false, x)
    ensures Fits(p.intBits, true, -x)
  {
    Pow2Monotone(n, p.intBits - 1);
  }

  lemma NegCorrect(p: Platform, checked: bool, t: IntType, a: C, env: Env, x: int)
    requires p.Valid() && IsSigned(t) && Holds(p, t, Run(p, a, env), x)
    ensures Agrees(p, t, Settle(p, t, checked, -x), Run(p, LowerNeg(p, checked, t, a), env))
  {
    hide Run, Wrap, Pow2, MinOf, MaxOf, Fits, Convert;
    TypeFacts(p, t);
    NegatedCast(p, t, a, env, x);
    if checked {
      ZeroFits(p, t);
      var zero := CConst(CInt(p), 0);
      RunLeaf(p, CInt(p), 0, 0, env);
      RunCast(p, CTypeOf(p, t), zero, env);
      RunOverflow(p, CSub, CTypeOf(p, t), CCast(CTypeOf(p, t), zero), a, env);
      if InRange(p, t, -x) {
        WrapId(Bits(p, t), IsSigned(t), -x);
      }
    }
  }

  lemma ZeroFits(p: Platform, t: IntType)
    requires p.Valid()
    ensures Convert(CTypeOf(p, t), 0) == 0 && InRange(p, t, 0)
  {
    TypeFacts(p, t);
    WrapId(Bits(p, t), IsSigned(t), 0);
  }

  lemma BitNotCorrect(p: Platform, t: IntType, a: C, env: Env, x: int)
    requires p.Valid() && Holds(p, t, Run(p, a, env), x)
    ensures Agrees(p, t, Value(Wrapped(p, t, -x - 1)), Run(p, LowerBitNot(p, t, a), env))
  {
    if Promote(p, CTypeOf(p, t)).signed {
      BitNotSigned(p, t, a, env, x);
    } else {
      BitNotUnsigned(p, t, a, env, x);
    }
  }

  lemma BitNotSigned(p: Platform, t: IntType, a: C, env: Env, x: int)
    requires p.Valid() && Holds(p, t, Run(p, a, env), x) && Promote(p, CTypeOf(p, t)).signed
    ensures Agrees(p, t, Value(Wrapped(p, t, -x - 1)), Run(p, LowerBitNot(p, t, a), env))
  {
    hide Run, Congruent, Wrap, Pow2, MinOf, MaxOf, Fits, Convert;
    TypeFacts(p, t);
    PromoteKeeps(p, t, x);
    var n := Bits(p, t);
    var w := Promote(p, CTypeOf(p, t));
    CongruentSelf(-x - 1, n);
    RunCompl(p, a, env);
    RunCast(p, CTypeOf(p, t), CCompl(a), env);
    ComplementFits(w.bits, x);
    ConvertFinal(p, t, -x - 1, -x - 1);
    if !IsSubint(t) {
      WrapId(n, true, -x - 1);
    }
  }

  lemma BitNotUnsigned(p: Platform, t: IntType, a: C, env: Env, x: int)
    requires p.Valid() && Holds(p, t, Run(p, a, env), x) && !Promote(p, CTypeOf(p, t)).signed
    ensures Agrees(p, t, Value(Wrapped(p, t, -x - 1)), Run(p, LowerBitNot(p, t, a), env))
  {
    hide Run, Congruent, Wrap, Pow2, MinOf, MaxOf, Fits, Convert;
    TypeFacts(p, t);
    PromoteKeeps(p, t, x);
    var n := Bits(p, t);
    var w := Promote(p, CTypeOf(p, t));
    RunCompl(p, a, env);
    RunCast(p, CTypeOf(p, t), CCompl(a), env);
    CongruentSelf(-x - 1, n);
    ArithmeticUnsigned(w, -x - 1, -x - 1, n);
    var v := Arithmetic(w, -x - 1).v;
    ConvertFinal(p, t, v, -x - 1);
    if !IsSubint(t) {
      WrapSame(n, false, v, -x - 1);
      WrapId(n, false, v);
    }
  }

  lemma ComplementFits(n: nat, x: int)
    requires n > 0 && Fits(n, true, x)
    ensures Fits(n, true, -x - 1)
  {
  }

  // ----- division -----

  /** The temporaries of a division, with the values they were given. */
  predicate Loaded(p: Platform, t: IntType, env: Env, c: nat, x: int, y: int)
    requires p.Valid()
  {
    && c in env && c + 1 in env
    && env[c] == Typed(CTypeOf(p, t), x) && env[c + 1] == Typed(CTypeOf(p, t), y)
    && InRange(p, t, x) && InRange(p, t, y)
  }

  lemma QuotientFits(p: Platform, t: IntType, x: int, y: int)
    requires p.Valid() && InRange(p, t, x) && InRange(p, t, y) && y != 0
    ensures y == -1 ==> Quotient(x, y) == -x && Remainder(x, y) == 0
    ensures y != -1 || !IsSigned(t) || x != MinOf(Bits(p, t), true) ==> InRange(p, t, Quotient(x, y))
    ensures y == -1 && IsSigned(t) && x == MinOf(Bits(p, t), true) ==> !InRange(p, t, Quotient(x, y))
    ensures InRange(p, t, Remainder(x, y))
  {
    hide Pow2, Quotient, Remainder, MinOf, MaxOf, Fits;
    TypeFacts(p, t);
    var q, r := QuotientParts(x, y);
    QuotientRange(Bits(p, t), IsSigned(t), x, y, q, r);
  }

  /** Quotient and remainder from those of the absolute values. */
  lemma QuotientParts(x: int, y: int) returns (q: int, r: int)
    requires y != 0
    ensures 0 <= q <= Abs(x) && 0 <= r <= Abs(x) && r < Abs(y)
    ensures Abs(y) >= 2 ==> 2 * q <= Abs(x)
    ensures Abs(y) == 1 ==> q == Abs(x) && r == 0
    ensures Quotient(x, y) == if (x < 0) == (y < 0) then q else -q
    ensures Remainder(x, y) == if x < 0 then -r else r
  {
    hide NatDiv, NatMod;
    var a, b := Abs(x), Abs(y);
    q, r := NatDiv(a, b), NatMod(a, b);
    DivisionParts(a, b);
    Shrinks(a, b, q, r);
  }

  lemma DivisionParts(a: nat, b: nat)
    requires b > 0
    ensures a == b * NatDiv(a, b) + NatMod(a, b) && 0 <= NatMod(a, b) < b
    ensures b == 1 ==> NatDiv(a, b) == a && NatMod(a, b) == 0
  {
  }

  /** The range of quotient and remainder, from their absolute values. */
  lemma QuotientRange(n: nat, signed: bool, x: int, y: int, q: int, r: int)
    requires n > 0 && Fits(n, signed, x) && Fits(n, signed, y) && y != 0
    requires 0 <= q <= Abs(x) && 0 <= r <= Abs(x) && r < Abs(y)
    requires (Abs(y) >= 2 ==> 2 * q <= Abs(x)) && (Abs(y) == 1 ==> q == Abs(x))
    ensures var v := if (x < 0) == (y < 0) then q else -q;
            && (y != -1 || !signed || x != MinOf(n, true) ==> Fits(n, signed, v))
            && (y == -1 && signed && x == MinOf(n, true) ==> !Fits(n, signed, v))
    ensures Fits(n, signed, if x < 0 then -r else r)
  {
    hide Pow2;
  }

  /** The tests of a divisor against 0 and -1, and of a dividend against the
      minimum. */
  lemma DivisorTests(p: Platform, t: IntType, env: Env, c: nat, x: int, y: int)
    requires p.Valid() && Loaded(p, t, env, c, x, y)
    ensures Run(p, CBin(CEq, CTemp(c + 1), CConst(CInt(p), 0)), env) == Truth(p, y == 0)
    ensures IsSigned(t) ==> Run(p, IsMinusOne(p, CTemp(c + 1)), env) == Truth(p, y == -1)
    ensures Run(p, CBin(CEq, CTemp(c), MinMacro(p, t)), env) == Truth(p, x == MinOf(Bits(p, t), IsSigned(t)))
  {
    hide Run, Wrap, Pow2, Fits, MinOf, MaxOf, Convert, Common;
    RunLeaf(p, CInt(p), 0, c, env);
    RunLeaf(p, CInt(p), -1, c + 1, env);
    RunBin(p, CEq, CTemp(c + 1), CConst(CInt(p), 0), env);
    RunBin(p, CEq, CTemp(c + 1), CConst(CInt(p), -1), env);
    CommonWithInt(p, t, y, 0);
    if IsSigned(t) {
      CommonWithInt(p, t, y, -1);
    }
    var q, low := Promote(p, CTypeOf(p, t)), MinOf(Bits(p, t), IsSigned(t));
    RunLeaf(p, q, low, c, env);
    RunBin(p, CEq, CTemp(c), MinMacro(p, t), env);
    CommonSame(p, t, CTypeOf(p, t), q);
    PromoteKeeps(p, t, x);
    MinInRange(p, t);
    PromoteKeeps(p, t, low);
  }

  lemma MinInRange(p: Platform, t: IntType)
    requires p.Valid()
    ensures InRange(p, t, MinOf(Bits(p, t), IsSigned(t))) && InRange(p, t, MaxOf(Bits(p, t), IsSigned(t)))
  {
    TypeFacts(p, t);
  }

  /** `/` and `%` of operands whose quotient fits. */
  lemma PlainDivision(p: Platform, t: IntType, a: C, b: C, env: Env, x: int, y: int)
    requires p.Valid() && Holds(p, t, Run(p, a, env), x) && Holds(p, t, Run(p, b, env), y) && y != 0
    requires y != -1 || !IsSigned(t) || x != MinOf(Bits(p, t), true)
    ensures Run(p, CBin(CDiv, a, b), env) == Ok(Promote(p, CTypeOf(p, t)), Quotient(x, y))
    ensures Run(p, CBin(CRem, a, b), env) == Ok(Promote(p, CTypeOf(p, t)), Remainder(x, y))
    ensures InRange(p, t, Quotient(x, y)) && InRange(p, t, Remainder(x, y))
  {
    hide Run, Wrap, Pow2, Quotient, Remainder, Fits, MinOf, MaxOf, Convert, Common;
    var r, s := Run(p, a, env), Run(p, b, env);
    CommonSame(p, t, r.t, s.t);
    PromoteKeeps(p, t, x);
    PromoteKeeps(p, t, y);
    QuotientFits(p, t, x, y);
    RunBin(p, CDiv, a, b, env);
    RunBin(p, CRem, a, b, env);
    ArithmeticFits(p, t, Quotient(x, y));
    ArithmeticFits(p, t, Remainder(x, y));
  }

  lemma ArithmeticFits(p: Platform, t: IntType, v: int)
    requires p.Valid() && InRange(p, t, v)
    ensures var q := Promote(p, CTypeOf(p, t)); Arithmetic(q, v) == Ok(q, v)
  {
    hide Wrap, Pow2, Fits;
    PromoteKeeps(p, t, v);
  }

  lemma DivBodyCorrect(p: Platform, checked: bool, t: IntType, env: Env, c: nat, x: int, y: int)
    requires p.Valid() && Loaded(p, t, env, c, x, y) && y != 0
    ensures Agrees(p, t, Settle(p, t, checked, Quotient(x, y)),
                   Run(p, DivBody(p, checked, t, CTemp(c), CTemp(c + 1)), env))
  {
    hide Run, Wrap, Pow2, Quotient, Remainder, Fits, Common, MinOf, MaxOf, Convert, Promote;
    TypeFacts(p, t);
    QuotientFits(p, t, x, y);
    DivisorTests(p, t, env, c, x, y);
    UnsignedNotMinusOne(p, t, y);
    var a, b := CTemp(c), CTemp(c + 1);
    var ct := CTypeOf(p, t);
    RunLeaf(p, ct, x, c, env);
    RunLeaf(p, ct, y, c + 1, env);
    var test := IsMinusOne(p, b);
    var neg, quot := CNeg(CCast(Unsigned(p, t), a)), CBin(CDiv, a, b);
    RunTernary(p, test, ct, neg, quot, env);
    RunAnd(p, test, CBin(CEq, a, MinMacro(p, t)), env);
    RunAbortIf(p, CAnd(test, CBin(CEq, a, MinMacro(p, t))), quot, env);
    if y != -1 || !IsSigned(t) || x != MinOf(Bits(p, t), true) {
      PlainDivision(p, t, a, b, env, x, y);
      SettleFits(p, t, checked, Quotient(x, y));
      TernaryKeeps(p, t, Quotient(x, y));
      RunCast(p, ct, quot, env);
    }
    if y == -1 && IsSigned(t) {
      NegatedCast(p, t, a, env, x);
      TernaryKeeps(p, t, Wrapped(p, t, -x));
    }
  }

  lemma UnsignedNotMinusOne(p: Platform, t: IntType, y: int)
    requires p.Valid() && InRange(p, t, y)
    ensures !IsSigned(t) ==> y >= 0
  {
    TypeFacts(p, t);
  }

  /** A ternary of two branches of type `t` has the promoted type. */
  lemma TernaryKeeps(p: Platform, t: IntType, v: int)
    requires p.Valid() && InRange(p, t, v)
    ensures Common(p, CTypeOf(p, t), CTypeOf(p, t)) == Promote(p, CTypeOf(p, t))
    ensures Convert(Promote(p, CTypeOf(p, t)), v) == v && Convert(CTypeOf(p, t), v) == v
  {
    PromoteKeeps(p, t, v);
  }

  lemma RemBodyCorrect(p: Platform, t: IntType, env: Env, c: nat, x: int, y: int)
    requires p.Valid() && Loaded(p, t, env, c, x, y) && y != 0
    ensures Agrees(p, t, Value(Remainder(x, y)), Run(p, RemBody(p, t, CTemp(c), CTemp(c + 1)), env))
  {
    hide Run, Wrap, Pow2, Quotient, Remainder, Fits, Common, MinOf, MaxOf, Convert, Promote;
    TypeFacts(p, t);
    QuotientFits(p, t, x, y);
    DivisorTests(p, t, env, c, x, y);
    UnsignedNotMinusOne(p, t, y);
    ZeroFits(p, t);
    var a, b := CTemp(c), CTemp(c + 1);
    var ct := CTypeOf(p, t);
    RunLeaf(p, ct, x, c, env);
    RunLeaf(p, ct, y, c + 1, env);
    RunLeaf(p, CInt(p), 0, c, env);
    var zero, rem := CConst(CInt(p), 0), CBin(CRem, a, b);
    RunTernary(p, IsMinusOne(p, b), ct, zero, rem, env);
    RunCast(p, ct, zero, env);
    RunCast(p, ct, rem, env);
    if y == -1 {
      TernaryKeeps(p, t, 0);
    } else {
      PlainDivision(p, t, a, b, env, x, y);
      TernaryKeeps(p, t, Remainder(x, y));
    }
  }

  /** Operands into temporaries, the zero test, and then the body. */
  lemma DivisionRun(p: Platform, t: IntType, guarded: bool, c: nat, a: C, b: C, body: C, bare: C, env: Env, x: int, y: int)
    requires p.Valid() && (guarded || IsSigned(t))
    requires Holds(p, t, Run(p, a, env), x)
    requires Holds(p, t, Run(p, b, env[c := Typed(CTypeOf(p, t), x)]), y)
    ensures var env2 := env[c := Typed(CTypeOf(p, t), x)][c + 1 := Typed(CTypeOf(p, t), y)];
            && Loaded(p, t, env2, c, x, y)
            && Run(p, LowerDivision(p, t, guarded, c, a, b, body, bare), env) ==
               if guarded && y == 0 then Aborted else Run(p, body, env2)
  {
    hide Run, Wrap, Pow2, Fits, Convert;
    PromoteKeeps(p, t, x);
    PromoteKeeps(p, t, y);
    var ct := CTypeOf(p, t);
    var env1 := env[c := Typed(ct, x)];
    var env2 := env1[c + 1 := Typed(ct, y)];
    DivisorTests(p, t, env2, c, x, y);
    var rest := AbortIfZero(p, guarded, CTemp(c + 1), body);
    RunInit(p, c, ct, a, CInit(c + 1, ct, b, rest), env);
    RunInit(p, c + 1, ct, b, rest, env1);
    RunAbortIf(p, CBin(CEq, CTemp(c + 1), CConst(CInt(p), 0)), body, env2);
  }

  // ----- casts -----

  /** A limit 2^k - 1 converted to an unsigned type. */
  lemma LimitConverted(n: nat, k: nat)
    requires n > 0
    ensures Wrap(n, false, Pow2(k) - 1) == Pow2(if k < n then k else n) - 1
  {
    if k < n {
      Pow2Monotone(k, n);
      WrapId(n, false, Pow2(k) - 1);
    } else {
      Pow2Add(k - n, n);
      Multiply(Pow2(k - n), Pow2(n));
      CongruentBy(Pow2(n) - 1, Pow2(k) - 1, n, 1 - Pow2(k - n));
      WrapUnique(n, false, Pow2(k) - 1, Pow2(n) - 1);
    }
  }

  lemma Multiply(a: int, b: int)
    ensures (1 - a) * b == b - a * b
  {
  }

  lemma CompareSigned(p: Platform, from: IntType, to: IntType, v: int)
    requires p.Valid() && IsSigned(from) && IsSigned(to) && InRange(p, from, v)
    ensures var q := Common(p, CTypeOf(p, from), Promote(p, CTypeOf(p, to)));
            && Convert(q, v) == v
            && Convert(q, MinOf(Bits(p, to), true)) == MinOf(Bits(p, to), true)
            && Convert(q, MaxOf(Bits(p, to), true)) == MaxOf(Bits(p, to), true)
  {
    hide Wrap, Pow2;
    TypeFacts(p, from);
    TypeFacts(p, to);
    var q := Common(p, CTypeOf(p, from), Promote(p, CTypeOf(p, to)));
    MinInRange(p, to);
    FitsWider(Bits(p, from), true, v, q.bits, q.signed);
    WrapId(q.bits, q.signed, v);
    FitsWider(Bits(p, to), true, MinOf(Bits(p, to), true), q.bits, q.signed);
    WrapId(q.bits, q.signed, MinOf(Bits(p, to), true));
    FitsWider(Bits(p, to), true, MaxOf(Bits(p, to), true), q.bits, q.signed);
    WrapId(q.bits, q.signed, MaxOf(Bits(p, to), true));
  }

  /** Comparing two values of an unsigned type of `n` bits. */
  lemma CompareUnsigned(p: Platform, n: nat, v: int)
    requires p.Valid() && n > 0 && Fits(n, false, v)
    ensures Convert(Common(p, CType(n, false), CType(n, false)), v) == v
  {
    var q := Common(p, CType(n, false), CType(n, false));
    FitsWider(n, false, v, q.bits, q.signed);
    WrapId(q.bits, q.signed, v);
  }

  lemma NarrowedCorrect(p: Platform, from: IntType, to: IntType, c: nat, env: Env, v: int)
    requires p.Valid() && c in env && env[c] == Typed(CTypeOf(p, from), v) && InRange(p, from, v)
    ensures Run(p, Narrowed(p, from, to, CTemp(c)), env) == Truth(p, !InRange(p, to, v))
  {
    TypeFacts(p, from);
    TypeFacts(p, to);
    if IsSigned(from) && IsSigned(to) {
      NarrowedSigned(p, from, to, c, env, v);
    } else {
      NarrowedUpper(p, from, to, c, env, v);
    }
  }

  lemma NarrowedSigned(p: Platform, from: IntType, to: IntType, c: nat, env: Env, v: int)
    requires p.Valid() && c in env && env[c] == Typed(CTypeOf(p, from), v) && InRange(p, from, v)
    requires IsSigned(from) && IsSigned(to)
    ensures Run(p, Narrowed(p, from, to, CTemp(c)), env) == Truth(p, !InRange(p, to, v))
  {
    hide Run, Wrap, Pow2, MinOf, MaxOf, Common, Convert;
    CompareSigned(p, from, to, v);
    var lo, hi := MinMacro(p, to), MaxMacro(p, to);
    RunLeaf(p, lo.t, lo.v, c, env);
    RunLeaf(p, hi.t, hi.v, c, env);
    RunBin(p, CLt, CTemp(c), lo, env);
    RunBin(p, CGt, CTemp(c), hi, env);
    RunOr(p, CBin(CLt, CTemp(c), lo), CBin(CGt, CTemp(c), hi), env);
  }

  /** The upper bound is compared in the unsigned type of the source's width. */
  lemma NarrowedUpper(p: Platform, from: IntType, to: IntType, c: nat, env: Env, v: int)
    requires p.Valid() && c in env && env[c] == Typed(CTypeOf(p, from), v) && InRange(p, from, v)
    requires !IsSigned(from) || !IsSigned(to)
    ensures Run(p, Narrowed(p, from, to, CTemp(c)), env) == Truth(p, !InRange(p, to, v))
  {
    hide Run, Wrap, Pow2, Common, Convert, Fits;
    TypeFacts(p, from);
    TypeFacts(p, to);
    var n := Bits(p, from);
    var uf := CType(n, false);
    var hi := MaxMacro(p, to);
    RunLeaf(p, hi.t, hi.v, c, env);
    RunLeaf(p, CInt(p), 0, c, env);
    RunCast(p, uf, hi, env);
    RunCast(p, uf, CTemp(c), env);
    RunBin(p, CGt, CTemp(c), CCast(uf, hi), env);
    RunBin(p, CGt, CCast(uf, CTemp(c)), CCast(uf, hi), env);
    RunBin(p, CLt, CTemp(c), CConst(CInt(p), 0), env);
    RunOr(p, CBin(CLt, CTemp(c), CConst(CInt(p), 0)), CBin(CGt, CCast(uf, CTemp(c)), CCast(uf, hi)), env);
    var k := if IsSigned(to) then Bits(p, to) - 1 else Bits(p, to);
    var limit := Pow2(if k < n then k else n) - 1;
    UpperLimit(p, n, k);
    if IsSigned(from) {
      CommonWithInt(p, from, v, 0);
    } else {
      UnsignedNotMinusOne(p, from, v);
    }
    RangeIsUpper(p, to, v, k);
    if v >= 0 {
      UpperInRange(n, k, IsSigned(from), v);
      CompareUnsigned(p, n, v);
    }
  }

  lemma UpperLimit(p: Platform, n: nat, k: nat)
    requires p.Valid() && n > 0
    ensures var limit := Pow2(if k < n then k else n) - 1;
            Convert(CType(n, false), Pow2(k) - 1) == limit
            && Convert(Common(p, CType(n, false), CType(n, false)), limit) == limit
  {
    hide Wrap, Pow2, Common;
    LimitConverted(n, k);
    Pow2Monotone(if k < n then k else n, n);
    CompareUnsigned(p, n, Pow2(if k < n then k else n) - 1);
  }

  /** A type whose minimum is not below `v` is limited by its maximum alone. */
  lemma RangeIsUpper(p: Platform, to: IntType, v: int, k: nat)
    requires p.Valid() && k == if IsSigned(to) then Bits(p, to) - 1 else Bits(p, to)
    ensures v >= 0 ==> (InRange(p, to, v) <==> v <= Pow2(k) - 1)
    ensures v < 0 && !IsSigned(to) ==> !InRange(p, to, v)
    ensures MaxOf(Bits(p, to), IsSigned(to)) == Pow2(k) - 1
  {
    hide Pow2;
    TypeFacts(p, to);
  }

  lemma UpperInRange(n: nat, k: nat, signed: bool, v: int)
    requires n > 0 && v >= 0 && Fits(n, signed, v)
    ensures Fits(n, false, v)
    ensures v <= Pow2(k) - 1 <==> v <= Pow2(if k < n then k else n) - 1
    ensures Convert(CType(n, false), v) == v
  {
    hide Pow2, Wrap;
    Pow2Monotone(n - 1, n);
    if k >= n {
      Pow2Monotone(n, k);
    }
    WrapId(n, false, v);
  }

  lemma WideningFits(p: Platform, from: IntType, to: IntType, v: int)
    requires p.Valid() && CanWiden(from, to) && InRange(p, from, v)
    ensures InRange(p, to, v)
  {
    FitsWider(Bits(p, from), IsSigned(from), v, Bits(p, to), IsSigned(to));
  }

  lemma CastCorrect(p: Platform, checked: bool, from: IntType, to: IntType, c: nat, a: C, env: Env, v: int)
    requires p.Valid() && Holds(p, from, Run(p, a, env), v)
    ensures Agrees(p, to, Settle(p, to, checked, v), Run(p, LowerCast(p, checked, from, to, c, a), env))
  {
    hide Run, Wrap, Pow2, InRange, Narrowed, Convert, Promote;
    if checked && !CanWiden(from, to) {
      CheckedCast(p, from, to, c, a, env, v);
    } else {
      PlainCast(p, to, a, env, v);
      if checked {
        WideningFits(p, from, to, v);
      }
    }
  }

  lemma PlainCast(p: Platform, to: IntType, a: C, env: Env, v: int)
    requires p.Valid() && Run(p, a, env).Ok? && Run(p, a, env).v == v
    ensures Agrees(p, to, Value(Wrapped(p, to, v)), Run(p, CCast(CTypeOf(p, to), a), env))
  {
    hide Run, Wrap, Pow2, Fits, Convert;
    CongruentSelf(v, Bits(p, to));
    ConvertFinal(p, to, v, v);
    RunCast(p, CTypeOf(p, to), a, env);
  }

  lemma CheckedCast(p: Platform, from: IntType, to: IntType, c: nat, a: C, env: Env, v: int)
    requires p.Valid() && Holds(p, from, Run(p, a, env), v) && !CanWiden(from, to)
    ensures Agrees(p, to, Settle(p, to, true, v), Run(p, LowerCast(p, true, from, to, c, a), env))
  {
    hide Run, Wrap, Pow2, Fits, Narrowed, Convert, Promote, CanWiden;
    PromoteKeeps(p, from, v);
    var ft := CTypeOf(p, from);
    var env1 := env[c := Typed(ft, v)];
    var test, cast := Narrowed(p, from, to, CTemp(c)), CCast(CTypeOf(p, to), CTemp(c));
    NarrowedCorrect(p, from, to, c, env1, v);
    RunInit(p, c, ft, a, CAbortIf(test, cast), env);
    RunAbortIf(p, test, cast, env1);
    RunLeaf(p, ft, v, c, env1);
    PlainCast(p, to, CTemp(c), env1, v);
  }

  // ----- the theorem -----

  /** THE THEOREM. For both widths of `int` and every width of `size_t`, every
      well-typed expression and every value of its operands: unless an
      `unguarded` division met a zero divisor, the emitted C has no undefined
      behaviour; it aborts exactly when FC does and otherwise has FC's value. */
  lemma {:induction false} LoweringCorrect(p: Platform, e: Expr, c: nat, env: Env)
    requires p.Valid() && WellTyped(p, e)
    ensures Agrees(p, TypeOf(e), Eval(p, e), Run(p, Lower(p, e, c).0, env))
    decreases e, 1
  {
    hide Wrap, Pow2, Fits, Convert, Binary, Common, Promote, Settle, LowerBitNot, LowerCast;
    match e
    case Operand(t, v) =>
    case Arith(op, checked, l, r) =>
      LoweringCorrect(p, l, c, env);
      LoweringCorrect(p, r, Lower(p, l, c).1, env);
      ArithNode(p, e, c, env);
    case Div(_, _, l, r) => DivNode(p, e, c, env);
    case Rem(_, l, r) => RemNode(p, e, c, env);
    case Shl(l, r) =>
      LoweringCorrect(p, l, c, env);
      LoweringCorrect(p, r, Lower(p, l, c).1, env);
      ShiftNode(p, e, c, env);
    case Shr(l, r) =>
      LoweringCorrect(p, l, c, env);
      LoweringCorrect(p, r, Lower(p, l, c).1, env);
      ShiftNode(p, e, c, env);
    case Neg(checked, x) =>
      LoweringCorrect(p, x, c, env);
      NegNode(p, checked, x, c, env);
    case BitNot(x) =>
      LoweringCorrect(p, x, c, env);
      var a := Lower(p, x, c).0;
      if Eval(p, x).Value? {
        BitNotCorrect(p, TypeOf(x), a, env, Eval(p, x).v);
      } else if Eval(p, x).Aborts? {
        BitNotStops(p, TypeOf(x), a, env);
      }
    case Cast(checked, to, x) =>
      LoweringCorrect(p, x, c + 1, env);
      var a := Lower(p, x, c + 1).0;
      if Eval(p, x).Value? {
        CastCorrect(p, checked, TypeOf(x), to, c, a, env, Eval(p, x).v);
      } else if Eval(p, x).Aborts? {
        CastStops(p, checked, TypeOf(x), to, c, a, env);
      }
  }

  lemma BitNotStops(p: Platform, t: IntType, a: C, env: Env)
    requires Run(p, a, env).Aborted?
    ensures Run(p, LowerBitNot(p, t, a), env).Aborted?
  {
  }

  lemma CastStops(p: Platform, checked: bool, from: IntType, to: IntType, c: nat, a: C, env: Env)
    requires p.Valid() && Run(p, a, env).Aborted?
    ensures Run(p, LowerCast(p, checked, from, to, c, a), env).Aborted?
  {
    hide Run, Narrowed;
    var test, cast := Narrowed(p, from, to, CTemp(c)), CCast(CTypeOf(p, to), CTemp(c));
    RunInit(p, c, CTypeOf(p, from), a, CAbortIf(test, cast), env);
    RunCast(p, CTypeOf(p, to), a, env);
  }

  lemma NegNode(p: Platform, checked: bool, x: Expr, c: nat, env: Env)
    requires p.Valid() && IsSigned(TypeOf(x))
    requires Agrees(p, TypeOf(x), Eval(p, x), Run(p, Lower(p, x, c).0, env))
    ensures Agrees(p, TypeOf(x), Eval(p, Neg(checked, x)), Run(p, Lower(p, Neg(checked, x), c).0, env))
  {
    hide Run, Settle, InRange;
    var t := TypeOf(x);
    var a := Lower(p, x, c).0;
    if Eval(p, x).Value? {
      NegCorrect(p, checked, t, a, env, Eval(p, x).v);
    } else {
      RunCast(p, Unsigned(p, t), a, env);
      RunNeg(p, CCast(Unsigned(p, t), a), env);
      RunCast(p, CTypeOf(p, t), CNeg(CCast(Unsigned(p, t), a)), env);
      var zero := CConst(CInt(p), 0);
      RunLeaf(p, CInt(p), 0, 0, env);
      RunCast(p, CTypeOf(p, t), zero, env);
      RunOverflow(p, CSub, CTypeOf(p, t), CCast(CTypeOf(p, t), zero), a, env);
    }
  }

  /** Two operands of which one aborts, neither being unspecified. */
  predicate Stops(p: Platform, l: Expr, r: Expr, a: Result, b: Result)
    requires p.Valid()
  {
    && Both(Eval(p, l), Eval(p, r)).Aborts?
    && (a.Ok? || a.Aborted?) && (b.Ok? || b.Aborted?) && (a.Aborted? || b.Aborted?)
  }

  lemma OperandsStop(p: Platform, l: Expr, r: Expr, a: Result, b: Result)
    requires p.Valid()
    requires Agrees(p, TypeOf(l), Eval(p, l), a) && Agrees(p, TypeOf(r), Eval(p, r), b)
    requires !(Eval(p, l).Value? && Eval(p, r).Value?)
    ensures Both(Eval(p, l), Eval(p, r)).Unspecified? || Stops(p, l, r, a, b)
  {
    hide InRange;
  }

  lemma ArithStops(p: Platform, op: Op, checked: bool, t: IntType, a: C, b: C, env: Env)
    requires var x, y := Run(p, a, env), Run(p, b, env);
             (x.Ok? || x.Aborted?) && (y.Ok? || y.Aborted?) && (x.Aborted? || y.Aborted?)
    ensures Run(p, LowerArith(p, op, checked, t, a, b), env).Aborted?
  {
    hide Run;
    var u, w := Unsigned(p, t), CUnsigned(p);
    var o := COpOf(op);
    RunOverflow(p, o, CTypeOf(p, t), a, b, env);
    RunCast(p, u, a, env);
    RunCast(p, u, b, env);
    RunCast(p, w, CCast(u, a), env);
    RunCast(p, w, CCast(u, b), env);
    var s1 := CBin(o, CCast(w, CCast(u, a)), CCast(w, CCast(u, b)));
    var s2 := CBin(o, CCast(u, a), CCast(u, b));
    RunBin(p, o, a, b, env);
    RunBin(p, o, CCast(u, a), CCast(u, b), env);
    RunBin(p, o, CCast(w, CCast(u, a)), CCast(w, CCast(u, b)), env);
    RunCast(p, u, s1, env);
    RunCast(p, CTypeOf(p, t), s1, env);
    RunCast(p, CTypeOf(p, t), CCast(u, s1), env);
    RunCast(p, CTypeOf(p, t), s2, env);
  }

  lemma ShiftStops(p: Platform, t: IntType, a: C, b: C, env: Env)
    requires p.Valid()
    requires var x, y := Run(p, a, env), Run(p, b, env);
             (x.Ok? || x.Aborted?) && (y.Ok? || y.Aborted?) && (x.Aborted? || y.Aborted?)
    ensures Run(p, LowerShl(p, t, a, b), env).Aborted? && Run(p, LowerShr(p, t, a, b), env).Aborted?
  {
    hide Run;
    var u := Unsigned(p, t);
    var mask := CMask(b, Bits(p, t) - 1);
    RunCast(p, u, a, env);
    RunMask(p, b, Bits(p, t) - 1, env);
    RunShl(p, CCast(u, a), mask, env);
    RunCast(p, CTypeOf(p, t), CShl(CCast(u, a), mask), env);
    RunShr(p, a, mask, env);
  }

  lemma ArithNode(p: Platform, e: Expr, c: nat, env: Env)
    requires p.Valid() && e.Arith? && TypeOf(e.l) == TypeOf(e.r)
    requires var (a, c1) := Lower(p, e.l, c);
             && Agrees(p, TypeOf(e.l), Eval(p, e.l), Run(p, a, env))
             && Agrees(p, TypeOf(e.r), Eval(p, e.r), Run(p, Lower(p, e.r, c1).0, env))
    ensures Agrees(p, TypeOf(e), Eval(p, e), Run(p, Lower(p, e, c).0, env))
  {
    hide Run, InRange, ArithOn, LowerArith;
    var (a, c1) := Lower(p, e.l, c);
    var b := Lower(p, e.r, c1).0;
    if Eval(p, e.l).Value? && Eval(p, e.r).Value? {
      ArithCorrect(p, e.op, e.checked, TypeOf(e.l), a, b, env, Eval(p, e.l).v, Eval(p, e.r).v);
    } else {
      OperandsStop(p, e.l, e.r, Run(p, a, env), Run(p, b, env));
      if Stops(p, e.l, e.r, Run(p, a, env), Run(p, b, env)) {
        ArithStops(p, e.op, e.checked, TypeOf(e.l), a, b, env);
      }
    }
  }

  lemma ShiftNode(p: Platform, e: Expr, c: nat, env: Env)
    requires p.Valid() && (e.Shl? || e.Shr?)
    requires var (a, c1) := Lower(p, e.l, c);
             && Agrees(p, TypeOf(e.l), Eval(p, e.l), Run(p, a, env))
             && Agrees(p, TypeOf(e.r), Eval(p, e.r), Run(p, Lower(p, e.r, c1).0, env))
    ensures Agrees(p, TypeOf(e), Eval(p, e), Run(p, Lower(p, e, c).0, env))
  {
    hide Run, InRange, ShlOn, ShrOn, LowerShl, LowerShr;
    var (a, c1) := Lower(p, e.l, c);
    var b := Lower(p, e.r, c1).0;
    var t, s := TypeOf(e.l), TypeOf(e.r);
    if Eval(p, e.l).Value? && Eval(p, e.r).Value? {
      ShlCorrect(p, t, s, a, b, env, Eval(p, e.l).v, Eval(p, e.r).v);
      ShrCorrect(p, t, s, a, b, env, Eval(p, e.l).v, Eval(p, e.r).v);
    } else {
      OperandsStop(p, e.l, e.r, Run(p, a, env), Run(p, b, env));
      if Stops(p, e.l, e.r, Run(p, a, env), Run(p, b, env)) {
        ShiftStops(p, t, a, b, env);
      }
    }
  }

  lemma DivisionStops(p: Platform, t: IntType, guarded: bool, c: nat, op: COp, a: C, b: C, body: C, env: Env, x: int)
    requires var r, s := Run(p, a, env), Run(p, b, env);
             (r.Ok? || r.Aborted?) && (s.Ok? || s.Aborted?) && (r.Aborted? || s.Aborted?)
    requires Run(p, a, env).Ok? ==>
               Convert(CTypeOf(p, t), Run(p, a, env).v) == x && Run(p, b, env[c := Typed(CTypeOf(p, t), x)]).Aborted?
    ensures Run(p, LowerDivision(p, t, guarded, c, a, b, body, CBin(op, a, b)), env).Aborted?
  {
    hide Run;
    var ct := CTypeOf(p, t);
    var rest := AbortIfZero(p, guarded, CTemp(c + 1), body);
    RunBin(p, op, a, b, env);
    RunInit(p, c, ct, a, CInit(c + 1, ct, b, rest), env);
    RunInit(p, c + 1, ct, b, rest, env[c := Typed(ct, x)]);
  }

  lemma SettleFits(p: Platform, t: IntType, checked: bool, x: int)
    requires p.Valid() && InRange(p, t, x)
    ensures Settle(p, t, checked, x) == Value(x)
  {
    hide Wrap, Pow2;
    TypeFacts(p, t);
    WrapId(Bits(p, t), IsSigned(t), x);
  }

  /** What `/` and `%` share: the value the left operand is loaded with. */
  function LeftValue(p: Platform, l: Expr): int
    requires p.Valid()
  {
    if Eval(p, l).Value? then Eval(p, l).v else 0
  }

  lemma {:induction false} DivNode(p: Platform, e: Expr, c: nat, env: Env)
    requires p.Valid() && e.Div? && WellTyped(p, e)
    ensures Agrees(p, TypeOf(e), Eval(p, e), Run(p, Lower(p, e, c).0, env))
    decreases e, 0
  {
    hide Run, InRange, Settle, Quotient, LowerDivision, DivBody, CTypeOf, Convert;
    var t := TypeOf(e.l);
    var (a, c1) := Lower(p, e.l, c + 2);
    var b := Lower(p, e.r, c1).0;
    var x := LeftValue(p, e.l);
    var env1 := env[c := Typed(CTypeOf(p, t), x)];
    LoweringCorrect(p, e.l, c + 2, env);
    LoweringCorrect(p, e.r, c1, env);
    LoweringCorrect(p, e.r, c1, env1);
    var body, bare := DivBody(p, e.checked, t, CTemp(c), CTemp(c + 1)), CBin(CDiv, a, b);
    if Eval(p, e.l).Value? {
      PromoteKeeps(p, t, x);
    }
    if Eval(p, e.l).Value? && Eval(p, e.r).Value? {
      DivValues(p, t, e.checked, e.guarded, c, a, b, env, x, Eval(p, e.r).v);
    } else {
      OperandsStop(p, e.l, e.r, Run(p, a, env), Run(p, b, env));
      if Stops(p, e.l, e.r, Run(p, a, env), Run(p, b, env)) {
        DivisionStops(p, t, e.guarded, c, CDiv, a, b, body, env, x);
      }
    }
  }

  lemma DivValues(p: Platform, t: IntType, checked: bool, guarded: bool, c: nat, a: C, b: C, env: Env, x: int, y: int)
    requires p.Valid() && Holds(p, t, Run(p, a, env), x) && Holds(p, t, Run(p, b, env), y)
    requires Holds(p, t, Run(p, b, env[c := Typed(CTypeOf(p, t), x)]), y)
    ensures Agrees(p, t, DivOn(p, t, checked, guarded, x, y),
                   Run(p, LowerDivision(p, t, guarded, c, a, b, DivBody(p, checked, t, CTemp(c), CTemp(c + 1)),
                                        CBin(CDiv, a, b)), env))
  {
    hide Run, InRange, Settle, Quotient, DivBody;
    var body, bare := DivBody(p, checked, t, CTemp(c), CTemp(c + 1)), CBin(CDiv, a, b);
    if guarded || IsSigned(t) {
      DivisionRun(p, t, guarded, c, a, b, body, bare, env, x, y);
      if y != 0 {
        var ct := CTypeOf(p, t);
        DivBodyCorrect(p, checked, t, env[c := Typed(ct, x)][c + 1 := Typed(ct, y)], c, x, y);
      }
    } else if y != 0 {
      PlainDivision(p, t, a, b, env, x, y);
      SettleFits(p, t, checked, Quotient(x, y));
    }
  }

  lemma {:induction false} RemNode(p: Platform, e: Expr, c: nat, env: Env)
    requires p.Valid() && e.Rem? && WellTyped(p, e)
    ensures Agrees(p, TypeOf(e), Eval(p, e), Run(p, Lower(p, e, c).0, env))
    decreases e, 0
  {
    hide Run, InRange, Remainder, LowerDivision, RemBody, CTypeOf, Convert;
    var t := TypeOf(e.l);
    var (a, c1) := Lower(p, e.l, c + 2);
    var b := Lower(p, e.r, c1).0;
    var x := LeftValue(p, e.l);
    var env1 := env[c := Typed(CTypeOf(p, t), x)];
    LoweringCorrect(p, e.l, c + 2, env);
    LoweringCorrect(p, e.r, c1, env);
    LoweringCorrect(p, e.r, c1, env1);
    var body := RemBody(p, t, CTemp(c), CTemp(c + 1));
    if Eval(p, e.l).Value? {
      PromoteKeeps(p, t, x);
    }
    if Eval(p, e.l).Value? && Eval(p, e.r).Value? {
      RemValues(p, t, e.guarded, c, a, b, env, x, Eval(p, e.r).v);
    } else {
      OperandsStop(p, e.l, e.r, Run(p, a, env), Run(p, b, env));
      if Stops(p, e.l, e.r, Run(p, a, env), Run(p, b, env)) {
        DivisionStops(p, t, e.guarded, c, CRem, a, b, body, env, x);
      }
    }
  }

  lemma RemValues(p: Platform, t: IntType, guarded: bool, c: nat, a: C, b: C, env: Env, x: int, y: int)
    requires p.Valid() && Holds(p, t, Run(p, a, env), x) && Holds(p, t, Run(p, b, env), y)
    requires Holds(p, t, Run(p, b, env[c := Typed(CTypeOf(p, t), x)]), y)
    ensures Agrees(p, t, RemOn(guarded, x, y),
                   Run(p, LowerDivision(p, t, guarded, c, a, b, RemBody(p, t, CTemp(c), CTemp(c + 1)),
                                        CBin(CRem, a, b)), env))
  {
    hide Run, InRange, Remainder, RemBody;
    var body, bare := RemBody(p, t, CTemp(c), CTemp(c + 1)), CBin(CRem, a, b);
    if guarded || IsSigned(t) {
      DivisionRun(p, t, guarded, c, a, b, body, bare, env, x, y);
      if y != 0 {
        var ct := CTypeOf(p, t);
        RemBodyCorrect(p, t, env[c := Typed(ct, x)][c + 1 := Typed(ct, y)], c, x, y);
      }
    } else if y != 0 {
      PlainDivision(p, t, a, b, env, x, y);
    }
  }
}
