/** The fused bounds checks: one unsigned compare, at a width chosen from the
    index type and the stored width of slice lengths, accepts exactly the indices
    in range. */
module IntBounds {
  import opened IntModular
  import opened IntSource
  import opened IntTarget
  import opened IntCorrect

  /** The stored width of a length, and the width of `fc_len_t`. */
  predicate ValidRepr(repr: nat) {
    repr == 16 || repr == 32 || repr == 64
  }

  function LenMax(repr: nat): int
    requires ValidRepr(repr)
  {
    MaxOf(repr, true)
  }

  function LenType(repr: nat): CType { CType(repr, true) }

  function Int64(): CType { CType(64, true) }

  /** Width at which a bounds compare runs. */
  function GuardBits(repr: nat, t: IntType): nat {
    if repr >= 64 then 64
    else
      var b := if t.I8? || t.U8? then 8
               else if t.I16? || t.U16? then 16
               else if t.I32? || t.U32? then 32
               else 64;
      if b > repr then b else repr
  }

  function At(bits: nat, e: C): C {
    CCast(CType(bits, false), e)
  }

  /** `s[idx]`: the offset added to the pointer, or an abort. The length is in
      temporary `len`. */
  function IndexCheck(repr: nat, t: IntType, idx: C, c: nat, len: nat): C {
    var g := GuardBits(repr, t);
    CInit(c, Int64(), CCast(Int64(), idx),
          CAbortIf(CBin(CGe, At(g, CTemp(c)), At(g, CTemp(len))), CTemp(c)))
  }

  /** A bound of `s[lo..hi]`: its type and expression, when it is written. */
  datatype Bound = Absent | Written(t: IntType, e: C)

  function BoundBits(repr: nat, b: Bound): nat {
    if b.Absent? then (if repr >= 64 then 64 else repr) else GuardBits(repr, b.t)
  }

  function SliceBits(repr: nat, lo: Bound, hi: Bound): nat {
    var a, b := BoundBits(repr, lo), BoundBits(repr, hi);
    if a > b then a else b
  }

  function LoExpr(p: Platform, lo: Bound): C {
    if lo.Absent? then CConst(CInt(p), 0) else CCast(Int64(), lo.e)
  }

  function HiExpr(hi: Bound, len: nat): C {
    if hi.Absent? then CTemp(len) else CCast(Int64(), hi.e)
  }

  /** `s[lo..hi]`: `body` builds the subslice from temporaries `c` and `c + 1`. */
  function SubsliceCheck(p: Platform, repr: nat, lo: Bound, hi: Bound, c: nat, len: nat, body: C): C {
    var g := SliceBits(repr, lo, hi);
    CInit(c, Int64(), LoExpr(p, lo), CInit(c + 1, Int64(), HiExpr(hi, len),
      CAbortIf(COr(CBin(CGt, At(g, CTemp(c)), At(g, CTemp(c + 1))),
                   CBin(CGt, At(g, CTemp(c + 1)), At(g, CTemp(len)))), body)))
  }

  /** The stored length of the subslice. */
  function SubsliceLen(repr: nat, c: nat): C {
    CCast(LenType(repr), CBin(CSub, CTemp(c + 1), CTemp(c)))
  }

  /** A slice from raw parts: the stored length of a run-time `len` of type i64.
      `nonneg`: proven non-negative; `literal`: a constant, judged statically. */
  function RawLength(p: Platform, repr: nat, nonneg: bool, literal: bool, len: C, c: nat): C
    requires ValidRepr(repr)
  {
    var store := CCast(LenType(repr), CTemp(c));
    var cap := if repr < 64 && !literal
               then CAbortIf(CBin(CGt, CTemp(c), CConst(Promote(p, LenType(repr)), LenMax(repr))), store)
               else store;
    CInit(c, Int64(), len, if nonneg then cap else CAbortIf(CBin(CLt, CTemp(c), CConst(CInt(p), 0)), cap))
  }

  // ----- the compare -----

  lemma GuardFacts(p: Platform, repr: nat, t: IntType)
    requires p.Valid() && ValidRepr(repr)
    ensures var g := GuardBits(repr, t); repr <= g && Bits(p, t) <= g <= 64
  {
  }

  /** A value of a type of at most `g` bits, widened to 64 and cut to `g`: itself
      when non-negative, above every length when negative. */
  lemma Truncated(p: Platform, t: IntType, v: int, g: nat, repr: nat)
    requires p.Valid() && ValidRepr(repr) && InRange(p, t, v) && repr <= g && Bits(p, t) <= g <= 64
    ensures var x := Convert(CType(g, false), Convert(Int64(), v));
            && Fits(g, false, x)
            && (v >= 0 ==> x == v)
            && (v < 0 ==> x > LenMax(repr))
  {
    hide Wrap, Pow2, Congruent;
    TypeFacts(p, t);
    var u := CType(g, false);
    CongruentSelf(v, g);
    ConvertCongruent(Int64(), v, v, g);
    ConvertCongruent(u, Convert(Int64(), v), v, g);
    var x := Convert(u, Convert(Int64(), v));
    ConvertFits(u, Convert(Int64(), v));
    assert Congruent(x, v, g);
    Residue(g, Bits(p, t), IsSigned(t), v, x);
    if v < 0 {
      UnsignedNotMinusOne(p, t, v);
      Pow2Monotone(repr - 1, g - 1);
    }
  }

  lemma Residue(g: nat, n: nat, signed: bool, v: int, x: int)
    requires 0 < n <= g && Fits(n, signed, v) && Fits(g, false, x) && Congruent(x, v, g)
    ensures v >= 0 ==> x == v
    ensures v < 0 ==> x == v + Pow2(g) && x >= Pow2(g - 1)
  {
    Pow2Monotone(n, g);
    Pow2Monotone(n - 1, g - 1);
    var k :| x == v + k * Pow2(g);
    if v >= 0 {
      NoMultiple(x - v, k, Pow2(g));
    } else {
      assert x - (v + Pow2(g)) == (k - 1) * Pow2(g);
      assert Pow2(g) == 2 * Pow2(g - 1);
      NoMultiple(x - (v + Pow2(g)), k - 1, Pow2(g));
    }
  }

  /** A stored length, at the compare's width. */
  lemma LengthKept(repr: nat, g: nat, len: int)
    requires ValidRepr(repr) && repr <= g && 0 <= len <= LenMax(repr)
    ensures Convert(CType(g, false), len) == len && Fits(g, false, len)
  {
    hide Wrap, Pow2;
    Pow2Monotone(repr - 1, g);
    WrapId(g, false, len);
  }

  /** Comparing two temporaries at an unsigned width. */
  lemma CompareAt(p: Platform, op: COp, g: nat, a: nat, b: nat, env: Env)
    requires p.Valid() && g > 0 && a in env && b in env
    requires op.CGt? || op.CGe?
    ensures var x, y := Convert(CType(g, false), env[a].v), Convert(CType(g, false), env[b].v);
            Run(p, CBin(op, At(g, CTemp(a)), At(g, CTemp(b))), env) ==
            Truth(p, if op.CGt? then x > y else x >= y)
  {
    hide Run, Wrap, Pow2, Fits, Common, Convert;
    var u := CType(g, false);
    RunLeaf(p, u, 0, a, env);
    RunLeaf(p, u, 0, b, env);
    RunCast(p, u, CTemp(a), env);
    RunCast(p, u, CTemp(b), env);
    RunBin(p, op, At(g, CTemp(a)), At(g, CTemp(b)), env);
    ConvertFits(u, env[a].v);
    ConvertFits(u, env[b].v);
    CompareUnsigned(p, g, Convert(u, env[a].v));
    CompareUnsigned(p, g, Convert(u, env[b].v));
  }

  /** The stored length is loaded in `len`. */
  predicate HasLength(repr: nat, env: Env, len: nat, n: int)
    requires ValidRepr(repr)
  {
    len in env && env[len] == Typed(LenType(repr), n) && 0 <= n <= LenMax(repr)
  }

  /** An index, of any type and any value, passes exactly when it is in range; the
      offset is then its value. */
  lemma IndexCheckExact(p: Platform, repr: nat, t: IntType, idx: C, c: nat, len: nat, env: Env, v: int, n: int)
    requires p.Valid() && ValidRepr(repr) && c != len && HasLength(repr, env, len, n)
    requires Holds(p, t, Run(p, idx, env), v)
    ensures Run(p, IndexCheck(repr, t, idx, c, len), env) == if 0 <= v < n then Ok(Int64(), v) else Aborted
  {
    hide Run, Wrap, Pow2, Fits, Convert, GuardBits, LenMax, Congruent;
    var g := GuardBits(repr, t);
    GuardFacts(p, repr, t);
    Truncated(p, t, v, g, repr);
    LengthKept(repr, g, n);
    var i := Convert(Int64(), v);
    var env1 := env[c := Typed(Int64(), i)];
    RunCast(p, Int64(), idx, env);
    ConvertTwice(v);
    var test := CBin(CGe, At(g, CTemp(c)), At(g, CTemp(len)));
    RunInit(p, c, Int64(), CCast(Int64(), idx), CAbortIf(test, CTemp(c)), env);
    RunAbortIf(p, test, CTemp(c), env1);
    CompareAt(p, CGe, g, c, len, env1);
    RunLeaf(p, Int64(), 0, c, env1);
    if 0 <= v < n {
      LengthInInt64(repr, v);
    }
  }

  lemma ConvertTwice(v: int)
    ensures Convert(Int64(), Convert(Int64(), v)) == Convert(Int64(), v)
  {
    hide Wrap, Pow2;
    ConvertFits(Int64(), v);
    WrapId(64, true, Convert(Int64(), v));
  }

  lemma LengthInInt64(repr: nat, v: int)
    requires ValidRepr(repr) && 0 <= v <= LenMax(repr)
    ensures Convert(Int64(), v) == v && Convert(LenType(repr), v) == v
  {
    hide Wrap, Pow2;
    Pow2Monotone(repr - 1, 63);
    WrapId(64, true, v);
    WrapId(repr, true, v);
  }

  // ----- subslices -----

  /** What a bound evaluates to: its value, 0, or the length. */
  predicate BoundHolds(p: Platform, b: Bound, env: Env, v: int, default: int)
    requires p.Valid()
  {
    if b.Absent? then v == default else Holds(p, b.t, Run(p, b.e, env), v)
  }

  lemma BoundLoaded(p: Platform, repr: nat, b: Bound, g: nat, v: int, default: int, env: Env)
    requires p.Valid() && ValidRepr(repr) && BoundBits(repr, b) <= g <= 64
    requires BoundHolds(p, b, env, v, default) && 0 <= default <= LenMax(repr)
    ensures var x := Convert(CType(g, false), Convert(Int64(), v));
            (v >= 0 ==> x == v) && (v < 0 ==> x > LenMax(repr))
  {
    hide Run, Wrap, Pow2, Fits, Convert;
    if b.Absent? {
      LengthInInt64(repr, v);
      LengthKept(repr, g, v);
    } else {
      GuardFacts(p, repr, b.t);
      Truncated(p, b.t, v, g, repr);
    }
  }

  lemma BoundBitsFacts(p: Platform, repr: nat, b: Bound)
    requires p.Valid() && ValidRepr(repr)
    ensures repr <= BoundBits(repr, b) <= 64
  {
  }

  /** A subslice is built exactly when its bounds are in order and in range; the
      temporaries then hold the bounds' values. */
  lemma SubsliceCheckExact(p: Platform, repr: nat, lo: Bound, hi: Bound, c: nat, len: nat, body: C, env: Env,
                           x: int, y: int, n: int)
    requires p.Valid() && ValidRepr(repr) && len != c && len != c + 1 && HasLength(repr, env, len, n)
    requires BoundHolds(p, lo, env, x, 0)
    requires BoundHolds(p, hi, env[c := Typed(Int64(), Convert(Int64(), x))], y, n)
    ensures Run(p, SubsliceCheck(p, repr, lo, hi, c, len, body), env) ==
            if 0 <= x <= y <= n then Run(p, body, env[c := Typed(Int64(), x)][c + 1 := Typed(Int64(), y)])
            else Aborted
  {
    hide Run, Wrap, Pow2, Fits, Convert, LenMax, BoundBits;
    var g := SliceBits(repr, lo, hi);
    BoundBitsFacts(p, repr, lo);
    BoundBitsFacts(p, repr, hi);
    var i64 := Int64();
    var x', y' := Convert(i64, x), Convert(i64, y);
    var env1 := env[c := Typed(i64, x')];
    var env2 := env1[c + 1 := Typed(i64, y')];
    LoLoaded(p, lo, env, x);
    HiLoaded(p, repr, hi, len, env1, y, n);
    BoundLoaded(p, repr, lo, g, x, 0, env);
    BoundLoaded(p, repr, hi, g, y, n, env1);
    LengthKept(repr, g, n);
    var below, above := CBin(CGt, At(g, CTemp(c)), At(g, CTemp(c + 1))), CBin(CGt, At(g, CTemp(c + 1)), At(g, CTemp(len)));
    RunInit(p, c, i64, LoExpr(p, lo), CInit(c + 1, i64, HiExpr(hi, len), CAbortIf(COr(below, above), body)), env);
    RunInit(p, c + 1, i64, HiExpr(hi, len), CAbortIf(COr(below, above), body), env1);
    RunAbortIf(p, COr(below, above), body, env2);
    RunOr(p, below, above, env2);
    CompareAt(p, CGt, g, c, c + 1, env2);
    CompareAt(p, CGt, g, c + 1, len, env2);
    if 0 <= x <= y <= n {
      LengthInInt64(repr, x);
      LengthInInt64(repr, y);
    }
  }

  lemma LoLoaded(p: Platform, lo: Bound, env: Env, x: int)
    requires p.Valid() && BoundHolds(p, lo, env, x, 0)
    ensures Run(p, LoExpr(p, lo), env).Ok?
    ensures Convert(Int64(), Run(p, LoExpr(p, lo), env).v) == Convert(Int64(), x)
  {
    hide Run, Wrap, Pow2, Fits, Convert;
    if lo.Absent? {
      RunLeaf(p, CInt(p), 0, 0, env);
    } else {
      RunCast(p, Int64(), lo.e, env);
      ConvertTwice(x);
    }
  }

  lemma HiLoaded(p: Platform, repr: nat, hi: Bound, len: nat, env: Env, y: int, n: int)
    requires p.Valid() && ValidRepr(repr) && HasLength(repr, env, len, n) && BoundHolds(p, hi, env, y, n)
    ensures Run(p, HiExpr(hi, len), env).Ok?
    ensures Convert(Int64(), Run(p, HiExpr(hi, len), env).v) == Convert(Int64(), y)
  {
    hide Run, Wrap, Pow2, Fits, Convert;
    if hi.Absent? {
      RunLeaf(p, Int64(), 0, len, env);
    } else {
      RunCast(p, Int64(), hi.e, env);
      ConvertTwice(y);
    }
  }

  /** The stored length of an accepted subslice is the number of its elements. */
  lemma SubsliceLenExact(p: Platform, repr: nat, c: nat, env: Env, x: int, y: int)
    requires p.Valid() && ValidRepr(repr) && 0 <= x <= y <= LenMax(repr)
    requires c in env && c + 1 in env && env[c] == Typed(Int64(), x) && env[c + 1] == Typed(Int64(), y)
    ensures Run(p, SubsliceLen(repr, c), env) == Ok(LenType(repr), y - x)
  {
    hide Run, Wrap, Pow2, Convert;
    var i64 := Int64();
    RunLeaf(p, i64, 0, c, env);
    RunLeaf(p, i64, 0, c + 1, env);
    RunBin(p, CSub, CTemp(c + 1), CTemp(c), env);
    RunCast(p, LenType(repr), CBin(CSub, CTemp(c + 1), CTemp(c)), env);
    LengthInInt64(repr, x);
    LengthInInt64(repr, y);
    LengthInInt64(repr, y - x);
    Pow2Monotone(repr - 1, 63);
  }

  // ----- raw parts -----

  lemma StoreLength(p: Platform, repr: nat, c: nat, env: Env, v: int)
    requires ValidRepr(repr) && c in env && env[c] == Typed(Int64(), v)
    ensures Run(p, CCast(LenType(repr), CTemp(c)), env) == Ok(LenType(repr), Convert(LenType(repr), v))
  {
    hide Wrap, Pow2;
  }

  /** A slice built from raw parts has a stored length in range, or the program
      aborts: exactly when the given length is out of range. */
  lemma RawLengthExact(p: Platform, repr: nat, nonneg: bool, literal: bool, len: C, c: nat, env: Env, v: int)
    requires p.Valid() && ValidRepr(repr) && Run(p, len, env) == Ok(Int64(), v) && InRange(p, I64, v)
    requires (nonneg ==> v >= 0) && (literal ==> v <= LenMax(repr))
    ensures Run(p, RawLength(p, repr, nonneg, literal, len, c), env) ==
            if 0 <= v <= LenMax(repr) then Ok(LenType(repr), v) else Aborted
  {
    hide Run, Wrap, Pow2, Convert, MaxOf, Common;
    var i64 := Int64();
    PromoteKeeps(p, I64, v);
    var env1 := env[c := Typed(i64, v)];
    var store := CCast(LenType(repr), CTemp(c));
    StoreLength(p, repr, c, env1, v);
    var max := CConst(Promote(p, LenType(repr)), LenMax(repr));
    var over, under := CBin(CGt, CTemp(c), max), CBin(CLt, CTemp(c), CConst(CInt(p), 0));
    var cap := if repr < 64 && !literal then CAbortIf(over, store) else store;
    RunInit(p, c, i64, len, if nonneg then cap else CAbortIf(under, cap), env);
    RunAbortIf(p, over, store, env1);
    RunAbortIf(p, under, cap, env1);
    RunLeaf(p, i64, 0, c, env1);
    RunLeaf(p, max.t, max.v, c, env1);
    RunLeaf(p, CInt(p), 0, c, env1);
    RunBin(p, CGt, CTemp(c), max, env1);
    RunBin(p, CLt, CTemp(c), CConst(CInt(p), 0), env1);
    CompareSigned(p, I64, if repr == 16 then I16 else if repr == 32 then I32 else I64, v);
    CommonWithInt(p, I64, v, 0);
    if repr == 64 {
      FitsLenMax(p, v);
    }
    if 0 <= v <= LenMax(repr) {
      LengthInInt64(repr, v);
    }
  }

  lemma FitsLenMax(p: Platform, v: int)
    requires p.Valid() && InRange(p, I64, v)
    ensures v <= LenMax(64)
  {
  }

  // ----- every access of a program -----

  /** A slice: where its elements lie in the memory it was made from. */
  datatype Slice = Slice(base: int, len: int)

  /** Operand values as the check reads them. */
  datatype Range = Range(lo: Bound, hi: Bound)

  predicate RangeValid(p: Platform, r: Range)
    requires p.Valid()
  {
    && (r.lo.Written? ==> r.lo.e.CConst? && r.lo.e.t == CTypeOf(p, r.lo.t) && InRange(p, r.lo.t, r.lo.e.v))
    && (r.hi.Written? ==> r.hi.e.CConst? && r.hi.e.t == CTypeOf(p, r.hi.t) && InRange(p, r.hi.t, r.hi.e.v))
  }

  /** One subslice operation, run as emitted. `None` when it aborts. */
  datatype Step = None | Made(s: Slice)

  function Subslice(p: Platform, repr: nat, s: Slice, r: Range): Step
    requires p.Valid() && ValidRepr(repr)
  {
    var env: Env := map[2 := Typed(LenType(repr), s.len)];
    var off := Run(p, SubsliceCheck(p, repr, r.lo, r.hi, 0, 2, CTemp(0)), env);
    var len := Run(p, SubsliceCheck(p, repr, r.lo, r.hi, 0, 2, SubsliceLen(repr, 0)), env);
    if off.Ok? && len.Ok? then Made(Slice(s.base + off.v, len.v)) else None
  }

  function SubsliceAll(p: Platform, repr: nat, s: Slice, rs: seq<Range>): Step
    requires p.Valid() && ValidRepr(repr)
    decreases |rs|
  {
    if rs == [] then Made(s)
    else
      match Subslice(p, repr, s, rs[0])
      case None => None
      case Made(s1) => SubsliceAll(p, repr, s1, rs[1..])
  }

  function BoundValue(b: Bound, default: int): int {
    if b.Written? && b.e.CConst? then b.e.v else default
  }

  lemma SubsliceExact(p: Platform, repr: nat, s: Slice, r: Range)
    requires p.Valid() && ValidRepr(repr) && RangeValid(p, r) && 0 <= s.len <= LenMax(repr)
    ensures var x, y := BoundValue(r.lo, 0), BoundValue(r.hi, s.len);
            Subslice(p, repr, s, r) == if 0 <= x <= y <= s.len then Made(Slice(s.base + x, y - x)) else None
  {
    hide Run, Wrap, Pow2, Convert, Fits, SubsliceLen, SubsliceCheck;
    var x, y := BoundValue(r.lo, 0), BoundValue(r.hi, s.len);
    var env: Env := map[2 := Typed(LenType(repr), s.len)];
    var env1 := env[0 := Typed(Int64(), Convert(Int64(), x))];
    if r.lo.Written? {
      RunLeaf(p, r.lo.e.t, r.lo.e.v, 0, env);
    }
    if r.hi.Written? {
      RunLeaf(p, r.hi.e.t, r.hi.e.v, 0, env1);
    }
    SubsliceCheckExact(p, repr, r.lo, r.hi, 0, 2, CTemp(0), env, x, y, s.len);
    SubsliceCheckExact(p, repr, r.lo, r.hi, 0, 2, SubsliceLen(repr, 0), env, x, y, s.len);
    if 0 <= x <= y <= s.len {
      var env2 := env[0 := Typed(Int64(), x)][1 := Typed(Int64(), y)];
      RunLeaf(p, Int64(), 0, 0, env2);
      SubsliceLenExact(p, repr, 0, env2, x, y);
    }
  }

  /** Any chain of subslices, and an index of any type and value into the last
      one: an access that happens is inside the memory of the first slice. */
  lemma {:induction false} AccessInside(p: Platform, repr: nat, s: Slice, rs: seq<Range>, t: IntType, v: int)
    requires p.Valid() && ValidRepr(repr) && 0 <= s.len <= LenMax(repr) && InRange(p, t, v)
    requires forall i :: 0 <= i < |rs| ==> RangeValid(p, rs[i])
    ensures var last := SubsliceAll(p, repr, s, rs);
            last.Made? ==>
              && 0 <= last.s.len <= LenMax(repr)
              && s.base <= last.s.base && last.s.base + last.s.len <= s.base + s.len
              && var at := Run(p, IndexCheck(repr, t, CConst(CTypeOf(p, t), v), 0, 1),
                               map[1 := Typed(LenType(repr), last.s.len)]);
                 (at.Ok? <==> 0 <= v < last.s.len)
                 && (at.Ok? ==> s.base <= last.s.base + at.v < s.base + s.len)
    decreases |rs|
  {
    hide Run, Wrap, Pow2, Convert, Fits, IndexCheck, Subslice;
    if rs == [] {
      var env: Env := map[1 := Typed(LenType(repr), s.len)];
      RunLeaf(p, CTypeOf(p, t), v, 0, env);
      IndexCheckExact(p, repr, t, CConst(CTypeOf(p, t), v), 0, 1, env, v, s.len);
    } else {
      SubsliceExact(p, repr, s, rs[0]);
      var next := Subslice(p, repr, s, rs[0]);
      if next.Made? {
        AccessInside(p, repr, next.s, rs[1..], t, v);
      }
    }
  }
}
