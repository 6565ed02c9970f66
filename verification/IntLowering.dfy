/** How the emitter writes integer operations in C. */
module IntLowering {
  import opened IntModular
  import opened IntSource
  import opened IntTarget

  function COpOf(op: Op): COp {
    match op
    case Add => CAdd
    case Sub => CSub
    case Mul => CMul
  }

  /** Limit macros have the promoted type of the type they limit (C11 section
      7.20.2 paragraph 2). */
  function MaxMacro(p: Platform, t: IntType): C
    requires p.Valid()
  {
    CConst(Promote(p, CTypeOf(p, t)), MaxOf(Bits(p, t), IsSigned(t)))
  }

  function MinMacro(p: Platform, t: IntType): C
    requires p.Valid()
  {
    CConst(Promote(p, CTypeOf(p, t)), MinOf(Bits(p, t), IsSigned(t)))
  }

  function LowerArith(p: Platform, op: Op, checked: bool, t: IntType, a: C, b: C): C {
    if checked then COverflow(COpOf(op), CTypeOf(p, t), a, b)
    else if IsSubint(t) then
      var sum := CBin(COpOf(op), CCast(CUnsigned(p), CCast(Unsigned(p, t), a)),
                                 CCast(CUnsigned(p), CCast(Unsigned(p, t), b)));
      CCast(CTypeOf(p, t), if IsSigned(t) then CCast(Unsigned(p, t), sum) else sum)
    else if IsSigned(t) then
      CCast(CTypeOf(p, t), CBin(COpOf(op), CCast(Unsigned(p, t), a), CCast(Unsigned(p, t), b)))
    else CBin(COpOf(op), a, b)
  }

  /** The count's mask: a constant, or computed from `sizeof(size_t)`. */
  function LowerShl(p: Platform, t: IntType, a: C, b: C): C
    requires p.Valid()
  {
    CCast(CTypeOf(p, t), CShl(CCast(Unsigned(p, t), a), CMask(b, Bits(p, t) - 1)))
  }

  function LowerShr(p: Platform, t: IntType, a: C, b: C): C
    requires p.Valid()
  {
    CShr(a, CMask(b, Bits(p, t) - 1))
  }

  function AbortIfZero(p: Platform, guarded: bool, y: C, body: C): C {
    if guarded then CAbortIf(CBin(CEq, y, CConst(CInt(p), 0)), body) else body
  }

  function IsMinusOne(p: Platform, y: C): C {
    CBin(CEq, y, CConst(CInt(p), -1))
  }

  /** Dividend and divisor in temporaries `c` and `c + 1`, unless neither a zero
      nor a minus-one divisor needs care. */
  function LowerDivision(p: Platform, t: IntType, guarded: bool, c: nat, a: C, b: C, body: C, bare: C): C {
    if guarded || IsSigned(t) then
      CInit(c, CTypeOf(p, t), a, CInit(c + 1, CTypeOf(p, t), b, AbortIfZero(p, guarded, CTemp(c + 1), body)))
    else bare
  }

  function DivBody(p: Platform, checked: bool, t: IntType, x: C, y: C): C
    requires p.Valid()
  {
    var ct := CTypeOf(p, t);
    if !IsSigned(t) then CBin(CDiv, x, y)
    else if checked then
      CAbortIf(CAnd(IsMinusOne(p, y), CBin(CEq, x, MinMacro(p, t))), CBin(CDiv, x, y))
    else
      CTernary(IsMinusOne(p, y), CCast(ct, CNeg(CCast(Unsigned(p, t), x))), CCast(ct, CBin(CDiv, x, y)))
  }

  function RemBody(p: Platform, t: IntType, x: C, y: C): C {
    var ct := CTypeOf(p, t);
    if !IsSigned(t) then CBin(CRem, x, y)
    else CTernary(IsMinusOne(p, y), CCast(ct, CConst(CInt(p), 0)), CCast(ct, CBin(CRem, x, y)))
  }

  function LowerNeg(p: Platform, checked: bool, t: IntType, a: C): C {
    if checked then COverflow(CSub, CTypeOf(p, t), CCast(CTypeOf(p, t), CConst(CInt(p), 0)), a)
    else CCast(CTypeOf(p, t), CNeg(CCast(Unsigned(p, t), a)))
  }

  function LowerBitNot(p: Platform, t: IntType, a: C): C {
    if IsSubint(t) then CCast(CTypeOf(p, t), CCompl(a)) else CCompl(a)
  }

  /** The test of a checked narrowing cast, on the value in temporary `x`. */
  function Narrowed(p: Platform, from: IntType, to: IntType, x: C): C
    requires p.Valid()
  {
    var uf := Unsigned(p, from);
    if IsSigned(from) && IsSigned(to) then
      COr(CBin(CLt, x, MinMacro(p, to)), CBin(CGt, x, MaxMacro(p, to)))
    else if IsSigned(from) then
      COr(CBin(CLt, x, CConst(CInt(p), 0)), CBin(CGt, CCast(uf, x), CCast(uf, MaxMacro(p, to))))
    else CBin(CGt, x, CCast(uf, MaxMacro(p, to)))
  }

  function LowerCast(p: Platform, checked: bool, from: IntType, to: IntType, c: nat, a: C): C
    requires p.Valid()
  {
    if checked && !CanWiden(from, to) then
      CInit(c, CTypeOf(p, from), a,
            CAbortIf(Narrowed(p, from, to, CTemp(c)), CCast(CTypeOf(p, to), CTemp(c))))
    else CCast(CTypeOf(p, to), a)
  }

  /** The whole expression; `c` is the next temporary. */
  function Lower(p: Platform, e: Expr, c: nat): (C, nat)
    requires p.Valid()
    decreases e
  {
    match e
    case Operand(t, v) => (CConst(CTypeOf(p, t), v), c)
    case Arith(op, checked, l, r) =>
      (var (a, c1) := Lower(p, l, c);
       var (b, c2) := Lower(p, r, c1);
       (LowerArith(p, op, checked, TypeOf(l), a, b), c2))
    case Div(checked, guarded, l, r) =>
      (var (a, c1) := Lower(p, l, c + 2);
       var (b, c2) := Lower(p, r, c1);
       var t := TypeOf(l);
       (LowerDivision(p, t, guarded, c, a, b, DivBody(p, checked, t, CTemp(c), CTemp(c + 1)), CBin(CDiv, a, b)), c2))
    case Rem(guarded, l, r) =>
      (var (a, c1) := Lower(p, l, c + 2);
       var (b, c2) := Lower(p, r, c1);
       var t := TypeOf(l);
       (LowerDivision(p, t, guarded, c, a, b, RemBody(p, t, CTemp(c), CTemp(c + 1)), CBin(CRem, a, b)), c2))
    case Shl(l, r) =>
      (var (a, c1) := Lower(p, l, c);
       var (b, c2) := Lower(p, r, c1);
       (LowerShl(p, TypeOf(l), a, b), c2))
    case Shr(l, r) =>
      (var (a, c1) := Lower(p, l, c);
       var (b, c2) := Lower(p, r, c1);
       (LowerShr(p, TypeOf(l), a, b), c2))
    case Neg(checked, x) =>
      (var (a, c1) := Lower(p, x, c);
       (LowerNeg(p, checked, TypeOf(x), a), c1))
    case BitNot(x) =>
      (var (a, c1) := Lower(p, x, c);
       (LowerBitNot(p, TypeOf(x), a), c1))
    case Cast(checked, to, x) =>
      (var (a, c1) := Lower(p, x, c + 1);
       (LowerCast(p, checked, TypeOf(x), to, c, a), c1))
  }
}
