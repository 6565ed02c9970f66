/** The integer part of C11 as the emitter uses it, with conversions, promotions
    and undefined behaviour. Two choices the standard leaves to the
    implementation are GCC's and Clang's: an out-of-range conversion to a signed
    type wraps, and `>>` of a negative value fills with the sign. */
module IntTarget {
  import opened IntModular
  import opened IntSource

  datatype CType = CType(bits: nat, signed: bool) {
    predicate Valid() { bits > 0 }
  }

  function CInt(p: Platform): CType { CType(p.intBits, true) }

  function CUnsigned(p: Platform): CType { CType(p.intBits, false) }

  function CTypeOf(p: Platform, t: IntType): CType { CType(Bits(p, t), IsSigned(t)) }

  /** The unsigned type of the same width. */
  function Unsigned(p: Platform, t: IntType): CType { CType(Bits(p, t), false) }

  /** The integer promotions (C11 section 6.3.1.1 paragraph 2). Types of the
      width of `int` or wider keep their width and sign. */
  function Promote(p: Platform, t: CType): CType {
    if t.bits < p.intBits then CInt(p) else t
  }

  /** The usual arithmetic conversions (C11 section 6.3.1.8): rank orders types of
      different width as their width does. */
  function Common(p: Platform, a: CType, b: CType): CType {
    var x, y := Promote(p, a), Promote(p, b);
    if x.signed == y.signed then (if x.bits >= y.bits then x else y)
    else
      var (s, u) := if x.signed then (x, y) else (y, x);
      if u.bits >= s.bits then u else s
  }

  datatype COp = CAdd | CSub | CMul | CDiv | CRem | CLt | CGt | CGe | CEq

  datatype C =
    | CConst(t: CType, v: int)
    | CTemp(n: nat)
    | CCast(t: CType, e: C)
    | CBin(op: COp, a: C, b: C)
    | CNeg(e: C)
    | CCompl(e: C)
    | CShl(a: C, b: C)
    | CShr(a: C, b: C)
    | CMask(e: C, m: nat)                    // e & m, m an int constant 2^k - 1
    | CAnd(a: C, b: C)
    | COr(a: C, b: C)
    | CTernary(c: C, a: C, b: C)
    | CInit(n: nat, t: CType, e: C, body: C)   // ({ t _n = e; body })
    | CAbortIf(c: C, body: C)                  // ({ if (c) abort; body })
    | COverflow(op: COp, t: CType, a: C, b: C)
      // ({ t _r; if (__builtin_op_overflow(a, b, &_r)) abort; _r; })

  datatype Typed = Typed(t: CType, v: int)

  type Env = map<nat, Typed>

  /** The type of an expression, which C fixes without evaluating it. */
  function StaticType(p: Platform, e: C, env: Env): CType {
    match e
    case CConst(t, _) => t
    case CTemp(n) => if n in env then env[n].t else CInt(p)
    case CCast(t, _) => t
    case CBin(op, a, b) =>
      if op.CLt? || op.CGt? || op.CGe? || op.CEq? then CInt(p)
      else Common(p, StaticType(p, a, env), StaticType(p, b, env))
    case CNeg(x) => Promote(p, StaticType(p, x, env))
    case CCompl(x) => Promote(p, StaticType(p, x, env))
    case CShl(a, _) => Promote(p, StaticType(p, a, env))
    case CShr(a, _) => Promote(p, StaticType(p, a, env))
    case CMask(x, _) => Common(p, StaticType(p, x, env), CInt(p))
    case CAnd(_, _) => CInt(p)
    case COr(_, _) => CInt(p)
    case CTernary(_, a, b) => Common(p, StaticType(p, a, env), StaticType(p, b, env))
    case CInit(n, t, _, body) => StaticType(p, body, env[n := Typed(t, 0)])
    case CAbortIf(_, body) => StaticType(p, body, env)
    case COverflow(_, t, _, _) => t
  }

  /** A value and its type; `Undefined` is undefined behaviour. */
  datatype Result = Ok(t: CType, v: int) | Aborted | Undefined

  function Convert(t: CType, v: int): int {
    if t.bits == 0 then 0 else Wrap(t.bits, t.signed, v)
  }

  /** A result in type `t`: overflow of a signed type is undefined, an unsigned
      type is modular. */
  function Arithmetic(t: CType, x: int): Result {
    if t.bits == 0 then Undefined
    else if !t.signed then Ok(t, Wrap(t.bits, false, x))
    else if Fits(t.bits, true, x) then Ok(t, x)
    else Undefined
  }

  function Truth(p: Platform, b: bool): Result {
    Ok(CInt(p), if b then 1 else 0)
  }

  /** C11 sections 6.5.5, 6.5.6, 6.5.8 and 6.5.9. */
  function Binary(p: Platform, op: COp, a: Typed, b: Typed): Result {
    var t := Common(p, a.t, b.t);
    var x, y := Convert(t, a.v), Convert(t, b.v);
    match op
    case CAdd => Arithmetic(t, x + y)
    case CSub => Arithmetic(t, x - y)
    case CMul => Arithmetic(t, x * y)
    case CDiv => if y == 0 then Undefined else Arithmetic(t, Quotient(x, y))
    case CRem =>
      if y == 0 || Arithmetic(t, Quotient(x, y)).Undefined? then Undefined
      else Arithmetic(t, Remainder(x, y))
    case CLt => Truth(p, x < y)
    case CGt => Truth(p, x > y)
    case CGe => Truth(p, x >= y)
    case CEq => Truth(p, x == y)
  }

  /** C11 section 6.5.7. */
  function ShiftLeft(p: Platform, a: Typed, b: Typed): Result {
    var t := Promote(p, a.t);
    if b.v < 0 || b.v >= t.bits then Undefined
    else if t.signed && a.v < 0 then Undefined
    else Arithmetic(t, a.v * Pow2(b.v))
  }

  function ShiftRight(p: Platform, a: Typed, b: Typed): Result {
    var t := Promote(p, a.t);
    if b.v < 0 || b.v >= t.bits then Undefined
    else Ok(t, a.v / Pow2(b.v))
  }

  /** The exact result, for an overflow builtin. */
  function Infinite(op: COp, x: int, y: int): int {
    match op
    case CSub => x - y
    case CMul => x * y
    case _ => x + y
  }

  /** What stops an operation before it is reached. */
  function Stop(a: Result, b: Result): Result {
    if a.Undefined? || b.Undefined? then Undefined else Aborted
  }

  function Minus(v: int): int {
    -v
  }

  /** `~v`. */
  function Flipped(v: int): int {
    -v - 1
  }

  /** `v & m`, for a mask of low bits. */
  function Masked(v: int, m: nat): int {
    v % (m + 1)
  }

  function Run(p: Platform, e: C, env: Env): Result
    decreases e
  {
    match e
    case CConst(t, v) => Ok(t, v)
    case CTemp(n) => if n in env then Ok(env[n].t, env[n].v) else Undefined
    case CCast(t, x) =>
      (var r := Run(p, x, env);
       if r.Ok? then Ok(t, Convert(t, r.v)) else r)
    case CBin(op, a, b) =>
      (var x := Run(p, a, env);
       var y := Run(p, b, env);
       if x.Ok? && y.Ok? then Binary(p, op, Typed(x.t, x.v), Typed(y.t, y.v)) else Stop(x, y))
    case CNeg(x) =>
      (var r := Run(p, x, env);
       if r.Ok? then Arithmetic(Promote(p, r.t), Minus(r.v)) else r)
    case CCompl(x) =>
      (var r := Run(p, x, env);
       if r.Ok? then Arithmetic(Promote(p, r.t), Flipped(r.v)) else r)
    case CShl(a, b) =>
      (var x := Run(p, a, env);
       var y := Run(p, b, env);
       if x.Ok? && y.Ok? then ShiftLeft(p, Typed(x.t, x.v), Typed(y.t, y.v)) else Stop(x, y))
    case CShr(a, b) =>
      (var x := Run(p, a, env);
       var y := Run(p, b, env);
       if x.Ok? && y.Ok? then ShiftRight(p, Typed(x.t, x.v), Typed(y.t, y.v)) else Stop(x, y))
    case CMask(x, m) =>
      (var r := Run(p, x, env);
       if r.Ok? then
         var t := Common(p, r.t, CInt(p));
         Ok(t, Masked(Convert(t, r.v), m))
       else r)
    case CAnd(a, b) =>
      (var x := Run(p, a, env);
       if !x.Ok? then x
       else if x.v == 0 then Truth(p, false)
       else
         var y := Run(p, b, env);
         if y.Ok? then Truth(p, y.v != 0) else y)
    case COr(a, b) =>
      (var x := Run(p, a, env);
       if !x.Ok? then x
       else if x.v != 0 then Truth(p, true)
       else
         var y := Run(p, b, env);
         if y.Ok? then Truth(p, y.v != 0) else y)
    case CTernary(c, a, b) =>
      (var x := Run(p, c, env);
       if !x.Ok? then x
       else
         var t := Common(p, StaticType(p, a, env), StaticType(p, b, env));
         var r := if x.v != 0 then Run(p, a, env) else Run(p, b, env);
         if r.Ok? then Ok(t, Convert(t, r.v)) else r)
    case CInit(n, t, x, body) =>
      (var r := Run(p, x, env);
       if r.Ok? then Run(p, body, env[n := Typed(t, Convert(t, r.v))]) else r)
    case CAbortIf(c, body) =>
      (var r := Run(p, c, env);
       if !r.Ok? then r else if r.v != 0 then Aborted else Run(p, body, env))
    case COverflow(op, t, a, b) =>
      (var x := Run(p, a, env);
       var y := Run(p, b, env);
       if !x.Ok? || !y.Ok? then Stop(x, y)
       else
         var exact := Infinite(op, x.v, y.v);
         if t.bits > 0 && Fits(t.bits, t.signed, exact) then Ok(t, exact) else Aborted)
  }
}
