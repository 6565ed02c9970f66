/** FC's integer types and the meaning of its integer expressions. */
module IntSource {
  import opened IntModular

  /** The two widths C leaves to the target. `size_t` is at least as wide as
      `int`. */
  datatype Platform = Platform(intBits: nat, ptrBits: nat) {
    predicate Valid() {
      (intBits == 16 || intBits == 32) && (ptrBits == 16 || ptrBits == 32 || ptrBits == 64) && intBits <= ptrBits
    }
  }

  datatype IntType = I8 | I16 | I32 | I64 | Isize | U8 | U16 | U32 | U64 | Usize

  function Bits(p: Platform, t: IntType): nat {
    match t
    case I8 => 8
    case U8 => 8
    case I16 => 16
    case U16 => 16
    case I32 => 32
    case U32 => 32
    case I64 => 64
    case U64 => 64
    case Isize => p.ptrBits
    case Usize => p.ptrBits
  }

  predicate IsSigned(t: IntType) {
    t.I8? || t.I16? || t.I32? || t.I64? || t.Isize?
  }

  /** The types C promotes to `int`. */
  predicate IsSubint(t: IntType) {
    t.I8? || t.U8? || t.I16? || t.U16?
  }

  /** The widenings of fixed-width types, and no others. */
  predicate CanWiden(from: IntType, to: IntType) {
    || from == to
    || (from.I8? && (to.I16? || to.I32? || to.I64?))
    || (from.I16? && (to.I32? || to.I64?))
    || (from.I32? && to.I64?)
    || (from.U8? && (to.U16? || to.U32? || to.U64? || to.I16? || to.I32? || to.I64?))
    || (from.U16? && (to.U32? || to.U64? || to.I32? || to.I64?))
    || (from.U32? && (to.U64? || to.I64?))
  }

  predicate InRange(p: Platform, t: IntType, x: int)
    requires p.Valid()
  {
    Fits(Bits(p, t), IsSigned(t), x)
  }

  function Wrapped(p: Platform, t: IntType, x: int): int
    requires p.Valid()
  {
    Wrap(Bits(p, t), IsSigned(t), x)
  }

  datatype Op = Add | Sub | Mul

  /** `checked` and `guarded` are the markers in force at the node. */
  datatype Expr =
    | Operand(t: IntType, v: int)
    | Arith(op: Op, checked: bool, l: Expr, r: Expr)
    | Div(checked: bool, guarded: bool, l: Expr, r: Expr)
    | Rem(guarded: bool, l: Expr, r: Expr)
    | Shl(l: Expr, r: Expr)
    | Shr(l: Expr, r: Expr)
    | Neg(checked: bool, e: Expr)
    | BitNot(e: Expr)
    | Cast(checked: bool, to: IntType, e: Expr)

  function TypeOf(e: Expr): IntType {
    match e
    case Operand(t, _) => t
    case Arith(_, _, l, _) => TypeOf(l)
    case Div(_, _, l, _) => TypeOf(l)
    case Rem(_, l, _) => TypeOf(l)
    case Shl(l, _) => TypeOf(l)
    case Shr(l, _) => TypeOf(l)
    case Neg(_, x) => TypeOf(x)
    case BitNot(x) => TypeOf(x)
    case Cast(_, to, _) => to
  }

  /** What the type checker guarantees. */
  predicate WellTyped(p: Platform, e: Expr)
    requires p.Valid()
  {
    match e
    case Operand(t, v) => InRange(p, t, v)
    case Arith(_, _, l, r) => WellTyped(p, l) && WellTyped(p, r) && TypeOf(l) == TypeOf(r)
    case Div(_, _, l, r) => WellTyped(p, l) && WellTyped(p, r) && TypeOf(l) == TypeOf(r)
    case Rem(_, l, r) => WellTyped(p, l) && WellTyped(p, r) && TypeOf(l) == TypeOf(r)
    case Shl(l, r) => WellTyped(p, l) && WellTyped(p, r)
    case Shr(l, r) => WellTyped(p, l) && WellTyped(p, r)
    case Neg(_, x) => WellTyped(p, x) && IsSigned(TypeOf(x))
    case BitNot(x) => WellTyped(p, x)
    case Cast(_, _, x) => WellTyped(p, x)
  }

  /** `Unspecified`: `unguarded` trusted a divisor that was zero. */
  datatype Outcome = Value(v: int) | Aborts | Unspecified

  function Exact(op: Op, x: int, y: int): int {
    match op
    case Add => x + y
    case Sub => x - y
    case Mul => x * y
  }

  /** Quotient and remainder that truncate toward zero. */
  function Abs(x: int): nat {
    if x < 0 then -x else x
  }

  function NatDiv(a: nat, b: nat): int
    requires b > 0
  {
    a / b
  }

  function NatMod(a: nat, b: nat): int
    requires b > 0
  {
    a % b
  }

  function Quotient(x: int, y: int): int
    requires y != 0
  {
    var q := NatDiv(Abs(x), Abs(y));
    if (x < 0) == (y < 0) then q else -q
  }

  function Remainder(x: int, y: int): int
    requires y != 0
  {
    var r := NatMod(Abs(x), Abs(y));
    if x < 0 then -r else r
  }

  /** Overflow wraps, or aborts under `checked`. */
  function Settle(p: Platform, t: IntType, checked: bool, x: int): Outcome
    requires p.Valid()
  {
    if checked && !InRange(p, t, x) then Aborts else Value(Wrapped(p, t, x))
  }

  function ArithOn(p: Platform, t: IntType, op: Op, checked: bool, x: int, y: int): Outcome
    requires p.Valid()
  {
    Settle(p, t, checked, Exact(op, x, y))
  }

  function DivOn(p: Platform, t: IntType, checked: bool, guarded: bool, x: int, y: int): Outcome
    requires p.Valid()
  {
    if y == 0 then (if guarded then Aborts else Unspecified)
    else Settle(p, t, checked, Quotient(x, y))
  }

  function RemOn(guarded: bool, x: int, y: int): Outcome {
    if y == 0 then (if guarded then Aborts else Unspecified) else Value(Remainder(x, y))
  }

  /** The count is taken modulo the width of the left operand. */
  function ShlOn(p: Platform, t: IntType, x: int, y: int): Outcome
    requires p.Valid()
  {
    Value(Wrapped(p, t, x * Pow2(y % Bits(p, t))))
  }

  /** Arithmetic for signed types: it rounds down. */
  function ShrOn(p: Platform, t: IntType, x: int, y: int): Outcome
    requires p.Valid()
  {
    Value(x / Pow2(y % Bits(p, t)))
  }

  function Both(a: Outcome, b: Outcome): Outcome {
    if a.Unspecified? || b.Unspecified? then Unspecified
    else if a.Aborts? || b.Aborts? then Aborts
    else Value(0)
  }

  function Eval(p: Platform, e: Expr): Outcome
    requires p.Valid()
    decreases e
  {
    match e
    case Operand(_, v) => Value(v)
    case Arith(op, checked, l, r) =>
      (var a := Eval(p, l);
       var b := Eval(p, r);
       if a.Value? && b.Value? then ArithOn(p, TypeOf(l), op, checked, a.v, b.v) else Both(a, b))
    case Div(checked, guarded, l, r) =>
      (var a := Eval(p, l);
       var b := Eval(p, r);
       if a.Value? && b.Value? then DivOn(p, TypeOf(l), checked, guarded, a.v, b.v) else Both(a, b))
    case Rem(guarded, l, r) =>
      (var a := Eval(p, l);
       var b := Eval(p, r);
       if a.Value? && b.Value? then RemOn(guarded, a.v, b.v) else Both(a, b))
    case Shl(l, r) =>
      (var a := Eval(p, l);
       var b := Eval(p, r);
       if a.Value? && b.Value? then ShlOn(p, TypeOf(l), a.v, b.v) else Both(a, b))
    case Shr(l, r) =>
      (var a := Eval(p, l);
       var b := Eval(p, r);
       if a.Value? && b.Value? then ShrOn(p, TypeOf(l), a.v, b.v) else Both(a, b))
    case Neg(checked, x) =>
      (var a := Eval(p, x);
       if a.Value? then Settle(p, TypeOf(x), checked, -a.v) else a)
    case BitNot(x) =>
      (var a := Eval(p, x);
       if a.Value? then Value(Wrapped(p, TypeOf(x), -a.v - 1)) else a)
    case Cast(checked, to, x) =>
      (var a := Eval(p, x);
       if a.Value? then Settle(p, to, checked, a.v) else a)
  }
}
