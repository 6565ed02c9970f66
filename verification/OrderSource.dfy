/** FC expressions whose operands have side effects, with their left-to-right
    meaning, and the analysis the emitter uses to decide what to sequence. */
module OrderSource {

  datatype Event = Event(id: int, args: seq<int>)

  type Trace = seq<Event>

  /** What an expression runs against. A call is an event, and its result may
      depend on all earlier ones; a variable read and an operation may depend on
      them too but are not events; a function's name is a constant. */
  datatype World = World(
    call: (Trace, int, seq<int>) -> int,
    read: (Trace, nat) -> int,
    op: (Trace, nat, seq<int>) -> int,
    fn: nat -> int)

  /** Expressions of two parts. `Guarded`: integer division, and indexing a slice.
      `Assign`: the target's address and the value. `RawSlice`: a slice from a pointer
      and a length, `checked` when the length is compared at run time. `RangeLoop`: a
      `for` over its two bounds, its run being one event. */
  datatype Form = Guarded | PtrIndex | AtomicStore | Assign | RawSlice(checked: bool) | RangeLoop

  datatype Expr =
    | Lit(v: int)
    | Var(x: nat)
    | FnIdent(name: nat, isVariable: bool)   // top-level, of function type
    | Call(f: int, args: seq<Expr>)
    | CallValue(callee: Expr, cargs: seq<Expr>)
    | Op(op: nat, compares: bool, oargs: seq<Expr>)  // unary, binary, struct and tuple literals
    | Logic(isAnd: bool, a: Expr, b: Expr)   // && and ||
    | Cond(c: Expr, t: Expr, e: Expr)
    | Both(form: Form, id: nat, fst: Expr, snd: Expr)

  predicate IsEffect(form: Form) {
    form.AtomicStore? || form.Assign? || form.RangeLoop?
  }

  /** What an expression of two parts does with their values. */
  function Perform(w: World, form: Form, id: nat, vs: seq<int>, tr: Trace): (int, Trace) {
    if IsEffect(form) then (w.call(tr, id, vs), tr + [Event(id, vs)]) else (w.op(tr, id, vs), tr)
  }

  // ----- left-to-right meaning -----

  function SEval(w: World, e: Expr, tr: Trace): (int, Trace)
    decreases e, 1
  {
    match e
    case Lit(v) => (v, tr)
    case Var(x) => (w.read(tr, x), tr)
    case FnIdent(n, isVar) => (if isVar then w.read(tr, n) else w.fn(n), tr)
    case Call(f, args) =>
      (var (vs, tr1) := SEvalAll(w, args, tr);
       (w.call(tr1, f, vs), tr1 + [Event(f, vs)]))
    case CallValue(g, args) =>
      (var (f, tr1) := SEval(w, g, tr);
       var (vs, tr2) := SEvalAll(w, args, tr1);
       (w.call(tr2, f, vs), tr2 + [Event(f, vs)]))
    case Op(op, _, args) =>
      (var (vs, tr1) := SEvalAll(w, args, tr);
       (w.op(tr1, op, vs), tr1))
    case Logic(isAnd, l, r) =>
      (var (x, tr1) := SEval(w, l, tr);
       if (x != 0) == isAnd then SEval(w, r, tr1) else (if isAnd then 0 else 1, tr1))
    case Cond(c, t, f) =>
      (var (x, tr1) := SEval(w, c, tr);
       if x != 0 then SEval(w, t, tr1) else SEval(w, f, tr1))
    case Both(form, id, a, b) =>
      (var (x, tr1) := SEval(w, a, tr);
       var (y, tr2) := SEval(w, b, tr1);
       Perform(w, form, id, [x, y], tr2))
  }

  function SEvalAll(w: World, es: seq<Expr>, tr: Trace): (r: (seq<int>, Trace))
    ensures |r.0| == |es|
    decreases es, 0
  {
    if es == [] then ([], tr)
    else
      var (v, tr1) := SEval(w, es[0], tr);
      var (vs, tr2) := SEvalAll(w, es[1..], tr1);
      ([v] + vs, tr2)
  }

  // ----- the emitter's analysis -----

  /** Conservative: may evaluating this be observed? */
  predicate HasSideEffects(e: Expr)
    decreases e, 1
  {
    match e
    case Lit(_) => false
    case Var(_) => false
    case FnIdent(_, _) => false
    case Call(_, _) => true
    case CallValue(_, _) => true
    case Cond(_, _, _) => true
    case Op(_, _, args) => AnyEffects(args)
    case Logic(_, l, r) => HasSideEffects(l) || HasSideEffects(r)
    case Both(form, _, a, b) => IsEffect(form) || HasSideEffects(a) || HasSideEffects(b)
  }

  predicate AnyEffects(es: seq<Expr>)
    decreases es, 0
  {
    es != [] && (HasSideEffects(es[0]) || AnyEffects(es[1..]))
  }

  /** An operand left in place beside an effect: it reads no mutable state. The
      test takes every top-level name of function type for a function. */
  predicate IsAtom(e: Expr) {
    e.Lit? || e.FnIdent?
  }

  /** A comparison of two identical side-effect-free operands. */
  predicate IsSelfCompare(e: Expr) {
    e.Op? && e.compares && |e.oargs| == 2 && e.oargs[0] == e.oargs[1] && !HasSideEffects(e.oargs[0])
  }

  /** Whether an operand list is evaluated into temporaries first. */
  predicate SeqNeeded(es: seq<Expr>) {
    |es| >= 2 && AnyEffects(es)
  }

  /** How the two parts are emitted: each into a temporary, in the order written or in
      the other; or in place, where C picks. */
  datatype Way = InOrder | Unordered | Backwards

  function WayOf(form: Form, a: Expr, b: Expr): Way {
    match form
    case Guarded => InOrder
    case PtrIndex => Unordered
    case AtomicStore => Unordered
    case Assign => if HasSideEffects(a) || HasSideEffects(b) then InOrder else Unordered
    case RawSlice(checked) => if checked || (HasSideEffects(a) && HasSideEffects(b)) then InOrder else Unordered
    case RangeLoop => Backwards
  }

  /** The programs the emitter gets right. In an operand list, no operand that
      names a function variable stands before one with effects; and where two parts
      are not emitted in order and one has effects, the other one is a constant. */
  predicate OrderSafe(e: Expr)
    decreases e, 1
  {
    match e
    case Lit(_) => true
    case Var(_) => true
    case FnIdent(_, _) => true
    case Call(_, args) => ListSafe(args) && AllSafe(args)
    case CallValue(g, args) => OrderSafe(g) && ListSafe(args) && AllSafe(args)
    case Op(_, _, args) => ListSafe(args) && AllSafe(args)
    case Logic(_, l, r) => OrderSafe(l) && OrderSafe(r)
    case Cond(c, t, f) => OrderSafe(c) && OrderSafe(t) && OrderSafe(f)
    case Both(form, _, a, b) => OrderSafe(a) && OrderSafe(b) && (WayOf(form, a, b).InOrder? || PairSafe(a, b))
  }

  predicate PairSafe(a: Expr, b: Expr) {
    (HasSideEffects(a) ==> IsConstant(b)) && (HasSideEffects(b) ==> IsConstant(a))
  }

  /** An atom that really is a constant. */
  predicate IsConstant(e: Expr) {
    e.Lit? || (e.FnIdent? && !e.isVariable)
  }

  predicate AllSafe(es: seq<Expr>)
    decreases es, 0
  {
    es == [] || (OrderSafe(es[0]) && AllSafe(es[1..]))
  }

  predicate ListSafe(es: seq<Expr>) {
    es == [] || ((es[0].FnIdent? && es[0].isVariable ==> !AnyEffects(es[1..])) && ListSafe(es[1..]))
  }
}
