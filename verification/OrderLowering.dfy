/** The sequencing the emitter adds: the specification function of the slot
    rewriting in OrderEmitter. */
module OrderLowering {
  import opened OrderSource
  import opened OrderTarget

  /** An operand list after hoisting: temporaries to initialize, in order, and
      the operands as they are then emitted. */
  datatype Hoisted = Hoisted(binds: seq<(nat, C)>, ops: seq<C>, next: nat)

  /** `({ T _a = x; T _b = y; ... body })`. */
  function Wrap(binds: seq<(nat, C)>, body: C): C {
    if binds == [] then body else CLet(binds[0].0, binds[0].1, Wrap(binds[1..], body))
  }

  function KindOf(form: Form, id: nat): Kind {
    if IsEffect(form) then KCall(id) else KOp(id)
  }

  /** One part after the other, each into its temporary. */
  function InTurn(k: Kind, c: nat, first: C, second: C, swapped: bool): C {
    CLet(c, first, CLet(c + 1, second, CNode(k, if swapped then [CTemp(c + 1), CTemp(c)] else [CTemp(c), CTemp(c + 1)])))
  }

  function Lower(e: Expr, c: nat): (r: (C, nat))
    ensures r.1 >= c
    decreases e, 2
  {
    match e
    case Lit(v) => (CVal(v), c)
    case Var(x) => (CRead(x), c)
    case FnIdent(n, isVar) => (if isVar then CRead(n) else CFn(n), c)
    case Call(f, args) =>
      (var h := LowerOperands(args, SeqNeeded(args), c);
       (Wrap(h.binds, CNode(KCall(f), h.ops)), h.next))
    case CallValue(g, args) =>
      (var (x, c1) := Lower(g, c + 1);
       var h := LowerOperands(args, SeqNeeded(args), c1);
       (CLet(c, x, Wrap(h.binds, CNode(KCallValue, [CTemp(c)] + h.ops))), h.next))
    case Op(op, _, args) =>
      (var h := LowerOperands(args, SeqNeeded(args) || IsSelfCompare(e), c);
       (Wrap(h.binds, CNode(KOp(op), h.ops)), h.next))
    case Logic(isAnd, l, r) =>
      (var (x, c1) := Lower(l, c);
       var (y, c2) := Lower(r, c1);
       (CLogic(isAnd, x, y), c2))
    case Cond(b, t, f) =>
      (var (x, c1) := Lower(b, c);
       var (y, c2) := Lower(t, c1);
       var (z, c3) := Lower(f, c2);
       (CCond(x, y, z), c3))
    case Both(form, id, a, b) =>
      (match WayOf(form, a, b)
       case InOrder =>
         var (x, c1) := Lower(a, c + 2);
         var (y, c2) := Lower(b, c1);
         (InTurn(KindOf(form, id), c, x, y, false), c2)
       case Unordered =>
         var (x, c1) := Lower(a, c);
         var (y, c2) := Lower(b, c1);
         (CNode(KindOf(form, id), [x, y]), c2)
       case Backwards =>
         var (y, c1) := Lower(b, c + 2);
         var (x, c2) := Lower(a, c1);
         (InTurn(KindOf(form, id), c, y, x, true), c2))
  }

  function LowerOperands(es: seq<Expr>, active: bool, c: nat): (h: Hoisted)
    ensures h.next >= c
    ensures |h.ops| == |es|
    decreases es, 1
  {
    if es == [] then Hoisted([], [], c)
    else if active && |es| > 1 && !IsAtom(es[0]) then
      var (x, c1) := Lower(es[0], c + 1);
      var h := LowerOperands(es[1..], active, c1);
      Hoisted([(c, x)] + h.binds, [CTemp(c)] + h.ops, h.next)
    else
      var (x, c1) := Lower(es[0], c);
      var h := LowerOperands(es[1..], active, c1);
      Hoisted(h.binds, [x] + h.ops, h.next)
  }
}
