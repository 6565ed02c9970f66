/** The C the emitter writes for such expressions. Operands of a call, an
    operator or an initializer list are unsequenced: any not yet evaluated one
    may take the next step (C11 sections 6.5 paragraph 2, 6.5.2.2 paragraph 10
    and 6.7.9 paragraph 23). A statement expression, `&&`, `||` and `?:` are
    sequenced. A schedule picks every step. */
module OrderTarget {
  import opened OrderSource

  datatype Kind = KCall(f: int) | KCallValue | KOp(op: nat)

  datatype C =
    | CVal(v: int)
    | CTemp(t: nat)
    | CRead(x: nat)
    | CFn(name: nat)                // a function's name, a constant
    | CNode(k: Kind, args: seq<C>)
    | CLogic(isAnd: bool, a: C, b: C)
    | CCond(c: C, thn: C, els: C)
    | CLet(t: nat, e: C, body: C)   // ({ T _t = e; body })

  function Size(e: C): nat
    decreases e, 1
  {
    match e
    case CVal(_) => 0
    case CTemp(_) => 1
    case CRead(_) => 1
    case CFn(_) => 1
    case CNode(_, args) => 1 + SizeAll(args)
    case CLogic(_, a, b) => 1 + Size(a) + Size(b)
    case CCond(c, x, y) => 1 + Size(c) + Size(x) + Size(y)
    case CLet(_, e, b) => 1 + Size(e) + Size(b)
  }

  function SizeAll(es: seq<C>): nat
    decreases es, 0
  {
    if es == [] then 0 else 1 + Size(es[0]) + SizeAll(es[1..])
  }

  /** Reading the initialized temporary `t`: its value in place of its name. */
  function Subst(e: C, t: nat, v: int): (r: C)
    ensures Size(r) <= Size(e)
    decreases e, 1
  {
    match e
    case CVal(_) => e
    case CTemp(u) => if u == t then CVal(v) else e
    case CRead(_) => e
    case CFn(_) => e
    case CNode(k, args) => CNode(k, SubstAll(args, t, v))
    case CLogic(isAnd, a, b) => CLogic(isAnd, Subst(a, t, v), Subst(b, t, v))
    case CCond(c, x, y) => CCond(Subst(c, t, v), Subst(x, t, v), Subst(y, t, v))
    case CLet(u, x, b) => CLet(u, Subst(x, t, v), if u == t then b else Subst(b, t, v))
  }

  function SubstAll(es: seq<C>, t: nat, v: int): (r: seq<C>)
    ensures |r| == |es| && SizeAll(r) <= SizeAll(es)
    ensures forall i :: 0 <= i < |es| ==> r[i] == Subst(es[i], t, v)
    decreases es, 0
  {
    if es == [] then [] else [Subst(es[0], t, v)] + SubstAll(es[1..], t, v)
  }

  predicate AllValues(es: seq<C>) {
    forall i :: 0 <= i < |es| ==> es[i].CVal?
  }

  function Values(es: seq<C>): (vs: seq<int>)
    requires AllValues(es)
    ensures |vs| == |es|
    ensures forall i :: 0 <= i < |es| ==> vs[i] == es[i].v
  {
    if es == [] then [] else [es[0].v] + Values(es[1..])
  }

  function Apply(w: World, k: Kind, vs: seq<int>, tr: Trace): (int, Trace) {
    match k
    case KCall(f) => (w.call(tr, f, vs), tr + [Event(f, vs)])
    case KCallValue =>
      if vs == [] then (0, tr) else (w.call(tr, vs[0], vs[1..]), tr + [Event(vs[0], vs[1..])])
    case KOp(op) => (w.op(tr, op, vs), tr)
  }

  datatype Option<T> = None | Some(value: T)

  /** One evaluation step, at the place `path` names; `None` if the rules allow
      no step there. */
  function Step(w: World, e: C, tr: Trace, path: seq<nat>): Option<(C, Trace)>
    decreases e
  {
    match e
    case CVal(_) => None
    case CTemp(_) => None
    case CRead(x) => if path == [] then Some((CVal(w.read(tr, x)), tr)) else None
    case CFn(n) => if path == [] then Some((CVal(w.fn(n)), tr)) else None
    case CNode(k, args) =>
      if path == [] then
        if !AllValues(args) then None
        else
          var (v, tr1) := Apply(w, k, Values(args), tr);
          Some((CVal(v), tr1))
      else if path[0] >= |args| then None
      else
        (match Step(w, args[path[0]], tr, path[1..])
         case None => None
         case Some((a, tr1)) => Some((CNode(k, args[path[0] := a]), tr1)))
    case CLogic(isAnd, a, b) =>
      if path == [] then
        if !a.CVal? then None
        else Some((if (a.v != 0) == isAnd then b else CVal(if isAnd then 0 else 1), tr))
      else if path[0] != 0 then None
      else
        (match Step(w, a, tr, path[1..])
         case None => None
         case Some((a1, tr1)) => Some((CLogic(isAnd, a1, b), tr1)))
    case CCond(c, x, y) =>
      if path == [] then
        if !c.CVal? then None else Some((if c.v != 0 then x else y, tr))
      else if path[0] != 0 then None
      else
        (match Step(w, c, tr, path[1..])
         case None => None
         case Some((c1, tr1)) => Some((CCond(c1, x, y), tr1)))
    case CLet(t, x, b) =>
      if path == [] then
        if !x.CVal? then None else Some((Subst(b, t, x.v), tr))
      else if path[0] != 0 then None
      else
        (match Step(w, x, tr, path[1..])
         case None => None
         case Some((x1, tr1)) => Some((CLet(t, x1, b), tr1)))
  }

  /** A run under a schedule; `None` when the schedule asks for a step the rules
      do not allow. */
  function RunSchedule(w: World, e: C, tr: Trace, sched: seq<seq<nat>>): Option<(C, Trace)>
    decreases |sched|
  {
    if sched == [] then Some((e, tr))
    else
      match Step(w, e, tr, sched[0])
      case None => None
      case Some((e1, tr1)) => RunSchedule(w, e1, tr1, sched[1..])
  }

  /** The one schedule that takes operands left to right, run to the end. */
  function LeftToRight(w: World, e: C, tr: Trace): (int, Trace)
    decreases Size(e), e, 1
  {
    match e
    case CVal(v) => (v, tr)
    case CTemp(_) => (0, tr)
    case CRead(x) => (w.read(tr, x), tr)
    case CFn(n) => (w.fn(n), tr)
    case CNode(k, args) =>
      (var (vs, tr1) := LeftToRightAll(w, args, tr);
       Apply(w, k, vs, tr1))
    case CLogic(isAnd, a, b) =>
      (var (x, tr1) := LeftToRight(w, a, tr);
       if (x != 0) == isAnd then LeftToRight(w, b, tr1) else (if isAnd then 0 else 1, tr1))
    case CCond(c, x, y) =>
      (var (b, tr1) := LeftToRight(w, c, tr);
       if b != 0 then LeftToRight(w, x, tr1) else LeftToRight(w, y, tr1))
    case CLet(t, x, b) =>
      (var (v, tr1) := LeftToRight(w, x, tr);
       LeftToRight(w, Subst(b, t, v), tr1))
  }

  function LeftToRightAll(w: World, es: seq<C>, tr: Trace): (r: (seq<int>, Trace))
    ensures |r.0| == |es|
    decreases SizeAll(es), es, 0
  {
    if es == [] then ([], tr)
    else
      var (v, tr1) := LeftToRight(w, es[0], tr);
      var (vs, tr2) := LeftToRightAll(w, es[1..], tr1);
      ([v] + vs, tr2)
  }
}
