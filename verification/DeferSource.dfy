/** FC statements and expressions as the emitter sees them after type checking,
    and their meaning: `defer` pushes onto a run-time LIFO stack owned by the
    activation of its block, and every way out of the block pops that stack. */
module DeferSource {

  datatype Option<+T> = None | Some(value: T)

  datatype Value = Unit | Int(n: int)

  /** One observable action with the operand values it was given. */
  datatype Event = Event(id: nat, args: seq<Value>)

  /** What the program runs against. `act` says what an action yields after a
      given history (`None`: it aborts the program); the others read a value:
      is it a failure, its payload, the failure rebuilt at the function's return
      type, and how many elements an iterable holds. */
  datatype World = World(
    act: (seq<Event>, nat, seq<Value>) -> Option<Value>,
    fails: Value -> bool,
    payload: Value -> Value,
    failure: Value -> Value,
    count: Value -> nat)

  predicate Truth(v: Value) {
    v.Int? && v.n != 0
  }

  /** The arm a subject value selects among `n`. */
  function ArmOf(v: Value, n: nat): (k: nat)
    requires n > 0
    ensures k < n
  {
    if v.Int? then v.n % n else 0
  }

  /** The three classes of static type the emitter tells apart. */
  datatype Ty = Void | Never | Val

  datatype Arm = Arm(body: seq<Expr>)

  datatype Expr =
    | Atom(id: nat, args: seq<Expr>, aty: Ty)
    | If(cond: Expr, thn: Expr, els: Option<Expr>, ity: Ty)
    | Match(subject: Expr, arms: seq<Arm>, mty: Ty)
    | Loop(body: seq<Expr>, lty: Ty)
    | For(iter: Expr, elem: nat, fbody: seq<Expr>)
    | Block(stmts: seq<Expr>, bty: Ty)
    | Try(operand: Expr, tty: Ty)
    | Break(bval: Option<Expr>)
    | Continue
    | Return(rval: Option<Expr>)
    | Defer(deferred: Expr)

  function TypeOf(e: Expr): Ty {
    match e
    case Atom(_, _, t) => t
    case If(_, _, _, t) => t
    case Match(_, _, t) => t
    case Loop(_, t) => t
    case For(_, _, _) => Void
    case Block(_, t) => t
    case Try(_, t) => t
    case Break(_) => Never
    case Continue => Never
    case Return(_) => Never
    case Defer(_) => Void
  }

  /** A block has its last statement's type; one that is empty or ends in a
      defer has no value. */
  function TailTy(stmts: seq<Expr>): Ty {
    if |stmts| == 0 then Void else TypeOf(stmts[|stmts| - 1])
  }

  // ----- sizes, for termination -----

  function Size(e: Expr): (n: nat)
    ensures n > 0
    decreases e, 1
  {
    match e
    case Atom(_, args, _) => 1 + SizeAll(args)
    case If(c, t, f, _) => 5 + Size(c) + Size(t) + if f.Some? then Size(f.value) else 0
    case Match(s, arms, _) => 2 + Size(s) + SizeArms(arms)
    case Loop(body, _) => 2 + SizeAll(body)
    case For(it, _, body) => 3 + Size(it) + SizeAll(body)
    case Block(stmts, _) => 1 + SizeAll(stmts)
    case Try(o, _) => 1 + Size(o)
    case Break(v) => if v.Some? then 1 + Size(v.value) else 1
    case Continue => 1
    case Return(v) => if v.Some? then 1 + Size(v.value) else 1
    case Defer(d) => 1 + Size(d)
  }

  function SizeAll(es: seq<Expr>): nat
    decreases es, 0
  {
    if es == [] then 0 else 1 + Size(es[0]) + SizeAll(es[1..])
  }

  function SizeArms(arms: seq<Arm>): nat
    decreases arms, 0
  {
    if arms == [] then 0 else 2 + SizeAll(arms[0].body) + SizeArms(arms[1..])
  }

  /** Every branch opens a scope, a single expression's too. */
  function BranchStmts(branch: Expr): (stmts: seq<Expr>)
    ensures SizeAll(stmts) <= 1 + Size(branch)
  {
    if branch.Block? then branch.stmts
    else
      assert [branch][1..] == [];
      [branch]
  }

  lemma SizeArm(arms: seq<Arm>, k: nat)
    requires k < |arms|
    ensures SizeAll(arms[k].body) < SizeArms(arms)
  {
    if k > 0 {
      SizeArm(arms[1..], k - 1);
    }
  }

  lemma SizeLast(es: seq<Expr>)
    requires es != []
    ensures SizeAll(es) == SizeAll(es[..|es| - 1]) + 1 + Size(es[|es| - 1])
  {
    if |es| > 1 {
      SizeLast(es[1..]);
      assert es[..|es| - 1][1..] == es[1..][..|es| - 2];
    }
  }

  lemma SizePush(es: seq<Expr>, e: Expr)
    ensures SizeAll(es + [e]) == SizeAll(es) + 1 + Size(e)
  {
    SizeLast(es + [e]);
    assert (es + [e])[..|es|] == es;
  }

  // ----- run-time meaning -----

  /** How an evaluation ends. `Stop` ends the whole program: an abort, a call that
      does not come back, or the run's step budget used up. No defer runs on `Stop`. */
  datatype Outcome =
    | Norm(v: Value)
    | Brk(bv: Option<Value>)
    | Cont
    | Ret(rv: Option<Value>)
    | Stop(aborted: bool)

  datatype State = State(trace: seq<Event>, fuel: nat)

  datatype ArgsResult = Vals(vs: seq<Value>) | Esc(o: Outcome)

  function Discard(o: Outcome): Outcome {
    if o.Norm? then Norm(Unit) else o
  }

  function AsTy(o: Outcome, t: Ty): Outcome {
    if t == Val then o else Discard(o)
  }

  /** Perform one action. One of type `never`, a call of a function that recurses
      for ever, does not come back. */
  function Act(w: World, id: nat, vs: seq<Value>, t: Ty, trace: seq<Event>): (Outcome, seq<Event>) {
    match w.act(trace, id, vs)
    case None => (Stop(true), trace + [Event(id, vs)])
    case Some(v) => (if t == Never then Stop(false) else AsTy(Norm(v), t), trace + [Event(id, vs)])
  }

  function Eval(w: World, e: Expr, st: State): (r: (Outcome, State))
    ensures r.1.fuel <= st.fuel
    decreases st.fuel, Size(e), 0
  {
    match e
    case Atom(id, args, t) =>
      (var (ar, s1) := EvalArgs(w, args, st);
       match ar
       case Esc(o) => (o, s1)
       case Vals(vs) =>
         var (o, tr) := Act(w, id, vs, t, s1.trace);
         (o, s1.(trace := tr)))
    case If(c, t, f, ty) =>
      (var (o, s1) := Eval(w, c, st);
       if !o.Norm? then (o, s1)
       else if Truth(o.v) then
         var (o2, s2) := EvalBlock(w, BranchStmts(t), s1);
         (AsTy(o2, ty), s2)
       else
         match f
         case None => (Norm(Unit), s1)
         case Some(fe) =>
           var (o2, s2) := EvalBlock(w, BranchStmts(fe), s1);
           (AsTy(o2, ty), s2))
    case Match(s, arms, ty) =>
      (var (o, s1) := Eval(w, s, st);
       if !o.Norm? then (o, s1)
       else if arms == [] then (Stop(true), s1)
       else
         var k := ArmOf(o.v, |arms|);
         SizeArm(arms, k);
         var (o2, s2) := EvalBlock(w, arms[k].body, s1);
         (AsTy(o2, ty), s2))
    case Loop(body, ty) =>
      (var (o, s1) := EvalLoop(w, body, st);
       (AsTy(o, ty), s1))
    case For(it, elem, body) =>
      (var (o, s1) := Eval(w, it, st);
       if !o.Norm? then (o, s1) else EvalFor(w, o.v, 0, elem, body, s1))
    case Block(stmts, ty) =>
      (var (o, s1) := EvalBlock(w, stmts, st);
       (AsTy(o, ty), s1))
    case Try(x, ty) =>
      (var (o, s1) := Eval(w, x, st);
       if !o.Norm? then (o, s1)
       else if w.fails(o.v) then (Ret(Some(w.failure(o.v))), s1)
       else (AsTy(Norm(w.payload(o.v)), ty), s1))
    case Break(v) =>
      (match v
       case None => (Brk(None), st)
       case Some(x) =>
         var (o, s1) := Eval(w, x, st);
         (if o.Norm? then Brk(Some(o.v)) else o, s1))
    case Continue => (Cont, st)
    case Return(v) =>
      (match v
       case None => (Ret(None), st)
       case Some(x) =>
         var (o, s1) := Eval(w, x, st);
         (if o.Norm? then Ret(Some(o.v)) else o, s1))
    case Defer(_) => (Norm(Unit), st)  // recorded by the enclosing block
  }

  /** Operands, left to right. */
  function EvalArgs(w: World, es: seq<Expr>, st: State): (r: (ArgsResult, State))
    ensures r.1.fuel <= st.fuel
    decreases st.fuel, SizeAll(es), 0
  {
    if es == [] then (Vals([]), st)
    else
      var (o, s1) := Eval(w, es[0], st);
      if !o.Norm? then (Esc(o), s1)
      else
        var (ar, s2) := EvalArgs(w, es[1..], s1);
        match ar
        case Esc(_) => (ar, s2)
        case Vals(vs) => (Vals([o.v] + vs), s2)
  }

  /** One activation of a block: its statements, then, unless the program
      stopped, the defers the run recorded, last recorded first. */
  function EvalBlock(w: World, stmts: seq<Expr>, st: State): (r: (Outcome, State))
    ensures r.1.fuel <= st.fuel
    decreases st.fuel, SizeAll(stmts), 2
  {
    var (o, stack, s1) := EvalStmts(w, stmts, [], st);
    EvalExit(w, o, stack, s1)
  }

  /** The statements of a block with the run-time defer stack they push onto. */
  function EvalStmts(w: World, stmts: seq<Expr>, stack: seq<Expr>, st: State)
    : (r: (Outcome, seq<Expr>, State))
    ensures r.2.fuel <= st.fuel
    ensures SizeAll(r.1) <= SizeAll(stack) + SizeAll(stmts)
    decreases st.fuel, SizeAll(stmts), 1
  {
    if stmts == [] then (Norm(Unit), stack, st)
    else if stmts[0].Defer? then
      SizePush(stack, stmts[0].deferred);
      EvalStmts(w, stmts[1..], stack + [stmts[0].deferred], st)
    else
      var (o, s1) := Eval(w, stmts[0], st);
      if !o.Norm? || |stmts| == 1 then (o, stack, s1)
      else EvalStmts(w, stmts[1..], stack, s1)
  }

  /** Leaving a block with outcome `o`: pop and run its defers. */
  function EvalExit(w: World, o: Outcome, stack: seq<Expr>, st: State): (r: (Outcome, State))
    ensures r.1.fuel <= st.fuel
    decreases st.fuel, SizeAll(stack), 1
  {
    if o.Stop? || stack == [] then (o, st)
    else
      SizeLast(stack);
      var (d, s1) := Eval(w, stack[|stack| - 1], st);
      EvalExit(w, if d.Stop? then d else o, stack[..|stack| - 1], s1)
  }

  /** A loop: each iteration is a fresh activation of its body. */
  function EvalLoop(w: World, body: seq<Expr>, st: State): (r: (Outcome, State))
    ensures r.1.fuel <= st.fuel
    decreases st.fuel, SizeAll(body), 3
  {
    if st.fuel == 0 then (Stop(false), st)
    else
      var (o, s1) := EvalBlock(w, body, st.(fuel := st.fuel - 1));
      match o
      case Brk(None) => (Norm(Unit), s1)
      case Brk(Some(v)) => (Norm(v), s1)
      case Norm(_) => EvalLoop(w, body, s1)
      case Cont => EvalLoop(w, body, s1)
      case Ret(_) => (o, s1)
      case Stop(_) => (o, s1)
  }

  /** A collection loop: the iterable was evaluated once to `v`; iteration `i`
      reads element `i` and runs the body. */
  function EvalFor(w: World, v: Value, i: nat, elem: nat, body: seq<Expr>, st: State)
    : (r: (Outcome, State))
    ensures r.1.fuel <= st.fuel
    decreases st.fuel, SizeAll(body), 3
  {
    if i >= w.count(v) then (Norm(Unit), st)
    else if st.fuel == 0 then (Stop(false), st)
    else
      var (a, tr) := Act(w, elem, [v, Int(i)], Void, st.trace);
      if !a.Norm? then (a, st.(trace := tr))
      else
        var (o, s1) := EvalBlock(w, body, State(tr, st.fuel - 1));
        match o
        case Brk(_) => (Norm(Unit), s1)
        case Norm(_) => EvalFor(w, v, i + 1, elem, body, s1)
        case Cont => EvalFor(w, v, i + 1, elem, body, s1)
        case Ret(_) => (o, s1)
        case Stop(_) => (o, s1)
  }

  /** What a call of a function with this body does. */
  datatype FnResult = Done(rv: Option<Value>) | Stopped(aborted: bool) | Stray

  function RunFunction(w: World, body: seq<Expr>, fuel: nat): (FnResult, seq<Event>) {
    var (o, s) := EvalBlock(w, body, State([], fuel));
    (match o
     case Norm(v) => Done(if TailTy(body) == Val then Some(v) else None)
     case Ret(r) => Done(r)
     case Stop(a) => Stopped(a)
     case Brk(_) => Stray
     case Cont => Stray,
     s.trace)
  }
}
