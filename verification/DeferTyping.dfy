/** What type checking guarantees of a body before it is lowered, and the
    outcomes those guarantees leave possible. */
module DeferTyping {
  import opened DeferSource

  datatype LoopKind = NoLoop | VoidLoop | ValLoop

  /** `e` is well formed where `lk` is the innermost loop and `esc` says whether
      the function may be left (it may not from a deferred expression). */
  predicate WF(e: Expr, lk: LoopKind, esc: bool)
    decreases Size(e), 0
  {
    match e
    case Atom(_, args, _) => WFOperands(args, lk, esc)
    case If(c, t, f, ty) =>
      && WFOperand(c, lk, esc)
      && WFBranch(t, lk, esc)
      && (f.Some? ==> WFBranch(f.value, lk, esc))
      && (ty != Void ==> f.Some?)
      && (ty == Val ==>
            TypeOf(t) != Void && TypeOf(f.value) != Void && !(TypeOf(t) == Never && TypeOf(f.value) == Never))
      && (ty == Never ==> TypeOf(t) == Never && TypeOf(f.value) == Never)
    case Match(s, arms, ty) =>
      && WFOperand(s, lk, esc)
      && arms != []
      && WFArms(arms, ty, lk, esc)
    case Loop(body, ty) => ty != Never && WFStmts(body, if ty == Val then ValLoop else VoidLoop, esc)
    case For(it, _, body) => WFOperand(it, lk, esc) && WFStmts(body, VoidLoop, esc)
    case Block(stmts, ty) => ty == TailTy(stmts) && WFStmts(stmts, lk, esc)
    case Try(x, ty) => esc && ty != Never && WFOperand(x, lk, esc)
    case Break(v) =>
      if v.None? then lk == VoidLoop
      else lk != NoLoop && WFReturned(v.value, lk, esc) && TypeOf(v.value) == if lk == ValLoop then Val else Void
    case Continue => lk != NoLoop
    case Return(v) => esc && (v.Some? ==> WFReturned(v.value, lk, esc))
    case Defer(d) => WFDeferred(d)
  }

  /** Deferred code has no escape of its own. */
  predicate WFDeferred(d: Expr)
    decreases Size(d), 1
  {
    !d.Defer? && WF(d, NoLoop, false)
  }

  predicate WFOperand(e: Expr, lk: LoopKind, esc: bool)
    decreases Size(e), 1
  {
    TypeOf(e) == Val && WF(e, lk, esc)
  }

  /** What is returned, or broken out with, may have no value, as long as it is an
      expression in C. */
  predicate WFReturned(e: Expr, lk: LoopKind, esc: bool)
    decreases Size(e), 1
  {
    (TypeOf(e) == Val || e.Atom? || e.Match? || e.Block? || e.Try?) && WF(e, lk, esc)
  }

  predicate WFBranch(e: Expr, lk: LoopKind, esc: bool)
    decreases Size(e) + 1, 3
  {
    (e.Block? ==> e.bty == TailTy(e.stmts)) && WFStmts(BranchStmts(e), lk, esc)
  }

  predicate WFOperands(es: seq<Expr>, lk: LoopKind, esc: bool)
    decreases SizeAll(es), 2
  {
    es == [] || (WFOperand(es[0], lk, esc) && WFOperands(es[1..], lk, esc))
  }

  predicate WFStmts(es: seq<Expr>, lk: LoopKind, esc: bool)
    decreases SizeAll(es), 2
  {
    es == [] || (WF(es[0], lk, esc) && WFStmts(es[1..], lk, esc))
  }

  predicate WFArms(arms: seq<Arm>, ty: Ty, lk: LoopKind, esc: bool)
    decreases SizeArms(arms), 2
  {
    arms == [] ||
    (&& WFStmts(arms[0].body, lk, esc)
     && (ty == Val ==> TailTy(arms[0].body) != Void)
     && (ty == Never ==> TailTy(arms[0].body) == Never)
     && WFArms(arms[1..], ty, lk, esc))
  }

  lemma WFArmAt(arms: seq<Arm>, ty: Ty, lk: LoopKind, esc: bool, k: nat)
    requires WFArms(arms, ty, lk, esc) && k < |arms|
    ensures WFStmts(arms[k].body, lk, esc)
    ensures ty == Val ==> TailTy(arms[k].body) != Void
    ensures ty == Never ==> TailTy(arms[k].body) == Never
  {
    if k > 0 {
      WFArmAt(arms[1..], ty, lk, esc, k - 1);
    }
  }

  /** The outcomes an expression of type `t` may have in a context. */
  predicate Allowed(o: Outcome, t: Ty, lk: LoopKind, esc: bool) {
    match o
    case Norm(v) => t != Never && (t == Void ==> v == Unit)
    case Brk(bv) => lk != NoLoop && (if lk == ValLoop then bv.Some? else bv == None || bv == Some(Unit))
    case Cont => lk != NoLoop
    case Ret(_) => esc
    case Stop(_) => true
  }

  /** Every evaluation of a well-formed expression ends in an outcome its type
      and its context allow: no control escapes from deferred code, and what
      has type `never` does not complete. */
  lemma {:induction false} OutcomesAllowed(w: World, e: Expr, lk: LoopKind, esc: bool, st: State)
    requires WF(e, lk, esc)
    ensures Allowed(Eval(w, e, st).0, TypeOf(e), lk, esc)
    decreases st.fuel, Size(e), 0
  {
    hide EvalBlock, EvalStmts, EvalExit, EvalLoop, EvalFor, EvalArgs, WFStmts, WFArms, WFOperands;
    match e
    case Atom(_, args, _) => ArgsAllowed(w, args, lk, esc, st);
    case If(c, t, f, ty) =>
      OutcomesAllowed(w, c, lk, esc, st);
      var (o, s1) := Eval(w, c, st);
      if o.Norm? {
        if Truth(o.v) {
          BlockAllowed(w, BranchStmts(t), lk, esc, s1);
          assert TailTy(BranchStmts(t)) == TypeOf(t);
        } else if f.Some? {
          BlockAllowed(w, BranchStmts(f.value), lk, esc, s1);
          assert TailTy(BranchStmts(f.value)) == TypeOf(f.value);
        }
      }
    case Match(s, arms, ty) =>
      OutcomesAllowed(w, s, lk, esc, st);
      var (o, s1) := Eval(w, s, st);
      if o.Norm? {
        var k := ArmOf(o.v, |arms|);
        SizeArm(arms, k);
        WFArmAt(arms, ty, lk, esc, k);
        BlockAllowed(w, arms[k].body, lk, esc, s1);
      }
    case Loop(body, ty) => LoopAllowed(w, body, if ty == Val then ValLoop else VoidLoop, esc, st);
    case For(it, elem, body) =>
      OutcomesAllowed(w, it, lk, esc, st);
      var (o, s1) := Eval(w, it, st);
      if o.Norm? {
        ForAllowed(w, o.v, 0, elem, body, esc, s1);
      }
    case Block(stmts, _) => BlockAllowed(w, stmts, lk, esc, st);
    case Try(x, _) => OutcomesAllowed(w, x, lk, esc, st);
    case Break(v) => if v.Some? { OutcomesAllowed(w, v.value, lk, esc, st); }
    case Continue =>
    case Return(v) => if v.Some? { OutcomesAllowed(w, v.value, lk, esc, st); }
    case Defer(_) =>
  }

  lemma {:induction false} ArgsAllowed(w: World, es: seq<Expr>, lk: LoopKind, esc: bool, st: State)
    requires WFOperands(es, lk, esc)
    ensures var r := EvalArgs(w, es, st).0; r.Esc? ==> !r.o.Norm? && Allowed(r.o, Val, lk, esc)
    decreases st.fuel, SizeAll(es), 0
  {
    if es != [] {
      OutcomesAllowed(w, es[0], lk, esc, st);
      ArgsAllowed(w, es[1..], lk, esc, Eval(w, es[0], st).1);
    }
  }

  lemma {:induction false} BlockAllowed(w: World, stmts: seq<Expr>, lk: LoopKind, esc: bool, st: State)
    requires WFStmts(stmts, lk, esc)
    ensures Allowed(EvalBlock(w, stmts, st).0, TailTy(stmts), lk, esc)
    decreases st.fuel, SizeAll(stmts), 2
  {
    StmtsAllowed(w, stmts, [], lk, esc, st);
    var (o, stack, s1) := EvalStmts(w, stmts, [], st);
    ExitKeeps(w, o, stack, s1);
  }

  lemma {:induction false} StmtsAllowed(w: World, stmts: seq<Expr>, stack: seq<Expr>, lk: LoopKind, esc: bool, st: State)
    requires WFStmts(stmts, lk, esc)
    ensures Allowed(EvalStmts(w, stmts, stack, st).0, TailTy(stmts), lk, esc)
    decreases st.fuel, SizeAll(stmts), 1
  {
    if stmts != [] {
      if stmts[0].Defer? {
        StmtsAllowed(w, stmts[1..], stack + [stmts[0].deferred], lk, esc, st);
      } else {
        OutcomesAllowed(w, stmts[0], lk, esc, st);
        StmtsAllowed(w, stmts[1..], stack, lk, esc, Eval(w, stmts[0], st).1);
      }
    }
  }

  /** Running the defers of an exit keeps the outcome or stops the program. */
  lemma {:induction false} ExitKeeps(w: World, o: Outcome, stack: seq<Expr>, st: State)
    ensures var r := EvalExit(w, o, stack, st).0; r == o || r.Stop?
    decreases |stack|
  {
    if !o.Stop? && stack != [] {
      var (d, s1) := Eval(w, stack[|stack| - 1], st);
      ExitKeeps(w, if d.Stop? then d else o, stack[..|stack| - 1], s1);
    }
  }

  lemma {:induction false} LoopAllowed(w: World, body: seq<Expr>, lk: LoopKind, esc: bool, st: State)
    requires WFStmts(body, lk, esc) && lk != NoLoop
    ensures var o := EvalLoop(w, body, st).0;
            !o.Brk? && !o.Cont? && (o.Ret? ==> esc) && (o.Norm? && lk == VoidLoop ==> o.v == Unit)
    decreases st.fuel, SizeAll(body), 3
  {
    if st.fuel > 0 {
      BlockAllowed(w, body, lk, esc, st.(fuel := st.fuel - 1));
      var (o, s1) := EvalBlock(w, body, st.(fuel := st.fuel - 1));
      if o.Norm? || o.Cont? {
        LoopAllowed(w, body, lk, esc, s1);
      }
    }
  }

  lemma {:induction false} ForAllowed(w: World, v: Value, i: nat, elem: nat, body: seq<Expr>, esc: bool, st: State)
    requires WFStmts(body, VoidLoop, esc)
    ensures var o := EvalFor(w, v, i, elem, body, st).0;
            !o.Brk? && !o.Cont? && (o.Ret? ==> esc) && (o.Norm? ==> o.v == Unit)
    decreases st.fuel, SizeAll(body), 3
  {
    if i < w.count(v) && st.fuel > 0 {
      var (a, tr) := Act(w, elem, [v, Int(i)], Void, st.trace);
      if a.Norm? {
        BlockAllowed(w, body, VoidLoop, esc, State(tr, st.fuel - 1));
        var (o, s1) := EvalBlock(w, body, State(tr, st.fuel - 1));
        if o.Norm? || o.Cont? {
          ForAllowed(w, v, i + 1, elem, body, esc, s1);
        }
      }
    }
  }
}
