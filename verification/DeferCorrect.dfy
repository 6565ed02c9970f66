/** The lowered, defer-free C does what the source with run-time defer stacks
    does: same events, same result, same step count, at every exit. */
module DeferCorrect {
  import opened DeferSource
  import opened DeferTarget
  import opened DeferLowering
  import opened DeferTyping

  /** What is left to run after outcome `o` arises under the scopes `sc`: the
      pending defers of every scope it leaves, innermost first. */
  function Unwind(w: World, o: Outcome, sc: Scopes, st: State): (Outcome, State)
    decreases sc
  {
    if o.Norm? || o.Stop? || !sc.Push? then (o, st)
    else
      var (o1, s1) := EvalExit(w, o, sc.defers, st);
      Leave(w, o1, sc, s1)
  }

  /** The same once the innermost scope's own defers have run. */
  function Leave(w: World, o: Outcome, sc: Scopes, st: State): (Outcome, State)
    requires sc.Push?
    decreases sc, 0
  {
    if sc.isLoop && (o.Brk? || o.Cont?) then (o, st) else Unwind(w, o, sc.parent, st)
  }

  predicate ScOk(sc: Scopes) {
    match sc
    case FnBase => true
    case DeferBase => true
    case Push(_, ds, p) => (forall i :: 0 <= i < |ds| ==> WFDeferred(ds[i])) && ScOk(p)
  }

  /** Temporaries below `c` are untouched, but for the one a block assigns. */
  ghost predicate Frame(a: map<nat, Value>, b: map<nat, Value>, c: nat, tail: Tail) {
    forall t: nat :: t < c && tail != TailAssign(t) ==> (t in a <==> t in b) && (t in a ==> a[t] == b[t])
  }

  ghost predicate SameRun(st: State, cst: CState) {
    st.trace == cst.trace && st.fuel == cst.fuel
  }

  ghost predicate SimOut(o: Outcome, co: COut, cst: CState) {
    co == OfOutcome(o) && (o.Brk? && o.bv.Some? ==> cst.loopRes == o.bv)
  }

  /** A target run matches a source run, started from temporaries `env`. */
  ghost predicate Matches(r: (Outcome, State), cr: (COut, CState), env: map<nat, Value>, c: nat) {
    SimOut(r.0, cr.0, cr.1) && SameRun(r.1, cr.1) && Frame(env, cr.1.env, c, TailValue)
  }

  /** The same for code whose value nothing reads. */
  ghost predicate MatchesVoid(r: (Outcome, State), cr: (COut, CState), env: map<nat, Value>, c: nat) {
    && (if r.0.Norm? then cr.0.CNorm? else SimOut(r.0, cr.0, cr.1))
    && SameRun(r.1, cr.1) && Frame(env, cr.1.env, c, TailValue)
  }

  lemma FrameTrans(a: map<nat, Value>, b: map<nat, Value>, d: map<nat, Value>, c: nat, c1: nat, tail: Tail)
    requires Frame(a, b, c, tail) && Frame(b, d, c1, tail) && c <= c1
    ensures Frame(a, d, c, tail)
  {
  }

  lemma FrameSet(a: map<nat, Value>, t: nat, v: Value, c: nat)
    requires c <= t
    ensures Frame(a, a[t := v], c, TailValue) && Frame(a, a - {t}, c, TailValue)
  {
  }

  lemma FrameKeep(a: map<nat, Value>, b: map<nat, Value>, c: nat, t: nat, tail: Tail)
    requires Frame(a, b, c, tail) && t < c && tail != TailAssign(t)
    ensures (t in a <==> t in b) && (t in a ==> a[t] == b[t])
  {
  }

  /** An assignment to the block's own target, and a weaker frame. */
  lemma FrameWeaken(a: map<nat, Value>, b: map<nat, Value>, c: nat, c1: nat, tail: Tail)
    requires Frame(a, b, c1, TailValue) && c <= c1
    ensures Frame(a, b, c, tail)
  {
  }

  lemma CExecCons(w: World, s: CStmt, ss: seq<CStmt>, st: CState)
    ensures CExec(w, [s] + ss, st) ==
            (var (o, s1) := CStep(w, s, st); if !o.CNorm? || ss == [] then (o, s1) else CExec(w, ss, s1))
  {
    assert ([s] + ss)[1..] == ss;
  }

  lemma CExecOne(w: World, s: CStmt, st: CState)
    ensures CExec(w, [s], st) == CStep(w, s, st)
  {
  }

  lemma {:induction false} CExecAppend(w: World, a: seq<CStmt>, b: seq<CStmt>, st: CState)
    ensures CExec(w, a + b, st) ==
            (if a == [] then CExec(w, b, st)
             else
               var (o, s1) := CExec(w, a, st);
               if !o.CNorm? || b == [] then (o, s1) else CExec(w, b, s1))
    decreases |a|
  {
    if a == [] {
      assert a + b == b;
    } else {
      assert a + b == [a[0]] + (a[1..] + b);
      CExecCons(w, a[0], a[1..] + b, st);
      var (o, s1) := CStep(w, a[0], st);
      if o.CNorm? {
        CExecAppend(w, a[1..], b, s1);
        if a[1..] == [] {
          assert a[1..] + b == b;
        }
      }
    }
  }

  // ----- exits -----

  /** Leaving a scope by an escape is unwinding through it. */
  lemma EscapeLeaves(w: World, o: Outcome, sc: Scopes, st: State)
    requires sc.Push? && !o.Norm?
    ensures var (o1, s1) := EvalExit(w, o, sc.defers, st); Leave(w, o1, sc, s1) == Unwind(w, o, sc, st)
  {
  }

  /** One deferred expression completes, or stops the program. */
  lemma {:induction false} DeferredOk(w: World, d: Expr, c: nat, st: State, cst: CState)
    requires WFDeferred(d) && SameRun(st, cst)
    ensures var (dr, s1) := Eval(w, d, st);
            var (co, t1) := CExec(w, LowerDeferred(d, c).0, cst);
            && (dr.Norm? || dr.Stop?)
            && co == (if dr.Stop? then OfOutcome(dr) else CNorm(Unit))
            && SameRun(s1, t1) && Frame(cst.env, t1.env, c, TailValue)
    decreases st.fuel, Size(d), 3
  {
    hide WFOperands, WFStmts, WFArms, WFBranch, Eval, EvalArgs, EvalBlock, EvalStmts, EvalExit, EvalLoop, EvalFor,
      LowerExpr, LowerArgs, LowerStmts, LowerArms, LowerDefers, LowerToFunc, LowerToLoop, LowerStmtForm, LowerBranch,
      LowerBranchInto, CEval, CEvalArgs, CExec, CStep, CRunWhile, CRunFor, Size, SizeAll, SizeArms,
      Unwind, Frame;
    var (dr, s1) := Eval(w, d, st);
    OutcomesAllowed(w, d, NoLoop, false, st);
    UnwindNorm(w, dr, DeferBase, s1);
    if EmitsStatement(d) {
      FormOk(w, d, DeferBase, c, NoLoop, false, st, cst);
    } else {
      ExprOk(w, d, DeferBase, c, NoLoop, false, st, cst);
      ExecDo(w, LowerExpr(d, DeferBase, c).0, true, cst);
    }
  }

  /** The defers of one scope, emitted at an exit, run as the run-time stack. */
  lemma {:induction false} DefersOk(w: World, ds: seq<Expr>, c: nat, o: Outcome, st: State, cst: CState)
    requires forall i :: 0 <= i < |ds| ==> WFDeferred(ds[i])
    requires !o.Stop? && SameRun(st, cst)
    ensures var r := EvalExit(w, o, ds, st);
            var cr := CExec(w, LowerDefers(ds, c).0, cst);
            && (r.0 == o || r.0.Stop?)
            && cr.0 == (if r.0.Stop? then OfOutcome(r.0) else CNorm(Unit))
            && SameRun(r.1, cr.1) && Frame(cst.env, cr.1.env, c, TailValue)
    decreases st.fuel, SizeAll(ds), 0
  {
    hide WFDeferred, Eval, CExec, LowerDeferred, Frame, Size;
    FrameRefl(cst.env, c);
    ExecNil(w, cst);
    if ds != [] {
      SizeLast(ds);
      var d, ds1 := ds[|ds| - 1], ds[..|ds| - 1];
      var (dr, s1) := Eval(w, d, st);
      DeferredOk(w, d, c, st, cst);
      var (code, c1) := LowerDeferred(d, c);
      var rest := LowerDefers(ds1, c1).0;
      assert LowerDefers(ds, c).0 == code + rest;
      CExecAppend(w, code, rest, cst);
      if dr.Norm? {
        var t1 := CExec(w, code, cst).1;
        DefersOk(w, ds1, c1, o, s1, t1);
        ExecNil(w, t1);
        FrameTrans(cst.env, t1.env, CExec(w, rest, t1).1.env, c, c1, TailValue);
      }
    }
  }

  /** `break` and `continue`: the defers out to the loop boundary. */
  lemma {:induction false} ToLoopOk(w: World, sc: Scopes, c: nat, o: Outcome, st: State, cst: CState)
    requires ScOk(sc) && (o.Brk? || o.Cont?) && SameRun(st, cst)
    ensures var r := Unwind(w, o, sc, st);
            var cr := CExec(w, LowerToLoop(sc, c).0, cst);
            && (r.0 == o || r.0.Stop?)
            && cr.0 == (if r.0.Stop? then OfOutcome(r.0) else CNorm(Unit))
            && SameRun(r.1, cr.1) && Frame(cst.env, cr.1.env, c, TailValue)
    decreases st.fuel, ScSize(sc), 1, sc
  {
    if sc.Push? {
      DefersOk(w, sc.defers, c, o, st, cst);
      EscapeLeaves(w, o, sc, st);
      if !sc.isLoop {
        var (code, c1) := LowerDefers(sc.defers, c);
        CExecAppend(w, code, LowerToLoop(sc.parent, c1).0, cst);
        var (o1, s1) := EvalExit(w, o, sc.defers, st);
        if !o1.Stop? {
          ToLoopOk(w, sc.parent, c1, o, s1, CExec(w, code, cst).1);
        }
      }
    }
  }

  /** `return` and a failing `x?`: the defers of every scope. */
  lemma {:induction false} ToFuncOk(w: World, sc: Scopes, c: nat, o: Outcome, st: State, cst: CState)
    requires ScOk(sc) && o.Ret? && SameRun(st, cst)
    ensures var r := Unwind(w, o, sc, st);
            var cr := CExec(w, LowerToFunc(sc, c).0, cst);
            && (r.0 == o || r.0.Stop?)
            && cr.0 == (if r.0.Stop? then OfOutcome(r.0) else CNorm(Unit))
            && SameRun(r.1, cr.1) && Frame(cst.env, cr.1.env, c, TailValue)
    decreases st.fuel, ScSize(sc), 1, sc
  {
    if sc.Push? {
      DefersOk(w, sc.defers, c, o, st, cst);
      EscapeLeaves(w, o, sc, st);
      var (code, c1) := LowerDefers(sc.defers, c);
      CExecAppend(w, code, LowerToFunc(sc.parent, c1).0, cst);
      var (o1, s1) := EvalExit(w, o, sc.defers, st);
      if !o1.Stop? {
        ToFuncOk(w, sc.parent, c1, o, s1, CExec(w, code, cst).1);
      }
    }
  }

  /** With nothing pending an exit runs nothing. */
  lemma {:induction false} NothingPending(w: World, o: Outcome, sc: Scopes, st: State)
    requires !HasPending(sc)
    ensures Unwind(w, o, sc, st) == (o, st)
    decreases sc
  {
    if sc.Push? {
      NothingPending(w, o, sc.parent, st);
    }
  }

  // ----- what each piece of emitted code is compared with -----

  /** Evaluate `e` under the scopes `sc`, and unwind if it escapes. */
  function Run(w: World, e: Expr, sc: Scopes, st: State): (Outcome, State) {
    var (o, s1) := Eval(w, e, st);
    Unwind(w, o, sc, s1)
  }

  /** A fresh activation of a block under the scopes `sc`. */
  function RunScoped(w: World, stmts: seq<Expr>, t: Ty, sc: Scopes, st: State): (Outcome, State) {
    var (o, s1) := EvalBlock(w, stmts, st);
    Unwind(w, AsTy(o, t), sc, s1)
  }

  /** The rest of a block whose scope `sc` already holds defers. */
  function RunRest(w: World, stmts: seq<Expr>, sc: Scopes, st: State): (Outcome, State)
    requires sc.Push?
  {
    var (o, stack, s1) := EvalStmts(w, stmts, sc.defers, st);
    var (o1, s2) := EvalExit(w, o, stack, s1);
    Leave(w, o1, sc, s2)
  }

  /** How a block's code delivers the block's outcome under each tail mode. */
  ghost predicate Delivers(r: (Outcome, State), t: Ty, tail: Tail, cr: (COut, CState), env: map<nat, Value>, c: nat) {
    && SameRun(r.1, cr.1) && Frame(env, cr.1.env, c, tail)
    && if !r.0.Norm? then SimOut(r.0, cr.0, cr.1)
       else match tail
         case TailValue => cr.0 == CNorm(r.0.v)
         case TailDiscard => cr.0.CNorm?
         case TailReturn => if t == Val then cr.0 == CRet(Some(r.0.v)) else cr.0.CNorm?
         case TailAssign(x) => cr.0.CNorm? && x in cr.1.env && cr.1.env[x] == r.0.v
  }

  ghost predicate EscMatches(r: (Outcome, State), co: COut, cst: CState) {
    SimOut(r.0, co, cst) && SameRun(r.1, cst)
  }

  predicate IsOperandForm(e: Expr) {
    !IsTransfer(e) && !e.Defer? && !EmitsStatement(e)
  }

  predicate TailOk(tail: Tail, sc: Scopes, t: Ty, c: nat) {
    && sc.Push?
    && (tail == TailReturn ==> sc.parent == FnBase && !sc.isLoop)
    && (tail.TailAssign? ==> tail.target < c && t != Void)
  }

  /** The defers run the same whatever non-stopping outcome awaits them. */
  lemma {:induction false} ExitParametric(w: World, o: Outcome, o': Outcome, stack: seq<Expr>, st: State)
    requires !o.Stop? && !o'.Stop?
    ensures var r, r' := EvalExit(w, o, stack, st), EvalExit(w, o', stack, st);
            r.1 == r'.1 && (if r.0 == o then r'.0 == o' else r.0.Stop? && r'.0 == r.0)
    decreases |stack|
  {
    if stack != [] {
      var (d, s1) := Eval(w, stack[|stack| - 1], st);
      if !d.Stop? {
        ExitParametric(w, o, o', stack[..|stack| - 1], s1);
      }
    }
  }

  /** A branch that is one expression is that expression. */
  lemma BranchIsExpr(w: World, b: Expr, lk: LoopKind, esc: bool, st: State)
    requires WFBranch(b, lk, esc) && !b.Defer?
    ensures WF(b, lk, esc)
    ensures var (o, s1) := EvalBlock(w, BranchStmts(b), st); Eval(w, b, st) == (if b.Block? then AsTy(o, b.bty) else o, s1)
  {
  }

  // ----- expressions -----

  lemma {:induction false} ExprOk(w: World, e: Expr, sc: Scopes, c: nat, lk: LoopKind, esc: bool, st: State, cst: CState)
    requires WF(e, lk, esc) && IsOperandForm(e) && ScOk(sc) && SameRun(st, cst)
    ensures Matches(Run(w, e, sc, st), CEval(w, LowerExpr(e, sc, c).0, cst), cst.env, c)
    decreases st.fuel, ScSize(sc) + Size(e), 2
  {
    match e
    case Atom(id, args, t) => ArgsOk(w, args, sc, c, lk, esc, st, cst);
    case If(_, t, f, _) =>
      if TypeOf(t) == Val && TypeOf(f.value) == Val {
        TernaryOk(w, e, sc, c, lk, esc, st, cst);
      } else {
        IfResOk(w, e, sc, c, lk, esc, st, cst);
      }
    case Match(_, _, _) => MatchOk(w, e, sc, c, lk, esc, st, cst);
    case Loop(body, _) => LoopExprOk(w, e, sc, c, lk, esc, st, cst);
    case Block(stmts, ty) => BlockOk(w, e, sc, c, lk, esc, st, cst);
    case Try(x, ty) => TryOk(w, e, sc, c, lk, esc, st, cst);
  }

  lemma {:induction false} ArgsOk(w: World, es: seq<Expr>, sc: Scopes, c: nat, lk: LoopKind, esc: bool, st: State, cst: CState)
    requires WFOperands(es, lk, esc) && ScOk(sc) && SameRun(st, cst)
    ensures var (ar, s1) := EvalArgs(w, es, st);
            var (car, t1) := CEvalArgs(w, LowerArgs(es, sc, c).0, cst);
            && Frame(cst.env, t1.env, c, TailValue)
            && match ar
               case Vals(vs) => car == CVals(vs) && SameRun(s1, t1)
               case Esc(o) => !o.Norm? && car.CEsc? && EscMatches(Unwind(w, o, sc, s1), car.o, t1)
    decreases st.fuel, ScSize(sc) + SizeAll(es), 0
  {
    if es != [] {
      ExprOk(w, es[0], sc, c, lk, esc, st, cst);
      var (x, c1) := LowerExpr(es[0], sc, c);
      var xs := LowerArgs(es[1..], sc, c1).0;
      assert ([x] + xs)[1..] == xs;
      var (o, s1) := Eval(w, es[0], st);
      if o.Norm? {
        ArgsOk(w, es[1..], sc, c1, lk, esc, s1, CEval(w, x, cst).1);
      } else {
        ExitNotNorm(w, o, sc, s1);
      }
    }
  }

  /** Unwinding never turns an escape into a normal completion. */
  lemma {:induction false} ExitNotNorm(w: World, o: Outcome, sc: Scopes, st: State)
    requires !o.Norm?
    ensures !Unwind(w, o, sc, st).0.Norm?
    decreases sc
  {
    if sc.Push? && !o.Stop? {
      ExitKeeps(w, o, sc.defers, st);
      var (o1, s1) := EvalExit(w, o, sc.defers, st);
      ExitNotNorm(w, o1, sc.parent, s1);
    }
  }

  /** An `if` runs one branch in a scope of its own. */
  lemma RunIf(w: World, e: Expr, sc: Scopes, lk: LoopKind, esc: bool, st: State)
    requires e.If? && WF(e, lk, esc)
    ensures WF(e.cond, lk, esc) && IsOperandForm(e.cond) && WFBranch(e.thn, lk, esc)
    ensures Size(e) == 5 + Size(e.cond) + Size(e.thn) + if e.els.Some? then Size(e.els.value) else 0
    ensures e.ity == Val ==> e.els.Some? && TypeOf(e.thn) != Void && TypeOf(e.els.value) != Void
    ensures e.els.Some? ==> WFBranch(e.els.value, lk, esc)
    ensures Run(w, e, sc, st) ==
            (var (o, s1) := Eval(w, e.cond, st);
             if !o.Norm? then Unwind(w, o, sc, s1)
             else if Truth(o.v) then RunScoped(w, BranchStmts(e.thn), e.ity, sc, s1)
             else if e.els.None? then (Norm(Unit), s1)
             else RunScoped(w, BranchStmts(e.els.value), e.ity, sc, s1))
  {
    hide EvalStmts, EvalExit, EvalBlock, EvalArgs, EvalLoop, EvalFor, SizeAll, BranchStmts;
  }

  /** A valued branch that is one expression. */
  lemma RunBranchExpr(w: World, b: Expr, sc: Scopes, lk: LoopKind, esc: bool, st: State)
    requires WFBranch(b, lk, esc) && TypeOf(b) == Val
    ensures WF(b, lk, esc) && IsOperandForm(b)
    ensures RunScoped(w, BranchStmts(b), Val, sc, st) == Run(w, b, sc, st)
  {
    hide Unwind;
    BranchIsExpr(w, b, lk, esc, st);
  }

  lemma LowerTernary(w: World, e: Expr, sc: Scopes, c: nat, cst: CState)
    requires e.If? && e.ity == Val && e.els.Some? && TypeOf(e.thn) == Val && TypeOf(e.els.value) == Val
    ensures var (x, c1) := LowerExpr(e.cond, sc, c);
            var (a, c2) := LowerExpr(e.thn, sc, c1);
            var b := LowerExpr(e.els.value, sc, c2).0;
            CEval(w, LowerExpr(e, sc, c).0, cst) ==
            (var (o, s1) := CEval(w, x, cst);
             if !o.CNorm? then (o, s1) else CEval(w, if Truth(o.v) then a else b, s1))
  {
  }

  lemma LowerIfRes(e: Expr, sc: Scopes, c: nat)
    requires e.If? && e.ity == Val && e.els.Some? && (TypeOf(e.thn) == Never || TypeOf(e.els.value) == Never)
    ensures var (x, c1) := LowerExpr(e.cond, sc, c + 1);
            var (a, c2) := LowerBranchInto(e.thn, c, sc, c1);
            var (b, c3) := LowerBranchInto(e.els.value, c, sc, c2);
            LowerExpr(e, sc, c).0 == CStmtExpr([CDecl(c), CIf(x, a, b), CDo(CTemp(c))], false)
  {
  }

  lemma {:induction false} TernaryOk(w: World, e: Expr, sc: Scopes, c: nat, lk: LoopKind, esc: bool, st: State, cst: CState)
    requires e.If? && e.ity == Val && WF(e, lk, esc) && ScOk(sc) && SameRun(st, cst)
    requires TypeOf(e.thn) == Val && TypeOf(e.els.value) == Val
    ensures Matches(Run(w, e, sc, st), CEval(w, LowerExpr(e, sc, c).0, cst), cst.env, c)
    decreases st.fuel, ScSize(sc) + Size(e), 1
  {
    hide WF, WFOperands, WFStmts, WFArms, WFBranch, Eval, EvalArgs, EvalBlock, EvalStmts, EvalExit, EvalLoop, EvalFor,
      LowerExpr, LowerArgs, LowerStmts, LowerArms, LowerDefers, LowerToFunc, LowerToLoop, LowerStmtForm, LowerBranch,
      LowerBranchInto, CEval, CEvalArgs, CExec, CStep, CRunWhile, CRunFor, Size, SizeAll, SizeArms, ScSize, ScOk,
      Unwind, Frame;
    RunIf(w, e, sc, lk, esc, st);
    LowerTernary(w, e, sc, c, cst);
    var (x, c1) := LowerExpr(e.cond, sc, c);
    var (a, c2) := LowerExpr(e.thn, sc, c1);
    var b := LowerExpr(e.els.value, sc, c2).0;
    ExprOk(w, e.cond, sc, c, lk, esc, st, cst);
    var (o, s1) := Eval(w, e.cond, st);
    var t1 := CEval(w, x, cst).1;
    if !o.Norm? {
      ExitNotNorm(w, o, sc, s1);
    } else {
      UnwindNorm(w, o, sc, s1);
      if Truth(o.v) {
        RunBranchExpr(w, e.thn, sc, lk, esc, s1);
        ExprOk(w, e.thn, sc, c1, lk, esc, s1, t1);
        FrameWeaken(t1.env, CEval(w, a, t1).1.env, c, c1, TailValue);
        FrameTrans(cst.env, t1.env, CEval(w, a, t1).1.env, c, c, TailValue);
      } else {
        RunBranchExpr(w, e.els.value, sc, lk, esc, s1);
        ExprOk(w, e.els.value, sc, c2, lk, esc, s1, t1);
        FrameWeaken(t1.env, CEval(w, b, t1).1.env, c, c2, TailValue);
        FrameTrans(cst.env, t1.env, CEval(w, b, t1).1.env, c, c, TailValue);
      }
    }
  }

  lemma UnwindNorm(w: World, o: Outcome, sc: Scopes, st: State)
    requires o.Norm? || o.Stop?
    ensures Unwind(w, o, sc, st) == (o, st)
  {
  }

  lemma {:induction false} IfResOk(w: World, e: Expr, sc: Scopes, c: nat, lk: LoopKind, esc: bool, st: State, cst: CState)
    requires e.If? && e.ity == Val && WF(e, lk, esc) && ScOk(sc) && SameRun(st, cst)
    requires TypeOf(e.thn) == Never || TypeOf(e.els.value) == Never
    ensures Matches(Run(w, e, sc, st), CEval(w, LowerExpr(e, sc, c).0, cst), cst.env, c)
    decreases st.fuel, ScSize(sc) + Size(e), 1
  {
    hide WF, WFOperands, WFStmts, WFArms, WFBranch, Eval, EvalArgs, EvalBlock, EvalStmts, EvalExit, EvalLoop, EvalFor,
      LowerExpr, LowerArgs, LowerStmts, LowerArms, LowerDefers, LowerToFunc, LowerToLoop, LowerStmtForm, LowerBranch,
      LowerBranchInto, CEval, CEvalArgs, CExec, CStep, CRunWhile, CRunFor, Size, SizeAll, SizeArms, ScSize, ScOk,
      Unwind, Frame;
    RunIf(w, e, sc, lk, esc, st);
    LowerIfRes(e, sc, c);
    var (x, c1) := LowerExpr(e.cond, sc, c + 1);
    var (a, c2) := LowerBranchInto(e.thn, c, sc, c1);
    var b := LowerBranchInto(e.els.value, c, sc, c2).0;
    var cst1 := cst.(env := cst.env - {c});
    IfResExec(w, c, x, a, b, cst);
    FrameSet(cst.env, c, Unit, c);
    ExprOk(w, e.cond, sc, c + 1, lk, esc, st, cst1);
    var (o, s1) := Eval(w, e.cond, st);
    var t1 := CEval(w, x, cst1).1;
    FrameWeaken(cst1.env, t1.env, c, c + 1, TailValue);
    FrameTrans(cst.env, cst1.env, t1.env, c, c, TailValue);
    if !o.Norm? {
      ExitNotNorm(w, o, sc, s1);
    } else {
      UnwindNorm(w, o, sc, s1);
      var (b, code, cb) := if Truth(o.v) then (e.thn, a, c1) else (e.els.value, b, c2);
      BranchIntoOk(w, b, c, sc, cb, lk, esc, s1, t1);
      IntoFrameAt(t1.env, CExec(w, code, t1).1.env, c, cb, c);
      FrameTrans(cst.env, t1.env, CExec(w, code, t1).1.env, c, c, TailValue);
    }
  }

  /** What the statement expression of a valued `if` with a result variable does. */
  lemma IfResExec(w: World, c: nat, x: CExpr, a: seq<CStmt>, b: seq<CStmt>, st: CState)
    ensures CEval(w, CStmtExpr([CDecl(c), CIf(x, a, b), CDo(CTemp(c))], false), st) ==
            (var (o, s1) := CEval(w, x, st.(env := st.env - {c}));
             if !o.CNorm? then (o, s1)
             else
               var (o2, s2) := CExec(w, if Truth(o.v) then a else b, s1);
               if !o2.CNorm? then (o2, s2)
               else (if c in s2.env then CNorm(s2.env[c]) else CStuck, s2))
  {
    var rest := [CIf(x, a, b)] + [CDo(CTemp(c))];
    assert [CDecl(c), CIf(x, a, b), CDo(CTemp(c))] == [CDecl(c)] + rest;
    CExecCons(w, CDecl(c), rest, st);
    var st1 := st.(env := st.env - {c});
    CExecCons(w, CIf(x, a, b), [CDo(CTemp(c))], st1);
    var (o, s1) := CEval(w, x, st1);
    if o.CNorm? {
      CExecOne(w, CDo(CTemp(c)), CExec(w, if Truth(o.v) then a else b, s1).1);
    }
  }

  /** A branch of type `never` does not complete. */
  lemma NeverBranch(w: World, b: Expr, sc: Scopes, lk: LoopKind, esc: bool, st: State)
    requires WFBranch(b, lk, esc) && TypeOf(b) == Never
    ensures !RunScoped(w, BranchStmts(b), Val, sc, st).0.Norm?
  {
    hide EvalBlock, WFStmts, Unwind;
    assert TailTy(BranchStmts(b)) == Never;
    BlockAllowed(w, BranchStmts(b), lk, esc, st);
    var (o, s1) := EvalBlock(w, BranchStmts(b), st);
    ExitNotNorm(w, o, sc, s1);
  }

  lemma LowerInto(b: Expr, res: nat, sc: Scopes, c: nat)
    ensures LowerBranchInto(b, res, sc, c).0 ==
            if TypeOf(b) == Never then LowerBranch(b, sc, c).0 else [CSet(res, LowerExpr(b, sc, c).0)]
  {
    hide LowerBranch, LowerExpr;
  }

  lemma {:induction false} BranchIntoOk(w: World, b: Expr, res: nat, sc: Scopes, c: nat, lk: LoopKind, esc: bool, st: State, cst: CState)
    requires WFBranch(b, lk, esc) && TypeOf(b) != Void && ScOk(sc) && SameRun(st, cst) && res < c
    ensures var r := RunScoped(w, BranchStmts(b), Val, sc, st);
            var cr := CExec(w, LowerBranchInto(b, res, sc, c).0, cst);
            && SameRun(r.1, cr.1) && Frame(cst.env, cr.1.env, c, TailAssign(res))
            && if r.0.Norm? then cr.0.CNorm? && res in cr.1.env && cr.1.env[res] == r.0.v
               else SimOut(r.0, cr.0, cr.1)
    decreases st.fuel, ScSize(sc) + Size(b) + 1, 8
  {
    hide WF, WFOperands, WFStmts, WFArms, WFBranch, Eval, EvalArgs, EvalBlock, EvalStmts, EvalExit, EvalLoop, EvalFor,
      LowerExpr, LowerArgs, LowerStmts, LowerArms, LowerDefers, LowerToFunc, LowerToLoop, LowerStmtForm, LowerBranch,
      LowerBranchInto, CEval, CEvalArgs, CExec, CStep, CRunWhile, CRunFor, SizeAll, SizeArms, ScOk,
      Unwind, Frame;
    hide RunScoped, BranchStmts;
    LowerInto(b, res, sc, c);
    if TypeOf(b) == Never {
      BranchOk(w, b, sc, c, lk, esc, st, cst);
      NeverBranch(w, b, sc, lk, esc, st);
      FrameWeaken(cst.env, CExec(w, LowerBranch(b, sc, c).0, cst).1.env, c, c, TailAssign(res));
    } else {
      RunBranchExpr(w, b, sc, lk, esc, st);
      ExprOk(w, b, sc, c, lk, esc, st, cst);
      var x := LowerExpr(b, sc, c).0;
      ExecSet(w, res, x, cst);
      var (o, s1) := Eval(w, b, st);
      var t1 := CEval(w, x, cst).1;
      FrameWeaken(cst.env, t1.env, c, c, TailAssign(res));
      if o.Norm? {
        UnwindNorm(w, o, sc, s1);
        FrameAssign(cst.env, t1.env, c, res, o.v);
      } else {
        ExitNotNorm(w, o, sc, s1);
      }
    }
  }

  /** A `match` runs the selected arm in a scope of its own. */
  lemma RunMatch(w: World, e: Expr, sc: Scopes, lk: LoopKind, esc: bool, st: State)
    requires e.Match? && WF(e, lk, esc)
    ensures WF(e.subject, lk, esc) && IsOperandForm(e.subject) && e.arms != [] && WFArms(e.arms, e.mty, lk, esc)
    ensures Size(e) == 2 + Size(e.subject) + SizeArms(e.arms)
    ensures Run(w, e, sc, st) ==
            (var (o, s1) := Eval(w, e.subject, st);
             if !o.Norm? then Unwind(w, o, sc, s1)
             else RunScoped(w, e.arms[ArmOf(o.v, |e.arms|)].body, e.mty, sc, s1))
  {
    hide EvalStmts, EvalExit, EvalBlock, EvalArgs, EvalLoop, EvalFor;
  }

  /** What the statement expression of a `match` does: `m` is the result
      variable, if it has one. */
  lemma MatchExec(w: World, c: nat, x: CExpr, m: Option<nat>, xs: seq<CArm>, st: CState)
    requires xs != [] && (m.Some? ==> m.value != c)
    ensures var body := if m.Some? then [CSet(c, x), CDecl(m.value), CChain(CTemp(c), xs), CDo(CTemp(m.value))]
                        else [CSet(c, x), CChain(CTemp(c), xs)];
            CEval(w, CStmtExpr(body, false), st) ==
            (var (o, s1) := CEval(w, x, st);
             if !o.CNorm? then (o, s1)
             else
               var (o3, s3) := CExec(w, xs[ArmOf(o.v, |xs|)].body, MatchEnv(s1, o.v, c, m));
               if !o3.CNorm? then (o3, s3)
               else if m.None? then (CNorm(Unit), s3)
               else (if m.value in s3.env then CNorm(s3.env[m.value]) else CStuck, s3))
  {
    hide CEval, CStep, CExec;
    var last := if m.Some? then [CDo(CTemp(m.value))] else [];
    var chain := CChain(CTemp(c), xs);
    var rest := if m.Some? then [CDecl(m.value)] + ([chain] + last) else [chain] + last;
    var body := if m.Some? then [CSet(c, x), CDecl(m.value), CChain(CTemp(c), xs), CDo(CTemp(m.value))]
                else [CSet(c, x), CChain(CTemp(c), xs)];
    assert body == [CSet(c, x)] + rest;
    StmtExprRun(w, body, st);
    CExecCons(w, CSet(c, x), rest, st);
    SetRun(w, c, x, st);
    var (o, s1) := CEval(w, x, st);
    if o.CNorm? {
      var e1 := s1.env[c := o.v];
      var s2 := s1.(env := if m.Some? then e1 - {m.value} else e1);
      if m.Some? {
        DeclRun(w, m.value, s1.(env := e1));
        CExecCons(w, CDecl(m.value), [chain] + last, s1.(env := e1));
      }
      CExecCons(w, chain, last, s2);
      ChainRun(w, c, xs, s2);
      if m.Some? {
        CExecOne(w, last[0], CStep(w, chain, s2).1);
        TempRun(w, m.value, CStep(w, chain, s2).1);
      }
    }
  }

  lemma StmtExprRun(w: World, body: seq<CStmt>, st: CState)
    ensures CEval(w, CStmtExpr(body, false), st) == CExec(w, body, st)
  {
  }

  lemma SetRun(w: World, c: nat, x: CExpr, st: CState)
    ensures CStep(w, CSet(c, x), st) ==
            (var (o, s1) := CEval(w, x, st); if o.CNorm? then (CNorm(Unit), s1.(env := s1.env[c := o.v])) else (o, s1))
  {
  }

  lemma DeclRun(w: World, t: nat, st: CState)
    ensures CStep(w, CDecl(t), st) == (CNorm(Unit), st.(env := st.env - {t}))
  {
  }

  lemma TempRun(w: World, t: nat, st: CState)
    ensures CStep(w, CDo(CTemp(t)), st) == (if t in st.env then CNorm(st.env[t]) else CStuck, st)
  {
  }

  lemma ChainRun(w: World, c: nat, xs: seq<CArm>, st: CState)
    requires xs != [] && c in st.env
    ensures CStep(w, CChain(CTemp(c), xs), st) ==
            (var (o, s1) := CExec(w, xs[ArmOf(st.env[c], |xs|)].body, st); (if o.CNorm? then CNorm(Unit) else o, s1))
  {
  }

  lemma LowerMatch(e: Expr, sc: Scopes, c: nat)
    requires e.Match?
    ensures var (x, c1) := LowerExpr(e.subject, sc, c + 1);
            var (tail, c2) := if Valueless(e.mty) then (TailDiscard, c1) else (TailAssign(c1), c1 + 1);
            var xs := LowerArms(e.arms, sc, tail, c2).0;
            LowerExpr(e, sc, c).0 == CStmtExpr(
              if Valueless(e.mty) then [CSet(c, x), CChain(CTemp(c), xs)]
              else [CSet(c, x), CDecl(c1), CChain(CTemp(c), xs), CDo(CTemp(c1))], false)
  {
  }

  lemma {:induction false} MatchOk(w: World, e: Expr, sc: Scopes, c: nat, lk: LoopKind, esc: bool, st: State, cst: CState)
    requires e.Match? && WF(e, lk, esc) && ScOk(sc) && SameRun(st, cst)
    ensures Matches(Run(w, e, sc, st), CEval(w, LowerExpr(e, sc, c).0, cst), cst.env, c)
    decreases st.fuel, ScSize(sc) + Size(e), 1
  {
    hide WF, WFOperands, WFStmts, WFArms, WFBranch, Eval, EvalArgs, EvalBlock, EvalStmts, EvalExit, EvalLoop, EvalFor,
      LowerExpr, LowerArgs, LowerStmts, LowerArms, LowerDefers, LowerToFunc, LowerToLoop, LowerStmtForm, LowerBranch,
      LowerBranchInto, CEval, CEvalArgs, CExec, CStep, CRunWhile, CRunFor, Size, SizeAll, SizeArms, ScSize, ScOk,
      Unwind, Frame;
    RunMatch(w, e, sc, lk, esc, st);
    LowerMatch(e, sc, c);
    var (x, c1) := LowerExpr(e.subject, sc, c + 1);
    var m := if Valueless(e.mty) then None else Some(c1);
    var tail := if Valueless(e.mty) then TailDiscard else TailAssign(c1);
    var xs := LowerArms(e.arms, sc, tail, if Valueless(e.mty) then c1 else c1 + 1).0;
    MatchExec(w, c, x, m, xs, cst);
    ExprOk(w, e.subject, sc, c + 1, lk, esc, st, cst);
    var (o, s1) := Eval(w, e.subject, st);
    var (co, t1) := CEval(w, x, cst);
    FrameWeaken(cst.env, t1.env, c, c + 1, TailValue);
    if !o.Norm? {
      ExitNotNorm(w, o, sc, s1);
    } else {
      UnwindNorm(w, o, sc, s1);
      MatchArmOk(w, e.arms, e.mty, o.v, sc, c, c1, lk, esc, s1, t1);
      FrameTrans(cst.env, t1.env, CExec(w, xs[ArmOf(o.v, |xs|)].body, MatchEnv(t1, o.v, c, m)).1.env, c, c, TailValue);
    }
  }

  /** The state an arm starts in: the subject stored in `c`, and the result
      variable, if any, declared. */
  function MatchEnv(cst: CState, v: Value, c: nat, m: Option<nat>): CState {
    var e1 := cst.env[c := v];
    cst.(env := if m.Some? then e1 - {m.value} else e1)
  }

  lemma {:induction false} MatchArmOk(w: World, arms: seq<Arm>, t: Ty, v: Value, sc: Scopes, c: nat, c1: nat, lk: LoopKind, esc: bool, st: State, cst: CState)
    requires arms != [] && WFArms(arms, t, lk, esc) && ScOk(sc) && SameRun(st, cst) && c < c1
    ensures var m := if Valueless(t) then None else Some(c1);
            var tail := if Valueless(t) then TailDiscard else TailAssign(c1);
            var xs := LowerArms(arms, sc, tail, if Valueless(t) then c1 else c1 + 1).0;
            var k := ArmOf(v, |arms|);
            var r := RunScoped(w, arms[k].body, t, sc, st);
            var cr := CExec(w, xs[k].body, MatchEnv(cst, v, c, m));
            && SameRun(r.1, cr.1) && Frame(cst.env, cr.1.env, c, TailValue)
            && if !r.0.Norm? then SimOut(r.0, cr.0, cr.1)
               else cr.0.CNorm? && (t != Val ==> r.0.v == Unit) &&
                    (t == Val ==> c1 in cr.1.env && cr.1.env[c1] == r.0.v)
    decreases st.fuel, ScSize(sc) + SizeArms(arms), 12
  {
    hide WF, WFStmts, Eval, EvalBlock, Size, SizeAll, ScOk, Unwind, LowerStmts, CExec;
    var m := if Valueless(t) then None else Some(c1);
    var tail := if Valueless(t) then TailDiscard else TailAssign(c1);
    var c2 := if Valueless(t) then c1 else c1 + 1;
    var k := ArmOf(v, |arms|);
    SizeArm(arms, k);
    WFArmAt(arms, t, lk, esc, k);
    var ck := LowerArmAt(arms, sc, tail, c2, k);
    hide WFArms, SizeArms, LowerArms;
    var t2 := MatchEnv(cst, v, c, m);
    FrameSet(cst.env, c, v, c);
    FrameSet(cst.env[c := v], c1, Unit, c);
    FrameTrans(cst.env, cst.env[c := v], cst.env[c := v] - {c1}, c, c, TailValue);
    ArmOk(w, arms[k].body, t, sc, tail, ck, lk, esc, st, t2);
    var t3 := CExec(w, LowerArms(arms, sc, tail, c2).0[k].body, t2).1;
    hide Frame;
    if m.Some? {
      IntoFrameAt(t2.env, t3.env, c, ck, c1);
    } else {
      FrameWeaken(t2.env, t3.env, c, ck, TailValue);
    }
    FrameTrans(cst.env, t2.env, t3.env, c, c, TailValue);
  }

  lemma IntoFrameAt(a: map<nat, Value>, b: map<nat, Value>, c: nat, c1: nat, t: nat)
    requires Frame(a, b, c1, TailAssign(t)) && c <= c1 && c <= t
    ensures Frame(a, b, c, TailValue)
  {
  }

  /** The counter at which arm `k` is emitted. */
  lemma {:induction false} LowerArmAt(arms: seq<Arm>, sc: Scopes, tail: Tail, c: nat, k: nat) returns (ck: nat)
    requires k < |arms|
    ensures ck >= c
    ensures LowerArms(arms, sc, tail, c).0[k].body == LowerStmts(arms[k].body, Push(false, [], sc), tail, ck).0
    decreases k
  {
    var (x, c1) := LowerStmts(arms[0].body, Push(false, [], sc), tail, c);
    if k == 0 {
      ck := c;
    } else {
      ck := LowerArmAt(arms[1..], sc, tail, c1, k - 1);
    }
  }

  lemma {:induction false} ArmOk(w: World, body: seq<Expr>, t: Ty, sc: Scopes, tail: Tail, c: nat, lk: LoopKind, esc: bool, st: State, cst: CState)
    requires WFStmts(body, lk, esc) && ScOk(sc) && SameRun(st, cst)
    requires if t == Val then tail.TailAssign? && tail.target < c && TailTy(body) != Void else tail == TailDiscard
    requires t == Never ==> TailTy(body) == Never
    ensures var r := RunScoped(w, body, t, sc, st);
            var cr := CExec(w, LowerStmts(body, Push(false, [], sc), tail, c).0, cst);
            && SameRun(r.1, cr.1) && Frame(cst.env, cr.1.env, c, tail)
            && if !r.0.Norm? then SimOut(r.0, cr.0, cr.1)
               else cr.0.CNorm? && (t != Val ==> r.0.v == Unit) &&
                    (t == Val ==> tail.target in cr.1.env && cr.1.env[tail.target] == r.0.v)
    decreases st.fuel, ScSize(sc) + SizeAll(body), 10
  {
    StmtsOk(w, body, Push(false, [], sc), tail, c, lk, esc, st, cst);
    FreshScope(w, body, false, sc, st);
    var (o, s1) := EvalBlock(w, body, st);
    if !o.Norm? {
      ExitNotNorm(w, o, sc, s1);
    }
  }

  /** Running a block in a fresh scope is one activation, then unwinding. */
  lemma FreshScope(w: World, stmts: seq<Expr>, isLoop: bool, sc: Scopes, st: State)
    ensures var (o, s1) := EvalBlock(w, stmts, st);
            RunRest(w, stmts, Push(isLoop, [], sc), st) ==
            (if isLoop && (o.Brk? || o.Cont?) then (o, s1) else Unwind(w, o, sc, s1))
  {
  }

  lemma {:induction false} BlockOk(w: World, e: Expr, sc: Scopes, c: nat, lk: LoopKind, esc: bool, st: State, cst: CState)
    requires e.Block? && WF(e, lk, esc) && ScOk(sc) && SameRun(st, cst)
    ensures Matches(Run(w, e, sc, st), CEval(w, LowerExpr(e, sc, c).0, cst), cst.env, c)
    decreases st.fuel, ScSize(sc) + Size(e), 1
  {
    StmtsOk(w, e.stmts, Push(false, [], sc), TailValue, c, lk, esc, st, cst);
    FreshScope(w, e.stmts, false, sc, st);
    BlockAllowed(w, e.stmts, lk, esc, st);
    var (o, s1) := EvalBlock(w, e.stmts, st);
    if !o.Norm? {
      ExitNotNorm(w, o, sc, s1);
    }
  }

  /** The check of `x?` on a stored operand. */
  lemma CheckStep(w: World, c: nat, ds: seq<CStmt>, v: Value, st: CState)
    requires c in st.env && st.env[c] == v
    ensures CStep(w, CIf(CFails(CTemp(c)), ds + [CReturn(Some(CFailure(CTemp(c))))], []), st) ==
            if w.fails(v) then
              var (o3, s3) := CExec(w, ds, st);
              if !o3.CNorm? then (o3, s3)
              else if c in s3.env then (CRet(Some(w.failure(s3.env[c]))), s3) else (CStuck, s3)
            else (CNorm(Unit), st)
  {
    var ret := CReturn(Some(CFailure(CTemp(c))));
    assert CEval(w, CTemp(c), st) == (CNorm(v), st);
    if w.fails(v) {
      ThenLast(w, ds, ret, st);
      var s3 := CExec(w, ds, st).1;
      assert CEval(w, CTemp(c), s3) == (if c in s3.env then CNorm(s3.env[c]) else CStuck, s3);
    } else {
      assert CExec(w, [], st) == (CNorm(Unit), st);
    }
  }

  /** What the statement expression of `x?` does. */
  lemma TryExec(w: World, c: nat, a: CExpr, ds: seq<CStmt>, valued: bool, st: CState)
    ensures var ret := CReturn(Some(CFailure(CTemp(c))));
            var last := if valued then [CDo(CPayload(CTemp(c)))] else [];
            CEval(w, CStmtExpr([CSet(c, a), CIf(CFails(CTemp(c)), ds + [ret], [])] + last, false), st) ==
            (var (o, s1) := CEval(w, a, st);
             if !o.CNorm? then (o, s1)
             else
               var s2 := s1.(env := s1.env[c := o.v]);
               if w.fails(o.v) then
                 var (o3, s3) := CExec(w, ds, s2);
                 if !o3.CNorm? then (o3, s3)
                 else if c in s3.env then (CRet(Some(w.failure(s3.env[c]))), s3) else (CStuck, s3)
               else (CNorm(if valued then w.payload(o.v) else Unit), s2))
  {
    var last := if valued then [CDo(CPayload(CTemp(c)))] else [];
    var check := CIf(CFails(CTemp(c)), ds + [CReturn(Some(CFailure(CTemp(c))))], []);
    assert [CSet(c, a), check] + last == [CSet(c, a)] + ([check] + last);
    CExecCons(w, CSet(c, a), [check] + last, st);
    var (o, s1) := CEval(w, a, st);
    if o.CNorm? {
      var s2 := s1.(env := s1.env[c := o.v]);
      CExecCons(w, check, last, s2);
      CheckStep(w, c, ds, o.v, s2);
      if valued {
        assert CEval(w, CTemp(c), s2) == (CNorm(o.v), s2);
        CExecOne(w, last[0], s2);
      }
    }
  }

  /** `x?` yields the payload, or leaves the function with the failure. */
  lemma RunTry(w: World, e: Expr, sc: Scopes, lk: LoopKind, esc: bool, st: State)
    requires e.Try? && WF(e, lk, esc)
    ensures WF(e.operand, lk, esc) && IsOperandForm(e.operand) && Size(e) == 1 + Size(e.operand) && e.tty != Never
    ensures Run(w, e, sc, st) ==
            (var (o, s1) := Eval(w, e.operand, st);
             if !o.Norm? then Unwind(w, o, sc, s1)
             else if w.fails(o.v) then Unwind(w, Ret(Some(w.failure(o.v))), sc, s1)
             else (AsTy(Norm(w.payload(o.v)), e.tty), s1))
  {
    hide EvalExit;
  }

  lemma LowerTry(e: Expr, sc: Scopes, c: nat)
    requires e.Try?
    ensures var (a, c1) := LowerExpr(e.operand, sc, c + 1);
            LowerExpr(e, sc, c).0 == CStmtExpr(
              [CSet(c, a), CIf(CFails(CTemp(c)), LowerToFunc(sc, c1).0 + [CReturn(Some(CFailure(CTemp(c))))], [])] +
              if e.tty == Val then [CDo(CPayload(CTemp(c)))] else [], false)
  {
  }

  lemma {:induction false} TryOk(w: World, e: Expr, sc: Scopes, c: nat, lk: LoopKind, esc: bool, st: State, cst: CState)
    requires e.Try? && WF(e, lk, esc) && ScOk(sc) && SameRun(st, cst)
    ensures Matches(Run(w, e, sc, st), CEval(w, LowerExpr(e, sc, c).0, cst), cst.env, c)
    decreases st.fuel, ScSize(sc) + Size(e), 1
  {
    hide WF, WFOperands, WFStmts, WFArms, WFBranch, Eval, EvalArgs, EvalBlock, EvalStmts, EvalExit, EvalLoop, EvalFor,
      LowerExpr, LowerArgs, LowerStmts, LowerArms, LowerDefers, LowerToFunc, LowerToLoop, LowerStmtForm, LowerBranch,
      LowerBranchInto, CEval, CEvalArgs, CExec, CStep, CRunWhile, CRunFor, Size, SizeAll, SizeArms, ScSize, ScOk,
      Unwind, Frame;
    RunTry(w, e, sc, lk, esc, st);
    LowerTry(e, sc, c);
    var (a, c1) := LowerExpr(e.operand, sc, c + 1);
    var (ds, c2) := LowerToFunc(sc, c1);
    TryExec(w, c, a, ds, e.tty == Val, cst);
    ExprOk(w, e.operand, sc, c + 1, lk, esc, st, cst);
    var (o, s1) := Eval(w, e.operand, st);
    var t1 := CEval(w, a, cst).1;
    FrameWeaken(cst.env, t1.env, c, c + 1, TailValue);
    if !o.Norm? {
      ExitNotNorm(w, o, sc, s1);
    } else {
      UnwindNorm(w, o, sc, s1);
      var t2 := t1.(env := t1.env[c := o.v]);
      FrameSet(t1.env, c, o.v, c);
      FrameTrans(cst.env, t1.env, t2.env, c, c, TailValue);
      if w.fails(o.v) {
        var back := Ret(Some(w.failure(o.v)));
        ToFuncOk(w, sc, c1, back, s1, t2);
        var t3 := CExec(w, ds, t2).1;
        FrameKeep(t2.env, t3.env, c1, c, TailValue);
        FrameTrans(cst.env, t2.env, t3.env, c, c1, TailValue);
      }
    }
  }

  /** What the statement expression of a valued `loop` does. */
  lemma LoopExec(w: World, b: seq<CStmt>, st: CState)
    ensures CEval(w, CStmtExpr([CWhile(b), CDo(CLoopRes)], true), st) ==
            (var (o, s1) := CRunWhile(w, b, st.(loopRes := None));
             (if !o.CNorm? then o else if s1.loopRes.Some? then CNorm(s1.loopRes.value) else CStuck,
              s1.(loopRes := st.loopRes)))
  {
    assert [CWhile(b), CDo(CLoopRes)] == [CWhile(b)] + [CDo(CLoopRes)];
    var inner := st.(loopRes := None);
    CExecCons(w, CWhile(b), [CDo(CLoopRes)], inner);
    CExecOne(w, CDo(CLoopRes), CRunWhile(w, b, inner).1);
  }

  lemma RunLoop(w: World, e: Expr, sc: Scopes, c: nat, lk: LoopKind, esc: bool, st: State)
    requires e.Loop? && WF(e, lk, esc)
    ensures WFStmts(e.body, if e.lty == Val then ValLoop else VoidLoop, esc) && Size(e) == 2 + SizeAll(e.body)
    ensures Run(w, e, sc, st) == (var (o, s1) := EvalLoop(w, e.body, st); Unwind(w, AsTy(o, e.lty), sc, s1))
    ensures var b := LowerStmts(e.body, Push(true, [], sc), TailDiscard, c).0;
            if e.lty == Val then LowerExpr(e, sc, c).0 == CStmtExpr([CWhile(b), CDo(CLoopRes)], true)
            else LowerStmtForm(e, sc, c).0 == [CWhile(b)]
  {
    hide EvalLoop, EvalStmts, LowerStmts;
  }

  lemma {:induction false} LoopExprOk(w: World, e: Expr, sc: Scopes, c: nat, lk: LoopKind, esc: bool, st: State, cst: CState)
    requires e.Loop? && e.lty == Val && WF(e, lk, esc) && ScOk(sc) && SameRun(st, cst)
    ensures Matches(Run(w, e, sc, st), CEval(w, LowerExpr(e, sc, c).0, cst), cst.env, c)
    decreases st.fuel, ScSize(sc) + Size(e), 1
  {
    hide WF, WFOperands, WFStmts, WFArms, WFBranch, Eval, EvalArgs, EvalBlock, EvalStmts, EvalExit, EvalLoop, EvalFor,
      LowerExpr, LowerArgs, LowerStmts, LowerArms, LowerDefers, LowerToFunc, LowerToLoop, LowerStmtForm, LowerBranch,
      LowerBranchInto, CEval, CEvalArgs, CExec, CStep, CRunWhile, CRunFor, Size, SizeAll, SizeArms, ScSize, ScOk,
      Unwind, Frame;
    RunLoop(w, e, sc, c, lk, esc, st);
    var b := LowerStmts(e.body, Push(true, [], sc), TailDiscard, c).0;
    LoopExec(w, b, cst);
    LoopOk(w, e.body, sc, c, ValLoop, esc, st, cst.(loopRes := None));
    LoopAllowed(w, e.body, ValLoop, esc, st);
    var (o, s1) := EvalLoop(w, e.body, st);
    if o.Norm? {
      UnwindNorm(w, o, sc, s1);
    } else {
      ExitNotNorm(w, o, sc, s1);
      NotABreak(w, o, sc, s1);
    }
  }

  /** Unwinding a return or a stop never yields a break. */
  lemma {:induction false} NotABreak(w: World, o: Outcome, sc: Scopes, st: State)
    requires !o.Brk?
    ensures !Unwind(w, o, sc, st).0.Brk?
    decreases sc
  {
    if sc.Push? && !o.Stop? && !o.Norm? {
      ExitKeeps(w, o, sc.defers, st);
      var (o1, s1) := EvalExit(w, o, sc.defers, st);
      NotABreak(w, o1, sc.parent, s1);
    }
  }

  // ----- loops -----

  /** One turn of each `loop`. */
  lemma LoopUnfold(w: World, body: seq<Expr>, code: seq<CStmt>, st: State, cst: CState)
    requires SameRun(st, cst)
    ensures var r, cr := EvalLoop(w, body, st), CRunWhile(w, code, cst);
            if st.fuel == 0 then r == (Stop(false), st) && cr == (CStop(false), cst)
            else
              var (o, s1) := EvalBlock(w, body, st.(fuel := st.fuel - 1));
              var (co, t1) := CExec(w, code, cst.(fuel := cst.fuel - 1));
              && r == (if o.Norm? || o.Cont? then EvalLoop(w, body, s1)
                       else if o.Brk? then (Norm(if o.bv.Some? then o.bv.value else Unit), s1) else (o, s1))
              && cr == (if co.CNorm? || co.CCont? then CRunWhile(w, code, t1)
                        else if co.CBrk? then (CNorm(Unit), t1) else (co, t1))
  {
    hide EvalBlock, EvalStmts, CExec, CStep;
  }

  lemma {:induction false} LoopOk(w: World, body: seq<Expr>, sc: Scopes, c: nat, lk: LoopKind, esc: bool, st: State, cst: CState)
    requires WFStmts(body, lk, esc) && lk != NoLoop && ScOk(sc) && SameRun(st, cst)
    ensures var (o, s1) := EvalLoop(w, body, st);
            var r := Unwind(w, o, sc, s1);
            var cr := CRunWhile(w, LowerStmts(body, Push(true, [], sc), TailDiscard, c).0, cst);
            && SameRun(r.1, cr.1) && Frame(cst.env, cr.1.env, c, TailValue)
            && if o.Norm? then cr.0 == CNorm(Unit) && (lk == ValLoop ==> cr.1.loopRes == Some(o.v))
               else SimOut(r.0, cr.0, cr.1)
    decreases st.fuel, ScSize(sc) + SizeAll(body), 12
  {
    hide WF, WFOperands, WFStmts, WFArms, WFBranch, Eval, EvalArgs, EvalBlock, EvalStmts, EvalExit, EvalLoop, EvalFor,
      LowerExpr, LowerArgs, LowerStmts, LowerArms, LowerDefers, LowerToFunc, LowerToLoop, LowerStmtForm, LowerBranch,
      LowerBranchInto, CEval, CEvalArgs, CExec, CStep, CRunWhile, CRunFor, Size, SizeArms, ScOk,
      Unwind, Frame;
    var code := LowerStmts(body, Push(true, [], sc), TailDiscard, c).0;
    LoopUnfold(w, body, code, st, cst);
    FrameRefl(cst.env, c);
    if st.fuel > 0 {
      LoopStepOk(w, body, sc, c, lk, esc, st, cst);
      var (o, s1) := EvalBlock(w, body, st.(fuel := st.fuel - 1));
      var (co, t1) := CExec(w, code, cst.(fuel := cst.fuel - 1));
      if o.Norm? || o.Cont? {
        LoopOk(w, body, sc, c, lk, esc, s1, t1);
        FrameTrans(cst.env, t1.env, CRunWhile(w, code, t1).1.env, c, c, TailValue);
      } else if o.Ret? {
        NotABreak(w, o, sc, s1);
      } else {
        UnwindNorm(w, if o.Brk? then Norm(if o.bv.Some? then o.bv.value else Unit) else o, sc, s1);
      }
    } else {
      UnwindNorm(w, Stop(false), sc, st);
    }
  }

  /** How one turn of a loop body matches: it goes on, leaves the loop, or
      leaves the function through the scopes around the loop. */
  ghost predicate LoopTurn(w: World, o: Outcome, s1: State, co: COut, t1: CState, lk: LoopKind, sc: Scopes) {
    match o
    case Norm(_) => co.CNorm? && SameRun(s1, t1)
    case Cont => co == CCont && SameRun(s1, t1)
    case Brk(bv) => co == CBrk && SameRun(s1, t1) && (lk == ValLoop ==> bv.Some?) && (bv.Some? ==> t1.loopRes == bv)
    case Ret(_) =>
      (var r := Unwind(w, o, sc, s1);
       co == OfOutcome(r.0) && (r.0 == o || r.0.Stop?) && SameRun(r.1, t1))
    case Stop(_) => co == OfOutcome(o) && SameRun(s1, t1)
  }

  lemma {:induction false} LoopStepOk(w: World, body: seq<Expr>, sc: Scopes, c: nat, lk: LoopKind, esc: bool, st: State, cst: CState)
    requires WFStmts(body, lk, esc) && lk != NoLoop && ScOk(sc) && SameRun(st, cst) && st.fuel > 0
    ensures var (o, s1) := EvalBlock(w, body, st.(fuel := st.fuel - 1));
            var (co, t1) := CExec(w, LowerStmts(body, Push(true, [], sc), TailDiscard, c).0, cst.(fuel := cst.fuel - 1));
            LoopTurn(w, o, s1, co, t1, lk, sc) && Frame(cst.env, t1.env, c, TailValue)
    decreases st.fuel, ScSize(sc) + SizeAll(body), 11
  {
    hide WF, WFOperands, WFStmts, WFArms, WFBranch, Eval, EvalArgs, EvalBlock, EvalStmts, EvalExit, EvalLoop, EvalFor,
      LowerExpr, LowerArgs, LowerStmts, LowerArms, LowerDefers, LowerToFunc, LowerToLoop, LowerStmtForm, LowerBranch,
      LowerBranchInto, CEval, CEvalArgs, CExec, CStep, CRunWhile, CRunFor, Size, SizeAll, SizeArms,
      Frame;
    hide RunRest;
    var st1, cst1 := st.(fuel := st.fuel - 1), cst.(fuel := cst.fuel - 1);
    StmtsOk(w, body, Push(true, [], sc), TailDiscard, c, lk, esc, st1, cst1);
    FreshScope(w, body, true, sc, st1);
    BlockAllowed(w, body, lk, esc, st1);
    var (o, s1) := EvalBlock(w, body, st1);
    FrameWeaken2(cst1.env, CExec(w, LowerStmts(body, Push(true, [], sc), TailDiscard, c).0, cst1).1.env, c);
    if o.Ret? {
      RetStays(w, o, sc, s1);
    }
  }

  lemma FrameWeaken2(a: map<nat, Value>, b: map<nat, Value>, c: nat)
    requires Frame(a, b, c, TailDiscard)
    ensures Frame(a, b, c, TailValue)
  {
  }

  /** Unwinding a return yields that return or a stop. */
  lemma {:induction false} RetStays(w: World, o: Outcome, sc: Scopes, st: State)
    requires o.Ret?
    ensures var r := Unwind(w, o, sc, st).0; r == o || r.Stop?
    decreases sc
  {
    if sc.Push? {
      ExitKeeps(w, o, sc.defers, st);
      EscapeLeaves(w, o, sc, st);
      var (o1, s1) := EvalExit(w, o, sc.defers, st);
      if o1.Ret? {
        RetStays(w, o1, sc.parent, s1);
      }
    }
  }

  /** One turn of each `for`. */
  lemma ForUnfold(w: World, t: nat, i: nat, elem: nat, body: seq<Expr>, code: seq<CStmt>, st: State, cst: CState)
    requires t in cst.env && SameRun(st, cst)
    ensures var v := cst.env[t];
            var (a, tr) := Act(w, elem, [v, Int(i)], Void, st.trace);
            var r, cr := EvalFor(w, v, i, elem, body, st), CRunFor(w, t, i, elem, code, cst);
            if i >= w.count(v) then r == (Norm(Unit), st) && cr == (CNorm(Unit), cst)
            else if st.fuel == 0 then r == (Stop(false), st) && cr == (CStop(false), cst)
            else if !a.Norm? then r == (a, st.(trace := tr)) && cr == (OfOutcome(a), cst.(trace := tr))
            else
              var (o, s1) := EvalBlock(w, body, State(tr, st.fuel - 1));
              var (co, t1) := CExec(w, code, cst.(trace := tr, fuel := cst.fuel - 1));
              && r == (if o.Norm? || o.Cont? then EvalFor(w, v, i + 1, elem, body, s1)
                       else if o.Brk? then (Norm(Unit), s1) else (o, s1))
              && cr == (if co.CNorm? || co.CCont? then CRunFor(w, t, i + 1, elem, code, t1)
                        else if co.CBrk? then (CNorm(Unit), t1) else (co, t1))
  {
    hide EvalBlock, EvalStmts, CExec, CStep;
  }

  lemma {:induction false} ForOk(w: World, t: nat, i: nat, elem: nat, body: seq<Expr>, sc: Scopes, c: nat, esc: bool, st: State, cst: CState)
    requires WFStmts(body, VoidLoop, esc) && ScOk(sc) && SameRun(st, cst)
    requires t < c && t in cst.env
    ensures var (o, s1) := EvalFor(w, cst.env[t], i, elem, body, st);
            var r := Unwind(w, o, sc, s1);
            var cr := CRunFor(w, t, i, elem, LowerStmts(body, Push(true, [], sc), TailDiscard, c).0, cst);
            Matches(r, cr, cst.env, c)
    decreases st.fuel, ScSize(sc) + SizeAll(body), 12
  {
    hide WF, WFOperands, WFStmts, WFArms, WFBranch, Eval, EvalArgs, EvalBlock, EvalStmts, EvalExit, EvalLoop, EvalFor,
      LowerExpr, LowerArgs, LowerStmts, LowerArms, LowerDefers, LowerToFunc, LowerToLoop, LowerStmtForm, LowerBranch,
      LowerBranchInto, CEval, CEvalArgs, CExec, CStep, CRunWhile, CRunFor, Size, SizeArms, ScOk,
      Unwind, Frame;
    var v := cst.env[t];
    var (a, tr) := Act(w, elem, [v, Int(i)], Void, st.trace);
    var code := LowerStmts(body, Push(true, [], sc), TailDiscard, c).0;
    ForUnfold(w, t, i, elem, body, code, st, cst);
    FrameRefl(cst.env, c);
    if i < w.count(v) && st.fuel > 0 && a.Norm? {
      LoopStepOk(w, body, sc, c, VoidLoop, esc, st.(trace := tr), cst.(trace := tr));
      var (o, s1) := EvalBlock(w, body, State(tr, st.fuel - 1));
      var (co, t1) := CExec(w, code, cst.(trace := tr, fuel := cst.fuel - 1));
      FrameKeep(cst.env, t1.env, c, t, TailValue);
      if o.Norm? || o.Cont? {
        ForOk(w, t, i + 1, elem, body, sc, c, esc, s1, t1);
        FrameTrans(cst.env, t1.env, CRunFor(w, t, i + 1, elem, code, t1).1.env, c, c, TailValue);
      } else if o.Ret? {
        NotABreak(w, o, sc, s1);
      } else {
        UnwindNorm(w, if o.Brk? then Norm(Unit) else o, sc, s1);
      }
    } else {
      var (o, s1) := EvalFor(w, v, i, elem, body, st);
      UnwindNorm(w, o, sc, s1);
    }
  }

  lemma FrameRefl(a: map<nat, Value>, c: nat)
    ensures Frame(a, a, c, TailValue)
  {
  }

  // ----- statements -----

  lemma {:induction false} BranchOk(w: World, b: Expr, sc: Scopes, c: nat, lk: LoopKind, esc: bool, st: State, cst: CState)
    requires WFBranch(b, lk, esc) && ScOk(sc) && SameRun(st, cst)
    ensures MatchesVoid(RunScoped(w, BranchStmts(b), Val, sc, st), CExec(w, LowerBranch(b, sc, c).0, cst), cst.env, c)
    decreases st.fuel, ScSize(sc) + Size(b) + 1, 7
  {
    StmtsOk(w, BranchStmts(b), Push(false, [], sc), TailDiscard, c, lk, esc, st, cst);
    FreshScope(w, BranchStmts(b), false, sc, st);
  }

  lemma {:induction false} FormOk(w: World, e: Expr, sc: Scopes, c: nat, lk: LoopKind, esc: bool, st: State, cst: CState)
    requires WF(e, lk, esc) && EmitsStatement(e) && ScOk(sc) && SameRun(st, cst)
    ensures Matches(Run(w, e, sc, st), CExec(w, LowerStmtForm(e, sc, c).0, cst), cst.env, c)
    decreases st.fuel, ScSize(sc) + Size(e), 1
  {
    hide WF, WFOperands, WFStmts, WFArms, WFBranch, Eval, EvalArgs, EvalBlock, EvalStmts, EvalExit, EvalLoop, EvalFor,
      LowerExpr, LowerArgs, LowerStmts, LowerArms, LowerDefers, LowerToFunc, LowerToLoop, LowerStmtForm, LowerBranch,
      LowerBranchInto, CEval, CEvalArgs, CExec, CStep, CRunWhile, CRunFor, Size, SizeAll, SizeArms, ScSize, ScOk,
      Unwind, Frame;
    match e
    case If(_, _, _, _) => IfFormOk(w, e, sc, c, lk, esc, st, cst);
    case Loop(body, _) =>
      RunLoop(w, e, sc, c, lk, esc, st);
      LoopOk(w, body, sc, c, VoidLoop, esc, st, cst);
      LoopAllowed(w, body, VoidLoop, esc, st);
      var (o, s1) := EvalLoop(w, body, st);
      ExecWhile(w, LowerStmts(body, Push(true, [], sc), TailDiscard, c).0, cst);
      if o.Norm? {
        UnwindNorm(w, o, sc, s1);
      } else {
        ExitNotNorm(w, o, sc, s1);
      }
    case For(_, _, _) => ForFormOk(w, e, sc, c, lk, esc, st, cst);
  }

  lemma ExecWhile(w: World, b: seq<CStmt>, st: CState)
    ensures CExec(w, [CWhile(b)], st) == CRunWhile(w, b, st)
  {
    CExecOne(w, CWhile(b), st);
  }

  lemma RunFor(w: World, e: Expr, sc: Scopes, c: nat, lk: LoopKind, esc: bool, st: State, cst: CState)
    requires e.For? && WF(e, lk, esc)
    ensures WF(e.iter, lk, esc) && IsOperandForm(e.iter) && WFStmts(e.fbody, VoidLoop, esc)
    ensures Size(e) == 3 + Size(e.iter) + SizeAll(e.fbody)
    ensures Run(w, e, sc, st) ==
            (var (o, s1) := Eval(w, e.iter, st);
             if !o.Norm? then Unwind(w, o, sc, s1)
             else
               var (o2, s2) := EvalFor(w, o.v, 0, e.elem, e.fbody, s1);
               Unwind(w, o2, sc, s2))
    ensures var (x, c1) := LowerExpr(e.iter, sc, c + 1);
            var b := LowerStmts(e.fbody, Push(true, [], sc), TailDiscard, c1).0;
            LowerStmtForm(e, sc, c).0 == [CSet(c, x), CFor(c, e.elem, b)]
  {
    hide EvalFor, EvalStmts, LowerStmts;
  }

  lemma ForExec(w: World, c: nat, x: CExpr, elem: nat, b: seq<CStmt>, st: CState)
    ensures CExec(w, [CSet(c, x), CFor(c, elem, b)], st) ==
            (var (o, s1) := CEval(w, x, st);
             if !o.CNorm? then (o, s1) else CRunFor(w, c, 0, elem, b, s1.(env := s1.env[c := o.v])))
  {
    assert [CSet(c, x), CFor(c, elem, b)] == [CSet(c, x)] + [CFor(c, elem, b)];
    CExecCons(w, CSet(c, x), [CFor(c, elem, b)], st);
    var (o, s1) := CEval(w, x, st);
    if o.CNorm? {
      CExecOne(w, CFor(c, elem, b), s1.(env := s1.env[c := o.v]));
    }
  }

  lemma {:induction false} ForFormOk(w: World, e: Expr, sc: Scopes, c: nat, lk: LoopKind, esc: bool, st: State, cst: CState)
    requires WF(e, lk, esc) && e.For? && ScOk(sc) && SameRun(st, cst)
    ensures Matches(Run(w, e, sc, st), CExec(w, LowerStmtForm(e, sc, c).0, cst), cst.env, c)
    decreases st.fuel, ScSize(sc) + Size(e), 0
  {
    hide WF, WFOperands, WFStmts, WFArms, WFBranch, Eval, EvalArgs, EvalBlock, EvalStmts, EvalExit, EvalLoop, EvalFor,
      LowerExpr, LowerArgs, LowerStmts, LowerArms, LowerDefers, LowerToFunc, LowerToLoop, LowerStmtForm, LowerBranch,
      LowerBranchInto, CEval, CEvalArgs, CExec, CStep, CRunWhile, CRunFor, Size, SizeAll, SizeArms, ScSize, ScOk,
      Unwind, Frame;
    RunFor(w, e, sc, c, lk, esc, st, cst);
    var (x, c1) := LowerExpr(e.iter, sc, c + 1);
    var b := LowerStmts(e.fbody, Push(true, [], sc), TailDiscard, c1).0;
    ForExec(w, c, x, e.elem, b, cst);
    ExprOk(w, e.iter, sc, c + 1, lk, esc, st, cst);
    var (o, s1) := Eval(w, e.iter, st);
    var t1 := CEval(w, x, cst).1;
    FrameWeaken(cst.env, t1.env, c, c + 1, TailValue);
    if o.Norm? {
      UnwindNorm(w, o, sc, s1);
      var t2 := t1.(env := t1.env[c := o.v]);
      FrameSet(t1.env, c, o.v, c);
      FrameTrans(cst.env, t1.env, t2.env, c, c, TailValue);
      ForOk(w, c, 0, e.elem, e.fbody, sc, c1, esc, s1, t2);
      FrameTrans(cst.env, t2.env, CRunFor(w, c, 0, e.elem, b, t2).1.env, c, c1, TailValue);
    } else {
      ExitNotNorm(w, o, sc, s1);
    }
  }

  /** The statement form of an `if`: an `else if` keeps its own statement form. */
  function ElseCode(e: Expr, sc: Scopes, c: nat): seq<CStmt>
    requires e.If?
  {
    if e.els.None? then []
    else if e.els.value.If? && Valueless(TypeOf(e.els.value)) then LowerStmtForm(e.els.value, sc, c).0
    else LowerBranch(e.els.value, sc, c).0
  }

  lemma LowerIfForm(w: World, e: Expr, sc: Scopes, c: nat, cst: CState)
    requires e.If? && EmitsStatement(e)
    ensures var (x, c1) := LowerExpr(e.cond, sc, c);
            var (a, c2) := LowerBranch(e.thn, sc, c1);
            CExec(w, LowerStmtForm(e, sc, c).0, cst) ==
            (var (o, s1) := CEval(w, x, cst);
             if !o.CNorm? then (o, s1)
             else
               var (o2, s2) := CExec(w, if Truth(o.v) then a else ElseCode(e, sc, c2), s1);
               (if o2.CNorm? then CNorm(Unit) else o2, s2))
  {
    hide LowerBranch;
    var (x, c1) := LowerExpr(e.cond, sc, c);
    var (a, c2) := LowerBranch(e.thn, sc, c1);
    assert LowerStmtForm(e, sc, c).0 == [CIf(x, a, ElseCode(e, sc, c2))];
    CExecOne(w, CIf(x, a, ElseCode(e, sc, c2)), cst);
  }

  lemma {:induction false} IfFormOk(w: World, e: Expr, sc: Scopes, c: nat, lk: LoopKind, esc: bool, st: State, cst: CState)
    requires e.If? && WF(e, lk, esc) && EmitsStatement(e) && ScOk(sc) && SameRun(st, cst)
    ensures Matches(Run(w, e, sc, st), CExec(w, LowerStmtForm(e, sc, c).0, cst), cst.env, c)
    decreases st.fuel, ScSize(sc) + Size(e), 0
  {
    hide WF, WFOperands, WFStmts, WFArms, WFBranch, Eval, EvalArgs, EvalBlock, EvalStmts, EvalExit, EvalLoop, EvalFor,
      LowerExpr, LowerArgs, LowerStmts, LowerArms, LowerDefers, LowerToFunc, LowerToLoop, LowerStmtForm, LowerBranch,
      LowerBranchInto, CEval, CEvalArgs, CExec, CStep, CRunWhile, CRunFor, Size, SizeAll, SizeArms, ScSize, ScOk,
      Unwind, Frame;
    RunIf(w, e, sc, lk, esc, st);
    LowerIfForm(w, e, sc, c, cst);
    var (x, c1) := LowerExpr(e.cond, sc, c);
    var (a, c2) := LowerBranch(e.thn, sc, c1);
    ExprOk(w, e.cond, sc, c, lk, esc, st, cst);
    var (o, s1) := Eval(w, e.cond, st);
    var t1 := CEval(w, x, cst).1;
    if !o.Norm? {
      ExitNotNorm(w, o, sc, s1);
    } else {
      UnwindNorm(w, o, sc, s1);
      var code := if Truth(o.v) then a else ElseCode(e, sc, c2);
      if Truth(o.v) {
        BranchOk(w, e.thn, sc, c1, lk, esc, s1, t1);
        ScopedVoid(w, BranchStmts(e.thn), e.ity, sc, s1);
        FrameWeaken(t1.env, CExec(w, code, t1).1.env, c, c1, TailValue);
      } else {
        ElseOk(w, e, sc, c2, lk, esc, s1, t1);
        FrameWeaken(t1.env, CExec(w, code, t1).1.env, c, c2, TailValue);
      }
      FrameTrans(cst.env, t1.env, CExec(w, code, t1).1.env, c, c, TailValue);
    }
  }

  /** A scope whose value is dropped. */
  lemma ScopedVoid(w: World, stmts: seq<Expr>, t: Ty, sc: Scopes, st: State)
    requires Valueless(t)
    ensures var r, r' := RunScoped(w, stmts, Val, sc, st), RunScoped(w, stmts, t, sc, st);
            r.1 == r'.1 && (if r.0.Norm? then r'.0 == Norm(Unit) else r'.0 == r.0)
  {
    var (o, s1) := EvalBlock(w, stmts, st);
    if o.Norm? {
      UnwindNorm(w, o, sc, s1);
      UnwindNorm(w, Norm(Unit), sc, s1);
    } else {
      ExitNotNorm(w, o, sc, s1);
    }
  }

  lemma {:induction false} ElseOk(w: World, e: Expr, sc: Scopes, c: nat, lk: LoopKind, esc: bool, st: State, cst: CState)
    requires e.If? && Valueless(e.ity) && (e.els.Some? ==> WFBranch(e.els.value, lk, esc)) && ScOk(sc) && SameRun(st, cst)
    ensures var r := if e.els.None? then (Norm(Unit), st) else RunScoped(w, BranchStmts(e.els.value), e.ity, sc, st);
            var cr := CExec(w, ElseCode(e, sc, c), cst);
            MatchesVoid(r, cr, cst.env, c) && (r.0.Norm? ==> r.0.v == Unit)
    decreases st.fuel, ScSize(sc) + (if e.els.Some? then Size(e.els.value) else 0) + 1, 8
  {
    if e.els.Some? {
      var f := e.els.value;
      hide WF, WFOperands, WFStmts, EvalStmts, EvalExit, LowerStmts, LowerStmtForm, LowerBranch, CExec, ScOk, Frame, Unwind, Size, ScSize;
      ScopedVoid(w, BranchStmts(f), e.ity, sc, st);
      if f.If? && Valueless(TypeOf(f)) {
        BranchIsExpr(w, f, lk, esc, st);
        FormOk(w, f, sc, c, lk, esc, st, cst);
      } else {
        BranchOk(w, f, sc, c, lk, esc, st, cst);
      }
    }
  }

  /** The operand of a control transfer, and the outcome it leaves with. */
  function TransferOperand(s: Expr): Option<Expr>
    requires IsTransfer(s)
  {
    if s.Return? then s.rval else if s.Break? then s.bval else None
  }

  function TransferOutcome(s: Expr, v: Option<Value>): Outcome
    requires IsTransfer(s)
  {
    if s.Return? then Ret(v) else if s.Break? then Brk(v) else Cont
  }

  lemma RunTransfer(w: World, s: Expr, sc: Scopes, lk: LoopKind, esc: bool, st: State)
    requires IsTransfer(s) && WF(s, lk, esc)
    ensures var x := TransferOperand(s);
            if x.None? then Run(w, s, sc, st) == Unwind(w, TransferOutcome(s, None), sc, st)
            else
              var (o, s1) := Eval(w, x.value, st);
              && WFReturned(x.value, lk, esc) && Size(s) == 1 + Size(x.value)
              && Run(w, s, sc, st) == Unwind(w, if o.Norm? then TransferOutcome(s, Some(o.v)) else o, sc, s1)
  {
    hide Unwind;
  }

  lemma LowerBare(s: Expr, sc: Scopes, c: nat)
    requires IsTransfer(s) && TransferOperand(s).None?
    ensures LowerTransfer(s, sc, c).0 ==
            (if s.Return? then LowerToFunc(sc, c).0 else LowerToLoop(sc, c).0) +
            [if s.Return? then CReturn(None) else if s.Break? then CBreak else CContinue]
  {
    hide LowerToFunc, LowerToLoop;
  }

  lemma {:induction false} TransferOk(w: World, s: Expr, sc: Scopes, c: nat, lk: LoopKind, esc: bool, st: State, cst: CState)
    requires IsTransfer(s) && WF(s, lk, esc) && ScOk(sc) && SameRun(st, cst)
    ensures Matches(Run(w, s, sc, st), CExec(w, LowerTransfer(s, sc, c).0, cst), cst.env, c)
    decreases st.fuel, ScSize(sc) + Size(s), 4
  {
    hide WF, WFOperand, WFReturned, Run, Eval, Unwind, CExec, Matches, ScOk, LowerTransfer, LowerToFunc, LowerToLoop, Size, ScSize;
    RunTransfer(w, s, sc, lk, esc, st);
    var x := TransferOperand(s);
    if x.None? {
      LowerBare(s, sc, c);
      SizePositive(s);
      BareExitOk(w, if s.Return? then CReturn(None) else if s.Break? then CBreak else CContinue,
                 TransferOutcome(s, None), sc, c, st, cst);
    } else if s.Return? {
      ReturnOk(w, x.value, sc, c, lk, esc, st, cst);
    } else {
      BreakValueOk(w, x.value, sc, c, lk, esc, st, cst);
    }
  }

  lemma SizePositive(e: Expr)
    ensures Size(e) > 0
  {
  }

  /** Code, then one more statement. */
  lemma ThenLast(w: World, a: seq<CStmt>, s: CStmt, st: CState)
    ensures CExec(w, a + [s], st) ==
            (var (o, s1) := CExec(w, a, st); if o.CNorm? then CStep(w, s, s1) else (o, s1))
  {
    CExecAppend(w, a, [s], st);
    CExecOne(w, s, CExec(w, a, st).1);
  }

  /** An exit that carries no value. */
  lemma {:induction false} BareExitOk(w: World, s: CStmt, o: Outcome, sc: Scopes, c: nat, st: State, cst: CState)
    requires (s == CReturn(None) && o == Ret(None)) || (s == CBreak && o == Brk(None)) || (s == CContinue && o == Cont)
    requires ScOk(sc) && SameRun(st, cst)
    ensures var ds := if o.Ret? then LowerToFunc(sc, c).0 else LowerToLoop(sc, c).0;
            Matches(Unwind(w, o, sc, st), CExec(w, ds + [s], cst), cst.env, c)
    decreases st.fuel, ScSize(sc), 2
  {
    hide Eval, EvalExit, Unwind, CEval, CExec, Frame, ScOk, ScSize, LowerToFunc, LowerToLoop;
    var ds := if o.Ret? then LowerToFunc(sc, c).0 else LowerToLoop(sc, c).0;
    if o.Ret? {
      ToFuncOk(w, sc, c, o, st, cst);
    } else {
      ToLoopOk(w, sc, c, o, st, cst);
    }
    ThenLast(w, ds, s, cst);
  }

  lemma {:induction false} ReturnOk(w: World, v: Expr, sc: Scopes, c: nat, lk: LoopKind, esc: bool, st: State, cst: CState)
    requires WFReturned(v, lk, esc) && ScOk(sc) && SameRun(st, cst)
    ensures var (o, s1) := Eval(w, v, st);
            Matches(Unwind(w, if o.Norm? then Ret(Some(o.v)) else o, sc, s1),
                    CExec(w, LowerTransfer(Return(Some(v)), sc, c).0, cst), cst.env, c)
    decreases st.fuel, ScSize(sc) + Size(v), 4
  {
    hide Eval, EvalExit, Unwind, CExec, Frame, ScOk, LowerExpr, LowerReturnThrough;
    if HasPending(sc) {
      ReturnThroughOk(w, v, sc, c, lk, esc, st, cst);
    } else {
      ReturnNowOk(w, v, sc, c, lk, esc, st, cst);
    }
  }

  /** `return v` with nothing pending. */
  lemma {:induction false} ReturnNowOk(w: World, v: Expr, sc: Scopes, c: nat, lk: LoopKind, esc: bool, st: State, cst: CState)
    requires WFReturned(v, lk, esc) && ScOk(sc) && SameRun(st, cst) && !HasPending(sc)
    ensures var (o, s1) := Eval(w, v, st);
            Matches(Unwind(w, if o.Norm? then Ret(Some(o.v)) else o, sc, s1),
                    CExec(w, [CReturn(Some(LowerExpr(v, sc, c).0))], cst), cst.env, c)
    decreases st.fuel, ScSize(sc) + Size(v), 3
  {
    hide Eval, EvalExit, Unwind, CEval, CExec, Frame, ScOk, LowerExpr, HasPending, ScSize, Size;
    ExprOk(w, v, sc, c, lk, esc, st, cst);
    CExecOne(w, CReturn(Some(LowerExpr(v, sc, c).0)), cst);
    var (o, s1) := Eval(w, v, st);
    NothingPending(w, o, sc, s1);
    NothingPending(w, if o.Norm? then Ret(Some(o.v)) else o, sc, s1);
  }

  lemma SetLoopBreak(w: World, e: CExpr, st: CState)
    ensures CExec(w, [CSetLoop(e), CBreak], st) ==
            (var (o, s1) := CEval(w, e, st); if o.CNorm? then (CBrk, s1.(loopRes := Some(o.v))) else (o, s1))
  {
    assert [CSetLoop(e), CBreak] == [CSetLoop(e)] + [CBreak];
    CExecCons(w, CSetLoop(e), [CBreak], st);
    var (o, s1) := CEval(w, e, st);
    if o.CNorm? {
      CExecOne(w, CBreak, s1.(loopRes := Some(o.v)));
    }
  }

  /** `_c = x; defers; last`: the shape of every exit that carries a value. */
  lemma SaveRunLast(w: World, c: nat, x: CExpr, ds: seq<CStmt>, last: seq<CStmt>, st: CState)
    requires last != []
    ensures CExec(w, [CSet(c, x)] + ds + last, st) ==
            (var (o, s1) := CEval(w, x, st);
             if !o.CNorm? then (o, s1)
             else
               var (o2, s2) := CExec(w, ds, s1.(env := s1.env[c := o.v]));
               if !o2.CNorm? then (o2, s2) else CExec(w, last, s2))
  {
    assert [CSet(c, x)] + ds + last == [CSet(c, x)] + (ds + last);
    CExecCons(w, CSet(c, x), ds + last, st);
    var (o, s1) := CEval(w, x, st);
    if o.CNorm? {
      CExecAppend(w, ds, last, s1.(env := s1.env[c := o.v]));
    }
  }

  /** Saving a value in `c` and running code above `c` keeps it. */
  lemma SavedFrame(env: map<nat, Value>, e1: map<nat, Value>, c: nat, v: Value, e3: map<nat, Value>, c1: nat)
    requires Frame(env, e1, c + 1, TailValue) && Frame(e1[c := v], e3, c1, TailValue) && c < c1
    ensures Frame(env, e3, c, TailValue) && c in e3 && e3[c] == v
  {
  }

  lemma {:induction false} BreakValueOk(w: World, v: Expr, sc: Scopes, c: nat, lk: LoopKind, esc: bool, st: State, cst: CState)
    requires WFReturned(v, lk, esc) && ScOk(sc) && SameRun(st, cst)
    ensures var (o, s1) := Eval(w, v, st);
            Matches(Unwind(w, if o.Norm? then Brk(Some(o.v)) else o, sc, s1),
                    CExec(w, LowerTransfer(Break(Some(v)), sc, c).0, cst), cst.env, c)
    decreases st.fuel, ScSize(sc) + Size(v), 4
  {
    hide WF, Eval, EvalExit, Unwind, CExec, CStep, Frame, ScOk, LowerExpr, LowerToLoop, HasPending, ScSize, Size;
    var (o, s1) := Eval(w, v, st);
    if HasPending(sc) {
      var (x, c1) := LowerExpr(v, sc, c + 1);
      var ds := LowerToLoop(sc, c1).0;
      SaveRunLast(w, c, x, ds, [CSetLoop(CTemp(c)), CBreak], cst);
      ExprOk(w, v, sc, c + 1, lk, esc, st, cst);
      var t1 := CEval(w, x, cst).1;
      if o.Norm? {
        UnwindNorm(w, o, sc, s1);
        var t2 := t1.(env := t1.env[c := o.v]);
        ToLoopOk(w, sc, c1, Brk(Some(o.v)), s1, t2);
        var t3 := CExec(w, ds, t2).1;
        SavedFrame(cst.env, t1.env, c, o.v, t3.env, c1);
        SetLoopBreak(w, CTemp(c), t3);
      } else {
        FrameWeaken(cst.env, t1.env, c, c + 1, TailValue);
        ExitNotNorm(w, o, sc, s1);
      }
    } else {
      ExprOk(w, v, sc, c, lk, esc, st, cst);
      SetLoopBreak(w, LowerExpr(v, sc, c).0, cst);
      NothingPending(w, o, sc, s1);
      NothingPending(w, if o.Norm? then Brk(Some(o.v)) else o, sc, s1);
    }
  }

  lemma ReturnTemp(w: World, c: nat, st: CState)
    requires c in st.env
    ensures CExec(w, [CReturn(Some(CTemp(c)))], st) == (CRet(Some(st.env[c])), st)
  {
    CExecOne(w, CReturn(Some(CTemp(c))), st);
    assert CEval(w, CTemp(c), st) == (CNorm(st.env[c]), st);
  }

  lemma {:induction false} ReturnThroughOk(w: World, v: Expr, sc: Scopes, c: nat, lk: LoopKind, esc: bool, st: State, cst: CState)
    requires WFReturned(v, lk, esc) && ScOk(sc) && SameRun(st, cst)
    ensures var (o, s1) := Eval(w, v, st);
            Matches(Unwind(w, if o.Norm? then Ret(Some(o.v)) else o, sc, s1),
                    CExec(w, LowerReturnThrough(v, sc, c).0, cst), cst.env, c)
    decreases st.fuel, ScSize(sc) + Size(v), 3
  {
    hide WF, Eval, EvalExit, Unwind, CEval, CExec, Frame, ScOk, LowerExpr, LowerToFunc, HasPending, ScSize, Size;
    var (x, c1) := LowerExpr(v, sc, c + 1);
    var ds := LowerToFunc(sc, c1).0;
    var ret := CReturn(Some(CTemp(c)));
    SaveRunLast(w, c, x, ds, [ret], cst);
    ExprOk(w, v, sc, c + 1, lk, esc, st, cst);
    var (o, s1) := Eval(w, v, st);
    var t1 := CEval(w, x, cst).1;
    if o.Norm? {
      UnwindNorm(w, o, sc, s1);
      var t2 := t1.(env := t1.env[c := o.v]);
      ToFuncOk(w, sc, c1, Ret(Some(o.v)), s1, t2);
      var t3 := CExec(w, ds, t2).1;
      SavedFrame(cst.env, t1.env, c, o.v, t3.env, c1);
      ReturnTemp(w, c, t3);
    } else {
      FrameWeaken(cst.env, t1.env, c, c + 1, TailValue);
      ExitNotNorm(w, o, sc, s1);
    }
  }

  /** An expression statement. */
  lemma ExecDo(w: World, x: CExpr, void: bool, st: CState)
    ensures CExec(w, [CDo(if void then CVoid(x) else x)], st) ==
            (var (o, s1) := CEval(w, x, st); (if void && o.CNorm? then CNorm(Unit) else o, s1))
  {
    CExecOne(w, CDo(if void then CVoid(x) else x), st);
  }

  lemma {:induction false} InnerOk(w: World, s: Expr, sc: Scopes, c: nat, lk: LoopKind, esc: bool, st: State, cst: CState)
    requires WF(s, lk, esc) && !s.Defer? && ScOk(sc) && SameRun(st, cst)
    ensures MatchesVoid(Run(w, s, sc, st), CExec(w, LowerInner(s, sc, c).0, cst), cst.env, c)
    decreases st.fuel, ScSize(sc) + Size(s), 5
  {
    hide WF, WFOperands, WFStmts, WFArms, WFBranch, Eval, EvalArgs, EvalBlock, EvalStmts, EvalExit, EvalLoop, EvalFor,
      LowerExpr, LowerArgs, LowerStmts, LowerArms, LowerDefers, LowerToFunc, LowerToLoop, LowerStmtForm, LowerBranch,
      LowerBranchInto, CEval, CEvalArgs, CExec, CStep, CRunWhile, CRunFor, Size, SizeAll, SizeArms, ScSize, ScOk,
      Unwind, Frame;
    hide LowerTransfer, Run;
    if IsTransfer(s) {
      TransferOk(w, s, sc, c, lk, esc, st, cst);
    } else if EmitsStatement(s) {
      FormOk(w, s, sc, c, lk, esc, st, cst);
    } else {
      ExprOk(w, s, sc, c, lk, esc, st, cst);
      ExecDo(w, LowerExpr(s, sc, c).0, TypeOf(s) != Void, cst);
    }
  }

  /** Evaluate a last statement, run the block's defers, leave the block. */
  function RunLast(w: World, s: Expr, sc: Scopes, st: State): (Outcome, State)
    requires sc.Push?
  {
    var (o, s1) := Eval(w, s, st);
    var (o1, s2) := EvalExit(w, o, sc.defers, s1);
    Leave(w, o1, sc, s2)
  }

  /** Either the statement escapes, or it yields a value and the block's defers
      run; `x` describes the second case. */
  lemma LastCases(w: World, s: Expr, sc: Scopes, lk: LoopKind, esc: bool, st: State)
    requires sc.Push? && WF(s, lk, esc)
    ensures var (o, s1) := Eval(w, s, st);
            if o.Norm? then
              && Allowed(o, TypeOf(s), lk, esc)
              && RunLast(w, s, sc, st) == EvalExit(w, o, sc.defers, s1)
              && (RunLast(w, s, sc, st).0 == o || RunLast(w, s, sc, st).0.Stop?)
            else RunLast(w, s, sc, st) == Run(w, s, sc, st) && !Run(w, s, sc, st).0.Norm?
  {
    hide Eval, EvalExit;
    var (o, s1) := Eval(w, s, st);
    if o.Norm? {
      OutcomesAllowed(w, s, lk, esc, st);
      ExitKeeps(w, o, sc.defers, s1);
      var (o1, s2) := EvalExit(w, o, sc.defers, s1);
      UnwindNorm(w, o1, sc.parent, s2);
    } else {
      EscapeLeaves(w, o, sc, s1);
      ExitNotNorm(w, o, sc, s1);
    }
  }

  lemma {:induction false} LastOk(w: World, s: Expr, sc: Scopes, tail: Tail, c: nat, lk: LoopKind, esc: bool, st: State, cst: CState)
    requires WF(s, lk, esc) && !s.Defer? && ScOk(sc) && SameRun(st, cst) && TailOk(tail, sc, TypeOf(s), c)
    ensures Delivers(RunLast(w, s, sc, st), TypeOf(s), tail, CExec(w, LowerLast(s, sc, tail, c).0, cst), cst.env, c)
    decreases st.fuel, ScSize(sc) + Size(s), 6
  {
    hide WF, RunLast, CExec, Frame, Delivers, ScOk, LowerExpr, LowerStmtForm, LowerTransfer, LowerReturnThrough, LowerDefers, Size, ScSize, Run, Eval;
    if IsTransfer(s) {
      LastTransferOk(w, s, sc, tail, c, lk, esc, st, cst);
    } else if EmitsStatement(s) {
      LastFormOk(w, s, sc, tail, c, lk, esc, st, cst);
    } else if tail.TailAssign? && TypeOf(s) == Val {
      if sc.defers != [] {
        LastSavedOk(w, s, sc, tail, c, lk, esc, st, cst);
      } else {
        LastAssignOk(w, s, sc, tail, c, lk, esc, st, cst);
      }
    } else if tail == TailReturn && TypeOf(s) == Val {
      LastReturnOk(w, s, sc, c, lk, esc, st, cst);
    } else if tail != TailReturn && TypeOf(s) != Void && sc.defers != [] {
      LastSavedOk(w, s, sc, tail, c, lk, esc, st, cst);
    } else {
      LastPlainOk(w, s, sc, tail, c, lk, esc, st, cst);
    }
  }

  /** A last statement that transfers control. */
  lemma {:induction false} LastTransferOk(w: World, s: Expr, sc: Scopes, tail: Tail, c: nat, lk: LoopKind, esc: bool, st: State, cst: CState)
    requires IsTransfer(s) && WF(s, lk, esc) && ScOk(sc) && SameRun(st, cst) && sc.Push?
    ensures Delivers(RunLast(w, s, sc, st), TypeOf(s), tail, CExec(w, LowerLast(s, sc, tail, c).0, cst), cst.env, c)
    decreases st.fuel, ScSize(sc) + Size(s), 5
  {
    hide WF, WFOperands, WFStmts, WFArms, WFBranch, Eval, EvalArgs, EvalBlock, EvalStmts, EvalExit, EvalLoop, EvalFor,
      LowerExpr, LowerArgs, LowerStmts, LowerArms, LowerDefers, LowerToFunc, LowerToLoop, LowerStmtForm, LowerBranch,
      LowerBranchInto, CEval, CEvalArgs, CExec, CStep, CRunWhile, CRunFor, Size, SizeAll, SizeArms, ScSize, ScOk,
      Unwind, Frame;
    hide LowerTransfer, Run, RunLast;
    TransferOk(w, s, sc, c, lk, esc, st, cst);
    LastCases(w, s, sc, lk, esc, st);
    var (code, c1) := LowerTransfer(s, sc, c);
    FrameWeaken(cst.env, CExec(w, code, cst).1.env, c, c, tail);
    if s.Return? && tail == TailReturn {
      CExecAppend(w, code, LowerDefers(sc.defers, c1).0, cst);
    }
  }

  /** A last statement in statement form, then the fall-through defers. */
  lemma {:induction false} LastFormOk(w: World, s: Expr, sc: Scopes, tail: Tail, c: nat, lk: LoopKind, esc: bool, st: State, cst: CState)
    requires EmitsStatement(s) && WF(s, lk, esc) && ScOk(sc) && SameRun(st, cst) && TailOk(tail, sc, TypeOf(s), c)
    ensures Delivers(RunLast(w, s, sc, st), TypeOf(s), tail, CExec(w, LowerLast(s, sc, tail, c).0, cst), cst.env, c)
    decreases st.fuel, ScSize(sc) + Size(s), 5
  {
    hide WF, WFOperands, WFStmts, WFArms, WFBranch, Eval, EvalArgs, EvalBlock, EvalStmts, EvalExit, EvalLoop, EvalFor,
      LowerExpr, LowerArgs, LowerStmts, LowerArms, LowerDefers, LowerToFunc, LowerToLoop, LowerStmtForm, LowerBranch,
      LowerBranchInto, CEval, CEvalArgs, CExec, CStep, CRunWhile, CRunFor, Size, SizeAll, SizeArms,
      Unwind, Frame;
    hide LowerTransfer, RunLast;
    FormOk(w, s, sc, c, lk, esc, st, cst);
    LastCases(w, s, sc, lk, esc, st);
    var (o, s1) := Eval(w, s, st);
    var (code, c1) := LowerStmtForm(s, sc, c);
    var t1 := CExec(w, code, cst).1;
    FrameWeaken(cst.env, t1.env, c, c, tail);
    if TypeOf(s) == Void {
      var ds := LowerDefers(sc.defers, c1).0;
      CExecAppend(w, code, ds, cst);
      if o.Norm? {
        UnwindNorm(w, o, sc, s1);
        DefersOk(w, sc.defers, c1, o, s1, t1);
        FrameWeaken(t1.env, CExec(w, ds, t1).1.env, c, c1, tail);
        FrameTrans(cst.env, t1.env, CExec(w, ds, t1).1.env, c, c, tail);
        ExecNil(w, t1);
      }
    }
  }

  lemma ExecNil(w: World, st: CState)
    ensures CExec(w, [], st) == (CNorm(Unit), st)
  {
  }

  lemma ExecSet(w: World, t: nat, x: CExpr, st: CState)
    ensures CExec(w, [CSet(t, x)], st) ==
            (var (o, s1) := CEval(w, x, st);
             if o.CNorm? then (CNorm(Unit), s1.(env := s1.env[t := o.v])) else (o, s1))
  {
    CExecOne(w, CSet(t, x), st);
  }

  lemma ExitEmpty(w: World, o: Outcome, st: State)
    ensures EvalExit(w, o, [], st) == (o, st)
  {
  }

  /** A valued arm with no defers of its own. */
  lemma {:induction false} LastAssignOk(w: World, s: Expr, sc: Scopes, tail: Tail, c: nat, lk: LoopKind, esc: bool, st: State, cst: CState)
    requires WF(s, lk, esc) && IsOperandForm(s) && ScOk(sc) && SameRun(st, cst) && TailOk(tail, sc, TypeOf(s), c)
    requires tail.TailAssign? && TypeOf(s) == Val && sc.defers == []
    ensures Delivers(RunLast(w, s, sc, st), TypeOf(s), tail, CExec(w, [CSet(tail.target, LowerExpr(s, sc, c).0)], cst), cst.env, c)
    decreases st.fuel, ScSize(sc) + Size(s), 5
  {
    hide WF, WFOperands, WFStmts, WFArms, WFBranch, Eval, EvalArgs, EvalBlock, EvalStmts, EvalExit, EvalLoop, EvalFor,
      LowerExpr, LowerArgs, LowerStmts, LowerArms, LowerDefers, LowerToFunc, LowerToLoop, LowerStmtForm, LowerBranch,
      LowerBranchInto, CEval, CEvalArgs, CExec, CStep, CRunWhile, CRunFor, Size, SizeAll, SizeArms, ScSize, ScOk,
      Unwind, Frame;
    hide RunLast;
    ExprOk(w, s, sc, c, lk, esc, st, cst);
    LastCases(w, s, sc, lk, esc, st);
    var x := LowerExpr(s, sc, c).0;
    ExecSet(w, tail.target, x, cst);
    var (o, s1) := Eval(w, s, st);
    var t1 := CEval(w, x, cst).1;
    FrameWeaken(cst.env, t1.env, c, c, tail);
    if o.Norm? {
      UnwindNorm(w, o, sc, s1);
      ExitEmpty(w, o, s1);
      FrameAssign(cst.env, t1.env, c, tail.target, o.v);
    }
  }

  lemma FrameAssign(a: map<nat, Value>, b: map<nat, Value>, c: nat, t: nat, v: Value)
    requires Frame(a, b, c, TailAssign(t))
    ensures Frame(a, b[t := v], c, TailAssign(t))
  {
  }

  lemma LowerSaved(s: Expr, sc: Scopes, tail: Tail, c: nat)
    requires IsOperandForm(s) && sc.Push? && tail != TailReturn && TypeOf(s) != Void && sc.defers != []
    ensures var (x, c1) := LowerExpr(s, sc, c + 1);
            LowerLast(s, sc, tail, c).0 == [CSet(c, x)] + LowerDefers(sc.defers, c1).0 + [DeliverStmt(c, tail, TypeOf(s))]
  {
    hide LowerExpr, LowerDefers;
  }

  /** A valued last statement: its value is computed, the block's defers run,
      and then the value is delivered. */
  lemma {:induction false} LastSavedOk(w: World, s: Expr, sc: Scopes, tail: Tail, c: nat, lk: LoopKind, esc: bool, st: State, cst: CState)
    requires WF(s, lk, esc) && IsOperandForm(s) && ScOk(sc) && SameRun(st, cst) && TailOk(tail, sc, TypeOf(s), c)
    requires tail != TailReturn && TypeOf(s) != Void && sc.defers != []
    ensures Delivers(RunLast(w, s, sc, st), TypeOf(s), tail, CExec(w, LowerLast(s, sc, tail, c).0, cst), cst.env, c)
    decreases st.fuel, ScSize(sc) + Size(s), 5
  {
    hide WF, WFOperands, WFStmts, WFArms, WFBranch, Eval, EvalArgs, EvalBlock, EvalStmts, EvalExit, EvalLoop, EvalFor,
      LowerExpr, LowerArgs, LowerStmts, LowerArms, LowerDefers, LowerToFunc, LowerToLoop, LowerStmtForm, LowerBranch,
      LowerBranchInto, CEval, CEvalArgs, CExec, CStep, CRunWhile, CRunFor, Size, SizeAll, SizeArms,
      Unwind, Frame;
    hide RunLast, LowerLast, DeliverStmt;
    var (x, c1) := LowerExpr(s, sc, c + 1);
    var ds := LowerDefers(sc.defers, c1).0;
    LowerSaved(s, sc, tail, c);
    SaveRunLast(w, c, x, ds, [DeliverStmt(c, tail, TypeOf(s))], cst);
    ExprOk(w, s, sc, c + 1, lk, esc, st, cst);
    LastCases(w, s, sc, lk, esc, st);
    var (o, s1) := Eval(w, s, st);
    var t1 := CEval(w, x, cst).1;
    if o.Norm? {
      UnwindNorm(w, o, sc, s1);
      var t2 := t1.(env := t1.env[c := o.v]);
      DefersOk(w, sc.defers, c1, o, s1, t2);
      var t3 := CExec(w, ds, t2).1;
      SavedFrame(cst.env, t1.env, c, o.v, t3.env, c1);
      FrameWeaken(cst.env, t3.env, c, c, tail);
      DeliverTemp(w, c, tail, TypeOf(s), t3);
      if tail.TailAssign? {
        FrameAssign(cst.env, t3.env, c, tail.target, o.v);
      }
    } else {
      FrameWeaken(cst.env, t1.env, c, c + 1, tail);
    }
  }

  lemma DeliverTemp(w: World, c: nat, tail: Tail, t: Ty, st: CState)
    requires c in st.env
    ensures CExec(w, [DeliverStmt(c, tail, t)], st) ==
            if tail.TailAssign? && t == Val then (CNorm(Unit), st.(env := st.env[tail.target := st.env[c]]))
            else (CNorm(if tail == TailValue then st.env[c] else Unit), st)
  {
    assert CEval(w, CTemp(c), st) == (CNorm(st.env[c]), st);
    if tail.TailAssign? && t == Val {
      ExecSet(w, tail.target, CTemp(c), st);
    } else {
      ExecDo(w, CTemp(c), tail != TailValue, st);
    }
  }

  /** A valued function tail: an implicit return. */
  lemma {:induction false} LastReturnOk(w: World, s: Expr, sc: Scopes, c: nat, lk: LoopKind, esc: bool, st: State, cst: CState)
    requires WF(s, lk, esc) && IsOperandForm(s) && TypeOf(s) == Val && ScOk(sc) && SameRun(st, cst)
    requires TailOk(TailReturn, sc, TypeOf(s), c)
    ensures Delivers(RunLast(w, s, sc, st), Val, TailReturn, CExec(w, LowerLast(s, sc, TailReturn, c).0, cst), cst.env, c)
    decreases st.fuel, ScSize(sc) + Size(s), 5
  {
    hide WF, WFOperands, WFStmts, WFArms, WFBranch, Eval, EvalArgs, EvalBlock, EvalStmts, EvalExit, EvalLoop, EvalFor,
      LowerExpr, LowerArgs, LowerStmts, LowerArms, LowerDefers, LowerToFunc, LowerToLoop, LowerStmtForm, LowerBranch,
      LowerBranchInto, CEval, CEvalArgs, CExec, CStep, CRunWhile, CRunFor, Size, SizeAll, SizeArms, ScSize, ScOk,
      Unwind, Frame;
    hide RunLast, LowerReturnThrough;
    LastCases(w, s, sc, lk, esc, st);
    assert WFOperand(s, lk, esc) by { OperandFromVal(s, lk, esc); }
    var (o, s1) := Eval(w, s, st);
    if o.Norm? {
      ReturnAtBase(w, o, sc, s1);
    }
    if HasPending(sc) {
      ReturnThroughOk(w, s, sc, c, lk, esc, st, cst);
      FrameWeaken(cst.env, CExec(w, LowerReturnThrough(s, sc, c).0, cst).1.env, c, c, TailReturn);
    } else {
      ReturnNowOk(w, s, sc, c, lk, esc, st, cst);
      FrameWeaken(cst.env, CExec(w, [CReturn(Some(LowerExpr(s, sc, c).0))], cst).1.env, c, c, TailReturn);
    }
  }

  lemma OperandFromVal(s: Expr, lk: LoopKind, esc: bool)
    requires WF(s, lk, esc) && TypeOf(s) == Val
    ensures WFOperand(s, lk, esc)
  {
  }

  /** In a function's outermost scope, completing with a value and returning it
      run the same defers. */
  lemma ReturnAtBase(w: World, o: Outcome, sc: Scopes, st: State)
    requires sc.Push? && sc.parent == FnBase && !sc.isLoop && o.Norm?
    ensures var r, r' := EvalExit(w, o, sc.defers, st), Unwind(w, Ret(Some(o.v)), sc, st);
            r.1 == r'.1 && (if r.0.Norm? then r.0 == o && r'.0 == Ret(Some(o.v)) else r.0.Stop? && r'.0 == r.0)
  {
    ExitParametric(w, o, Ret(Some(o.v)), sc.defers, st);
    ExitKeeps(w, o, sc.defers, st);
    EscapeLeaves(w, Ret(Some(o.v)), sc, st);
  }

  /** A last statement that needs no saving, then the fall-through defers. */
  lemma {:induction false} LastPlainOk(w: World, s: Expr, sc: Scopes, tail: Tail, c: nat, lk: LoopKind, esc: bool, st: State, cst: CState)
    requires WF(s, lk, esc) && IsOperandForm(s) && ScOk(sc) && SameRun(st, cst) && TailOk(tail, sc, TypeOf(s), c)
    requires !(TypeOf(s) == Val && (tail.TailAssign? || tail == TailReturn))
    requires tail != TailReturn && TypeOf(s) != Void ==> sc.defers == []
    ensures Delivers(RunLast(w, s, sc, st), TypeOf(s), tail, CExec(w, LowerLast(s, sc, tail, c).0, cst), cst.env, c)
    decreases st.fuel, ScSize(sc) + Size(s), 5
  {
    hide WF, WFOperands, WFStmts, WFArms, WFBranch, Eval, EvalArgs, EvalBlock, EvalStmts, EvalLoop, EvalFor,
      LowerExpr, LowerArgs, LowerStmts, LowerArms, LowerDefers, LowerToFunc, LowerToLoop, LowerStmtForm, LowerBranch,
      LowerBranchInto, CEval, CEvalArgs, CExec, CStep, CRunWhile, CRunFor, Size, SizeAll, SizeArms,
      Unwind, Frame;
    hide RunLast;
    ExprOk(w, s, sc, c, lk, esc, st, cst);
    LastCases(w, s, sc, lk, esc, st);
    var (x, c1) := LowerExpr(s, sc, c);
    var void := TypeOf(s) != Void && tail != TailValue;
    var one := CDo(if void then CVoid(x) else x);
    ExecDo(w, x, void, cst);
    var (o, s1) := Eval(w, s, st);
    var t1 := CEval(w, x, cst).1;
    FrameWeaken(cst.env, t1.env, c, c, tail);
    if o.Norm? {
      UnwindNorm(w, o, sc, s1);
    }
    if TypeOf(s) == Void {
      var ds := LowerDefers(sc.defers, c1).0;
      CExecAppend(w, [one], ds, cst);
      if o.Norm? {
        DefersOk(w, sc.defers, c1, o, s1, t1);
        FrameWeaken(t1.env, CExec(w, ds, t1).1.env, c, c1, tail);
        FrameTrans(cst.env, t1.env, CExec(w, ds, t1).1.env, c, c, tail);
        ExecNil(w, t1);
      }
    }
  }

  lemma {:induction false} StmtsOk(w: World, stmts: seq<Expr>, sc: Scopes, tail: Tail, c: nat, lk: LoopKind, esc: bool, st: State, cst: CState)
    requires WFStmts(stmts, lk, esc) && ScOk(sc) && SameRun(st, cst) && TailOk(tail, sc, TailTy(stmts), c)
    ensures Delivers(RunRest(w, stmts, sc, st), TailTy(stmts), tail, CExec(w, LowerStmts(stmts, sc, tail, c).0, cst), cst.env, c)
    decreases st.fuel, ScSize(sc) + SizeAll(stmts), 6
  {
    hide WF, Eval, EvalExit, Unwind, CExec, Frame, LowerDefers, LowerLast, LowerInner, Delivers, Size;
    if stmts == [] {
      EmptyOk(w, sc, tail, c, st, cst);
    } else {
      var s := stmts[0];
      if s.Defer? {
        StmtsDeferOk(w, stmts, sc, tail, c, lk, esc, st, cst);
      } else if |stmts| == 1 {
        LastOk(w, s, sc, tail, c, lk, esc, st, cst);
      } else {
        StmtsInnerOk(w, stmts, sc, tail, c, lk, esc, st, cst);
      }
    }
  }

  /** The end of a block that has no value: its defers run. */
  lemma {:induction false} EmptyOk(w: World, sc: Scopes, tail: Tail, c: nat, st: State, cst: CState)
    requires ScOk(sc) && SameRun(st, cst) && TailOk(tail, sc, Void, c)
    ensures Delivers(RunRest(w, [], sc, st), Void, tail, CExec(w, LowerStmts([], sc, tail, c).0, cst), cst.env, c)
    decreases st.fuel, ScSize(sc), 3
  {
    hide EvalExit, CExec, Frame, LowerDefers;
    DefersOk(w, sc.defers, c, Norm(Unit), st, cst);
    var (o, s1) := EvalExit(w, Norm(Unit), sc.defers, st);
    UnwindNorm(w, o, sc.parent, s1);
    FrameWeaken(cst.env, CExec(w, LowerDefers(sc.defers, c).0, cst).1.env, c, c, tail);
  }

  /** `defer d`: recorded at compile time exactly when it is pushed at run time. */
  lemma {:induction false} StmtsDeferOk(w: World, stmts: seq<Expr>, sc: Scopes, tail: Tail, c: nat, lk: LoopKind, esc: bool, st: State, cst: CState)
    requires stmts != [] && stmts[0].Defer?
    requires WFStmts(stmts, lk, esc) && ScOk(sc) && SameRun(st, cst) && TailOk(tail, sc, TailTy(stmts), c)
    ensures Delivers(RunRest(w, stmts, sc, st), TailTy(stmts), tail, CExec(w, LowerStmts(stmts, sc, tail, c).0, cst), cst.env, c)
    decreases st.fuel, ScSize(sc) + SizeAll(stmts), 5
  {
    hide Eval, EvalExit, Unwind, CExec, Frame, LowerDefers, LowerLast, LowerInner, Delivers;
    var s := stmts[0];
    SizePush(sc.defers, s.deferred);
    var inner := Push(sc.isLoop, sc.defers + [s.deferred], sc.parent);
    assert ScSize(inner) == ScSize(sc) + Size(s);
    StmtsOk(w, stmts[1..], inner, tail, c, lk, esc, st, cst);
  }

  lemma {:induction false} StmtsInnerOk(w: World, stmts: seq<Expr>, sc: Scopes, tail: Tail, c: nat, lk: LoopKind, esc: bool, st: State, cst: CState)
    requires |stmts| > 1 && !stmts[0].Defer?
    requires WFStmts(stmts, lk, esc) && ScOk(sc) && SameRun(st, cst) && TailOk(tail, sc, TailTy(stmts), c)
    ensures Delivers(RunRest(w, stmts, sc, st), TailTy(stmts), tail, CExec(w, LowerStmts(stmts, sc, tail, c).0, cst), cst.env, c)
    decreases st.fuel, ScSize(sc) + SizeAll(stmts), 5
  {
    hide Eval, EvalExit, Unwind, CExec, Frame, LowerDefers, LowerLast, LowerInner, Size;
    var s := stmts[0];
    var (code, c1) := LowerInner(s, sc, c);
    var rest := LowerStmts(stmts[1..], sc, tail, c1).0;
    assert LowerStmts(stmts, sc, tail, c).0 == code + rest;
    var (o, s1) := Eval(w, s, st);
    RestUnfold(w, stmts, sc, st);
    InnerOk(w, s, sc, c, lk, esc, st, cst);
    CExecAppend(w, code, rest, cst);
    var t1 := CExec(w, code, cst).1;
    FrameWeaken(cst.env, t1.env, c, c, tail);
    if o.Norm? {
      UnwindNorm(w, o, sc, s1);
      StmtsOk(w, stmts[1..], sc, tail, c1, lk, esc, s1, t1);
      hide LowerStmts, WFStmts, EvalStmts;
      var t2 := CExec(w, rest, t1).1;
      FrameLower(t1.env, t2.env, c, c1, tail);
      FrameTrans(cst.env, t1.env, t2.env, c, c, tail);
    } else {
      ExitNotNorm(w, o, sc, s1);
    }
  }

  lemma FrameLower(a: map<nat, Value>, b: map<nat, Value>, c: nat, c1: nat, tail: Tail)
    requires Frame(a, b, c1, tail) && c <= c1
    ensures Frame(a, b, c, tail)
  {
  }

  lemma RestUnfold(w: World, stmts: seq<Expr>, sc: Scopes, st: State)
    requires |stmts| > 1 && !stmts[0].Defer? && sc.Push?
    ensures var (o, s1) := Eval(w, stmts[0], st);
            RunRest(w, stmts, sc, st) == if o.Norm? then RunRest(w, stmts[1..], sc, s1) else Unwind(w, o, sc, s1)
  {
    hide Eval;
    var (o, s1) := Eval(w, stmts[0], st);
    if !o.Norm? {
      EscapeLeaves(w, o, sc, s1);
    }
  }

  /** THE THEOREM. For every function body that type checks, every world and
      every step budget, the emitted defer-free C returns what the source
      returns, stops when it stops, and leaves the same history of actions. */
  lemma LoweringPreservesMeaning(w: World, body: seq<Expr>, c: nat, fuel: nat)
    requires WFStmts(body, NoLoop, true)
    ensures CRunFunction(w, LowerFunction(body, c).0, fuel) == RunFunction(w, body, fuel)
    ensures RunFunction(w, body, fuel).0 != Stray
  {
    hide EvalStmts, EvalExit, LowerStmts, CExec, WFStmts;
    var st, cst := State([], fuel), CState([], fuel, map[], None);
    StmtsOk(w, body, Push(false, [], FnBase), TailReturn, c, NoLoop, true, st, cst);
    FreshScope(w, body, false, FnBase, st);
    BlockAllowed(w, body, NoLoop, true, st);
  }
}
