/** What FC's blocks and the C they become mean, told by histories: what an action
    receives, which branch and which arm run, and when deferred code does; and what the
    two compilers let through. */
module DeferMeaning {
  import opened DeferSource
  import opened DeferTarget
  import opened DeferTyping
  import opened DeferAccepted

  // ----- actions -----

  /** An action receives the values of its operands, after all that happened before it,
      in FC and in C; it aborts the program exactly when the world says so, has the
      world's value if it has one, and does not come back if it is of type `never`. */
  lemma ActionReceives(w: World, id: nat, args: seq<Expr>, t: Ty, st: State, vs: seq<Value>, s1: State)
    requires EvalArgs(w, args, st) == (Vals(vs), s1)
    ensures var (o, s2) := Eval(w, Atom(id, args, t), st);
            && s2 == State(s1.trace + [Event(id, vs)], s1.fuel)
            && o == match w.act(s1.trace, id, vs)
                    case None => Stop(true)
                    case Some(v) => if t == Val then Norm(v) else if t == Void then Norm(Unit) else Stop(false)
  {
  }

  lemma CallReceives(w: World, id: nat, args: seq<CExpr>, t: Ty, st: CState, vs: seq<Value>, s1: CState)
    requires CEvalArgs(w, args, st) == (CVals(vs), s1)
    ensures var (o, s2) := CEval(w, CAct(id, args, t), st);
            && s2 == s1.(trace := s1.trace + [Event(id, vs)])
            && o == match w.act(s1.trace, id, vs)
                    case None => CStop(true)
                    case Some(v) => if t == Val then CNorm(v) else if t == Void then CNorm(Unit) else CStop(false)
  {
  }

  /** Operands are evaluated one after the other, and the first that does not yield a
      value ends it. */
  lemma OperandsInTurn(w: World, e: Expr, rest: seq<Expr>, st: State)
    ensures var (o, s1) := Eval(w, e, st);
            var (r, s2) := EvalArgs(w, rest, s1);
            EvalArgs(w, [e] + rest, st) ==
              if !o.Norm? then (Esc(o), s1)
              else if r.Esc? then (r, s2)
              else (Vals([o.v] + r.vs), s2)
    ensures EvalArgs(w, [], st) == (Vals([]), st)
  {
    assert ([e] + rest)[1..] == rest;
  }

  // ----- branches -----

  /** Zero selects the second branch, any other number the first. */
  lemma BranchRuns(w: World, c: Expr, a: Expr, b: Expr, st: State, n: int, s1: State)
    requires Eval(w, c, st) == (Norm(Int(n)), s1) && !a.Block? && !b.Block?
    ensures Eval(w, If(c, a, Some(b), Val), st) == Eval(w, Block([if n == 0 then b else a], Val), s1)
    ensures Eval(w, If(c, a, None, Void), st) == if n == 0 then (Norm(Unit), s1) else Eval(w, Block([a], Void), s1)
  {
  }

  /** The subject's number selects the arm. */
  lemma ArmRuns(w: World, subject: Expr, arms: seq<Arm>, t: Ty, st: State, k: nat, s1: State)
    requires Eval(w, subject, st) == (Norm(Int(k)), s1) && k < |arms|
    ensures Eval(w, Match(subject, arms, t), st) == Eval(w, Block(arms[k].body, t), s1)
  {
    Remainder(k, |arms|);
  }

  lemma Remainder(k: nat, n: nat)
    requires k < n
    ensures k % n == k
  {
  }

  /** So they do in C. */
  lemma CBranchRuns(w: World, c: CExpr, a: CExpr, b: CExpr, p: seq<CStmt>, q: seq<CStmt>, st: CState, n: int, s1: CState)
    requires CEval(w, c, st) == (CNorm(Int(n)), s1)
    ensures CEval(w, CCond(c, a, b), st) == CEval(w, if n == 0 then b else a, s1)
    ensures var (o, s2) := CExec(w, if n == 0 then q else p, s1);
            CStep(w, CIf(c, p, q), st) == (if o.CNorm? then CNorm(Unit) else o, s2)
  {
  }

  lemma CArmRuns(w: World, c: CExpr, arms: seq<CArm>, st: CState, k: nat, s1: CState)
    requires CEval(w, c, st) == (CNorm(Int(k)), s1) && k < |arms|
    ensures var (o, s2) := CExec(w, arms[k].body, s1);
            CStep(w, CChain(c, arms), st) == (if o.CNorm? then CNorm(Unit) else o, s2)
  {
    Remainder(k, |arms|);
  }

  // ----- deferred code -----

  /** The world never aborts the program. */
  ghost predicate Benign(w: World) {
    forall tr: seq<Event>, id: nat, vs: seq<Value> :: w.act(tr, id, vs).Some?
  }

  function Simple(id: nat): Expr {
    Atom(id, [], Void)
  }

  function Recorded(ids: seq<nat>): (es: seq<Expr>)
    ensures |es| == |ids| && forall i :: 0 <= i < |ids| ==> es[i] == Defer(Simple(ids[i]))
  {
    seq(|ids|, i requires 0 <= i < |ids| => Defer(Simple(ids[i])))
  }

  function Seen(ids: seq<nat>): (es: seq<Event>)
    ensures |es| == |ids| && forall i :: 0 <= i < |ids| ==> es[i] == Event(ids[i], [])
  {
    seq(|ids|, i requires 0 <= i < |ids| => Event(ids[i], []))
  }

  function Backwards(ids: seq<nat>): (r: seq<nat>)
    ensures |r| == |ids| && forall i :: 0 <= i < |ids| ==> r[i] == ids[|ids| - 1 - i]
  {
    seq(|ids|, i requires 0 <= i < |ids| => ids[|ids| - 1 - i])
  }

  function Pending(ids: seq<nat>): (es: seq<Expr>)
    ensures |es| == |ids| && forall i :: 0 <= i < |ids| ==> es[i] == Simple(ids[i])
  {
    seq(|ids|, i requires 0 <= i < |ids| => Simple(ids[i]))
  }

  lemma SimpleRuns(w: World, id: nat, st: State)
    requires Benign(w)
    ensures Eval(w, Simple(id), st) == (Norm(Unit), State(st.trace + [Event(id, [])], st.fuel))
  {
    ActionReceives(w, id, [], Void, st, [], st);
  }

  lemma {:induction false} ExitBackwards(w: World, o: Outcome, ids: seq<nat>, st: State)
    requires Benign(w) && !o.Stop?
    ensures EvalExit(w, o, Pending(ids), st) == (o, State(st.trace + Seen(Backwards(ids)), st.fuel))
    decreases |ids|
  {
    hide Eval, Size, SizeAll;
    if ids == [] {
      assert st.trace + Seen(Backwards(ids)) == st.trace;
    } else {
      var n := |ids| - 1;
      SimpleRuns(w, ids[n], st);
      assert Pending(ids)[..n] == Pending(ids[..n]);
      var s1 := State(st.trace + [Event(ids[n], [])], st.fuel);
      ExitBackwards(w, o, ids[..n], s1);
      assert Backwards(ids) == [ids[n]] + Backwards(ids[..n]);
      assert st.trace + Seen(Backwards(ids)) == s1.trace + Seen(Backwards(ids[..n]));
    }
  }

  lemma {:induction false} RecordsAll(w: World, ids: seq<nat>, e: Expr, stack: seq<Expr>, st: State)
    requires !e.Defer?
    ensures EvalStmts(w, Recorded(ids) + [e], stack, st) == (Eval(w, e, st).0, stack + Pending(ids), Eval(w, e, st).1)
    decreases |ids|
  {
    hide Eval, Size, SizeAll;
    var stmts := Recorded(ids) + [e];
    if ids == [] {
      assert stmts == [e] && stack + Pending(ids) == stack;
    } else {
      assert stmts[1..] == Recorded(ids[1..]) + [e];
      RecordsAll(w, ids[1..], e, stack + [Simple(ids[0])], st);
      assert (stack + [Simple(ids[0])]) + Pending(ids[1..]) == stack + Pending(ids);
    }
  }

  /** Whichever way a block is left, its value computed, a `break`, a `continue` or a
      `return`: what it recorded runs then, each once, in the opposite order, and the
      outcome stays what it was. */
  lemma DeferredRunsLast(w: World, ids: seq<nat>, e: Expr, st: State)
    requires Benign(w) && !e.Defer?
    ensures var (o, s1) := Eval(w, e, st);
            Eval(w, Block(Recorded(ids) + [e], Val), st) ==
              if o.Stop? then (o, s1) else (o, State(s1.trace + Seen(Backwards(ids)), s1.fuel))
  {
    hide EvalExit, EvalStmts;
    var (o, s1) := Eval(w, e, st);
    RecordsAll(w, ids, e, [], st);
    assert [] + Pending(ids) == Pending(ids);
    if !o.Stop? {
      ExitBackwards(w, o, ids, s1);
    } else {
      NoDefersOnStop(w, o, Pending(ids), s1);
    }
  }

  lemma NoDefersOnStop(w: World, o: Outcome, stack: seq<Expr>, st: State)
    requires o.Stop?
    ensures EvalExit(w, o, stack, st) == (o, st)
  {
  }

  /** Inner blocks before outer ones; the value of a `return` before all of them. */
  lemma ReturnRunsAll(w: World, inner: seq<nat>, outer: seq<nat>, v: nat, st: State)
    requires Benign(w)
    ensures var body := Recorded(inner) + [Return(Some(Atom(v, [], Val)))];
            Eval(w, Block(Recorded(outer) + [Block(body, Never)], Val), st) ==
              (Ret(w.act(st.trace, v, [])), State(st.trace + [Event(v, [])] + Seen(Backwards(inner)) + Seen(Backwards(outer)), st.fuel))
  {
    hide EvalBlock;
    var exit := Return(Some(Atom(v, [], Val)));
    ActionReceives(w, v, [], Val, st, [], st);
    assert Eval(w, exit, st) == (Ret(w.act(st.trace, v, [])), State(st.trace + [Event(v, [])], st.fuel));
    DeferredRunsLast(w, inner, exit, st);
    var block := Block(Recorded(inner) + [exit], Never);
    SameEscape(w, Recorded(inner) + [exit], st);
    DeferredRunsLast(w, outer, block, st);
  }

  /** A block's type matters only to what it yields. */
  lemma SameEscape(w: World, stmts: seq<Expr>, st: State)
    requires !Eval(w, Block(stmts, Val), st).0.Norm?
    ensures Eval(w, Block(stmts, Never), st) == Eval(w, Block(stmts, Val), st)
  {
    hide EvalBlock;
  }

  // ----- loops and failures -----

  /** A loop goes around again after its body or a `continue`, and is left by a `break`,
      with its value, or by a `return`; each turn takes one step of the budget. */
  lemma LoopTurns(w: World, body: seq<Expr>, st: State)
    requires st.fuel > 0
    ensures var (o, s1) := Eval(w, Block(body, Val), State(st.trace, st.fuel - 1));
            Eval(w, Loop(body, Val), st) ==
              match o
              case Norm(_) => Eval(w, Loop(body, Val), s1)
              case Cont => Eval(w, Loop(body, Val), s1)
              case Brk(v) => (Norm(if v.Some? then v.value else Unit), s1)
              case Ret(_) => (o, s1)
              case Stop(_) => (o, s1)
  {
    hide EvalBlock;
    OneTurn(w, body, st);
  }

  lemma OneTurn(w: World, body: seq<Expr>, st: State)
    requires st.fuel > 0
    ensures var (o, s1) := EvalBlock(w, body, State(st.trace, st.fuel - 1));
            EvalLoop(w, body, st) ==
              match o
              case Norm(_) => EvalLoop(w, body, s1)
              case Cont => EvalLoop(w, body, s1)
              case Brk(v) => (Norm(if v.Some? then v.value else Unit), s1)
              case Ret(_) => (o, s1)
              case Stop(_) => (o, s1)
  {
    hide EvalBlock;
  }

  /** The elements a collection loop with this body visits, from the `i`th on. */
  function Visited(elem: nat, v: Value, body: nat, i: nat, n: nat): seq<Event>
    requires i <= n
    decreases n - i
  {
    if i == n then [] else [Event(elem, [v, Int(i)]), Event(body, [])] + Visited(elem, v, body, i + 1, n)
  }

  /** A collection loop visits every element once, in order. */
  lemma {:induction false} VisitsAll(w: World, v: Value, elem: nat, body: nat, i: nat, st: State)
    requires Benign(w) && i <= w.count(v) && st.fuel >= w.count(v) - i
    ensures EvalFor(w, v, i, elem, [Simple(body)], st) ==
            (Norm(Unit), State(st.trace + Visited(elem, v, body, i, w.count(v)), st.fuel - (w.count(v) - i)))
    decreases w.count(v) - i
  {
    hide EvalBlock;
    if i < w.count(v) {
      var tr := st.trace + [Event(elem, [v, Int(i)])];
      BodyRuns(w, body, State(tr, st.fuel - 1));
      var s1 := State(tr + [Event(body, [])], st.fuel - 1);
      VisitsAll(w, v, elem, body, i + 1, s1);
      assert s1.trace + Visited(elem, v, body, i + 1, w.count(v)) == st.trace + Visited(elem, v, body, i, w.count(v));
      assert Act(w, elem, [v, Int(i)], Void, st.trace) == (Norm(Unit), tr);
    } else {
      assert st.trace + [] == st.trace;
    }
  }

  lemma BodyRuns(w: World, body: nat, st: State)
    requires Benign(w)
    ensures EvalBlock(w, [Simple(body)], st) == (Norm(Unit), State(st.trace + [Event(body, [])], st.fuel))
  {
    SimpleRuns(w, body, st);
    assert Recorded([]) + [Simple(body)] == [Simple(body)];
    RecordsAll(w, [], Simple(body), [], st);
    assert [] + Pending([]) == [];
  }

  lemma ForVisits(w: World, iter: Expr, elem: nat, body: nat, st: State, v: Value, s1: State)
    requires Benign(w) && Eval(w, iter, st) == (Norm(v), s1) && s1.fuel >= w.count(v)
    ensures Eval(w, For(iter, elem, [Simple(body)]), st) ==
            (Norm(Unit), State(s1.trace + Visited(elem, v, body, 0, w.count(v)), s1.fuel - w.count(v)))
  {
    hide EvalFor;
    VisitsAll(w, v, elem, body, 0, s1);
  }

  /** `x?` yields the payload, or leaves the function with the failure. */
  lemma TryLeaves(w: World, x: Expr, st: State, v: Value, s1: State)
    requires Eval(w, x, st) == (Norm(v), s1)
    ensures Eval(w, Try(x, Val), st) == (if w.fails(v) then Ret(Some(w.failure(v))) else Norm(w.payload(v)), s1)
  {
  }

  /** What a call of a function does: it yields its body's value, or what is returned. */
  lemma FunctionYields(w: World, body: seq<Expr>, fuel: nat)
    ensures var (o, s) := Eval(w, Block(body, Val), State([], fuel));
            RunFunction(w, body, fuel) == (
              match o
              case Norm(v) => Done(if body != [] && TypeOf(body[|body| - 1]) == Val then Some(v) else None)
              case Ret(v) => Done(v)
              case Stop(a) => Stopped(a)
              case Brk(_) => Stray
              case Cont => Stray, s.trace)
  {
    hide EvalBlock;
  }

  // ----- the statements of C -----

  /** A temporary holds what it was last set to; one that is only declared holds nothing,
      and reading it is an error. */
  lemma CTemporaries(w: World, t: nat, e: CExpr, st: CState, v: Value, s1: CState)
    requires CEval(w, e, st) == (CNorm(v), s1)
    ensures CEval(w, CStmtExpr([CSet(t, e), CDo(CTemp(t))], false), st) == (CNorm(v), s1.(env := s1.env[t := v]))
    ensures CEval(w, CStmtExpr([CDecl(t), CDo(CTemp(t))], false), st).0 == CStuck
  {
    var saved, decl := [CSet(t, e), CDo(CTemp(t))], [CDecl(t), CDo(CTemp(t))];
    assert saved[1..] == [CDo(CTemp(t))] && decl[1..] == [CDo(CTemp(t))];
    var s2 := s1.(env := s1.env[t := v]);
    assert CStep(w, saved[0], st) == (CNorm(Unit), s2) && CExec(w, saved[1..], s2) == CEval(w, CTemp(t), s2);
    var s3 := st.(env := st.env - {t});
    assert CStep(w, decl[0], st) == (CNorm(Unit), s3) && CExec(w, decl[1..], s3) == CEval(w, CTemp(t), s3);
  }

  /** The first statement that does not complete ends a list. */
  lemma CInTurn(w: World, s: CStmt, rest: seq<CStmt>, st: CState)
    ensures var (o, s1) := CStep(w, s, st);
            CExec(w, [s] + rest, st) == if !o.CNorm? || rest == [] then (o, s1) else CExec(w, rest, s1)
  {
    assert ([s] + rest)[1..] == rest;
  }

  lemma CExits(w: World, e: CExpr, st: CState, v: Value, s1: CState)
    requires CEval(w, e, st) == (CNorm(v), s1)
    ensures CStep(w, CBreak, st) == (CBrk, st) && CStep(w, CContinue, st) == (CCont, st)
    ensures CStep(w, CReturn(None), st) == (CRet(None), st) && CStep(w, CReturn(Some(e)), st) == (CRet(Some(v)), s1)
  {
  }

  lemma CLoopTurns(w: World, body: seq<CStmt>, st: CState)
    requires st.fuel > 0
    ensures var (o, s1) := CExec(w, body, st.(fuel := st.fuel - 1));
            CStep(w, CWhile(body), st) ==
              match o
              case CNorm(_) => CStep(w, CWhile(body), s1)
              case CCont => CStep(w, CWhile(body), s1)
              case CBrk => (CNorm(Unit), s1)
              case CRet(_) => (o, s1)
              case CStop(_) => (o, s1)
              case CStuck => (o, s1)
  {
    hide CExec;
  }

  // ----- what type checking lets through -----

  /** A value where one is asked for: of a call, a condition, a subject, an iterable. */
  predicate IsValue(e: Expr, lk: LoopKind, esc: bool) {
    TypeOf(e) == Val && WF(e, lk, esc)
  }

  predicate AllValues(es: seq<Expr>, lk: LoopKind, esc: bool) {
    forall i :: 0 <= i < |es| ==> IsValue(es[i], lk, esc)
  }

  predicate AllFormed(es: seq<Expr>, lk: LoopKind, esc: bool) {
    forall i :: 0 <= i < |es| ==> WF(es[i], lk, esc)
  }

  lemma {:induction false} OperandsAre(es: seq<Expr>, lk: LoopKind, esc: bool)
    ensures WFOperands(es, lk, esc) <==> AllValues(es, lk, esc)
    ensures WFStmts(es, lk, esc) <==> AllFormed(es, lk, esc)
  {
    hide WF;
    if es != [] {
      OperandsAre(es[1..], lk, esc);
      assert forall i :: 1 <= i < |es| ==> es[i] == es[1..][i - 1];
    }
  }

  /** A call takes any values. */
  lemma CallAdmitted(id: nat, args: seq<Expr>, t: Ty, lk: LoopKind, esc: bool)
    ensures WF(Atom(id, args, t), lk, esc) <==> AllValues(args, lk, esc)
  {
    hide WFOperands, AllValues;
    OperandsAre(args, lk, esc);
  }

  /** What is passed on if it failed is a value; deferred code may be anything but a
      defer, with no way out of it. */
  lemma TryAdmitted(e: Expr, t: Ty, lk: LoopKind, esc: bool)
    ensures t != Never ==> (WF(Try(e, t), lk, esc) <==> esc && IsValue(e, lk, esc))
  {
    assert WF(Try(e, t), lk, esc) <==> esc && t != Never && WFOperand(e, lk, esc);
  }

  lemma DeferAdmitted(e: Expr, lk: LoopKind, esc: bool)
    ensures WF(Defer(e), lk, esc) <==> !e.Defer? && WF(e, NoLoop, false)
  {
    assert WF(Defer(e), lk, esc) <==> WFDeferred(e);
  }

  /** A loop's statements may break and go on. */
  lemma LoopAdmitted(body: seq<Expr>, lk: LoopKind, esc: bool)
    ensures WF(Loop(body, Void), lk, esc) <==> AllFormed(body, VoidLoop, esc)
    ensures WF(Loop(body, Val), lk, esc) <==> AllFormed(body, ValLoop, esc)
  {
    hide WFStmts, AllFormed;
    OperandsAre(body, VoidLoop, esc);
    OperandsAre(body, ValLoop, esc);
  }

  lemma ForAdmitted(id: nat, e: Expr, body: seq<Expr>, lk: LoopKind, esc: bool)
    ensures WF(For(e, id, body), lk, esc) <==> IsValue(e, lk, esc) && AllFormed(body, VoidLoop, esc)
  {
    hide WFStmts, AllFormed;
    OperandsAre(body, VoidLoop, esc);
    assert WF(For(e, id, body), lk, esc) <==> WFOperand(e, lk, esc) && WFStmts(body, VoidLoop, esc);
  }

  /** A block has its last statement's type. */
  lemma BlockAdmitted(body: seq<Expr>, t: Ty, lk: LoopKind, esc: bool)
    ensures WF(Block(body, t), lk, esc) <==>
            AllFormed(body, lk, esc) && t == if body == [] then Void else TypeOf(body[|body| - 1])
  {
    hide WFStmts, AllFormed;
    OperandsAre(body, lk, esc);
  }

  /** One breaks out of a loop with what it yields, and goes on in any; one returns from
      a function with a value or without. What has no value but is an expression in C may
      stand for none. */
  lemma BreakAdmitted(e: Expr, lk: LoopKind, esc: bool)
    ensures (WF(Break(None), lk, esc) <==> lk == VoidLoop) && (WF(Continue, lk, esc) <==> lk == VoidLoop || lk == ValLoop)
    ensures IsValue(e, lk, esc) ==> (WF(Break(Some(e)), lk, esc) <==> lk == ValLoop)
    ensures TypeOf(e) != Val && (e.Atom? || e.Match? || e.Block? || e.Try?) && WF(e, lk, esc) ==>
              (WF(Break(Some(e)), lk, esc) <==> lk == VoidLoop && TypeOf(e) == Void)
  {
    assert WF(Break(Some(e)), lk, esc) <==> lk != NoLoop && WFReturned(e, lk, esc) && TypeOf(e) == if lk == ValLoop then Val else Void;
  }

  lemma ReturnAdmitted(e: Expr, lk: LoopKind, esc: bool)
    ensures WF(Return(None), lk, esc) <==> esc
    ensures IsValue(e, lk, esc) ==> (WF(Return(Some(e)), lk, esc) <==> esc)
    ensures (e.Atom? || e.Match? || e.Block? || e.Try?) && WF(e, lk, esc) ==> (WF(Return(Some(e)), lk, esc) <==> esc)
  {
    assert WF(Return(Some(e)), lk, esc) <==> esc && WFReturned(e, lk, esc);
  }

  lemma BranchAdmitted(a: seq<Expr>, lk: LoopKind, esc: bool)
    requires AllFormed(a, lk, esc)
    ensures WFBranch(Block(a, TailTy(a)), lk, esc) && WFStmts(a, lk, esc)
  {
    hide WFStmts, AllFormed;
    OperandsAre(a, lk, esc);
    assert BranchStmts(Block(a, TailTy(a))) == a;
  }

  /** Both branches of an `if` are there where it has a value, and one of them yields it. */
  lemma BranchesAdmitted(c: Expr, a: seq<Expr>, b: seq<Expr>, lk: LoopKind, esc: bool)
    requires IsValue(c, lk, esc) && AllFormed(a, lk, esc) && AllFormed(b, lk, esc)
    ensures var t, u := TailTy(a), TailTy(b);
            && WF(If(c, Block(a, t), None, Void), lk, esc) && !WF(If(c, Block(a, t), None, Val), lk, esc)
            && WF(If(c, Block(a, t), Some(Block(b, u)), Void), lk, esc)
            && (WF(If(c, Block(a, t), Some(Block(b, u)), Val), lk, esc) <==> t != Void && u != Void && (t == Val || u == Val))
            && (WF(If(c, Block(a, t), Some(Block(b, u)), Never), lk, esc) <==> t == Never && u == Never)
  {
    hide WFBranch, TailTy, AllFormed;
    BranchAdmitted(a, lk, esc);
    BranchAdmitted(b, lk, esc);
  }

  /** Each arm of a `match` yields its value, or leaves. */
  lemma ArmsAdmitted(c: Expr, a: seq<Expr>, b: seq<Expr>, lk: LoopKind, esc: bool)
    requires IsValue(c, lk, esc) && AllFormed(a, lk, esc) && AllFormed(b, lk, esc)
    ensures var t, u := TailTy(a), TailTy(b);
            && WF(Match(c, [Arm(a), Arm(b)], Void), lk, esc)
            && (WF(Match(c, [Arm(a), Arm(b)], Val), lk, esc) <==> t != Void && u != Void)
            && (WF(Match(c, [Arm(a), Arm(b)], Never), lk, esc) <==> t == Never && u == Never)
  {
    hide WFStmts, TailTy, AllFormed;
    BranchAdmitted(a, lk, esc);
    BranchAdmitted(b, lk, esc);
    TwoArms(a, b, Void, lk, esc);
    TwoArms(a, b, Val, lk, esc);
    TwoArms(a, b, Never, lk, esc);
  }

  lemma TwoArms(a: seq<Expr>, b: seq<Expr>, ty: Ty, lk: LoopKind, esc: bool)
    requires WFStmts(a, lk, esc) && WFStmts(b, lk, esc)
    ensures WFArms([Arm(a), Arm(b)], ty, lk, esc) <==>
            (ty == Val ==> TailTy(a) != Void && TailTy(b) != Void) && (ty == Never ==> TailTy(a) == Never && TailTy(b) == Never)
  {
    hide WFStmts, TailTy;
    var arms := [Arm(a), Arm(b)];
    assert arms[1..] == [Arm(b)] && arms[1..][1..] == [];
    assert WFArms([], ty, lk, esc);
  }

  // ----- what a C compiler lets through -----

  /** No variable, argument or condition of type `void`. */
  lemma CRefusesVoid(e: CExpr, id: nat, t: nat, ty: Ty, rest: seq<CExpr>, p: seq<CStmt>, q: seq<CStmt>)
    requires CTy(e) == Void
    ensures !AcceptsStmt(CSet(t, e)) && !AcceptsStmt(CSetLoop(e)) && !AcceptsStmt(CIf(e, p, q)) && !AcceptsStmt(CChain(e, []))
    ensures !Accepts(CAct(id, [e] + rest, ty)) && !Accepts(CCond(e, e, e)) && !Accepts(CFails(e)) && !Accepts(CPayload(e)) && !Accepts(CFailure(e))
  {
    assert ([e] + rest)[0] == e;
  }

  /** An expression with a value is taken wherever one is asked for, and either kind as a
      statement or after `return`. */
  lemma CTakes(e: CExpr, t: nat)
    requires Accepts(e)
    ensures AcceptsStmt(CDo(e)) && AcceptsStmt(CReturn(Some(e))) && Accepts(CVoid(e))
    ensures CTy(e) == Val ==> AcceptsStmt(CSet(t, e)) && AcceptsStmt(CSetLoop(e)) && Accepts(CFails(e)) && Accepts(CPayload(e)) && Accepts(CFailure(e))
    ensures AcceptsStmt(CReturn(None)) && AcceptsStmt(CBreak) && AcceptsStmt(CContinue) && AcceptsStmt(CDecl(t)) && Accepts(CTemp(t)) && Accepts(CLoopRes)
  {
  }

  /** What has a value in C: a call with one, a temporary, and a statement expression that
      ends in an expression with one. */
  lemma CValues(id: nat, args: seq<CExpr>, t: Ty, n: nat, p: seq<CStmt>, e: CExpr, own: bool)
    ensures (CTy(CAct(id, args, t)) == Val <==> t == Val) && CTy(CVoid(e)) == Void && CTy(CTemp(n)) == CTy(CLoopRes) == Val
    ensures CTy(CFails(e)) == CTy(CPayload(e)) == CTy(CFailure(e)) == Val && CTy(CStmtExpr([], own)) == Void
    ensures CTy(CStmtExpr(p + [CDo(e)], own)) == CTy(e) && CTy(CStmtExpr(p + [CSet(n, e)], own)) == Void
    ensures CTy(CCond(e, CVoid(e), e)) == Void && CTy(CCond(e, CTemp(n), e)) == Val
  {
    var body := p + [CDo(e)];
    assert body[|body| - 1] == CDo(e);
    var other := p + [CSet(n, e)];
    assert other[|other| - 1] == CSet(n, e);
  }

  lemma {:induction false} CAcceptsEach(p: seq<CStmt>, es: seq<CExpr>)
    ensures AcceptsAll(p) <==> forall i :: 0 <= i < |p| ==> AcceptsStmt(p[i])
    ensures AcceptsArgs(es) <==> forall i :: 0 <= i < |es| ==> Accepts(es[i]) && CTy(es[i]) == Val
    decreases |p| + |es|
  {
    hide Accepts, AcceptsStmt, CTy;
    if p != [] {
      CAcceptsEach(p[1..], es);
      assert forall i :: 1 <= i < |p| ==> p[i] == p[1..][i - 1];
    } else if es != [] {
      CAcceptsEach(p, es[1..]);
      assert forall i :: 1 <= i < |es| ==> es[i] == es[1..][i - 1];
    }
  }
}
