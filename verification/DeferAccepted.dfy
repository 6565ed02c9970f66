/** Which bodies a C compiler accepts, as far as values go: the emitter declares a
    temporary of the type of what it stores, and C has no variable of type `void`. */
module DeferAccepted {
  import opened DeferSource
  import opened DeferTarget
  import opened DeferLowering
  import opened DeferTyping
  import opened DeferCorrect

  // ----- C's rules -----

  /** The C type of an emitted expression: `never` is written `void`. */
  function CTy(e: CExpr): Ty
    decreases e
  {
    match e
    case CAct(_, _, t) => if t == Val then Val else Void
    case CCond(_, a, _) => CTy(a)
    case CVoid(_) => Void
    case CStmtExpr(body, _) =>
      if body != [] && body[|body| - 1].CDo? then CTy(body[|body| - 1].e) else Void
    case CTemp(_) => Val
    case CLoopRes => Val
    case CFails(_) => Val
    case CPayload(_) => Val
    case CFailure(_) => Val
  }

  predicate Accepts(e: CExpr)
    decreases e, 0
  {
    match e
    case CAct(_, args, _) => AcceptsArgs(args)
    case CTemp(_) => true
    case CLoopRes => true
    case CCond(c, a, b) => AcceptsValue(c) && AcceptsValue(a) && AcceptsValue(b)
    case CVoid(x) => Accepts(x)
    case CFails(x) => AcceptsValue(x)
    case CPayload(x) => AcceptsValue(x)
    case CFailure(x) => AcceptsValue(x)
    case CStmtExpr(body, _) => AcceptsAll(body)
  }

  /** An expression where C needs a value. */
  predicate AcceptsValue(e: CExpr)
    decreases e, 1
  {
    Accepts(e) && CTy(e) == Val
  }

  predicate AcceptsArgs(es: seq<CExpr>)
    decreases es, 0
  {
    es == [] || (AcceptsValue(es[0]) && AcceptsArgs(es[1..]))
  }

  predicate AcceptsStmt(s: CStmt)
    decreases s, 0
  {
    match s
    case CDo(e) => Accepts(e)
    case CDecl(_) => true
    case CSet(_, e) => AcceptsValue(e)
    case CSetLoop(e) => AcceptsValue(e)
    case CIf(c, a, b) => AcceptsValue(c) && AcceptsAll(a) && AcceptsAll(b)
    case CChain(c, arms) => AcceptsValue(c) && AcceptsArms(arms)
    case CWhile(body) => AcceptsAll(body)
    case CFor(_, _, body) => AcceptsAll(body)
    case CBreak => true
    case CContinue => true
    case CReturn(v) => v.Some? ==> Accepts(v.value)
  }

  predicate AcceptsAll(ss: seq<CStmt>)
    decreases ss, 0
  {
    ss == [] || (AcceptsStmt(ss[0]) && AcceptsAll(ss[1..]))
  }

  predicate AcceptsArms(arms: seq<CArm>)
    decreases arms, 0
  {
    arms == [] || (AcceptsAll(arms[0].body) && AcceptsArms(arms[1..]))
  }

  lemma {:induction false} AcceptsAppend(a: seq<CStmt>, b: seq<CStmt>)
    ensures AcceptsAll(a + b) <==> AcceptsAll(a) && AcceptsAll(b)
    decreases |a|
  {
    if a == [] {
      assert a + b == b;
    } else {
      AcceptsAppend(a[1..], b);
      assert (a + b)[1..] == a[1..] + b;
    }
  }

  lemma AcceptsOne(s: CStmt)
    ensures AcceptsAll([s]) <==> AcceptsStmt(s)
  {
    assert [s][1..] == [];
  }

  lemma AcceptsCons(s: CStmt, ss: seq<CStmt>)
    ensures AcceptsAll([s] + ss) <==> AcceptsStmt(s) && AcceptsAll(ss)
  {
    AcceptsAppend([s], ss);
    AcceptsOne(s);
  }

  lemma TempValue(t: nat)
    ensures AcceptsValue(CTemp(t)) && AcceptsValue(CFails(CTemp(t))) && AcceptsValue(CPayload(CTemp(t)))
    ensures Accepts(CFailure(CTemp(t)))
  {
    assert Accepts(CTemp(t)) && AcceptsValue(CTemp(t));
  }

  // ----- the source's condition -----

  /** How far an exit goes. */
  datatype Reach = OutOfLoop | OutOfFunction

  /** Has `e` such an exit? Deferred code has none. */
  predicate Leaves(e: Expr, r: Reach)
    decreases Size(e), 0
  {
    match e
    case Atom(_, args, _) => LeavesAny(args, r)
    case If(c, t, f, _) => Leaves(c, r) || Leaves(t, r) || (f.Some? && Leaves(f.value, r))
    case Match(s, arms, _) => Leaves(s, r) || LeavesArms(arms, r)
    case Loop(body, _) => r == OutOfFunction && LeavesAny(body, r)
    case For(it, _, body) => Leaves(it, r) || (r == OutOfFunction && LeavesAny(body, r))
    case Block(stmts, _) => LeavesAny(stmts, r)
    case Try(x, _) => r == OutOfFunction || Leaves(x, r)
    case Break(v) => r == OutOfLoop || (v.Some? && Leaves(v.value, r))
    case Continue => r == OutOfLoop
    case Return(v) => r == OutOfFunction || (v.Some? && Leaves(v.value, r))
    case Defer(_) => false
  }

  predicate LeavesAny(es: seq<Expr>, r: Reach)
    decreases SizeAll(es), 0
  {
    es != [] && (Leaves(es[0], r) || LeavesAny(es[1..], r))
  }

  predicate LeavesArms(arms: seq<Arm>, r: Reach)
    decreases SizeArms(arms), 0
  {
    arms != [] && (LeavesAny(arms[0].body, r) || LeavesArms(arms[1..], r))
  }

  /** Does a defer with these statements after it in its block run at all? Not if they
      end in what never completes, without an exit on the way. */
  predicate Unwound(rest: seq<Expr>) {
    TailTy(rest) != Never || LeavesAny(rest, OutOfLoop) || LeavesAny(rest, OutOfFunction)
  }

  /** A `match`, block or call that never completes. */
  predicate Diverges(s: Expr) {
    TypeOf(s) == Never && IsOperandForm(s)
  }

  /** `e` has a block with a defer that ends in a `match`, block or call that never
      completes, or breaks out with no value, or, where a defer is pending, returns an
      expression without one. `pend`: a defer is pending around `e`. */
  predicate Spoilt(e: Expr, pend: bool)
    decreases Size(e), 0
  {
    match e
    case Atom(_, args, _) => SpoiltAny(args, pend)
    case If(c, t, f, _) => Spoilt(c, pend) || Spoilt(t, pend) || (f.Some? && Spoilt(f.value, pend))
    case Match(s, arms, _) => Spoilt(s, pend) || SpoiltArms(arms, pend)
    case Loop(body, _) => SpoiltBlock(body, false, false, pend)
    case For(it, _, body) => Spoilt(it, pend) || SpoiltBlock(body, false, false, pend)
    case Block(stmts, _) => SpoiltBlock(stmts, false, false, pend)
    case Try(x, _) => Spoilt(x, pend)
    case Break(v) => v.Some? && (TypeOf(v.value) != Val || Spoilt(v.value, pend))
    case Continue => false
    case Return(v) => v.Some? && ((pend && TypeOf(v.value) != Val) || Spoilt(v.value, pend))
    case Defer(d) => Spoilt(d, true)
  }

  predicate SpoiltAny(es: seq<Expr>, pend: bool)
    decreases SizeAll(es), 0
  {
    es != [] && (Spoilt(es[0], pend) || SpoiltAny(es[1..], pend))
  }

  predicate SpoiltArms(arms: seq<Arm>, pend: bool)
    decreases SizeArms(arms), 0
  {
    arms != [] && (SpoiltBlock(arms[0].body, false, false, pend) || SpoiltArms(arms[1..], pend))
  }

  /** The same of a block's statements from some point on. `fn`: they are a function's
      own body; `own`: the block has recorded a defer. */
  predicate SpoiltBlock(stmts: seq<Expr>, fn: bool, own: bool, pend: bool)
    decreases SizeAll(stmts), 0
  {
    if stmts == [] then false
    else if stmts[0].Defer? then
      assert Size(stmts[0]) == 1 + Size(stmts[0].deferred);
      (Spoilt(stmts[0].deferred, true) && Unwound(stmts[1..])) || SpoiltBlock(stmts[1..], fn, true, true)
    else if |stmts| == 1 then Spoilt(stmts[0], pend) || (own && !fn && Diverges(stmts[0]))
    else Spoilt(stmts[0], pend) || SpoiltBlock(stmts[1..], fn, own, pend)
  }

  // ----- the scopes -----

  predicate Clean(ds: seq<Expr>)
  {
    forall i :: 0 <= i < |ds| ==> !Spoilt(ds[i], true)
  }

  /** The defers that an exit this far runs are all clean. */
  predicate CleanTo(sc: Scopes, r: Reach) {
    match sc
    case FnBase => true
    case DeferBase => true
    case Push(isLoop, ds, p) => Clean(ds) && ((isLoop && r == OutOfLoop) || CleanTo(p, r))
  }

  /** The condition on an expression, and on the defers that its exits copy. */
  predicate Good(e: Expr, sc: Scopes) {
    && !Spoilt(e, HasPending(sc))
    && (Leaves(e, OutOfLoop) ==> CleanTo(sc, OutOfLoop))
    && (Leaves(e, OutOfFunction) ==> CleanTo(sc, OutOfFunction))
  }

  predicate GoodAny(es: seq<Expr>, sc: Scopes) {
    && !SpoiltAny(es, HasPending(sc))
    && (LeavesAny(es, OutOfLoop) ==> CleanTo(sc, OutOfLoop))
    && (LeavesAny(es, OutOfFunction) ==> CleanTo(sc, OutOfFunction))
  }

  predicate GoodArms(arms: seq<Arm>, sc: Scopes) {
    && !SpoiltArms(arms, HasPending(sc))
    && (LeavesArms(arms, OutOfLoop) ==> CleanTo(sc, OutOfLoop))
    && (LeavesArms(arms, OutOfFunction) ==> CleanTo(sc, OutOfFunction))
  }

  /** The condition on the rest of the block whose scope is `sc`. */
  predicate GoodBlock(stmts: seq<Expr>, sc: Scopes, fn: bool)
    requires sc.Push?
  {
    && !SpoiltBlock(stmts, fn, sc.defers != [], HasPending(sc))
    && (Unwound(stmts) ==> Clean(sc.defers))
    && (LeavesAny(stmts, OutOfLoop) && !sc.isLoop ==> CleanTo(sc.parent, OutOfLoop))
    && (LeavesAny(stmts, OutOfFunction) ==> CleanTo(sc.parent, OutOfFunction))
  }

  lemma NothingPendingClean(sc: Scopes, r: Reach)
    requires !HasPending(sc)
    ensures CleanTo(sc, r)
  {
    if sc.Push? {
      NothingPendingClean(sc.parent, r);
    }
  }

  // ----- the emitted defers -----

  lemma {:induction false} DefersAccepted(ds: seq<Expr>, c: nat)
    requires forall i :: 0 <= i < |ds| ==> WFDeferred(ds[i])
    ensures AcceptsAll(LowerDefers(ds, c).0) <==> Clean(ds)
    decreases SizeAll(ds), 4
  {
    hide WFDeferred, Clean, Spoilt, LowerDeferred;
    if ds == [] {
      NoDefersClean();
    } else {
      var n := |ds| - 1;
      SizeLast(ds);
      var (code, c1) := LowerDeferred(ds[n], c);
      var (rest, c2) := LowerDefers(ds[..n], c1);
      AcceptsAppend(code, rest);
      DeferredAccepted(ds[n], c);
      DefersAccepted(ds[..n], c1);
      MoreClean(ds[..n], ds[n]);
      assert ds[..n] + [ds[n]] == ds;
    }
  }

  lemma {:induction false} DeferredAccepted(d: Expr, c: nat)
    requires WFDeferred(d)
    ensures AcceptsAll(LowerDeferred(d, c).0) <==> !Spoilt(d, true)
    decreases Size(d), 4
  {
    if EmitsStatement(d) {
      FormAccepted(d, DeferBase, c, NoLoop, false);
    } else {
      ExprAccepted(d, DeferBase, c, NoLoop, false);
      AcceptsOne(CDo(CVoid(LowerExpr(d, DeferBase, c).0)));
    }
  }

  lemma {:induction false} ToLoopAccepted(sc: Scopes, c: nat)
    requires ScOk(sc)
    ensures AcceptsAll(LowerToLoop(sc, c).0) <==> CleanTo(sc, OutOfLoop)
    decreases ScSize(sc), 5, sc
  {
    if sc.Push? {
      var (code, c1) := LowerDefers(sc.defers, c);
      DefersAccepted(sc.defers, c);
      if !sc.isLoop {
        AcceptsAppend(code, LowerToLoop(sc.parent, c1).0);
        ToLoopAccepted(sc.parent, c1);
      }
    }
  }

  lemma {:induction false} ToFuncAccepted(sc: Scopes, c: nat)
    requires ScOk(sc)
    ensures AcceptsAll(LowerToFunc(sc, c).0) <==> CleanTo(sc, OutOfFunction)
    decreases ScSize(sc), 5, sc
  {
    if sc.Push? {
      var (code, c1) := LowerDefers(sc.defers, c);
      DefersAccepted(sc.defers, c);
      AcceptsAppend(code, LowerToFunc(sc.parent, c1).0);
      ToFuncAccepted(sc.parent, c1);
    }
  }

  // ----- expressions -----

  /** Accepted, an expression has a value in C exactly if it has one in FC. */
  lemma {:induction false} ExprAccepted(e: Expr, sc: Scopes, c: nat, lk: LoopKind, esc: bool)
    requires WF(e, lk, esc) && IsOperandForm(e) && ScOk(sc)
    ensures Accepts(LowerExpr(e, sc, c).0) <==> Good(e, sc)
    ensures Good(e, sc) ==> (CTy(LowerExpr(e, sc, c).0) == Val <==> TypeOf(e) == Val)
    decreases ScSize(sc) + Size(e), 2
  {
    hide Good, LowerStmts, LowerArms, LowerArgs, LowerBranchInto, LowerToFunc, WFStmts, WFBranch, WFArms, ScOk, Spoilt, Leaves;
    match e
    case Atom(_, args, _) =>
      AtomGood(e, sc);
      ArgsAccepted(args, sc, c, lk, esc);
    case If(_, t, f, _) =>
      if TypeOf(t) == Val && TypeOf(f.value) == Val {
        TernaryAccepted(e, sc, c, lk, esc);
      } else {
        IfResAccepted(e, sc, c, lk, esc);
      }
    case Match(_, _, _) => MatchAccepted(e, sc, c, lk, esc);
    case Loop(body, _) => LoopAccepted(e, sc, c, lk, esc);
    case Block(stmts, _) => BlockAccepted(e, sc, c, lk, esc);
    case Try(_, _) => TryAccepted(e, sc, c, lk, esc);
  }

  lemma AtomGood(e: Expr, sc: Scopes)
    requires e.Atom?
    ensures Good(e, sc) <==> GoodAny(e.args, sc)
  {
    hide CleanTo;
  }

  lemma {:induction false} ArgsAccepted(es: seq<Expr>, sc: Scopes, c: nat, lk: LoopKind, esc: bool)
    requires WFOperands(es, lk, esc) && ScOk(sc)
    ensures AcceptsArgs(LowerArgs(es, sc, c).0) <==> GoodAny(es, sc)
    decreases ScSize(sc) + SizeAll(es), 0
  {
    hide CleanTo, ScOk, LowerExpr, Spoilt, Leaves, WF;
    if es != [] {
      var (x, c1) := LowerExpr(es[0], sc, c);
      var xs := LowerArgs(es[1..], sc, c1).0;
      assert ([x] + xs)[1..] == xs;
      OperandAccepted(es[0], sc, c, lk, esc);
      ArgsAccepted(es[1..], sc, c1, lk, esc);
    }
  }

  /** An operand: it has a value. */
  lemma {:induction false} OperandAccepted(e: Expr, sc: Scopes, c: nat, lk: LoopKind, esc: bool)
    requires WFOperand(e, lk, esc) && ScOk(sc)
    ensures AcceptsValue(LowerExpr(e, sc, c).0) <==> Good(e, sc)
    decreases ScSize(sc) + Size(e), 3
  {
    hide Good, LowerExpr, ScOk, WF;
    OperandFromVal(e, lk, esc);
    ExprAccepted(e, sc, c, lk, esc);
  }

  /** A valued branch is an operand. */
  lemma BranchOperand(b: Expr, lk: LoopKind, esc: bool)
    requires WFBranch(b, lk, esc) && TypeOf(b) == Val
    ensures WFOperand(b, lk, esc)
  {
    hide WFOperands, WFArms;
    if !b.Block? {
      assert WFStmts([b], lk, esc) && [b][0] == b;
    }
  }

  lemma IfParts(e: Expr, sc: Scopes, lk: LoopKind, esc: bool)
    requires e.If? && WF(e, lk, esc)
    ensures WFOperand(e.cond, lk, esc) && WFBranch(e.thn, lk, esc) && (e.els.Some? ==> WFBranch(e.els.value, lk, esc))
    ensures Size(e) == 5 + Size(e.cond) + Size(e.thn) + if e.els.Some? then Size(e.els.value) else 0
    ensures e.ity == Val ==> e.els.Some? && TypeOf(e.thn) != Void && TypeOf(e.els.value) != Void
    ensures Good(e, sc) <==> Good(e.cond, sc) && Good(e.thn, sc) && (e.els.Some? ==> Good(e.els.value, sc))
  {
    hide CleanTo, WFStmts, BranchStmts;
  }

  lemma {:induction false} TernaryAccepted(e: Expr, sc: Scopes, c: nat, lk: LoopKind, esc: bool)
    requires e.If? && e.ity == Val && WF(e, lk, esc) && ScOk(sc)
    requires TypeOf(e.thn) == Val && TypeOf(e.els.value) == Val
    ensures Accepts(LowerExpr(e, sc, c).0) <==> Good(e, sc)
    ensures Good(e, sc) ==> CTy(LowerExpr(e, sc, c).0) == Val
    decreases ScSize(sc) + Size(e), 1
  {
    hide Good, WF, WFBranch, WFOperand, ScOk, AcceptsValue, Size, ScSize;
    IfParts(e, sc, lk, esc);
    var (x, c1) := LowerExpr(e.cond, sc, c);
    var (a, c2) := LowerExpr(e.thn, sc, c1);
    var b := LowerExpr(e.els.value, sc, c2).0;
    BranchOperand(e.thn, lk, esc);
    BranchOperand(e.els.value, lk, esc);
    OperandAccepted(e.cond, sc, c, lk, esc);
    OperandAccepted(e.thn, sc, c1, lk, esc);
    OperandAccepted(e.els.value, sc, c2, lk, esc);
    TernaryC(e, sc, c);
  }

  lemma TernaryC(e: Expr, sc: Scopes, c: nat)
    requires e.If? && e.ity == Val && e.els.Some? && TypeOf(e.thn) == Val && TypeOf(e.els.value) == Val
    ensures var (x, c1) := LowerExpr(e.cond, sc, c);
            var (a, c2) := LowerExpr(e.thn, sc, c1);
            var b := LowerExpr(e.els.value, sc, c2).0;
            var r := LowerExpr(e, sc, c).0;
            && (Accepts(r) <==> AcceptsValue(x) && AcceptsValue(a) && AcceptsValue(b))
            && (AcceptsValue(a) ==> CTy(r) == Val)
  {
  }

  lemma {:induction false} IfResAccepted(e: Expr, sc: Scopes, c: nat, lk: LoopKind, esc: bool)
    requires e.If? && e.ity == Val && WF(e, lk, esc) && ScOk(sc)
    requires TypeOf(e.thn) == Never || TypeOf(e.els.value) == Never
    ensures Accepts(LowerExpr(e, sc, c).0) <==> Good(e, sc)
    ensures CTy(LowerExpr(e, sc, c).0) == Val
    decreases ScSize(sc) + Size(e), 1
  {
    hide Good, WF, WFBranch, WFOperand, ScOk, LowerExpr, LowerBranchInto, Size, ScSize;
    IfParts(e, sc, lk, esc);
    LowerIfRes(e, sc, c);
    var (x, c1) := LowerExpr(e.cond, sc, c + 1);
    var (a, c2) := LowerBranchInto(e.thn, c, sc, c1);
    var b := LowerBranchInto(e.els.value, c, sc, c2).0;
    OperandAccepted(e.cond, sc, c + 1, lk, esc);
    IntoAccepted(e.thn, c, sc, c1, lk, esc);
    IntoAccepted(e.els.value, c, sc, c2, lk, esc);
    IfResC(x, a, b, c);
  }

  lemma IfResC(x: CExpr, a: seq<CStmt>, b: seq<CStmt>, c: nat)
    ensures var r := CStmtExpr([CDecl(c), CIf(x, a, b), CDo(CTemp(c))], false);
            && (Accepts(r) <==> AcceptsValue(x) && AcceptsAll(a) && AcceptsAll(b))
            && CTy(r) == Val
  {
    var body := [CDecl(c), CIf(x, a, b), CDo(CTemp(c))];
    var rest := [CIf(x, a, b), CDo(CTemp(c))];
    assert body == [CDecl(c)] + rest && rest == [CIf(x, a, b)] + [CDo(CTemp(c))];
    AcceptsCons(CDecl(c), rest);
    AcceptsCons(CIf(x, a, b), [CDo(CTemp(c))]);
    AcceptsOne(CDo(CTemp(c)));
  }

  lemma {:induction false} IntoAccepted(b: Expr, res: nat, sc: Scopes, c: nat, lk: LoopKind, esc: bool)
    requires WFBranch(b, lk, esc) && TypeOf(b) != Void && ScOk(sc)
    ensures AcceptsAll(LowerBranchInto(b, res, sc, c).0) <==> Good(b, sc)
    decreases ScSize(sc) + Size(b) + 1, 8
  {
    hide Good, WFBranch, WFOperand, ScOk, LowerExpr, LowerBranch, LowerBranchInto;
    LowerInto(b, res, sc, c);
    if TypeOf(b) == Never {
      BranchAccepted(b, sc, c, lk, esc);
    } else {
      BranchOperand(b, lk, esc);
      OperandAccepted(b, sc, c, lk, esc);
      AcceptsOne(CSet(res, LowerExpr(b, sc, c).0));
    }
  }

  // ----- blocks -----

  lemma OpenGood(stmts: seq<Expr>, isLoop: bool, sc: Scopes)
    ensures GoodBlock(stmts, Push(isLoop, [], sc), false) <==>
            && !SpoiltBlock(stmts, false, false, HasPending(sc))
            && (LeavesAny(stmts, OutOfLoop) && !isLoop ==> CleanTo(sc, OutOfLoop))
            && (LeavesAny(stmts, OutOfFunction) ==> CleanTo(sc, OutOfFunction))
  {
    hide CleanTo;
  }

  lemma {:induction false} BranchAccepted(b: Expr, sc: Scopes, c: nat, lk: LoopKind, esc: bool)
    requires WFBranch(b, lk, esc) && ScOk(sc)
    ensures AcceptsAll(LowerBranch(b, sc, c).0) <==> Good(b, sc)
    decreases ScSize(sc) + Size(b) + 1, 7
  {
    hide Good, GoodBlock, WFStmts, LowerStmts, Spoilt, SpoiltBlock, Leaves, LeavesAny, BranchStmts;
    StmtsAccepted(BranchStmts(b), Push(false, [], sc), TailDiscard, c, lk, esc);
    BranchGood(b, sc);
  }

  lemma BranchGood(b: Expr, sc: Scopes)
    ensures Good(b, sc) <==> GoodBlock(BranchStmts(b), Push(false, [], sc), false)
  {
    hide CleanTo, GoodBlock, SpoiltBlock, LeavesAny;
    OpenGood(BranchStmts(b), false, sc);
    if b.Block? {
      BlockIsStmts(b, HasPending(sc));
    } else {
      LoneSpoilt(b, HasPending(sc));
      OnlyLeaves(b);
    }
    hide Spoilt, Leaves;
  }

  lemma BlockIsStmts(b: Expr, pend: bool)
    requires b.Block?
    ensures Spoilt(b, pend) <==> SpoiltBlock(b.stmts, false, false, pend)
    ensures forall r: Reach :: Leaves(b, r) <==> LeavesAny(b.stmts, r)
  {
    hide SpoiltBlock, LeavesAny;
  }

  lemma LoneSpoilt(b: Expr, pend: bool)
    ensures SpoiltBlock([b], false, false, pend) <==> Spoilt(b, pend)
  {
    assert [b][1..] == [];
    if b.Defer? {
      assert SpoiltBlock([b], false, false, pend) <==> Spoilt(b.deferred, true);
    }
  }

  lemma OnlyLeaves(s: Expr)
    ensures forall r: Reach :: LeavesAny([s], r) <==> Leaves(s, r)
  {
    hide Leaves;
    assert [s][1..] == [];
    forall r: Reach ensures LeavesAny([s], r) <==> Leaves(s, r) {
      assert !LeavesAny([], r);
    }
  }

  lemma {:induction false} MatchAccepted(e: Expr, sc: Scopes, c: nat, lk: LoopKind, esc: bool)
    requires e.Match? && WF(e, lk, esc) && ScOk(sc)
    ensures Accepts(LowerExpr(e, sc, c).0) <==> Good(e, sc)
    ensures CTy(LowerExpr(e, sc, c).0) == Val <==> TypeOf(e) == Val
    decreases ScSize(sc) + Size(e), 1
  {
    hide Good, GoodArms, ScOk, WFArms, LowerExpr, LowerArms, Accepts, CTy, AcceptsValue, AcceptsArms;
    MatchParts(e, sc, lk, esc);
    var (x, c1) := LowerExpr(e.subject, sc, c + 1);
    OperandAccepted(e.subject, sc, c + 1, lk, esc);
    if Valueless(e.mty) {
      ArmsAccepted(e.arms, e.mty, sc, TailDiscard, c1, lk, esc);
      MatchC(c, x, None, LowerArms(e.arms, sc, TailDiscard, c1).0);
    } else {
      ArmsAccepted(e.arms, e.mty, sc, TailAssign(c1), c1 + 1, lk, esc);
      MatchC(c, x, Some(c1), LowerArms(e.arms, sc, TailAssign(c1), c1 + 1).0);
    }
    LowerMatch(e, sc, c);
  }

  lemma MatchParts(e: Expr, sc: Scopes, lk: LoopKind, esc: bool)
    requires e.Match? && WF(e, lk, esc)
    ensures WFOperand(e.subject, lk, esc) && WFArms(e.arms, e.mty, lk, esc)
    ensures Size(e) == 2 + Size(e.subject) + SizeArms(e.arms)
    ensures Good(e, sc) <==> Good(e.subject, sc) && GoodArms(e.arms, sc)
  {
    hide CleanTo;
  }

  lemma MatchC(c: nat, x: CExpr, m: Option<nat>, xs: seq<CArm>)
    ensures var body := if m.Some? then [CSet(c, x), CDecl(m.value), CChain(CTemp(c), xs), CDo(CTemp(m.value))]
                        else [CSet(c, x), CChain(CTemp(c), xs)];
            var r := CStmtExpr(body, false);
            && (Accepts(r) <==> AcceptsValue(x) && AcceptsArms(xs))
            && (CTy(r) == Val <==> m.Some?)
  {
    var chain := CChain(CTemp(c), xs);
    TempValue(c);
    if m.Some? {
      TempValue(m.value);
      var last := [CDo(CTemp(m.value))];
      assert [CSet(c, x), CDecl(m.value), chain, CDo(CTemp(m.value))] == [CSet(c, x)] + ([CDecl(m.value)] + ([chain] + last));
      AcceptsCons(CSet(c, x), [CDecl(m.value)] + ([chain] + last));
      AcceptsCons(CDecl(m.value), [chain] + last);
      AcceptsCons(chain, last);
      AcceptsOne(last[0]);
    } else {
      assert [CSet(c, x), chain] == [CSet(c, x)] + [chain];
      AcceptsCons(CSet(c, x), [chain]);
      AcceptsOne(chain);
      assert [CSet(c, x), chain][1] == chain;
    }
  }

  lemma {:induction false} ArmsAccepted(arms: seq<Arm>, ty: Ty, sc: Scopes, tail: Tail, c: nat, lk: LoopKind, esc: bool)
    requires WFArms(arms, ty, lk, esc) && ScOk(sc)
    requires tail == TailDiscard || (tail.TailAssign? && ty == Val)
    ensures AcceptsArms(LowerArms(arms, sc, tail, c).0) <==> GoodArms(arms, sc)
    decreases ScSize(sc) + SizeArms(arms), 6
  {
    hide WFStmts, LowerStmts, SpoiltBlock, LeavesAny, AcceptsAll, GoodBlock;
    if arms != [] {
      var body := arms[0].body;
      var (x, c1) := LowerStmts(body, Push(false, [], sc), tail, c);
      var xs := LowerArms(arms[1..], sc, tail, c1).0;
      assert ([CArm(x)] + xs)[1..] == xs;
      StmtsAccepted(body, Push(false, [], sc), tail, c, lk, esc);
      ArmsAccepted(arms[1..], ty, sc, tail, c1, lk, esc);
      OpenGood(body, false, sc);
    }
  }

  lemma {:induction false} LoopAccepted(e: Expr, sc: Scopes, c: nat, lk: LoopKind, esc: bool)
    requires e.Loop? && e.lty == Val && WF(e, lk, esc) && ScOk(sc)
    ensures Accepts(LowerExpr(e, sc, c).0) <==> Good(e, sc)
    ensures CTy(LowerExpr(e, sc, c).0) == Val
    decreases ScSize(sc) + Size(e), 1
  {
    hide GoodBlock, WFStmts, LowerStmts, SpoiltBlock, LeavesAny, CleanTo;
    var b := LowerStmts(e.body, Push(true, [], sc), TailDiscard, c).0;
    StmtsAccepted(e.body, Push(true, [], sc), TailDiscard, c, ValLoop, esc);
    OpenGood(e.body, true, sc);
    assert [CWhile(b), CDo(CLoopRes)] == [CWhile(b)] + [CDo(CLoopRes)];
    AcceptsCons(CWhile(b), [CDo(CLoopRes)]);
    AcceptsOne(CDo(CLoopRes));
  }

  lemma {:induction false} BlockAccepted(e: Expr, sc: Scopes, c: nat, lk: LoopKind, esc: bool)
    requires e.Block? && WF(e, lk, esc) && ScOk(sc)
    ensures Accepts(LowerExpr(e, sc, c).0) <==> Good(e, sc)
    ensures Good(e, sc) ==> (CTy(LowerExpr(e, sc, c).0) == Val <==> TypeOf(e) == Val)
    decreases ScSize(sc) + Size(e), 1
  {
    hide GoodBlock, WFStmts, LowerStmts, SpoiltBlock, LeavesAny, CleanTo;
    StmtsAccepted(e.stmts, Push(false, [], sc), TailValue, c, lk, esc);
    OpenGood(e.stmts, false, sc);
  }

  lemma {:induction false} TryAccepted(e: Expr, sc: Scopes, c: nat, lk: LoopKind, esc: bool)
    requires e.Try? && WF(e, lk, esc) && ScOk(sc)
    ensures Accepts(LowerExpr(e, sc, c).0) <==> Good(e, sc)
    ensures CTy(LowerExpr(e, sc, c).0) == Val <==> TypeOf(e) == Val
    decreases ScSize(sc) + Size(e), 1
  {
    hide WF, LowerExpr, LowerToFunc, AcceptsValue, Accepts, CTy, Good, ScOk, Size;
    TryParts(e, sc, lk, esc);
    var (a, c1) := LowerExpr(e.operand, sc, c + 1);
    OperandAccepted(e.operand, sc, c + 1, lk, esc);
    ToFuncAccepted(sc, c1);
    LowerTry(e, sc, c);
    TryC(c, a, LowerToFunc(sc, c1).0, e.tty == Val);
  }

  lemma TryParts(e: Expr, sc: Scopes, lk: LoopKind, esc: bool)
    requires e.Try? && WF(e, lk, esc)
    ensures WFOperand(e.operand, lk, esc) && Size(e) == 1 + Size(e.operand)
    ensures Good(e, sc) <==> Good(e.operand, sc) && CleanTo(sc, OutOfFunction)
  {
    hide CleanTo;
  }

  lemma TryC(c: nat, a: CExpr, ds: seq<CStmt>, valued: bool)
    ensures var check := CIf(CFails(CTemp(c)), ds + [CReturn(Some(CFailure(CTemp(c))))], []);
            var r := CStmtExpr([CSet(c, a), check] + if valued then [CDo(CPayload(CTemp(c)))] else [], false);
            && (Accepts(r) <==> AcceptsValue(a) && AcceptsAll(ds))
            && (CTy(r) == Val <==> valued)
  {
    var ret := CReturn(Some(CFailure(CTemp(c))));
    var check := CIf(CFails(CTemp(c)), ds + [ret], []);
    CheckC(c, ds);
    hide AcceptsStmt;
    if valued {
      var last := [CDo(CPayload(CTemp(c)))];
      assert [CSet(c, a), check] + last == [CSet(c, a)] + ([check] + last);
      AcceptsCons(CSet(c, a), [check] + last);
      AcceptsCons(check, last);
      AcceptsOne(last[0]);
    } else {
      assert [CSet(c, a), check] + [] == [CSet(c, a)] + [check];
      AcceptsCons(CSet(c, a), [check]);
      AcceptsOne(check);
      assert ([CSet(c, a)] + [check])[1] == check;
    }
  }

  lemma CheckC(c: nat, ds: seq<CStmt>)
    ensures AcceptsStmt(CIf(CFails(CTemp(c)), ds + [CReturn(Some(CFailure(CTemp(c))))], [])) <==> AcceptsAll(ds)
    ensures AcceptsStmt(CDo(CPayload(CTemp(c))))
    ensures forall a: CExpr :: AcceptsStmt(CSet(c, a)) <==> AcceptsValue(a)
  {
    TempValue(c);
    var ret := CReturn(Some(CFailure(CTemp(c))));
    AcceptsAppend(ds, [ret]);
    AcceptsOne(ret);
    AcceptsNone();
  }

  // ----- statements -----

  lemma {:induction false} FormAccepted(e: Expr, sc: Scopes, c: nat, lk: LoopKind, esc: bool)
    requires EmitsStatement(e) && WF(e, lk, esc) && ScOk(sc)
    ensures AcceptsAll(LowerStmtForm(e, sc, c).0) <==> Good(e, sc)
    decreases ScSize(sc) + Size(e), 3
  {
    hide Good, GoodBlock, WFStmts, WFBranch, LowerStmts, LowerBranch, LowerExpr, SpoiltBlock, LeavesAny, AcceptsValue, AcceptsAll;
    match e
    case If(_, _, _, _) => IfFormAccepted(e, sc, c, lk, esc);
    case Loop(body, _) =>
      StmtsAccepted(body, Push(true, [], sc), TailDiscard, c, VoidLoop, esc);
      LoopGood(e, sc);
      AcceptsOne(CWhile(LowerStmts(body, Push(true, [], sc), TailDiscard, c).0));
    case For(it, elem, body) =>
      var (x, c1) := LowerExpr(it, sc, c + 1);
      var b := LowerStmts(body, Push(true, [], sc), TailDiscard, c1).0;
      OperandAccepted(it, sc, c + 1, lk, esc);
      StmtsAccepted(body, Push(true, [], sc), TailDiscard, c1, VoidLoop, esc);
      LoopGood(e, sc);
      assert [CSet(c, x), CFor(c, elem, b)] == [CSet(c, x)] + [CFor(c, elem, b)];
      AcceptsCons(CSet(c, x), [CFor(c, elem, b)]);
      AcceptsOne(CFor(c, elem, b));
  }

  lemma LoopGood(e: Expr, sc: Scopes)
    requires e.Loop? || e.For?
    ensures e.Loop? ==> (Good(e, sc) <==> GoodBlock(e.body, Push(true, [], sc), false))
    ensures e.For? ==> (Good(e, sc) <==> Good(e.iter, sc) && GoodBlock(e.fbody, Push(true, [], sc), false))
  {
    hide CleanTo;
    OpenGood(if e.Loop? then e.body else e.fbody, true, sc);
  }

  lemma {:induction false} IfFormAccepted(e: Expr, sc: Scopes, c: nat, lk: LoopKind, esc: bool)
    requires e.If? && Valueless(e.ity) && WF(e, lk, esc) && ScOk(sc)
    ensures AcceptsAll(LowerStmtForm(e, sc, c).0) <==> Good(e, sc)
    decreases ScSize(sc) + Size(e), 2
  {
    hide Good, WF, WFBranch, WFOperand, ScOk, LowerExpr, LowerBranch, Size, ScSize, AcceptsAll, AcceptsValue;
    IfParts(e, sc, lk, esc);
    var (x, c1) := LowerExpr(e.cond, sc, c);
    var (a, c2) := LowerBranch(e.thn, sc, c1);
    OperandAccepted(e.cond, sc, c, lk, esc);
    BranchAccepted(e.thn, sc, c1, lk, esc);
    if e.els.None? {
      AcceptsOne(CIf(x, a, []));
      AcceptsNone();
    } else {
      ElseAccepted(e.els.value, sc, c2, lk, esc);
      AcceptsOne(CIf(x, a, ElseCode(e.els.value, sc, c2)));
    }
  }

  lemma AcceptsNone()
    ensures AcceptsAll([])
  {
  }

  /** An `else` that is an `if` without a value becomes `else if`. */
  function ElseCode(f: Expr, sc: Scopes, c: nat): seq<CStmt> {
    if f.If? && Valueless(TypeOf(f)) then LowerStmtForm(f, sc, c).0 else LowerBranch(f, sc, c).0
  }

  lemma {:induction false} ElseAccepted(f: Expr, sc: Scopes, c: nat, lk: LoopKind, esc: bool)
    requires WFBranch(f, lk, esc) && ScOk(sc)
    ensures AcceptsAll(ElseCode(f, sc, c)) <==> Good(f, sc)
    decreases ScSize(sc) + Size(f) + 1, 8
  {
    hide Good, ScOk, LowerStmtForm, LowerBranch, AcceptsAll;
    if f.If? && Valueless(TypeOf(f)) {
      assert WFStmts([f], lk, esc) && [f][0] == f;
      IfFormAccepted(f, sc, c, lk, esc);
    } else {
      BranchAccepted(f, sc, c, lk, esc);
    }
  }

  lemma {:induction false} TransferAccepted(s: Expr, sc: Scopes, c: nat, lk: LoopKind, esc: bool)
    requires IsTransfer(s) && WF(s, lk, esc) && ScOk(sc)
    ensures AcceptsAll(LowerTransfer(s, sc, c).0) <==> Good(s, sc)
    ensures !LowerTransfer(s, sc, c).0[|LowerTransfer(s, sc, c).0| - 1].CDo?
    decreases ScSize(sc) + Size(s), 4
  {
    hide WF, WFReturned, ScOk, Good, CleanTo, LowerTransfer, LowerToFunc, LowerToLoop, Size, ScSize;
    var x := TransferOperand(s);
    TransferGood(s, sc, lk, esc);
    if x.None? {
      LowerBare(s, sc, c);
      var last := if s.Return? then CReturn(None) else if s.Break? then CBreak else CContinue;
      SizePositive(s);
      if s.Return? {
        ToFuncAccepted(sc, c);
        AcceptsAppend(LowerToFunc(sc, c).0, [last]);
      } else {
        ToLoopAccepted(sc, c);
        AcceptsAppend(LowerToLoop(sc, c).0, [last]);
      }
      AcceptsOne(last);
    } else if s.Return? {
      ReturnAccepted(x.value, sc, c, lk, esc);
      LowerReturn(x.value, sc, c);
    } else {
      BreakAccepted(x.value, sc, c, lk, esc);
    }
  }

  lemma TransferGood(s: Expr, sc: Scopes, lk: LoopKind, esc: bool)
    requires IsTransfer(s) && WF(s, lk, esc)
    ensures var x := TransferOperand(s);
            var clean := CleanTo(sc, if s.Return? then OutOfFunction else OutOfLoop);
            if x.None? then Good(s, sc) <==> clean
            else
              && WFReturned(x.value, lk, esc) && Size(s) == 1 + Size(x.value)
              && (Good(s, sc) <==>
                    Good(x.value, sc) && clean && (TypeOf(x.value) == Val || (s.Return? && !HasPending(sc))))
  {
    hide CleanTo, WFReturned, WFOperand, TypeOf;
    match s
    case Return(v) => if v.Some? { ReturnGood(v.value, sc); }
    case Break(v) => if v.Some? { BreakGood(v.value, sc); }
    case Continue =>
  }

  lemma ReturnGood(v: Expr, sc: Scopes)
    ensures Good(Return(Some(v)), sc) <==>
            Good(v, sc) && CleanTo(sc, OutOfFunction) && (TypeOf(v) == Val || !HasPending(sc))
  {
    hide CleanTo, TypeOf, HasPending;
    var s := Return(Some(v));
    assert Spoilt(s, HasPending(sc)) <==> (HasPending(sc) && TypeOf(v) != Val) || Spoilt(v, HasPending(sc));
    assert Leaves(s, OutOfFunction) && (Leaves(s, OutOfLoop) <==> Leaves(v, OutOfLoop));
    hide Spoilt, Leaves;
  }

  lemma BreakGood(v: Expr, sc: Scopes)
    ensures Good(Break(Some(v)), sc) <==> Good(v, sc) && CleanTo(sc, OutOfLoop) && TypeOf(v) == Val
  {
    hide CleanTo, TypeOf, HasPending;
    var s := Break(Some(v));
    assert Spoilt(s, HasPending(sc)) <==> TypeOf(v) != Val || Spoilt(v, HasPending(sc));
    assert Leaves(s, OutOfLoop) && (Leaves(s, OutOfFunction) <==> Leaves(v, OutOfFunction));
    hide Spoilt, Leaves;
  }

  lemma LowerReturn(v: Expr, sc: Scopes, c: nat)
    ensures LowerTransfer(Return(Some(v)), sc, c).0 ==
            if HasPending(sc) then LowerReturnThrough(v, sc, c).0 else [CReturn(Some(LowerExpr(v, sc, c).0))]
  {
    hide LowerReturnThrough, LowerExpr;
  }

  lemma SavedC(c: nat, x: CExpr, ds: seq<CStmt>, last: seq<CStmt>)
    ensures AcceptsAll([CSet(c, x)] + ds + last) <==> AcceptsValue(x) && AcceptsAll(ds) && AcceptsAll(last)
  {
    hide AcceptsValue;
    AcceptsAppend([CSet(c, x)] + ds, last);
    AcceptsCons(CSet(c, x), ds);
  }

  lemma {:induction false} ReturnThroughAccepted(v: Expr, sc: Scopes, c: nat, lk: LoopKind, esc: bool)
    requires WFReturned(v, lk, esc) && ScOk(sc)
    ensures var code := LowerReturnThrough(v, sc, c).0;
            && (AcceptsAll(code) <==> Good(v, sc) && CleanTo(sc, OutOfFunction) && TypeOf(v) == Val)
            && !code[|code| - 1].CDo?
    decreases ScSize(sc) + Size(v), 3
  {
    hide WF, ScOk, Good, CleanTo, LowerExpr, LowerToFunc, Size, ScSize;
    var (x, c1) := LowerExpr(v, sc, c + 1);
    ExprAccepted(v, sc, c + 1, lk, esc);
    ToFuncAccepted(sc, c1);
    var ret := CReturn(Some(CTemp(c)));
    SavedC(c, x, LowerToFunc(sc, c1).0, [ret]);
    AcceptsOne(ret);
  }

  lemma {:induction false} ReturnAccepted(v: Expr, sc: Scopes, c: nat, lk: LoopKind, esc: bool)
    requires WFReturned(v, lk, esc) && ScOk(sc)
    ensures AcceptsAll(LowerTransfer(Return(Some(v)), sc, c).0) <==>
            Good(v, sc) && CleanTo(sc, OutOfFunction) && (TypeOf(v) == Val || !HasPending(sc))
    decreases ScSize(sc) + Size(v), 4
  {
    hide WF, ScOk, Good, CleanTo, LowerExpr, LowerReturnThrough, HasPending, Size, ScSize, LowerTransfer;
    LowerReturn(v, sc, c);
    if HasPending(sc) {
      ReturnThroughAccepted(v, sc, c, lk, esc);
    } else {
      ExprAccepted(v, sc, c, lk, esc);
      NothingPendingClean(sc, OutOfFunction);
      AcceptsOne(CReturn(Some(LowerExpr(v, sc, c).0)));
    }
  }

  lemma {:induction false} BreakAccepted(v: Expr, sc: Scopes, c: nat, lk: LoopKind, esc: bool)
    requires WFReturned(v, lk, esc) && ScOk(sc)
    ensures var code := LowerTransfer(Break(Some(v)), sc, c).0;
            && (AcceptsAll(code) <==> Good(v, sc) && CleanTo(sc, OutOfLoop) && TypeOf(v) == Val)
            && code[|code| - 1] == CBreak
    decreases ScSize(sc) + Size(v), 4
  {
    hide WF, ScOk, Good, CleanTo, LowerExpr, LowerToLoop, HasPending, Size, ScSize;
    if HasPending(sc) {
      var (x, c1) := LowerExpr(v, sc, c + 1);
      ExprAccepted(v, sc, c + 1, lk, esc);
      ToLoopAccepted(sc, c1);
      SavedC(c, x, LowerToLoop(sc, c1).0, [CSetLoop(CTemp(c)), CBreak]);
      SetBreakC(CTemp(c));
    } else {
      var x := LowerExpr(v, sc, c).0;
      ExprAccepted(v, sc, c, lk, esc);
      NothingPendingClean(sc, OutOfLoop);
      SetBreakC(x);
    }
  }

  lemma SetBreakC(x: CExpr)
    ensures AcceptsAll([CSetLoop(x), CBreak]) <==> AcceptsValue(x)
  {
    assert [CSetLoop(x), CBreak] == [CSetLoop(x)] + [CBreak];
    AcceptsCons(CSetLoop(x), [CBreak]);
    AcceptsOne(CBreak);
  }

  /** The type of the last statement's value, in C. */
  function EndTy(ss: seq<CStmt>): Ty {
    if ss != [] && ss[|ss| - 1].CDo? then CTy(ss[|ss| - 1].e) else Void
  }

  lemma {:induction false} DefersVoid(ds: seq<Expr>, c: nat)
    ensures EndTy(LowerDefers(ds, c).0) == Void
    decreases |ds|
  {
    hide LowerStmtForm, LowerExpr;
    if ds != [] {
      var n := |ds| - 1;
      DeferredVoid(ds[n], c);
      DefersVoid(ds[..n], LowerDeferred(ds[n], c).1);
    }
  }

  lemma DeferredVoid(d: Expr, c: nat)
    ensures EndTy(LowerDeferred(d, c).0) == Void
  {
    hide LowerExpr, LowerStmtForm;
    if EmitsStatement(d) {
      FormEnds(d, DeferBase, c);
    }
  }

  lemma FormEnds(e: Expr, sc: Scopes, c: nat)
    requires EmitsStatement(e)
    ensures EndTy(LowerStmtForm(e, sc, c).0) == Void
  {
    hide LowerExpr, LowerBranch, LowerStmts;
  }

  lemma {:induction false} InnerAccepted(s: Expr, sc: Scopes, c: nat, lk: LoopKind, esc: bool)
    requires WF(s, lk, esc) && !s.Defer? && ScOk(sc)
    ensures AcceptsAll(LowerInner(s, sc, c).0) <==> Good(s, sc)
    decreases ScSize(sc) + Size(s), 5
  {
    hide WF, ScOk, Good, LowerExpr, LowerTransfer, LowerStmtForm, Size, ScSize;
    if IsTransfer(s) {
      TransferAccepted(s, sc, c, lk, esc);
    } else if EmitsStatement(s) {
      FormAccepted(s, sc, c, lk, esc);
    } else {
      ExprAccepted(s, sc, c, lk, esc);
      DoC(LowerExpr(s, sc, c).0, TypeOf(s) != Void);
    }
  }

  lemma DoC(x: CExpr, void: bool)
    ensures var ss := [CDo(if void then CVoid(x) else x)];
            (AcceptsAll(ss) <==> Accepts(x)) && EndTy(ss) == if void then Void else CTy(x)
  {
    AcceptsOne(CDo(if void then CVoid(x) else x));
  }

  /** The condition on a last statement, and on the defers of its block. */
  predicate GoodLast(s: Expr, sc: Scopes, fn: bool)
    requires sc.Push?
  {
    && Good(s, sc)
    && (TypeOf(s) != Never ==> Clean(sc.defers))
    && !(sc.defers != [] && !fn && Diverges(s))
  }

  lemma LastGood(s: Expr, sc: Scopes, fn: bool)
    requires sc.Push? && !s.Defer?
    ensures GoodBlock([s], sc, fn) <==> GoodLast(s, sc, fn)
  {
    hide CleanTo, Clean, Spoilt, Leaves;
    OnlyLeaves(s);
    assert [s][1..] == [];
    PushedClean(sc);
  }

  lemma PushedClean(sc: Scopes)
    requires sc.Push?
    ensures CleanTo(sc, OutOfLoop) <==> Clean(sc.defers) && (sc.isLoop || CleanTo(sc.parent, OutOfLoop))
    ensures CleanTo(sc, OutOfFunction) <==> Clean(sc.defers) && CleanTo(sc.parent, OutOfFunction)
  {
  }

  predicate LastShape(code: seq<CStmt>, s: Expr, sc: Scopes, tail: Tail)
    requires sc.Push?
  {
    && (AcceptsAll(code) <==> GoodLast(s, sc, tail == TailReturn))
    && (tail == TailValue && AcceptsAll(code) ==> (EndTy(code) == Val <==> TypeOf(s) == Val))
  }

  lemma {:induction false} LastAccepted(s: Expr, sc: Scopes, tail: Tail, c: nat, lk: LoopKind, esc: bool)
    requires WF(s, lk, esc) && !s.Defer? && ScOk(sc) && TailScoped(tail, sc)
    ensures LastShape(LowerLast(s, sc, tail, c).0, s, sc, tail)
    decreases ScSize(sc) + Size(s), 6
  {
    hide WF, ScOk, Good, Clean, CleanTo, LowerExpr, LowerTransfer, LowerStmtForm, LowerDefers, LowerReturnThrough, Size, ScSize;
    if IsTransfer(s) {
      LastTransferAccepted(s, sc, tail, c, lk, esc);
    } else if EmitsStatement(s) {
      LastFormAccepted(s, sc, tail, c, lk, esc);
    } else if TypeOf(s) == Val && (tail.TailAssign? || tail == TailReturn) {
      LastMovedAccepted(s, sc, tail, c, lk, esc);
    } else if tail != TailReturn && TypeOf(s) != Void && sc.defers != [] {
      LastSavedAccepted(s, sc, tail, c, lk, esc);
    } else {
      LastPlainAccepted(s, sc, tail, c, lk, esc);
    }
  }

  /** Only a function's own body is returned. */
  predicate TailScoped(tail: Tail, sc: Scopes) {
    sc.Push? && (tail == TailReturn ==> sc.parent == FnBase && !sc.isLoop)
  }

  lemma {:induction false} LastTransferAccepted(s: Expr, sc: Scopes, tail: Tail, c: nat, lk: LoopKind, esc: bool)
    requires WF(s, lk, esc) && IsTransfer(s) && ScOk(sc) && TailScoped(tail, sc)
    ensures LastShape(LowerLast(s, sc, tail, c).0, s, sc, tail)
    decreases ScSize(sc) + Size(s), 5
  {
    hide WF, ScOk, Good, Clean, CleanTo, LowerTransfer, LowerDefers, Size;
    TransferAccepted(s, sc, c, lk, esc);
    var (code, c1) := LowerTransfer(s, sc, c);
    if s.Return? && tail == TailReturn {
      var dead := LowerDefers(sc.defers, c1).0;
      AcceptsAppend(code, dead);
      SizePositive(s);
      OwnDefers(sc);
      DefersAccepted(sc.defers, c1);
      ReturnCleans(s, sc);
      PushedClean(sc);
    }
  }

  lemma OwnDefers(sc: Scopes)
    requires sc.Push? && ScOk(sc)
    ensures forall i :: 0 <= i < |sc.defers| ==> WFDeferred(sc.defers[i])
    ensures SizeAll(sc.defers) <= ScSize(sc)
  {
    hide WFDeferred;
  }

  lemma ReturnCleans(s: Expr, sc: Scopes)
    requires s.Return?
    ensures Good(s, sc) ==> CleanTo(sc, OutOfFunction)
  {
  }

  lemma {:induction false} LastFormAccepted(s: Expr, sc: Scopes, tail: Tail, c: nat, lk: LoopKind, esc: bool)
    requires WF(s, lk, esc) && EmitsStatement(s) && ScOk(sc) && TailScoped(tail, sc)
    ensures LastShape(LowerLast(s, sc, tail, c).0, s, sc, tail)
    decreases ScSize(sc) + Size(s), 5
  {
    hide WF, ScOk, Good, Clean, CleanTo, LowerStmtForm, LowerDefers, Size;
    FormAccepted(s, sc, c, lk, esc);
    FormEnds(s, sc, c);
    var (code, c1) := LowerStmtForm(s, sc, c);
    if TypeOf(s) != Never {
      ThenDefers(code, sc, c1);
    }
  }

  /** Code, then the block's defers. */
  lemma {:induction false} ThenDefers(code: seq<CStmt>, sc: Scopes, c: nat)
    requires sc.Push? && ScOk(sc)
    ensures var all := code + LowerDefers(sc.defers, c).0;
            && (AcceptsAll(all) <==> AcceptsAll(code) && Clean(sc.defers))
            && (EndTy(code) != Val ==> EndTy(all) != Val)
    decreases ScSize(sc), 5
  {
    hide WFDeferred, LowerDefers, Clean, CTy;
    OwnDefers(sc);
    DefersAccepted(sc.defers, c);
    DefersVoid(sc.defers, c);
    var ds := LowerDefers(sc.defers, c).0;
    AcceptsAppend(code, ds);
    assert ds == [] ==> code + ds == code;
  }

  /** A last value that goes to a variable, or out of the function. */
  lemma {:induction false} LastMovedAccepted(s: Expr, sc: Scopes, tail: Tail, c: nat, lk: LoopKind, esc: bool)
    requires WF(s, lk, esc) && IsOperandForm(s) && ScOk(sc) && TailScoped(tail, sc)
    requires TypeOf(s) == Val && (tail.TailAssign? || tail == TailReturn)
    ensures LastShape(LowerLast(s, sc, tail, c).0, s, sc, tail)
    decreases ScSize(sc) + Size(s), 5
  {
    hide WF, ScOk, Good, Clean, CleanTo, LowerExpr, LowerDefers, LowerReturnThrough, Size, ScSize, HasPending;
    OperandFromVal(s, lk, esc);
    if tail == TailReturn {
      BaseClean(sc);
      if HasPending(sc) {
        ReturnThroughAccepted(s, sc, c, lk, esc);
      } else {
        OperandAccepted(s, sc, c, lk, esc);
        NothingPendingClean(sc, OutOfFunction);
        AcceptsOne(CReturn(Some(LowerExpr(s, sc, c).0)));
        ValueTy(s, sc, c, lk, esc);
      }
    } else if sc.defers != [] {
      SavedAccepted(s, sc, tail, c, lk, esc);
    } else {
      OperandAccepted(s, sc, c, lk, esc);
      AcceptsOne(CSet(tail.target, LowerExpr(s, sc, c).0));
      NoDefersClean();
    }
  }

  lemma NoDefersClean()
    ensures Clean([])
  {
  }

  lemma {:induction false} ValueTy(s: Expr, sc: Scopes, c: nat, lk: LoopKind, esc: bool)
    requires WFOperand(s, lk, esc) && ScOk(sc)
    ensures Accepts(LowerExpr(s, sc, c).0) <==> AcceptsValue(LowerExpr(s, sc, c).0)
    decreases ScSize(sc) + Size(s), 4
  {
    hide LowerExpr, Good;
    ExprAccepted(s, sc, c, lk, esc);
  }

  lemma BaseClean(sc: Scopes)
    requires sc.Push? && sc.parent == FnBase
    ensures CleanTo(sc, OutOfFunction) <==> Clean(sc.defers)
  {
  }

  /** `_c = x; defers; deliver`. */
  lemma {:induction false} SavedAccepted(s: Expr, sc: Scopes, tail: Tail, c: nat, lk: LoopKind, esc: bool)
    requires WF(s, lk, esc) && IsOperandForm(s) && ScOk(sc) && sc.Push?
    ensures var (x, c1) := LowerExpr(s, sc, c + 1);
            var code := [CSet(c, x)] + LowerDefers(sc.defers, c1).0 + [DeliverStmt(c, tail, TypeOf(s))];
            && (AcceptsAll(code) <==> Good(s, sc) && TypeOf(s) == Val && Clean(sc.defers))
            && (tail == TailValue ==> EndTy(code) == Val)
    decreases ScSize(sc) + Size(s), 4
  {
    hide WF, ScOk, Good, Clean, LowerExpr, LowerDefers, ScSize, Size;
    var (x, c1) := LowerExpr(s, sc, c + 1);
    ExprAccepted(s, sc, c + 1, lk, esc);
    OwnDefers(sc);
    DefersAccepted(sc.defers, c1);
    var last := DeliverStmt(c, tail, TypeOf(s));
    SavedC(c, x, LowerDefers(sc.defers, c1).0, [last]);
    AcceptsOne(last);
    TempValue(c);
    assert AcceptsStmt(last);
  }

  lemma {:induction false} LastSavedAccepted(s: Expr, sc: Scopes, tail: Tail, c: nat, lk: LoopKind, esc: bool)
    requires WF(s, lk, esc) && IsOperandForm(s) && ScOk(sc) && TailScoped(tail, sc)
    requires !(TypeOf(s) == Val && tail.TailAssign?) && tail != TailReturn && TypeOf(s) != Void && sc.defers != []
    ensures LastShape(LowerLast(s, sc, tail, c).0, s, sc, tail)
    decreases ScSize(sc) + Size(s), 5
  {
    hide WF, ScOk, Good, Clean, LowerExpr, LowerDefers, ScSize, Size;
    SavedAccepted(s, sc, tail, c, lk, esc);
    LowerSaved(s, sc, tail, c);
  }

  lemma {:induction false} LastPlainAccepted(s: Expr, sc: Scopes, tail: Tail, c: nat, lk: LoopKind, esc: bool)
    requires WF(s, lk, esc) && IsOperandForm(s) && ScOk(sc) && TailScoped(tail, sc)
    requires !(TypeOf(s) == Val && (tail.TailAssign? || tail == TailReturn))
    requires tail == TailReturn || TypeOf(s) == Void || sc.defers == []
    ensures LastShape(LowerLast(s, sc, tail, c).0, s, sc, tail)
    decreases ScSize(sc) + Size(s), 5
  {
    hide WF, ScOk, Good, Clean, LowerExpr, LowerDefers, ScSize, Size, CTy, Accepts;
    var (x, c1) := LowerExpr(s, sc, c);
    ExprAccepted(s, sc, c, lk, esc);
    var void := TypeOf(s) != Void && tail != TailValue;
    DoC(x, void);
    NoDefersClean();
    if TypeOf(s) == Void {
      ThenDefers([CDo(if void then CVoid(x) else x)], sc, c1);
    }
  }

  predicate BlockShape(code: seq<CStmt>, stmts: seq<Expr>, sc: Scopes, tail: Tail)
    requires sc.Push?
  {
    && (AcceptsAll(code) <==> GoodBlock(stmts, sc, tail == TailReturn))
    && (tail == TailValue && AcceptsAll(code) ==> (EndTy(code) == Val <==> TailTy(stmts) == Val))
  }

  lemma {:induction false} StmtsAccepted(stmts: seq<Expr>, sc: Scopes, tail: Tail, c: nat, lk: LoopKind, esc: bool)
    requires WFStmts(stmts, lk, esc) && ScOk(sc) && TailScoped(tail, sc)
    ensures BlockShape(LowerStmts(stmts, sc, tail, c).0, stmts, sc, tail)
    decreases ScSize(sc) + SizeAll(stmts), 6
  {
    hide WF, ScOk, GoodBlock, GoodLast, LowerDefers, LowerLast, LowerInner, Size, ScSize;
    if stmts == [] {
      EmptyGood(sc, tail == TailReturn);
      ThenDefers([], sc, c);
      assert [] + LowerDefers(sc.defers, c).0 == LowerDefers(sc.defers, c).0;
    } else if stmts[0].Defer? {
      RecordAccepted(stmts, sc, tail, c, lk, esc);
    } else if |stmts| == 1 {
      assert stmts == [stmts[0]];
      LastAccepted(stmts[0], sc, tail, c, lk, esc);
      LastGood(stmts[0], sc, tail == TailReturn);
    } else {
      FirstAccepted(stmts, sc, tail, c, lk, esc);
    }
  }

  lemma EmptyGood(sc: Scopes, fn: bool)
    requires sc.Push?
    ensures GoodBlock([], sc, fn) <==> Clean(sc.defers)
  {
    hide CleanTo;
  }

  lemma {:induction false} RecordAccepted(stmts: seq<Expr>, sc: Scopes, tail: Tail, c: nat, lk: LoopKind, esc: bool)
    requires WFStmts(stmts, lk, esc) && ScOk(sc) && TailScoped(tail, sc) && stmts != [] && stmts[0].Defer?
    ensures BlockShape(LowerStmts(stmts, sc, tail, c).0, stmts, sc, tail)
    decreases ScSize(sc) + SizeAll(stmts), 5
  {
    hide GoodBlock, WFDeferred, LowerLast, LowerInner, LowerDefers;
    var d := stmts[0].deferred;
    var inner := Push(sc.isLoop, sc.defers + [d], sc.parent);
    SizePush(sc.defers, d);
    assert ScSize(inner) == ScSize(sc) + Size(stmts[0]);
    StmtsAccepted(stmts[1..], inner, tail, c, lk, esc);
    RecordGood(stmts, sc, tail == TailReturn);
  }

  lemma RecordGood(stmts: seq<Expr>, sc: Scopes, fn: bool)
    requires sc.Push? && stmts != [] && stmts[0].Defer?
    ensures GoodBlock(stmts, sc, fn) <==> GoodBlock(stmts[1..], Push(sc.isLoop, sc.defers + [stmts[0].deferred], sc.parent), fn)
    ensures TailTy(stmts) == TailTy(stmts[1..])
  {
    hide CleanTo, Clean, Spoilt, Unwound;
    MoreClean(sc.defers, stmts[0].deferred);
    RecordUnwinds(stmts);
  }

  lemma RecordUnwinds(stmts: seq<Expr>)
    requires stmts != [] && stmts[0].Defer?
    ensures TailTy(stmts) == TailTy(stmts[1..]) && (Unwound(stmts) <==> Unwound(stmts[1..]))
    ensures LeavesAny(stmts, OutOfLoop) <==> LeavesAny(stmts[1..], OutOfLoop)
    ensures LeavesAny(stmts, OutOfFunction) <==> LeavesAny(stmts[1..], OutOfFunction)
  {
    assert !Leaves(stmts[0], OutOfLoop) && !Leaves(stmts[0], OutOfFunction);
    assert TypeOf(stmts[0]) == Void;
    if |stmts| == 1 {
      assert stmts[1..] == [];
    } else {
      assert stmts[1..][|stmts| - 2] == stmts[|stmts| - 1];
    }
  }

  lemma MoreClean(ds: seq<Expr>, d: Expr)
    ensures Clean(ds + [d]) <==> Clean(ds) && !Spoilt(d, true)
  {
    hide Spoilt;
    if Clean(ds + [d]) {
      forall i | 0 <= i < |ds| ensures !Spoilt(ds[i], true) {
        assert (ds + [d])[i] == ds[i];
      }
      assert (ds + [d])[|ds|] == d;
    }
  }

  lemma {:induction false} FirstAccepted(stmts: seq<Expr>, sc: Scopes, tail: Tail, c: nat, lk: LoopKind, esc: bool)
    requires WFStmts(stmts, lk, esc) && ScOk(sc) && TailScoped(tail, sc) && |stmts| > 1 && !stmts[0].Defer?
    ensures BlockShape(LowerStmts(stmts, sc, tail, c).0, stmts, sc, tail)
    decreases ScSize(sc) + SizeAll(stmts), 5
  {
    hide WF, ScOk, GoodBlock, Good, LowerLast, LowerInner, LowerDefers, Size, ScSize;
    var (code, c1) := LowerInner(stmts[0], sc, c);
    var rest := LowerStmts(stmts[1..], sc, tail, c1).0;
    InnerAccepted(stmts[0], sc, c, lk, esc);
    StmtsAccepted(stmts[1..], sc, tail, c1, lk, esc);
    AcceptsAppend(code, rest);
    FirstGood(stmts, sc, tail == TailReturn);
  }

  lemma FirstGood(stmts: seq<Expr>, sc: Scopes, fn: bool)
    requires sc.Push? && |stmts| > 1 && !stmts[0].Defer?
    ensures GoodBlock(stmts, sc, fn) <==> Good(stmts[0], sc) && GoodBlock(stmts[1..], sc, fn)
    ensures TailTy(stmts) == TailTy(stmts[1..])
  {
    hide CleanTo, Clean, Spoilt, Leaves;
    PushedClean(sc);
  }

  // ----- the result -----

  /** THE C COMPILER'S VERDICT. What is emitted for a body that type checks is C if and
      only if no block with a defer, the function's own apart, ends in a `match`, block
      or call that never completes, nothing without a value is returned where a defer
      is pending, and nothing without a value is broken out with. Code of a defer that
      nothing runs does not count. */
  lemma AcceptedExactly(body: seq<Expr>, c: nat)
    requires WFStmts(body, NoLoop, true)
    ensures AcceptsAll(LowerFunction(body, c).0) <==> !SpoiltBlock(body, true, false, false)
  {
    hide LowerStmts, SpoiltBlock, LeavesAny, WFStmts;
    StmtsAccepted(body, Push(false, [], FnBase), TailReturn, c, NoLoop, true);
  }

  /** A loop whose body records a defer and ends in a `match` with two arms, one that
      breaks and one that goes on. */
  function LeavingMatch(): seq<Expr> {
    [Loop([Defer(Atom(0, [], Void)), Match(Atom(1, [], Val), [Arm([Break(None)]), Arm([Continue])], Never)], Void)]
  }

  /** A defer, then the `return` of a call that has no value. */
  function VoidReturn(): seq<Expr> {
    [Defer(Atom(0, [], Void)), Return(Some(Atom(1, [], Void)))]
  }

  /** Both type check, and for both the emitter declares a variable of type `void`. */
  lemma Refused(c: nat)
    ensures WFStmts(LeavingMatch(), NoLoop, true) && !AcceptsAll(LowerFunction(LeavingMatch(), c).0)
    ensures WFStmts(VoidReturn(), NoLoop, true) && !AcceptsAll(LowerFunction(VoidReturn(), c).0)
  {
    hide LowerFunction, AcceptsAll;
    LeavingMatchTyped();
    LeavingMatchSpoilt();
    AcceptedExactly(LeavingMatch(), c);
    VoidReturnSpoilt();
    AcceptedExactly(VoidReturn(), c);
  }

  lemma LeavingMatchTyped()
    ensures WFStmts(LeavingMatch(), NoLoop, true)
  {
    var m := Match(Atom(1, [], Val), [Arm([Break(None)]), Arm([Continue])], Never);
    var body := [Defer(Atom(0, [], Void)), m];
    OneArm(Continue, []);
    assert [Arm([Continue])] + [] == [Arm([Continue])];
    OneArm(Break(None), [Arm([Continue])]);
    hide WFArms;
    assert m.arms == [Arm([Break(None)])] + [Arm([Continue])] && [Arm([Continue])] == [Arm([Continue])] + [];
    assert body[1..] == [m] && [m][1..] == [] && LeavingMatch()[1..] == [];
    assert WF(m, VoidLoop, true) && WFStmts([m], VoidLoop, true);
    assert WFStmts(body, VoidLoop, true);
  }

  lemma OneArm(e: Expr, rest: seq<Arm>)
    requires WF(e, VoidLoop, true) && TypeOf(e) == Never && (rest == [] || WFArms(rest, Never, VoidLoop, true))
    ensures WFArms([Arm([e])] + rest, Never, VoidLoop, true)
  {
    hide WF, WFDeferred;
    assert [e][1..] == [] && ([Arm([e])] + rest)[1..] == rest;
    LoneTail(e);
    assert WFStmts([e], VoidLoop, true);
    assert ([Arm([e])] + rest)[0].body == [e];
  }

  lemma LoneTail(e: Expr)
    ensures TailTy([e]) == TypeOf(e)
  {
    hide TypeOf;
    var stmts := [e];
    assert stmts[|stmts| - 1] == e;
  }

  lemma LeavingMatchSpoilt()
    ensures SpoiltBlock(LeavingMatch(), true, false, false)
  {
    hide Spoilt;
    var m := Match(Atom(1, [], Val), [Arm([Break(None)]), Arm([Continue])], Never);
    var body := [Defer(Atom(0, [], Void)), m];
    assert body[1..] == [m];
    assert SpoiltBlock([m], false, true, true);
    assert SpoiltBlock(body, false, false, false);
    LoopSpoilt(body);
    OnlySpoilt(Loop(body, Void));
  }

  lemma LoopSpoilt(body: seq<Expr>)
    ensures Spoilt(Loop(body, Void), false) <==> SpoiltBlock(body, false, false, false)
  {
    hide SpoiltBlock;
  }

  lemma OnlySpoilt(e: Expr)
    requires !e.Defer?
    ensures SpoiltBlock([e], true, false, false) <==> Spoilt(e, false)
  {
    hide Spoilt;
  }

  lemma VoidReturnSpoilt()
    ensures WFStmts(VoidReturn(), NoLoop, true) && SpoiltBlock(VoidReturn(), true, false, false)
  {
    var r := Return(Some(Atom(1, [], Void)));
    var body := [Defer(Atom(0, [], Void)), r];
    assert VoidReturn() == body && body[1..] == [r] && [r][1..] == [];
    assert WFOperands([], NoLoop, true) && WF(Atom(1, [], Void), NoLoop, true);
    assert WF(r, NoLoop, true) && WFStmts([r], NoLoop, true);
    assert WFDeferred(Atom(0, [], Void)) && WF(body[0], NoLoop, true);
    assert SpoiltBlock([r], true, true, true);
  }
}
