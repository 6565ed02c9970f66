/** Where a deferred expression is emitted does not matter: it cannot reach the scopes
    below it, so its code is the same under every scope stack with a pending defer. */
module DeferAnywhere {
  import opened DeferSource
  import opened DeferTarget
  import opened DeferLowering
  import opened DeferTyping

  /** Two scope stacks that code without an escape of its own cannot tell apart. */
  ghost predicate Alike(sc: Scopes, sc': Scopes, lk: LoopKind) {
    && HasPending(sc) && HasPending(sc')
    && (lk != NoLoop ==> forall c: nat :: LowerToLoop(sc, c) == LowerToLoop(sc', c))
  }

  /** The same block's scope over two such stacks. */
  ghost predicate AlikeBlock(sc: Scopes, sc': Scopes, lk: LoopKind) {
    && sc.Push? && sc'.Push? && sc.isLoop == sc'.isLoop && sc.defers == sc'.defers
    && HasPending(sc.parent) && HasPending(sc'.parent)
    && (lk != NoLoop && !sc.isLoop ==> forall c: nat :: LowerToLoop(sc.parent, c) == LowerToLoop(sc'.parent, c))
  }

  lemma BlockAlike(sc: Scopes, sc': Scopes, lk: LoopKind)
    requires AlikeBlock(sc, sc', lk)
    ensures Alike(sc, sc', lk)
  {
    hide LowerDefers;
    if lk != NoLoop {
      forall c: nat ensures LowerToLoop(sc, c) == LowerToLoop(sc', c) {
        if !sc.isLoop {
          assert LowerToLoop(sc.parent, LowerDefers(sc.defers, c).1) == LowerToLoop(sc'.parent, LowerDefers(sc.defers, c).1);
        }
      }
    }
  }

  lemma OpenBlock(sc: Scopes, sc': Scopes, lk: LoopKind)
    requires Alike(sc, sc', lk)
    ensures AlikeBlock(Push(false, [], sc), Push(false, [], sc'), lk)
    ensures forall k: LoopKind :: AlikeBlock(Push(true, [], sc), Push(true, [], sc'), k)
  {
    hide LowerToLoop;
  }

  lemma MoreDefers(sc: Scopes, sc': Scopes, lk: LoopKind, d: Expr)
    requires AlikeBlock(sc, sc', lk)
    ensures AlikeBlock(Push(sc.isLoop, sc.defers + [d], sc.parent), Push(sc'.isLoop, sc'.defers + [d], sc'.parent), lk)
  {
    hide LowerToLoop;
  }

  lemma {:induction false} SameExpr(e: Expr, sc: Scopes, sc': Scopes, lk: LoopKind, c: nat)
    requires WF(e, lk, false) && Alike(sc, sc', lk)
    ensures LowerExpr(e, sc, c) == LowerExpr(e, sc', c)
    decreases Size(e), 2
  {
    hide LowerStmts, LowerArms, LowerArgs, LowerBranchInto, LowerToFunc, Alike, AlikeBlock, WFStmts, WFBranch;
    match e
    case Atom(_, args, _) => SameArgs(args, sc, sc', lk, c);
    case If(_, _, _, ty) =>
      if !Valueless(ty) {
        SameIf(e, sc, sc', lk, c);
      }
    case Match(_, _, _) =>
      SameMatch(e, sc, sc', lk, c);
    case Loop(body, ty) =>
      OpenBlock(sc, sc', lk);
      SameStmts(body, Push(true, [], sc), Push(true, [], sc'), if ty == Val then ValLoop else VoidLoop, TailDiscard, c);
    case Block(stmts, _) =>
      OpenBlock(sc, sc', lk);
      SameStmts(stmts, Push(false, [], sc), Push(false, [], sc'), lk, TailValue, c);
    case _ =>
  }

  lemma {:induction false} SameMatch(e: Expr, sc: Scopes, sc': Scopes, lk: LoopKind, c: nat)
    requires e.Match? && WF(e, lk, false) && Alike(sc, sc', lk)
    ensures LowerExpr(e, sc, c) == LowerExpr(e, sc', c)
    decreases Size(e), 1
  {
    hide LowerArms, Alike, WFArms, WFOperand;
    SubjectWF(e.subject, lk);
    SameExpr(e.subject, sc, sc', lk, c + 1);
    var c1 := LowerExpr(e.subject, sc, c + 1).1;
    SameArms(e.arms, e.mty, sc, sc', lk, TailDiscard, c1);
    SameArms(e.arms, e.mty, sc, sc', lk, TailAssign(c1), c1 + 1);
  }

  lemma SubjectWF(e: Expr, lk: LoopKind)
    requires WFOperand(e, lk, false)
    ensures WF(e, lk, false)
  {
  }

  lemma {:induction false} SameArgs(es: seq<Expr>, sc: Scopes, sc': Scopes, lk: LoopKind, c: nat)
    requires WFOperands(es, lk, false) && Alike(sc, sc', lk)
    ensures LowerArgs(es, sc, c) == LowerArgs(es, sc', c)
    decreases SizeAll(es), 2
  {
    hide LowerExpr, Alike, WF;
    if es != [] {
      SameExpr(es[0], sc, sc', lk, c);
      SameArgs(es[1..], sc, sc', lk, LowerExpr(es[0], sc, c).1);
    }
  }

  lemma {:induction false} SameArms(arms: seq<Arm>, ty: Ty, sc: Scopes, sc': Scopes, lk: LoopKind, tail: Tail, c: nat)
    requires WFArms(arms, ty, lk, false) && Alike(sc, sc', lk) && tail != TailReturn
    ensures LowerArms(arms, sc, tail, c) == LowerArms(arms, sc', tail, c)
    decreases SizeArms(arms), 2
  {
    hide LowerStmts, Alike, AlikeBlock, WFStmts;
    if arms != [] {
      OpenBlock(sc, sc', lk);
      SameStmts(arms[0].body, Push(false, [], sc), Push(false, [], sc'), lk, tail, c);
      SameArms(arms[1..], ty, sc, sc', lk, tail, LowerStmts(arms[0].body, Push(false, [], sc), tail, c).1);
    }
  }

  lemma {:induction false} SameBranch(branch: Expr, sc: Scopes, sc': Scopes, lk: LoopKind, c: nat)
    requires WFBranch(branch, lk, false) && Alike(sc, sc', lk)
    ensures LowerBranch(branch, sc, c) == LowerBranch(branch, sc', c)
    decreases Size(branch) + 1, 6
  {
    hide LowerStmts, Alike, AlikeBlock, WFStmts;
    OpenBlock(sc, sc', lk);
    SameStmts(BranchStmts(branch), Push(false, [], sc), Push(false, [], sc'), lk, TailDiscard, c);
  }

  /** A branch is well formed as a block or as the expression it is. */
  lemma BranchIsExpr(branch: Expr, lk: LoopKind)
    requires WFBranch(branch, lk, false)
    ensures WF(branch, lk, false)
  {
    if !branch.Block? {
      assert [branch][0] == branch;
    }
  }

  lemma {:induction false} SameBranchInto(branch: Expr, res: nat, sc: Scopes, sc': Scopes, lk: LoopKind, c: nat)
    requires WFBranch(branch, lk, false) && Alike(sc, sc', lk)
    ensures LowerBranchInto(branch, res, sc, c) == LowerBranchInto(branch, res, sc', c)
    decreases Size(branch) + 1, 7
  {
    hide LowerBranch, LowerExpr, Alike, WF, WFBranch;
    SameBranch(branch, sc, sc', lk, c);
    BranchIsExpr(branch, lk);
    SameExpr(branch, sc, sc', lk, c);
  }

  lemma {:induction false} SameIf(e: Expr, sc: Scopes, sc': Scopes, lk: LoopKind, c: nat)
    requires e.If? && WF(e, lk, false) && e.els.Some? && Alike(sc, sc', lk)
    ensures LowerExpr(e, sc, c) == LowerExpr(e, sc', c)
    decreases Size(e), 1
  {
    hide LowerBranchInto, Alike, WFBranch;
    var t, f := e.thn, e.els.value;
    SameExpr(e.cond, sc, sc', lk, c);
    SameExpr(e.cond, sc, sc', lk, c + 1);
    BranchIsExpr(t, lk);
    BranchIsExpr(f, lk);
    var c1 := LowerExpr(e.cond, sc, c).1;
    SameExpr(t, sc, sc', lk, c1);
    SameExpr(f, sc, sc', lk, LowerExpr(t, sc, c1).1);
    var d1 := LowerExpr(e.cond, sc, c + 1).1;
    SameBranchInto(t, c, sc, sc', lk, d1);
    SameBranchInto(f, c, sc, sc', lk, LowerBranchInto(t, c, sc, d1).1);
  }

  lemma {:induction false} SameStmtForm(e: Expr, sc: Scopes, sc': Scopes, lk: LoopKind, c: nat)
    requires EmitsStatement(e) && WF(e, lk, false) && Alike(sc, sc', lk)
    ensures LowerStmtForm(e, sc, c) == LowerStmtForm(e, sc', c)
    decreases Size(e), 1
  {
    hide LowerStmts, LowerBranch, LowerExpr, Alike, AlikeBlock, WFStmts, WFBranch;
    OpenBlock(sc, sc', lk);
    match e {
      case If(cond, t, f, _) =>
        SameExpr(cond, sc, sc', lk, c);
        var c1 := LowerExpr(cond, sc, c).1;
        SameBranch(t, sc, sc', lk, c1);
        var c2 := LowerBranch(t, sc, c1).1;
        if f.Some? {
          BranchIsExpr(f.value, lk);
          SameBranch(f.value, sc, sc', lk, c2);
          if EmitsStatement(f.value) {
            SameStmtForm(f.value, sc, sc', lk, c2);
          }
        }
      case Loop(body, ty) =>
        SameStmts(body, Push(true, [], sc), Push(true, [], sc'), if ty == Val then ValLoop else VoidLoop, TailDiscard, c);
      case For(it, _, body) =>
        SameExpr(it, sc, sc', lk, c + 1);
        SameStmts(body, Push(true, [], sc), Push(true, [], sc'), VoidLoop, TailDiscard, LowerExpr(it, sc, c + 1).1);
    }
  }

  lemma {:induction false} SameTransfer(s: Expr, sc: Scopes, sc': Scopes, lk: LoopKind, c: nat)
    requires IsTransfer(s) && WF(s, lk, false) && Alike(sc, sc', lk)
    ensures LowerTransfer(s, sc, c) == LowerTransfer(s, sc', c)
    decreases Size(s), 3
  {
    hide LowerExpr, LowerToLoop, HasPending;
    if s.Break? && s.bval.Some? {
      SameExpr(s.bval.value, sc, sc', lk, c + 1);
    }
  }

  lemma {:induction false} SameInner(s: Expr, sc: Scopes, sc': Scopes, lk: LoopKind, c: nat)
    requires WF(s, lk, false) && Alike(sc, sc', lk)
    ensures LowerInner(s, sc, c) == LowerInner(s, sc', c)
    decreases Size(s), 4
  {
    hide LowerExpr, LowerStmtForm, LowerTransfer, Alike, WF;
    if IsTransfer(s) {
      SameTransfer(s, sc, sc', lk, c);
    } else if EmitsStatement(s) {
      SameStmtForm(s, sc, sc', lk, c);
    } else {
      SameExpr(s, sc, sc', lk, c);
    }
  }

  lemma {:induction false} SameLast(s: Expr, sc: Scopes, sc': Scopes, lk: LoopKind, tail: Tail, c: nat)
    requires WF(s, lk, false) && AlikeBlock(sc, sc', lk) && tail != TailReturn
    ensures LowerLast(s, sc, tail, c) == LowerLast(s, sc', tail, c)
    decreases Size(s), 5
  {
    hide LowerExpr, LowerStmtForm, LowerTransfer, Alike, WF, LowerToLoop, LowerDefers, HasPending;
    BlockAlike(sc, sc', lk);
    if IsTransfer(s) {
      SameTransfer(s, sc, sc', lk, c);
    } else if EmitsStatement(s) {
      SameStmtForm(s, sc, sc', lk, c);
    } else {
      SameExpr(s, sc, sc', lk, c);
      SameExpr(s, sc, sc', lk, c + 1);
    }
  }

  lemma {:induction false} SameStmts(stmts: seq<Expr>, sc: Scopes, sc': Scopes, lk: LoopKind, tail: Tail, c: nat)
    requires WFStmts(stmts, lk, false) && AlikeBlock(sc, sc', lk) && tail != TailReturn
    ensures LowerStmts(stmts, sc, tail, c) == LowerStmts(stmts, sc', tail, c)
    decreases SizeAll(stmts), 5
  {
    hide LowerInner, LowerLast, LowerDefers, AlikeBlock, Alike, WF;
    AlikeFrame(sc, sc', lk);
    if stmts != [] {
      var s := stmts[0];
      if s.Defer? {
        MoreDefers(sc, sc', lk, s.deferred);
        SameStmts(stmts[1..], Push(sc.isLoop, sc.defers + [s.deferred], sc.parent), Push(sc'.isLoop, sc'.defers + [s.deferred], sc'.parent), lk, tail, c);
      } else if |stmts| == 1 {
        SameLast(s, sc, sc', lk, tail, c);
      } else {
        BlockAlike(sc, sc', lk);
        SameInner(s, sc, sc', lk, c);
        SameStmts(stmts[1..], sc, sc', lk, tail, LowerInner(s, sc, c).1);
      }
    }
  }

  lemma AlikeFrame(sc: Scopes, sc': Scopes, lk: LoopKind)
    requires AlikeBlock(sc, sc', lk)
    ensures sc.Push? && sc'.Push? && sc.defers == sc'.defers && sc.isLoop == sc'.isLoop
  {
  }

  /** What is emitted for a deferred expression at an exit is what would be emitted for
      it under the scopes as they are at that exit, whatever they are. */
  lemma DeferredAnywhere(d: Expr, sc: Scopes, c: nat)
    requires WFDeferred(d) && HasPending(sc)
    ensures LowerDeferred(d, c) ==
            if EmitsStatement(d) then LowerStmtForm(d, sc, c)
            else var (x, c1) := LowerExpr(d, sc, c); ([CDo(CVoid(x))], c1)
  {
    hide LowerStmtForm, LowerExpr, LowerToLoop, WF;
    if EmitsStatement(d) {
      SameStmtForm(d, DeferBase, sc, NoLoop, c);
    } else {
      SameExpr(d, DeferBase, sc, NoLoop, c);
    }
  }
}
