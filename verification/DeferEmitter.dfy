/** The emitter itself: it walks the program with a mutable stack of defer
    scopes and a running temporary counter, and appends to its output. Each
    method is proved against the lowering function of the same construct, and
    leaves the scope stack as it found it. */
module DeferEmitter {
  import opened DeferSource
  import opened DeferTarget
  import opened DeferLowering
  import opened DeferTyping
  import opened DeferAccepted
  import opened DeferCorrect

  lemma ArmsStep(arms: seq<Arm>, i: nat, sc: Scopes, tail: Tail, c: nat)
    requires i < |arms|
    ensures var (code, c1) := LowerStmts(arms[i].body, Push(false, [], sc), tail, c);
            var rest := LowerArms(arms[i + 1..], sc, tail, c1);
            LowerArms(arms[i..], sc, tail, c) == ([CArm(code)] + rest.0, rest.1)
    ensures SizeAll(arms[i].body) + SizeArms(arms[i + 1..]) < SizeArms(arms[i..])
  {
    hide LowerStmts, SizeAll;
    assert arms[i..][1..] == arms[i + 1..];
  }

  lemma StmtsStep(stmts: seq<Expr>, i: nat, sc: Scopes, tail: Tail, c: nat)
    requires i < |stmts| && sc.Push?
    ensures var s := stmts[i];
            LowerStmts(stmts[i..], sc, tail, c) ==
            if s.Defer? then LowerStmts(stmts[i + 1..], Push(sc.isLoop, sc.defers + [s.deferred], sc.parent), tail, c)
            else if i == |stmts| - 1 then LowerLast(s, sc, tail, c)
            else
              var (code, c1) := LowerInner(s, sc, c);
              var (rest, c2) := LowerStmts(stmts[i + 1..], sc, tail, c1);
              (code + rest, c2)
    ensures SizeAll(stmts[i..]) == 1 + Size(stmts[i]) + SizeAll(stmts[i + 1..])
    ensures stmts[i].Defer? ==>
              ScSize(Push(sc.isLoop, sc.defers + [stmts[i].deferred], sc.parent)) == ScSize(sc) + Size(stmts[i])
  {
    hide LowerLast, LowerInner, LowerDefers;
    assert stmts[i..][1..] == stmts[i + 1..];
    if stmts[i].Defer? {
      SizePush(sc.defers, stmts[i].deferred);
    }
  }

  lemma NoStmts(sc: Scopes, tail: Tail, c: nat)
    requires sc.Push?
    ensures LowerStmts([], sc, tail, c) == LowerDefers(sc.defers, c)
  {
    hide LowerDefers;
  }

  lemma NoArms(sc: Scopes, tail: Tail, c: nat)
    ensures LowerArms([], sc, tail, c) == ([], c)
  {
  }

  class Emitter {
    var scopes: Scopes
    var temps: nat

    constructor ()
      ensures scopes == FnBase && temps == 0
    {
      scopes := FnBase;
      temps := 0;
    }

    // ----- the scope stack -----

    method ScopePush(isLoop: bool)
      modifies this`scopes
      ensures scopes == Push(isLoop, [], old(scopes))
    {
      scopes := Push(isLoop, [], scopes);
    }

    method ScopePop()
      requires scopes.Push?
      modifies this`scopes
      ensures scopes == old(scopes).parent
    {
      scopes := scopes.parent;
    }

    method ScopeAdd(e: Expr)
      requires scopes.Push?
      modifies this`scopes
      ensures scopes == Push(old(scopes).isLoop, old(scopes).defers + [e], old(scopes).parent)
    {
      scopes := scopes.(defers := scopes.defers + [e]);
    }

    method FreshTemp() returns (t: nat)
      modifies this`temps
      ensures t == old(temps) && temps == old(temps) + 1
    {
      t := temps;
      temps := temps + 1;
    }

    // ----- exits -----

    /** The defers of one scope, last recorded first. */
    method EmitScopeDefers(ds: seq<Expr>) returns (out: seq<CStmt>)
      modifies this
      ensures scopes == old(scopes) && (out, temps) == LowerDefers(ds, old(temps))
      decreases SizeAll(ds), 0
    {
      out := [];
      var i := |ds|;
      assert ds[..i] == ds && [] + LowerDefers(ds, temps).0 == LowerDefers(ds, temps).0;
      while i > 0
        invariant 0 <= i <= |ds| && scopes == old(scopes) && SizeAll(ds[..i]) <= SizeAll(ds)
        invariant var rest := LowerDefers(ds[..i], temps); (out + rest.0, rest.1) == LowerDefers(ds, old(temps))
      {
        SizeLast(ds[..i]);
        assert ds[..i][..i - 1] == ds[..i - 1];
        ghost var before := LowerDefers(ds[..i], temps);
        var code := EmitDeferred(ds[i - 1]);
        i := i - 1;
        assert out + before.0 == (out + code) + LowerDefers(ds[..i], temps).0;
        out := out + code;
      }
      assert ds[..0] == [] && out + [] == out;
    }

    /** A deferred expression at an exit: it can reach no scope below it. */
    method EmitDeferred(d: Expr) returns (out: seq<CStmt>)
      modifies this
      ensures scopes == old(scopes) && (out, temps) == LowerDeferred(d, old(temps))
      decreases Size(d), 3
    {
      var saved := scopes;
      scopes := DeferBase;
      if EmitsStatement(d) {
        out := EmitStmtForm(d);
      } else {
        var x := EmitExpr(d);
        out := [CDo(CVoid(x))];
      }
      scopes := saved;
    }

    method EmitDefersToLoop() returns (out: seq<CStmt>)
      modifies this
      ensures scopes == old(scopes) && (out, temps) == LowerToLoop(old(scopes), old(temps))
      decreases ScSize(scopes), 1
    {
      out := [];
      assert [] + LowerToLoop(scopes, temps).0 == LowerToLoop(scopes, temps).0;
      var ds := scopes;
      var going := true;
      while going && ds.Push?
        invariant scopes == old(scopes) && ScSize(ds) <= ScSize(scopes)
        invariant going ==> var rest := LowerToLoop(ds, temps); (out + rest.0, rest.1) == LowerToLoop(scopes, old(temps))
        invariant !going ==> (out, temps) == LowerToLoop(scopes, old(temps))
        decreases going, ds
      {
        ghost var before := LowerToLoop(ds, temps);
        var code := EmitScopeDefers(ds.defers);
        if ds.isLoop {
          going := false;
        } else {
          assert out + before.0 == (out + code) + LowerToLoop(ds.parent, temps).0;
          ds := ds.parent;
        }
        out := out + code;
      }
      assert out + [] == out;
    }

    method EmitDefersToFunc() returns (out: seq<CStmt>)
      modifies this
      ensures scopes == old(scopes) && (out, temps) == LowerToFunc(old(scopes), old(temps))
      decreases ScSize(scopes), 1
    {
      out := [];
      assert [] + LowerToFunc(scopes, temps).0 == LowerToFunc(scopes, temps).0;
      var ds := scopes;
      while ds.Push?
        invariant scopes == old(scopes) && ScSize(ds) <= ScSize(scopes)
        invariant var rest := LowerToFunc(ds, temps); (out + rest.0, rest.1) == LowerToFunc(scopes, old(temps))
        decreases ds
      {
        ghost var before := LowerToFunc(ds, temps);
        var code := EmitScopeDefers(ds.defers);
        assert out + before.0 == (out + code) + LowerToFunc(ds.parent, temps).0;
        out := out + code;
        ds := ds.parent;
      }
      assert out + [] == out;
    }

    /** Whether any scope of the chain holds a defer. */
    method HasPendingDefers() returns (pending: bool)
      ensures pending == HasPending(scopes)
    {
      var ds := scopes;
      while ds.Push?
        invariant HasPending(ds) == HasPending(scopes)
        decreases ds
      {
        if ds.defers != [] {
          return true;
        }
        ds := ds.parent;
      }
      pending := ds.DeferBase?;
    }

    // ----- expressions -----

    method EmitArgs(es: seq<Expr>) returns (out: seq<CExpr>)
      modifies this
      ensures scopes == old(scopes) && (out, temps) == LowerArgs(es, old(scopes), old(temps))
      decreases ScSize(scopes) + SizeAll(es), 0
    {
      out := [];
      assert es[0..] == es && [] + LowerArgs(es, scopes, temps).0 == LowerArgs(es, scopes, temps).0;
      var i := 0;
      while i < |es|
        invariant 0 <= i <= |es| && scopes == old(scopes) && SizeAll(es[i..]) <= SizeAll(es)
        invariant var rest := LowerArgs(es[i..], scopes, temps); (out + rest.0, rest.1) == LowerArgs(es, scopes, old(temps))
      {
        assert es[i..][1..] == es[i + 1..];
        ghost var before := LowerArgs(es[i..], scopes, temps);
        var x := EmitExpr(es[i]);
        i := i + 1;
        assert out + before.0 == (out + [x]) + LowerArgs(es[i..], scopes, temps).0;
        out := out + [x];
      }
      assert out + [] == out;
    }

    /** A match arm: a block scope of its own. */
    method EmitArm(body: seq<Expr>, tail: Tail) returns (out: seq<CStmt>)
      modifies this
      ensures scopes == old(scopes)
      ensures (out, temps) == LowerStmts(body, Push(false, [], old(scopes)), tail, old(temps))
      decreases ScSize(scopes) + SizeAll(body), 6
    {
      ScopePush(false);
      out := EmitBlockStmts(body, tail);
      ScopePop();
    }

    method EmitArms(arms: seq<Arm>, tail: Tail) returns (out: seq<CArm>)
      modifies this
      ensures scopes == old(scopes) && (out, temps) == LowerArms(arms, old(scopes), tail, old(temps))
      decreases ScSize(scopes) + SizeArms(arms), 0
    {
      hide LowerStmts, LowerArms, SizeAll, SizeArms, ScSize;
      out := [];
      assert arms[0..] == arms;
      assert [] + LowerArms(arms, scopes, tail, temps).0 == LowerArms(arms, scopes, tail, temps).0;
      var i := 0;
      while i < |arms|
        invariant 0 <= i <= |arms| && scopes == old(scopes) && SizeArms(arms[i..]) <= SizeArms(arms)
        invariant var rest := LowerArms(arms[i..], scopes, tail, temps);
                  (out + rest.0, rest.1) == LowerArms(arms, scopes, tail, old(temps))
      {
        ArmsStep(arms, i, scopes, tail, temps);
        var code := EmitArm(arms[i].body, tail);
        i := i + 1;
        assert out + ([CArm(code)] + LowerArms(arms[i..], scopes, tail, temps).0) ==
               (out + [CArm(code)]) + LowerArms(arms[i..], scopes, tail, temps).0;
        out := out + [CArm(code)];
      }
      NoArms(scopes, tail, temps);
      assert arms[i..] == [] && out + [] == out;
    }

    method EmitBranchStmts(branch: Expr) returns (out: seq<CStmt>)
      modifies this
      ensures scopes == old(scopes) && (out, temps) == LowerBranch(branch, old(scopes), old(temps))
      decreases ScSize(scopes) + Size(branch) + 1, 6
    {
      ScopePush(false);
      out := EmitBlockStmts(BranchStmts(branch), TailDiscard);
      ScopePop();
    }

    method EmitBranchInto(branch: Expr, res: nat) returns (out: seq<CStmt>)
      modifies this
      ensures scopes == old(scopes) && (out, temps) == LowerBranchInto(branch, res, old(scopes), old(temps))
      decreases ScSize(scopes) + Size(branch) + 1, 7
    {
      if TypeOf(branch) == Never {
        out := EmitBranchStmts(branch);
      } else {
        var x := EmitExpr(branch);
        out := [CSet(res, x)];
      }
    }

    method EmitStmtForm(e: Expr) returns (out: seq<CStmt>)
      requires EmitsStatement(e)
      modifies this
      ensures scopes == old(scopes) && (out, temps) == LowerStmtForm(e, old(scopes), old(temps))
      decreases ScSize(scopes) + Size(e), 1
    {
      match e {
        case If(cond, t, f, _) =>
          var x := EmitExpr(cond);
          var a := EmitBranchStmts(t);
          var b := [];
          if f.Some? {
            if f.value.If? && Valueless(TypeOf(f.value)) {
              b := EmitStmtForm(f.value);
            } else {
              b := EmitBranchStmts(f.value);
            }
          }
          out := [CIf(x, a, b)];
        case Loop(body, _) =>
          ScopePush(true);
          var b := EmitBlockStmts(body, TailDiscard);
          ScopePop();
          out := [CWhile(b)];
        case For(it, elem, body) =>
          var t := FreshTemp();
          var x := EmitExpr(it);
          ScopePush(true);
          var b := EmitBlockStmts(body, TailDiscard);
          ScopePop();
          out := [CSet(t, x), CFor(t, elem, b)];
      }
    }

    method EmitExpr(e: Expr) returns (out: CExpr)
      modifies this
      ensures scopes == old(scopes) && (out, temps) == LowerExpr(e, old(scopes), old(temps))
      decreases ScSize(scopes) + Size(e), 2
    {
      match e {
        case Atom(id, args, t) =>
          var xs := EmitArgs(args);
          out := CAct(id, xs, t);
        case If(_, _, _, _) =>
          out := EmitIf(e);
        case Match(_, _, _) =>
          out := EmitMatch(e);
        case Loop(body, ty) =>
          if Valueless(ty) {
            out := CLoopRes;
          } else {
            ScopePush(true);
            var b := EmitBlockStmts(body, TailDiscard);
            ScopePop();
            out := CStmtExpr([CWhile(b), CDo(CLoopRes)], true);
          }
        case Block(stmts, _) =>
          ScopePush(false);
          var b := EmitBlockStmts(stmts, TailValue);
          ScopePop();
          out := CStmtExpr(b, false);
        case Try(x, ty) =>
          var t := FreshTemp();
          var a := EmitExpr(x);
          var ds := EmitDefersToFunc();
          var check := CIf(CFails(CTemp(t)), ds + [CReturn(Some(CFailure(CTemp(t))))], []);
          out := CStmtExpr([CSet(t, a), check] + if ty == Val then [CDo(CPayload(CTemp(t)))] else [], false);
        case _ =>
          out := CLoopRes;
      }
    }

    method EmitIf(e: Expr) returns (out: CExpr)
      requires e.If?
      modifies this
      ensures scopes == old(scopes) && (out, temps) == LowerExpr(e, old(scopes), old(temps))
      decreases ScSize(scopes) + Size(e), 1
    {
      if Valueless(e.ity) || e.els.None? {
        out := CLoopRes;
      } else if TypeOf(e.thn) != Never && TypeOf(e.els.value) != Never {
        var x := EmitExpr(e.cond);
        var a := EmitExpr(e.thn);
        var b := EmitExpr(e.els.value);
        out := CCond(x, a, b);
      } else {
        var res := FreshTemp();
        var x := EmitExpr(e.cond);
        var a := EmitBranchInto(e.thn, res);
        var b := EmitBranchInto(e.els.value, res);
        out := CStmtExpr([CDecl(res), CIf(x, a, b), CDo(CTemp(res))], false);
      }
    }

    method EmitMatch(e: Expr) returns (out: CExpr)
      requires e.Match?
      modifies this
      ensures scopes == old(scopes) && (out, temps) == LowerExpr(e, old(scopes), old(temps))
      decreases ScSize(scopes) + Size(e), 1
    {
      var subj := FreshTemp();
      var x := EmitExpr(e.subject);
      if Valueless(e.mty) {
        var xs := EmitArms(e.arms, TailDiscard);
        out := CStmtExpr([CSet(subj, x), CChain(CTemp(subj), xs)], false);
      } else {
        var res := FreshTemp();
        var xs := EmitArms(e.arms, TailAssign(res));
        out := CStmtExpr([CSet(subj, x), CDecl(res), CChain(CTemp(subj), xs), CDo(CTemp(res))], false);
      }
    }

    // ----- statements -----

    method EmitTransfer(s: Expr) returns (out: seq<CStmt>)
      requires IsTransfer(s)
      modifies this
      ensures scopes == old(scopes) && (out, temps) == LowerTransfer(s, old(scopes), old(temps))
      decreases ScSize(scopes) + Size(s), 3
    {
      var pending := HasPendingDefers();
      if s.Return? {
        if s.rval.Some? {
          if pending {
            out := EmitReturnThroughDefers(s.rval.value);
          } else {
            var x := EmitExpr(s.rval.value);
            out := [CReturn(Some(x))];
          }
        } else {
          var ds := EmitDefersToFunc();
          out := ds + [CReturn(None)];
        }
      } else if s.Break? && s.bval.Some? {
        if pending {
          var t := FreshTemp();
          var x := EmitExpr(s.bval.value);
          var ds := EmitDefersToLoop();
          out := [CSet(t, x)] + ds + [CSetLoop(CTemp(t)), CBreak];
        } else {
          var x := EmitExpr(s.bval.value);
          out := [CSetLoop(x), CBreak];
        }
      } else {
        var ds := EmitDefersToLoop();
        out := ds + [if s.Break? then CBreak else CContinue];
      }
    }

    method EmitReturnThroughDefers(v: Expr) returns (out: seq<CStmt>)
      modifies this
      ensures scopes == old(scopes) && (out, temps) == LowerReturnThrough(v, old(scopes), old(temps))
      decreases ScSize(scopes) + Size(v), 3
    {
      var t := FreshTemp();
      var x := EmitExpr(v);
      var ds := EmitDefersToFunc();
      out := [CSet(t, x)] + ds + [CReturn(Some(CTemp(t)))];
    }

    method EmitInner(s: Expr) returns (out: seq<CStmt>)
      modifies this
      ensures scopes == old(scopes) && (out, temps) == LowerInner(s, old(scopes), old(temps))
      decreases ScSize(scopes) + Size(s), 4
    {
      if IsTransfer(s) {
        out := EmitTransfer(s);
      } else if EmitsStatement(s) {
        out := EmitStmtForm(s);
      } else {
        var x := EmitExpr(s);
        out := [CDo(if TypeOf(s) != Void then CVoid(x) else x)];
      }
    }

    /** The value into a temporary, the block's defers, then the value. */
    method EmitSaved(s: Expr, tail: Tail) returns (out: seq<CStmt>)
      requires scopes.Push?
      modifies this
      ensures scopes == old(scopes)
      ensures var (x, c1) := LowerExpr(s, scopes, old(temps) + 1);
              var (ds, c2) := LowerDefers(scopes.defers, c1);
              temps == c2 && out == [CSet(old(temps), x)] + ds + [DeliverStmt(old(temps), tail, TypeOf(s))]
      decreases ScSize(scopes) + Size(s), 4
    {
      var t := FreshTemp();
      var x := EmitExpr(s);
      var ds := EmitScopeDefers(scopes.defers);
      out := [CSet(t, x)] + ds + [DeliverStmt(t, tail, TypeOf(s))];
    }

    method EmitLast(s: Expr, tail: Tail) returns (out: seq<CStmt>)
      requires scopes.Push?
      modifies this
      ensures scopes == old(scopes) && (out, temps) == LowerLast(s, old(scopes), tail, old(temps))
      decreases ScSize(scopes) + Size(s), 5
    {
      if IsTransfer(s) {
        out := EmitTransfer(s);
        if s.Return? && tail == TailReturn {
          var dead := EmitScopeDefers(scopes.defers);
          out := out + dead;
        }
      } else if EmitsStatement(s) {
        out := EmitStmtForm(s);
        if TypeOf(s) != Never {
          var ds := EmitScopeDefers(scopes.defers);
          out := out + ds;
        }
      } else if tail.TailAssign? && TypeOf(s) == Val {
        if scopes.defers != [] {
          out := EmitSaved(s, tail);
        } else {
          var x := EmitExpr(s);
          out := [CSet(tail.target, x)];
        }
      } else if tail == TailReturn && TypeOf(s) == Val {
        var pending := HasPendingDefers();
        if pending {
          out := EmitReturnThroughDefers(s);
        } else {
          var x := EmitExpr(s);
          out := [CReturn(Some(x))];
        }
      } else if tail != TailReturn && TypeOf(s) != Void && scopes.defers != [] {
        out := EmitSaved(s, tail);
      } else {
        var x := EmitExpr(s);
        out := [CDo(if TypeOf(s) != Void && tail != TailValue then CVoid(x) else x)];
        if TypeOf(s) == Void {
          var ds := EmitScopeDefers(scopes.defers);
          out := out + ds;
        }
      }
    }

    /** A block's statements, in the scope its caller pushed for it. */
    method EmitBlockStmts(stmts: seq<Expr>, tail: Tail) returns (out: seq<CStmt>)
      requires scopes.Push?
      modifies this
      ensures scopes.Push? && scopes.parent == old(scopes).parent && scopes.isLoop == old(scopes).isLoop
      ensures (out, temps) == LowerStmts(stmts, old(scopes), tail, old(temps))
      decreases ScSize(scopes) + SizeAll(stmts), 5
    {
      hide LowerStmts, LowerDefers, LowerLast, LowerInner, SizeAll, Size;
      out := [];
      assert stmts[0..] == stmts;
      assert [] + LowerStmts(stmts, scopes, tail, temps).0 == LowerStmts(stmts, scopes, tail, temps).0;
      var i := 0;
      while i < |stmts|
        invariant 0 <= i <= |stmts| && scopes.Push?
        invariant scopes.parent == old(scopes).parent && scopes.isLoop == old(scopes).isLoop
        invariant ScSize(scopes) + SizeAll(stmts[i..]) <= ScSize(old(scopes)) + SizeAll(stmts)
        invariant var rest := LowerStmts(stmts[i..], scopes, tail, temps);
                  (out + rest.0, rest.1) == LowerStmts(stmts, old(scopes), tail, old(temps))
        decreases |stmts| - i
      {
        var s := stmts[i];
        StmtsStep(stmts, i, scopes, tail, temps);
        if s.Defer? {
          ScopeAdd(s.deferred);
        } else if i == |stmts| - 1 {
          var code := EmitLast(s, tail);
          out := out + code;
          return;
        } else {
          ghost var rest := LowerInner(s, scopes, temps).1;
          var code := EmitInner(s);
          assert out + (code + LowerStmts(stmts[i + 1..], scopes, tail, rest).0) ==
                 (out + code) + LowerStmts(stmts[i + 1..], scopes, tail, rest).0;
          out := out + code;
        }
        i := i + 1;
      }
      assert stmts[i..] == [];
      NoStmts(scopes, tail, temps);
      var ds := EmitScopeDefers(scopes.defers);
      out := out + ds;
    }

    /** A whole function: what it emits behaves as the source does, and C accepts it
        exactly when no block of it is spoilt. */
    method EmitFunction(body: seq<Expr>) returns (out: seq<CStmt>)
      requires scopes == FnBase
      modifies this
      ensures scopes == FnBase && (out, temps) == LowerFunction(body, old(temps))
      ensures WFStmts(body, NoLoop, true) ==>
                && (AcceptsAll(out) <==> !SpoiltBlock(body, true, false, false))
                && forall w: World, fuel: nat :: CRunFunction(w, out, fuel) == RunFunction(w, body, fuel)
    {
      ghost var c := temps;
      ScopePush(false);
      out := EmitBlockStmts(body, TailReturn);
      ScopePop();
      hide LowerStmts, CExec, EvalStmts, WFStmts, AcceptsAll, SpoiltBlock;
      if WFStmts(body, NoLoop, true) {
        AcceptedExactly(body, c);
        forall w: World, fuel: nat ensures CRunFunction(w, out, fuel) == RunFunction(w, body, fuel) {
          LoweringPreservesMeaning(w, body, c, fuel);
        }
      }
    }
  }
}
