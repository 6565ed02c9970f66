/** What left to right means for FC's expressions, which of them the emitter gets right,
    and what C leaves open: told form by form, in terms of histories. */
module OrderMeaning {
  import opened OrderSource
  import opened OrderTarget
  import opened OrderLowering
  import opened OrderExact

  // ----- what the condition asks, form by form -----

  /** Neither part has an effect that could meet the other's value. */
  predicate Indifferent(a: Expr, b: Expr) {
    && (HasSideEffects(a) ==> b.Lit? || (b.FnIdent? && !b.isVariable))
    && (HasSideEffects(b) ==> a.Lit? || (a.FnIdent? && !a.isVariable))
  }

  /** Divisions, slice indices, assignments and checked raw slices are right whenever
      their parts are; pointer indices, atomic stores and range loops when one part is
      indifferent to the other; an unchecked raw slice also when both have effects. */
  lemma AdmittedPairs(id: nat, a: Expr, b: Expr)
    ensures OrderSafe(Both(Guarded, id, a, b)) <==> OrderSafe(a) && OrderSafe(b)
    ensures OrderSafe(Both(Assign, id, a, b)) <==> OrderSafe(a) && OrderSafe(b)
    ensures OrderSafe(Both(RawSlice(true), id, a, b)) <==> OrderSafe(a) && OrderSafe(b)
    ensures OrderSafe(Both(RawSlice(false), id, a, b)) <==>
            OrderSafe(a) && OrderSafe(b) && (Indifferent(a, b) || (HasSideEffects(a) && HasSideEffects(b)))
    ensures OrderSafe(Both(PtrIndex, id, a, b)) <==> OrderSafe(a) && OrderSafe(b) && Indifferent(a, b)
    ensures OrderSafe(Both(AtomicStore, id, a, b)) <==> OrderSafe(a) && OrderSafe(b) && Indifferent(a, b)
    ensures OrderSafe(Both(RangeLoop, id, a, b)) <==> OrderSafe(a) && OrderSafe(b) && Indifferent(a, b)
  {
    hide HasSideEffects;
  }

  /** A list of operands is right when each is, and no function variable stands before an
      operand with effects. */
  predicate Ordered(es: seq<Expr>) {
    && (forall i :: 0 <= i < |es| ==> OrderSafe(es[i]))
    && forall i, j :: 0 <= i < j < |es| && es[i].FnIdent? && es[i].isVariable ==> !HasSideEffects(es[j])
  }

  lemma AdmittedLists(f: int, op: nat, compares: bool, g: Expr, es: seq<Expr>)
    ensures OrderSafe(Call(f, es)) <==> Ordered(es)
    ensures OrderSafe(Op(op, compares, es)) <==> Ordered(es)
    ensures OrderSafe(CallValue(g, es)) <==> OrderSafe(g) && Ordered(es)
  {
    ListIsOrdered(es);
  }

  lemma {:induction false} ListIsOrdered(es: seq<Expr>)
    ensures ListSafe(es) && AllSafe(es) <==> Ordered(es)
    decreases |es|
  {
    hide OrderSafe, HasSideEffects;
    if es != [] {
      var rest := es[1..];
      ListIsOrdered(rest);
      AnyEffectsIs(rest);
      assert forall i :: 1 <= i < |es| ==> es[i] == rest[i - 1];
      if Ordered(rest) && OrderSafe(es[0]) && (es[0].FnIdent? && es[0].isVariable ==> !AnyEffects(rest)) {
        forall i, j | 0 <= i < j < |es| && es[i].FnIdent? && es[i].isVariable ensures !HasSideEffects(es[j]) {
          assert es[j] == rest[j - 1];
        }
      }
      if Ordered(es) {
        forall i | 0 <= i < |rest| ensures OrderSafe(rest[i]) {
          assert rest[i] == es[i + 1];
        }
        forall i, j | 0 <= i < j < |rest| && rest[i].FnIdent? && rest[i].isVariable ensures !HasSideEffects(rest[j]) {
          assert rest[i] == es[i + 1] && rest[j] == es[j + 1];
        }
      }
    }
  }

  lemma {:induction false} AnyEffectsIs(es: seq<Expr>)
    ensures AnyEffects(es) <==> exists i :: 0 <= i < |es| && HasSideEffects(es[i])
    decreases |es|
  {
    hide HasSideEffects;
    if es != [] {
      AnyEffectsIs(es[1..]);
      assert forall i :: 1 <= i < |es| ==> es[i] == es[1..][i - 1];
    }
  }

  /** Without branches, an operand has effects exactly when evaluating it is seen; a
      conditional is taken to have some. */
  lemma EffectsAreSeen(w: World, e: Expr, tr: Trace)
    requires Straight(e)
    ensures HasSideEffects(e) <==> SEval(w, e, tr).1 != tr
  {
    TraceGrows(w, e, tr);
    CallsAreEffects(e);
  }

  // ----- left to right -----

  /** The operands are evaluated one after the other: each where the one before left off. */
  predicate InTurn(w: World, es: seq<Expr>, vs: seq<int>, at: seq<Trace>) {
    && |vs| == |es| && |at| == |es| + 1
    && forall i :: 0 <= i < |es| ==> SEval(w, es[i], at[i]) == (vs[i], at[i + 1])
  }

  /** A call is one event, made with its operands' values after all of them; an operation
      is none. */
  lemma Applied(w: World, f: int, op: nat, compares: bool, g: Expr, fv: int, es: seq<Expr>, tr: Trace, vs: seq<int>, at: seq<Trace>)
    requires InTurn(w, es, vs, at)
    ensures var end := at[|es|];
            && SEval(w, Call(f, es), at[0]) == (w.call(end, f, vs), end + [Event(f, vs)])
            && SEval(w, Op(op, compares, es), at[0]) == (w.op(end, op, vs), end)
            && (SEval(w, g, tr) == (fv, at[0]) ==> SEval(w, CallValue(g, es), tr) == (w.call(end, fv, vs), end + [Event(fv, vs)]))
  {
    AllInTurn(w, es, vs, at);
  }

  lemma {:induction false} AllInTurn(w: World, es: seq<Expr>, vs: seq<int>, at: seq<Trace>)
    requires InTurn(w, es, vs, at)
    ensures SEvalAll(w, es, at[0]) == (vs, at[|es|])
    decreases |es|
  {
    hide SEval;
    if es != [] {
      assert forall i :: 0 <= i < |es| - 1 ==> es[1..][i] == es[i + 1] && vs[1..][i] == vs[i + 1] && at[1..][i] == at[i + 1];
      assert at[1..][|es| - 1] == at[|es|];
      AllInTurn(w, es[1..], vs[1..], at[1..]);
      assert vs == [vs[0]] + vs[1..];
    }
  }

  /** Of two parts the first one written comes first; storing and looping are events. */
  lemma AppliedPairs(w: World, id: nat, checked: bool, a: Expr, b: Expr, tr: Trace)
    ensures var (x, tr1) := SEval(w, a, tr);
            var (y, tr2) := SEval(w, b, tr1);
            var seen, quiet := (w.call(tr2, id, [x, y]), tr2 + [Event(id, [x, y])]), (w.op(tr2, id, [x, y]), tr2);
            && SEval(w, Both(Guarded, id, a, b), tr) == SEval(w, Both(PtrIndex, id, a, b), tr) == quiet
            && SEval(w, Both(RawSlice(checked), id, a, b), tr) == quiet
            && SEval(w, Both(AtomicStore, id, a, b), tr) == SEval(w, Both(Assign, id, a, b), tr) == seen
            && SEval(w, Both(RangeLoop, id, a, b), tr) == seen
  {
  }

  /** `&&`, `||` and a conditional evaluate only what the first operand selects. */
  lemma Selected(w: World, c: Expr, a: Expr, b: Expr, tr: Trace)
    ensures var (v, tr1) := SEval(w, c, tr);
            && SEval(w, Logic(true, c, a), tr) == (if v == 0 then (0, tr1) else SEval(w, a, tr1))
            && SEval(w, Logic(false, c, a), tr) == (if v == 0 then SEval(w, a, tr1) else (1, tr1))
            && SEval(w, Cond(c, a, b), tr) == SEval(w, if v == 0 then b else a, tr1)
  {
  }

  // ----- what C leaves open, and what not -----

  /** Two calls as operands: C may make either first, and only then the call itself. */
  lemma EitherFirst(w: World, k: int, f: int, g: int, tr: Trace)
    ensures var e := CNode(KCall(k), [CNode(KCall(f), []), CNode(KCall(g), [])]);
            var x := w.call(tr, f, []);
            var y := w.call(tr + [Event(f, [])], g, []);
            var tr2 := tr + [Event(f, [])] + [Event(g, [])];
            && RunSchedule(w, e, tr, [[0], [1], []]) == Some((CVal(w.call(tr2, k, [x, y])), tr2 + [Event(k, [x, y])]))
            && Step(w, e, tr, []) == None
    ensures var e := CNode(KCall(k), [CNode(KCall(f), []), CNode(KCall(g), [])]);
            var y := w.call(tr, g, []);
            var x := w.call(tr + [Event(g, [])], f, []);
            var tr2 := tr + [Event(g, [])] + [Event(f, [])];
            RunSchedule(w, e, tr, [[1], [0], []]) == Some((CVal(w.call(tr2, k, [x, y])), tr2 + [Event(k, [x, y])]))
  {
    TwoSteps(w, k, f, g, tr, true);
    TwoSteps(w, k, f, g, tr, false);
  }

  lemma TwoSteps(w: World, k: int, f: int, g: int, tr: Trace, inOrder: bool)
    ensures var a, b := CNode(KCall(f), []), CNode(KCall(g), []);
            var first, second := if inOrder then f else g, if inOrder then g else f;
            var p, q := if inOrder then 0 else 1, if inOrder then 1 else 0;
            var u := w.call(tr, first, []);
            var tr1 := tr + [Event(first, [])];
            var v := w.call(tr1, second, []);
            var tr2 := tr1 + [Event(second, [])];
            var vs := if inOrder then [u, v] else [v, u];
            RunSchedule(w, CNode(KCall(k), [a, b]), tr, [[p], [q], []]) == Some((CVal(w.call(tr2, k, vs)), tr2 + [Event(k, vs)]))
  {
    hide Apply;
    var a, b := CNode(KCall(f), []), CNode(KCall(g), []);
    var p: nat, q: nat := if inOrder then 0 else 1, if inOrder then 1 else 0;
    var first, second := if inOrder then f else g, if inOrder then g else f;
    OneCall(w, first, tr);
    var u := w.call(tr, first, []);
    var tr1 := tr + [Event(first, [])];
    var args := [a, b];
    var e1 := CNode(KCall(k), args[p := CVal(u)]);
    assert args[p] == CNode(KCall(first), []) && [p][1..] == [];
    assert Step(w, CNode(KCall(k), args), tr, [p]) == Some((e1, tr1));
    OneCall(w, second, tr1);
    var v := w.call(tr1, second, []);
    var tr2 := tr1 + [Event(second, [])];
    var args2 := args[p := CVal(u)][q := CVal(v)];
    assert e1.args[q] == CNode(KCall(second), []) && [q][1..] == [];
    assert Step(w, e1, tr1, [q]) == Some((CNode(KCall(k), args2), tr2));
    LastStep(w, k, if inOrder then u else v, if inOrder then v else u, tr2);
    assert args2 == [CVal(if inOrder then u else v), CVal(if inOrder then v else u)];
    var last: seq<seq<nat>> := [[]];
    var sched: seq<seq<nat>> := [[p], [q], []];
    assert sched[1..] == [[q], []] && sched[1..][1..] == last && last[1..] == [];
    assert RunSchedule(w, CNode(KCall(k), args2), tr2, last) == Step(w, CNode(KCall(k), args2), tr2, []);
  }

  lemma OneCall(w: World, f: int, tr: Trace)
    ensures Step(w, CNode(KCall(f), []), tr, []) == Some((CVal(w.call(tr, f, [])), tr + [Event(f, [])]))
  {
    assert Values([]) == [];
  }

  lemma LastStep(w: World, k: int, x: int, y: int, tr: Trace)
    ensures Step(w, CNode(KCall(k), [CVal(x), CVal(y)]), tr, []) == Some((CVal(w.call(tr, k, [x, y])), tr + [Event(k, [x, y])]))
  {
    assert Values([CVal(x), CVal(y)]) == [x, y];
  }

  /** A temporary is initialized before its body is entered, and the first operand of
      `&&`, `||` and `?:` is evaluated before the others. */
  lemma Sequenced(w: World, e: C, t: nat, a: C, b: C, isAnd: bool, tr: Trace, path: seq<nat>)
    requires !e.CVal? && (path == [] || path[0] != 0)
    ensures Step(w, CLet(t, e, a), tr, path) == None && Step(w, CLogic(isAnd, e, a), tr, path) == None
    ensures Step(w, CCond(e, a, b), tr, path) == None
  {
  }

  // ----- what is stored, and what is left in place -----

  lemma {:induction false} NothingStored(es: seq<Expr>, c: nat)
    ensures LowerOperands(es, false, c).binds == []
  {
    hide Lower;
    if es != [] {
      NothingStored(es[1..], Lower(es[0], c).1);
    }
  }

  /** Temporaries are made for a call's operands only where there are two at least and one
      has an effect; where none has, or there is just one, all stay in place. */
  lemma OnlyWhereNeeded(f: int, op: nat, es: seq<Expr>, c: nat)
    ensures |es| < 2 || (forall i :: 0 <= i < |es| ==> !HasSideEffects(es[i])) ==>
              Lower(Call(f, es), c).0.CNode? && Lower(Op(op, false, es), c).0.CNode?
    ensures |es| >= 2 && !IsAtom(es[0]) && (exists i :: 0 <= i < |es| && HasSideEffects(es[i])) ==>
              Lower(Call(f, es), c).0.CLet? && Lower(Op(op, false, es), c).0.CLet?
  {
    hide HasSideEffects, IsAtom, LowerOperands;
    AnyEffectsIs(es);
    if SeqNeeded(es) {
      if !IsAtom(es[0]) {
        FirstStored(es, c);
      }
    } else {
      NothingStored(es, c);
    }
  }

  lemma FirstStored(es: seq<Expr>, c: nat)
    requires |es| >= 2 && !IsAtom(es[0])
    ensures LowerOperands(es, true, c).binds != []
  {
    hide Lower, IsAtom;
  }

  /** A literal and a top-level function stay in place before an effect, a function
      variable too. */
  lemma AtomsStay(v: int, n: nat, isVariable: bool, es: seq<Expr>, c: nat)
    requires es != []
    ensures LowerOperands([Lit(v)] + es, true, c).ops[0] == CVal(v)
    ensures LowerOperands([FnIdent(n, isVariable)] + es, true, c).ops[0] == if isVariable then CRead(n) else CFn(n)
    ensures LowerOperands([Lit(v)] + es, true, c).binds == LowerOperands(es, true, c).binds
  {
    assert ([Lit(v)] + es)[1..] == es;
    assert ([FnIdent(n, isVariable)] + es)[1..] == es;
  }

  /** Which expressions have no branch: all but `&&`, `||` and conditionals, and what is
      made of them. */
  lemma WithoutBranches(f: int, op: nat, compares: bool, form: Form, id: nat, a: Expr, b: Expr, es: seq<Expr>, v: int, n: nat, flag: bool)
    ensures Straight(Lit(v)) && Straight(Var(n)) && Straight(FnIdent(n, flag))
    ensures Straight(Both(form, id, a, b)) <==> Straight(a) && Straight(b)
    ensures Straight(Call(f, es)) <==> forall i :: 0 <= i < |es| ==> Straight(es[i])
    ensures Straight(Op(op, compares, es)) <==> forall i :: 0 <= i < |es| ==> Straight(es[i])
    ensures Straight(CallValue(a, es)) <==> Straight(a) && forall i :: 0 <= i < |es| ==> Straight(es[i])
  {
    AllStraightIs(es);
  }

  lemma {:induction false} AllStraightIs(es: seq<Expr>)
    ensures AllStraight(es) <==> forall i :: 0 <= i < |es| ==> Straight(es[i])
  {
    hide Straight;
    if es != [] {
      AllStraightIs(es[1..]);
      assert forall i :: 1 <= i < |es| ==> es[i] == es[1..][i - 1];
    }
  }

  /** Two operands of a comparison that are the same, with no effect and no atoms, are
      compared through a temporary; two that differ, with no effect, stay in place. */
  lemma SelfCompared(op: nat, a: Expr, b: Expr, c: nat)
    requires !HasSideEffects(a) && !HasSideEffects(b)
    ensures !IsAtom(a) ==> Lower(Op(op, true, [a, a]), c).0.CLet?
    ensures a != b ==> Lower(Op(op, true, [a, b]), c).0.CNode?
  {
    hide HasSideEffects, IsAtom, LowerOperands;
    AnyEffectsIs([a, a]);
    AnyEffectsIs([a, b]);
    if !IsAtom(a) {
      FirstStored([a, a], c);
    }
    NothingStored([a, b], c);
  }
}
