/** Whatever order C picks, the emitted expression does what FC's left-to-right
    order does. */
module OrderCorrect {
  import opened OrderSource
  import opened OrderTarget
  import opened OrderLowering

  // ----- what makes an expression's order unobservable -----

  predicate IsCall(k: Kind) {
    k.KCall? || k.KCallValue?
  }

  /** Evaluating this may perform a call. */
  predicate MayAct(e: C)
    decreases e
  {
    match e
    case CVal(_) => false
    case CTemp(_) => false
    case CRead(_) => false
    case CFn(_) => false
    case CNode(k, args) => IsCall(k) || exists i :: 0 <= i < |args| && MayAct(args[i])
    case CLogic(_, a, b) => MayAct(a) || MayAct(b)
    case CCond(c, x, y) => MayAct(c) || MayAct(x) || MayAct(y)
    case CLet(_, x, b) => MayAct(x) || MayAct(b)
  }

  /** Its value does not depend on when it is read. */
  predicate Fixed(e: C) {
    e.CVal? || e.CTemp? || e.CFn?
  }

  /** An operand that may act stands among operands that are fixed. */
  predicate OperandsOk(args: seq<C>) {
    forall i, j :: 0 <= i < |args| && 0 <= j < |args| && i != j && MayAct(args[i]) ==> Fixed(args[j])
  }

  predicate WellSequenced(e: C)
    decreases e
  {
    match e
    case CVal(_) => true
    case CTemp(_) => true
    case CRead(_) => true
    case CFn(_) => true
    case CNode(_, args) => OperandsOk(args) && forall i :: 0 <= i < |args| ==> WellSequenced(args[i])
    case CLogic(_, a, b) => WellSequenced(a) && WellSequenced(b)
    case CCond(c, x, y) => WellSequenced(c) && WellSequenced(x) && WellSequenced(y)
    case CLet(_, x, b) => WellSequenced(x) && WellSequenced(b)
  }

  /** Every temporary read in `e` is initialized around it or in `ts`. */
  predicate Bound(e: C, ts: set<nat>)
    decreases e
  {
    match e
    case CVal(_) => true
    case CTemp(t) => t in ts
    case CRead(_) => true
    case CFn(_) => true
    case CNode(_, args) => forall i :: 0 <= i < |args| ==> Bound(args[i], ts)
    case CLogic(_, a, b) => Bound(a, ts) && Bound(b, ts)
    case CCond(c, x, y) => Bound(c, ts) && Bound(x, ts) && Bound(y, ts)
    case CLet(t, x, b) => Bound(x, ts) && Bound(b, ts + {t})
  }

  // ----- substitution -----

  lemma {:induction false} SubstKeeps(e: C, t: nat, v: int)
    ensures MayAct(Subst(e, t, v)) == MayAct(e)
    ensures Fixed(Subst(e, t, v)) == Fixed(e)
    ensures WellSequenced(e) ==> WellSequenced(Subst(e, t, v))
    decreases e
  {
    match e
    case CNode(k, args) =>
      forall i | 0 <= i < |args|
        ensures MayAct(Subst(args[i], t, v)) == MayAct(args[i]) && Fixed(Subst(args[i], t, v)) == Fixed(args[i])
        ensures WellSequenced(args[i]) ==> WellSequenced(Subst(args[i], t, v))
      {
        SubstKeeps(args[i], t, v);
      }
      var sub := SubstAll(args, t, v);
      assert forall i :: 0 <= i < |args| ==> MayAct(sub[i]) == MayAct(args[i]);
    case CLogic(_, a, b) =>
      SubstKeeps(a, t, v);
      SubstKeeps(b, t, v);
    case CCond(c, x, y) =>
      SubstKeeps(c, t, v);
      SubstKeeps(x, t, v);
      SubstKeeps(y, t, v);
    case CLet(u, x, b) =>
      SubstKeeps(x, t, v);
      SubstKeeps(b, t, v);
    case _ =>
  }

  lemma {:induction false} SubstBound(e: C, t: nat, v: int, ts: set<nat>)
    requires Bound(e, ts + {t})
    ensures Bound(Subst(e, t, v), ts)
    decreases e
  {
    match e
    case CNode(k, args) =>
      forall i | 0 <= i < |args| ensures Bound(Subst(args[i], t, v), ts) {
        SubstBound(args[i], t, v, ts);
      }
    case CLogic(_, a, b) =>
      SubstBound(a, t, v, ts);
      SubstBound(b, t, v, ts);
    case CCond(c, x, y) =>
      SubstBound(c, t, v, ts);
      SubstBound(x, t, v, ts);
      SubstBound(y, t, v, ts);
    case CLet(u, x, b) =>
      SubstBound(x, t, v, ts);
      if u == t {
        assert ts + {t} + {u} == ts + {u};
      } else {
        assert ts + {t} + {u} == ts + {u} + {t};
        SubstBound(b, t, v, ts + {u});
      }
    case _ =>
  }

  lemma {:induction false} SubstFresh(e: C, t: nat, v: int, ts: set<nat>)
    requires Bound(e, ts) && t !in ts
    ensures Subst(e, t, v) == e
    decreases e
  {
    match e
    case CNode(k, args) =>
      forall i | 0 <= i < |args| ensures Subst(args[i], t, v) == args[i] {
        SubstFresh(args[i], t, v, ts);
      }
      assert SubstAll(args, t, v) == args;
    case CLogic(_, a, b) =>
      SubstFresh(a, t, v, ts);
      SubstFresh(b, t, v, ts);
    case CCond(c, x, y) =>
      SubstFresh(c, t, v, ts);
      SubstFresh(x, t, v, ts);
      SubstFresh(y, t, v, ts);
    case CLet(u, x, b) =>
      SubstFresh(x, t, v, ts);
      if u != t {
        SubstFresh(b, t, v, ts + {u});
      }
    case _ =>
  }

  // ----- a step keeps the left-to-right result -----

  /** What performs no call leaves no event. */
  lemma {:induction false} QuietKeepsTrace(w: World, e: C, tr: Trace)
    requires !MayAct(e)
    ensures LeftToRight(w, e, tr).1 == tr
    decreases Size(e), e, 1
  {
    match e
    case CNode(k, args) => QuietAll(w, args, tr);
    case CLogic(_, a, b) =>
      QuietKeepsTrace(w, a, tr);
      QuietKeepsTrace(w, b, tr);
    case CCond(c, x, y) =>
      QuietKeepsTrace(w, c, tr);
      QuietKeepsTrace(w, x, tr);
      QuietKeepsTrace(w, y, tr);
    case CLet(t, x, b) =>
      QuietKeepsTrace(w, x, tr);
      var v := LeftToRight(w, x, tr).0;
      SubstKeeps(b, t, v);
      QuietKeepsTrace(w, Subst(b, t, v), tr);
    case _ =>
  }

  lemma {:induction false} QuietAll(w: World, es: seq<C>, tr: Trace)
    requires forall i :: 0 <= i < |es| ==> !MayAct(es[i])
    ensures LeftToRightAll(w, es, tr).1 == tr
    decreases SizeAll(es), es, 0
  {
    if es != [] {
      QuietKeepsTrace(w, es[0], tr);
      QuietAll(w, es[1..], tr);
    }
  }

  /** Replacing one operand by what a step made of it. */
  lemma {:induction false} OperandStep(w: World, args: seq<C>, i: nat, a: C, tr: Trace, tr1: Trace)
    requires i < |args|
    requires LeftToRight(w, args[i], tr) == LeftToRight(w, a, tr1)
    requires || (forall j :: 0 <= j < |args| && j != i ==> Fixed(args[j]))
             || (tr1 == tr && Fixed(args[i]) && Fixed(a))
             || (tr1 == tr && forall j :: 0 <= j < i ==> !MayAct(args[j]))
    ensures LeftToRightAll(w, args, tr) == LeftToRightAll(w, args[i := a], tr1)
    decreases |args|
  {
    var args1 := args[i := a];
    if i == 0 {
      assert args1[1..] == args[1..];
    } else {
      assert args1[1..] == args[1..][i - 1 := a];
      var (v, tr2) := LeftToRight(w, args[0], tr);
      var (v', tr2') := LeftToRight(w, args[0], tr1);
      if tr1 == tr && !MayAct(args[0]) {
        QuietKeepsTrace(w, args[0], tr);
      }
      OperandStep(w, args[1..], i - 1, a, tr2, tr2');
    }
  }

  /** A step, wherever it is taken, keeps everything that matters. */
  lemma {:induction false} StepKeeps(w: World, e: C, tr: Trace, path: seq<nat>)
    requires WellSequenced(e) && Step(w, e, tr, path).Some?
    ensures var (e1, tr1) := Step(w, e, tr, path).value;
            && WellSequenced(e1)
            && LeftToRight(w, e1, tr1) == LeftToRight(w, e, tr)
            && Size(e1) < Size(e)
            && (MayAct(e1) ==> MayAct(e))
            && (!MayAct(e) ==> tr1 == tr)
            && (Fixed(e) ==> Fixed(e1))
            && (Bound(e, {}) ==> Bound(e1, {}))
    decreases e
  {
    match e
    case CRead(_) =>
    case CFn(_) =>
    case CNode(k, args) =>
      if path == [] {
        ValuesRun(w, args, tr);
      } else {
        NodeStepKeeps(w, k, args, tr, path);
      }
    case CLogic(_, a, b) =>
      if path != [] {
        StepKeeps(w, a, tr, path[1..]);
      }
    case CCond(c, x, y) =>
      if path != [] {
        StepKeeps(w, c, tr, path[1..]);
      }
    case CLet(t, x, b) =>
      if path == [] {
        SubstKeeps(b, t, x.v);
        if Bound(e, {}) {
          SubstBound(b, t, x.v, {});
        }
      } else {
        StepKeeps(w, x, tr, path[1..]);
      }
  }

  lemma {:induction false} ValuesRun(w: World, args: seq<C>, tr: Trace)
    requires AllValues(args)
    ensures LeftToRightAll(w, args, tr) == (Values(args), tr)
    decreases |args|
  {
    if args != [] {
      ValuesRun(w, args[1..], tr);
    }
  }

  lemma {:induction false} NodeStepKeeps(w: World, k: Kind, args: seq<C>, tr: Trace, path: seq<nat>)
    requires WellSequenced(CNode(k, args)) && path != [] && Step(w, CNode(k, args), tr, path).Some?
    ensures var e := CNode(k, args);
            var (e1, tr1) := Step(w, e, tr, path).value;
            && WellSequenced(e1)
            && LeftToRight(w, e1, tr1) == LeftToRight(w, e, tr)
            && Size(e1) < Size(e)
            && (MayAct(e1) ==> MayAct(e))
            && (!MayAct(e) ==> tr1 == tr)
            && (Bound(e, {}) ==> Bound(e1, {}))
    decreases args, 0
  {
    hide WellSequenced, MayAct, LeftToRight, Size, Bound, Step, LeftToRightAll, OperandsOk;
    var i := path[0];
    NodeStep(w, k, args, tr, path);
    NodeParts(k, args);
    StepKeeps(w, args[i], tr, path[1..]);
    var (a, tr1) := Step(w, args[i], tr, path[1..]).value;
    NodeActs(k, args, i);
    OperandsOthers(args, i);
    OperandStep(w, args, i, a, tr, tr1);
    NodeRun(w, k, args, tr);
    NodeRun(w, k, args[i := a], tr1);
    SizeUpdate(args, i, a);
    NodeUpdate(k, args, i, a);
  }

  lemma NodeStep(w: World, k: Kind, args: seq<C>, tr: Trace, path: seq<nat>)
    requires path != [] && Step(w, CNode(k, args), tr, path).Some?
    ensures path[0] < |args| && Step(w, args[path[0]], tr, path[1..]).Some?
    ensures var (a, tr1) := Step(w, args[path[0]], tr, path[1..]).value;
            Step(w, CNode(k, args), tr, path) == Some((CNode(k, args[path[0] := a]), tr1))
  {
  }

  lemma NodeParts(k: Kind, args: seq<C>)
    requires WellSequenced(CNode(k, args))
    ensures OperandsOk(args) && forall i :: 0 <= i < |args| ==> WellSequenced(args[i])
  {
  }

  lemma NodeActs(k: Kind, args: seq<C>, i: nat)
    requires i < |args|
    ensures MayAct(args[i]) ==> MayAct(CNode(k, args))
  {
  }

  lemma OperandsOthers(args: seq<C>, i: nat)
    requires i < |args| && OperandsOk(args)
    ensures || (forall j :: 0 <= j < |args| && j != i ==> Fixed(args[j]))
            || (!MayAct(args[i]) && (Fixed(args[i]) || forall j :: 0 <= j < |args| ==> !MayAct(args[j])))
  {
  }

  lemma NodeUpdate(k: Kind, args: seq<C>, i: nat, a: C)
    requires i < |args| && OperandsOk(args) && forall j :: 0 <= j < |args| ==> WellSequenced(args[j])
    requires WellSequenced(a) && Size(a) < Size(args[i]) && SizeAll(args[i := a]) < SizeAll(args)
    requires (MayAct(a) ==> MayAct(args[i])) && (Fixed(args[i]) ==> Fixed(a))
    requires Bound(args[i], {}) ==> Bound(a, {})
    ensures var e, e1 := CNode(k, args), CNode(k, args[i := a]);
            && WellSequenced(e1) && Size(e1) < Size(e)
            && (MayAct(e1) ==> MayAct(e)) && (Bound(e, {}) ==> Bound(e1, {}))
  {
    var args1 := args[i := a];
    forall p, q | 0 <= p < |args| && 0 <= q < |args| && p != q && MayAct(args1[p])
      ensures Fixed(args1[q])
    {
      assert MayAct(args[p]);
      assert Fixed(args[q]);
    }
    if MayAct(CNode(k, args1)) && !IsCall(k) {
      var p :| 0 <= p < |args1| && MayAct(args1[p]);
      assert MayAct(args[p]);
    }
  }

  lemma {:induction false} SizeUpdate(es: seq<C>, i: nat, a: C)
    requires i < |es| && Size(a) < Size(es[i])
    ensures SizeAll(es[i := a]) < SizeAll(es)
    decreases |es|
  {
    if i == 0 {
      assert es[i := a][1..] == es[1..];
    } else {
      assert es[i := a][1..] == es[1..][i - 1 := a];
      SizeUpdate(es[1..], i - 1, a);
    }
  }

  /** An expression with no uninitialized temporary can step until it is a value. */
  lemma {:induction false} CanStep(w: World, e: C, tr: Trace) returns (path: seq<nat>)
    requires Bound(e, {}) && !e.CVal?
    ensures Step(w, e, tr, path).Some?
    decreases e
  {
    match e
    case CNode(k, args) =>
      if AllValues(args) {
        path := [];
      } else {
        var i: nat :| i < |args| && !args[i].CVal?;
        var p := CanStep(w, args[i], tr);
        path := [i] + p;
      }
    case CLogic(_, a, _) =>
      if a.CVal? {
        path := [];
      } else {
        var p := CanStep(w, a, tr);
        path := [0] + p;
      }
    case CCond(c, _, _) =>
      if c.CVal? {
        path := [];
      } else {
        var p := CanStep(w, c, tr);
        path := [0] + p;
      }
    case CLet(_, x, _) =>
      if x.CVal? {
        path := [];
      } else {
        var p := CanStep(w, x, tr);
        path := [0] + p;
      }
    case _ =>
      path := [];
  }

  /** Every run of a well-sequenced expression ends, in at most its size many
      steps, with its left-to-right result. */
  lemma {:induction false} ScheduleIrrelevant(w: World, e: C, tr: Trace, sched: seq<seq<nat>>)
    requires WellSequenced(e) && Bound(e, {}) && RunSchedule(w, e, tr, sched).Some?
    ensures var (e1, tr1) := RunSchedule(w, e, tr, sched).value;
            && |sched| + Size(e1) <= Size(e)
            && LeftToRight(w, e1, tr1) == LeftToRight(w, e, tr)
            && (!e1.CVal? ==> exists path :: Step(w, e1, tr1, path).Some?)
    decreases |sched|
  {
    if sched == [] {
      if !e.CVal? {
        var path := CanStep(w, e, tr);
      }
    } else {
      StepKeeps(w, e, tr, sched[0]);
      var (e1, tr1) := Step(w, e, tr, sched[0]).value;
      ScheduleIrrelevant(w, e1, tr1, sched[1..]);
    }
  }

  // ----- what the lowering produces -----

  /** Every temporary of a hoisted list is its own and numbered from `c`. */
  predicate Tidy(h: Hoisted, c: nat) {
    && (forall i :: 0 <= i < |h.binds| ==> h.binds[i].0 >= c && Bound(h.binds[i].1, {}))
    && (forall i :: 0 <= i < |h.ops| ==> Bound(h.ops[i], Keys(h.binds)))
  }

  function Keys(binds: seq<(nat, C)>): set<nat> {
    set i | 0 <= i < |binds| :: binds[i].0
  }

  lemma {:induction false} BoundMore(e: C, ts: set<nat>, ts': set<nat>)
    requires Bound(e, ts) && ts <= ts'
    ensures Bound(e, ts')
    decreases e
  {
    match e
    case CNode(_, args) =>
      forall i | 0 <= i < |args| ensures Bound(args[i], ts') {
        BoundMore(args[i], ts, ts');
      }
    case CLogic(_, a, b) =>
      BoundMore(a, ts, ts');
      BoundMore(b, ts, ts');
    case CCond(c, x, y) =>
      BoundMore(c, ts, ts');
      BoundMore(x, ts, ts');
      BoundMore(y, ts, ts');
    case CLet(t, x, b) =>
      BoundMore(x, ts, ts');
      BoundMore(b, ts + {t}, ts' + {t});
    case _ =>
  }

  lemma {:induction false} WrapBound(binds: seq<(nat, C)>, body: C, ts: set<nat>)
    requires forall i :: 0 <= i < |binds| ==> Bound(binds[i].1, {})
    requires Bound(body, ts + Keys(binds))
    ensures Bound(Wrap(binds, body), ts)
    decreases |binds|
  {
    if binds == [] {
      assert Keys(binds) == {} && ts + {} == ts;
    } else {
      BoundMore(binds[0].1, {}, ts);
      assert Keys(binds) == {binds[0].0} + Keys(binds[1..]) by {
        forall k | k in Keys(binds) ensures k in {binds[0].0} + Keys(binds[1..]) {
          var i :| 0 <= i < |binds| && binds[i].0 == k;
          if i > 0 {
            assert binds[1..][i - 1].0 == k;
          }
        }
        forall k | k in Keys(binds[1..]) ensures k in Keys(binds) {
          var i :| 0 <= i < |binds[1..]| && binds[1..][i].0 == k;
          assert binds[i + 1].0 == k;
        }
      }
      assert ts + Keys(binds) == ts + {binds[0].0} + Keys(binds[1..]);
      WrapBound(binds[1..], body, ts + {binds[0].0});
    }
  }

  /** One operand of a list: hoisted or left in place. */
  lemma OperandsCons(es: seq<Expr>, active: bool, c: nat) returns (hoist: bool, x: C, c1: nat, h1: Hoisted)
    requires es != []
    ensures hoist == (active && |es| > 1 && !IsAtom(es[0]))
    ensures (x, c1) == Lower(es[0], if hoist then c + 1 else c)
    ensures h1 == LowerOperands(es[1..], active, c1) && |h1.ops| == |es| - 1 && c1 >= c
    ensures LowerOperands(es, active, c) ==
            Hoisted(if hoist then [(c, x)] + h1.binds else h1.binds,
                    [if hoist then CTemp(c) else x] + h1.ops, h1.next)
  {
    hoist := active && |es| > 1 && !IsAtom(es[0]);
    x, c1 := Lower(es[0], if hoist then c + 1 else c).0, Lower(es[0], if hoist then c + 1 else c).1;
    h1 := LowerOperands(es[1..], active, c1);
  }

  lemma BoundPair(k: Kind, x: C, y: C, ts: set<nat>)
    requires Bound(x, ts) && Bound(y, ts)
    ensures Bound(CNode(k, [x, y]), ts)
  {
  }

  lemma {:induction false} LowerBound(e: Expr, c: nat)
    ensures Bound(Lower(e, c).0, {})
    decreases e, 2
  {
    hide LowerOperands, HasSideEffects, AnyEffects, SeqNeeded, IsSelfCompare;
    match e
    case Call(f, args) =>
      OperandsTidy(args, SeqNeeded(args), c);
      var h := LowerOperands(args, SeqNeeded(args), c);
      assert {} + Keys(h.binds) == Keys(h.binds);
      WrapBound(h.binds, CNode(KCall(f), h.ops), {});
    case CallValue(g, args) =>
      LowerBound(g, c + 1);
      var c1 := Lower(g, c + 1).1;
      OperandsTidy(args, SeqNeeded(args), c1);
      var h := LowerOperands(args, SeqNeeded(args), c1);
      var ts := {c} + Keys(h.binds);
      var ops := [CTemp(c)] + h.ops;
      forall i | 0 <= i < |ops| ensures Bound(ops[i], ts) {
        if i > 0 {
          BoundMore(h.ops[i - 1], Keys(h.binds), ts);
        }
      }
      assert {} + {c} == {c};
      WrapBound(h.binds, CNode(KCallValue, ops), {c});
    case Op(op, _, args) =>
      var active := SeqNeeded(args) || IsSelfCompare(e);
      OperandsTidy(args, active, c);
      var h := LowerOperands(args, active, c);
      assert {} + Keys(h.binds) == Keys(h.binds);
      WrapBound(h.binds, CNode(KOp(op), h.ops), {});
    case Logic(_, l, r) =>
      LowerBound(l, c);
      LowerBound(r, Lower(l, c).1);
    case Cond(b, t, f) =>
      LowerBound(b, c);
      var c1 := Lower(b, c).1;
      LowerBound(t, c1);
      LowerBound(f, Lower(t, c1).1);
    case Both(form, id, a, b) => BothBound(form, id, a, b, c);
    case _ =>
  }

  lemma {:induction false} BothBound(form: Form, id: nat, a: Expr, b: Expr, c: nat)
    ensures Bound(Lower(Both(form, id, a, b), c).0, {})
    decreases Both(form, id, a, b), 1
  {
    hide InTurn, HasSideEffects, Bound;
    var k := KindOf(form, id);
    match WayOf(form, a, b)
    case InOrder =>
      LowerBound(a, c + 2);
      var (x, c1) := Lower(a, c + 2);
      LowerBound(b, c1);
      InTurnBound(k, c, x, Lower(b, c1).0, false);
    case Unordered =>
      LowerBound(a, c);
      var (x, c1) := Lower(a, c);
      LowerBound(b, c1);
      BoundPair(k, x, Lower(b, c1).0, {});
    case Backwards =>
      LowerBound(b, c + 2);
      var (y, c1) := Lower(b, c + 2);
      LowerBound(a, c1);
      InTurnBound(k, c, y, Lower(a, c1).0, true);
  }

  lemma InTurnBound(k: Kind, c: nat, x: C, y: C, swapped: bool)
    requires Bound(x, {}) && Bound(y, {})
    ensures Bound(InTurn(k, c, x, y, swapped), {})
  {
    BoundMore(y, {}, {} + {c});
    BoundPair(k, CTemp(c), CTemp(c + 1), {} + {c} + {c + 1});
    BoundPair(k, CTemp(c + 1), CTemp(c), {} + {c} + {c + 1});
    var node := CNode(k, if swapped then [CTemp(c + 1), CTemp(c)] else [CTemp(c), CTemp(c + 1)]);
    assert Bound(CLet(c + 1, y, node), {} + {c});
  }

  lemma {:induction false} OperandsTidy(es: seq<Expr>, active: bool, c: nat)
    ensures Tidy(LowerOperands(es, active, c), c)
    decreases es, 1
  {
    hide Tidy, Bound;
    if es == [] {
      NothingTidy(active, c);
    } else {
      var hoist := active && |es| > 1 && !IsAtom(es[0]);
      var c0 := if hoist then c + 1 else c;
      LowerBound(es[0], c0);
      var (x, c1) := Lower(es[0], c0);
      OperandsTidy(es[1..], active, c1);
      TidyCons(hoist, c, x, c1, LowerOperands(es[1..], active, c1));
    }
  }

  lemma NothingTidy(active: bool, c: nat)
    ensures Tidy(LowerOperands([], active, c), c)
  {
  }

  lemma TidyCons(hoist: bool, c: nat, x: C, c1: nat, h1: Hoisted)
    requires Tidy(h1, c1) && Bound(x, {}) && c <= c1
    ensures Tidy(Hoisted(if hoist then [(c, x)] + h1.binds else h1.binds, [if hoist then CTemp(c) else x] + h1.ops, h1.next), c)
  {
    hide Bound;
    var binds := if hoist then [(c, x)] + h1.binds else h1.binds;
    var ops := [if hoist then CTemp(c) else x] + h1.ops;
    KeysMore(hoist, c, x, h1.binds);
    forall i | 0 <= i < |ops| ensures Bound(ops[i], Keys(binds)) {
      if i > 0 {
        assert ops[i] == h1.ops[i - 1];
        BoundMore(h1.ops[i - 1], Keys(h1.binds), Keys(binds));
      } else if hoist {
        TempBound(c, Keys(binds));
      } else {
        BoundMore(x, {}, Keys(binds));
      }
    }
    BindsTidy(hoist, c, x, c1, h1.binds);
  }

  lemma BindsTidy(hoist: bool, c: nat, x: C, c1: nat, binds: seq<(nat, C)>)
    requires c <= c1 && Bound(x, {}) && forall i :: 0 <= i < |binds| ==> binds[i].0 >= c1 && Bound(binds[i].1, {})
    ensures var all := if hoist then [(c, x)] + binds else binds;
            forall i :: 0 <= i < |all| ==> all[i].0 >= c && Bound(all[i].1, {})
  {
    hide Bound;
  }

  lemma TempBound(t: nat, ts: set<nat>)
    requires t in ts
    ensures Bound(CTemp(t), ts)
  {
  }

  lemma KeysMore(hoist: bool, c: nat, x: C, binds: seq<(nat, C)>)
    ensures Keys(binds) <= Keys(if hoist then [(c, x)] + binds else binds)
    ensures hoist ==> c in Keys([(c, x)] + binds)
  {
    if hoist {
      var all := [(c, x)] + binds;
      assert all[0].0 == c;
      forall k | k in Keys(binds) ensures k in Keys(all) {
        var i :| 0 <= i < |binds| && binds[i].0 == k;
        assert all[i + 1].0 == k;
      }
    }
  }

  // ----- the analysis is conservative -----

  lemma {:induction false} WrapMayAct(binds: seq<(nat, C)>, body: C)
    ensures MayAct(Wrap(binds, body)) <==> MayAct(body) || exists i :: 0 <= i < |binds| && MayAct(binds[i].1)
    decreases |binds|
  {
    if binds != [] {
      WrapMayAct(binds[1..], body);
      if MayAct(Wrap(binds, body)) && !MayAct(body) && !MayAct(binds[0].1) {
        var i :| 0 <= i < |binds[1..]| && MayAct(binds[1..][i].1);
        assert MayAct(binds[i + 1].1);
      }
      if i :| 0 <= i < |binds| && MayAct(binds[i].1) {
        if i > 0 {
          assert MayAct(binds[1..][i - 1].1);
        }
      }
    }
  }

  lemma NodeQuiet(op: nat, args: seq<C>)
    requires forall i :: 0 <= i < |args| ==> !MayAct(args[i])
    ensures !MayAct(CNode(KOp(op), args))
  {
  }

  predicate Quiet(h: Hoisted) {
    && (forall i :: 0 <= i < |h.binds| ==> !MayAct(h.binds[i].1))
    && (forall i :: 0 <= i < |h.ops| ==> !MayAct(h.ops[i]))
  }

  lemma QuietCons(hoist: bool, c: nat, x: C, h: Hoisted)
    requires !MayAct(x) && Quiet(h)
    ensures Quiet(Hoisted(if hoist then [(c, x)] + h.binds else h.binds,
                          [if hoist then CTemp(c) else x] + h.ops, h.next))
  {
  }

  lemma QuietWrapped(h: Hoisted, op: nat)
    requires Quiet(h)
    ensures !MayAct(Wrap(h.binds, CNode(KOp(op), h.ops)))
  {
    NodeQuiet(op, h.ops);
    WrapMayAct(h.binds, CNode(KOp(op), h.ops));
  }

  /** What the analysis calls free of effects performs no call. */
  lemma {:induction false} AnalysisSound(e: Expr, c: nat)
    requires !HasSideEffects(e)
    ensures !MayAct(Lower(e, c).0)
    decreases e, 2
  {
    match e
    case Op(op, cmp, args) => OpQuiet(op, cmp, args, c);
    case Logic(_, l, r) =>
      AnalysisSound(l, c);
      AnalysisSound(r, Lower(l, c).1);
    case Both(form, id, a, b) => BothQuiet(form, id, a, b, c);
    case _ =>
  }

  lemma {:induction false} BothQuiet(form: Form, id: nat, a: Expr, b: Expr, c: nat)
    requires !HasSideEffects(Both(form, id, a, b))
    ensures !MayAct(Lower(Both(form, id, a, b), c).0)
    decreases Both(form, id, a, b), 1
  {
    hide InTurn, MayAct;
    match WayOf(form, a, b)
    case InOrder =>
      AnalysisSound(a, c + 2);
      var (x, c1) := Lower(a, c + 2);
      AnalysisSound(b, c1);
      InTurnQuiet(id, c, x, Lower(b, c1).0, false);
    case Unordered =>
      AnalysisSound(a, c);
      var (x, c1) := Lower(a, c);
      AnalysisSound(b, c1);
      NodeQuiet(id, [x, Lower(b, c1).0]);
    case Backwards =>
  }

  lemma InTurnQuiet(id: nat, c: nat, x: C, y: C, swapped: bool)
    requires !MayAct(x) && !MayAct(y)
    ensures !MayAct(InTurn(KOp(id), c, x, y, swapped))
  {
    var node := CNode(KOp(id), if swapped then [CTemp(c + 1), CTemp(c)] else [CTemp(c), CTemp(c + 1)]);
    NodeQuiet(id, node.args);
    assert !MayAct(CLet(c + 1, y, node));
  }

  lemma {:induction false} OpQuiet(op: nat, cmp: bool, args: seq<Expr>, c: nat)
    requires !AnyEffects(args)
    ensures !MayAct(Lower(Op(op, cmp, args), c).0)
    decreases Op(op, cmp, args), 1
  {
    hide MayAct, LowerOperands, AnyEffects;
    var active := SeqNeeded(args) || IsSelfCompare(Op(op, cmp, args));
    OperandsQuiet(args, active, c);
    var h := LowerOperands(args, active, c);
    QuietWrapped(h, op);
  }

  lemma {:induction false} OperandsQuiet(es: seq<Expr>, active: bool, c: nat)
    requires !AnyEffects(es)
    ensures Quiet(LowerOperands(es, active, c))
    decreases es, 1
  {
    if es != [] {
      var hoist, x, c1, h1 := OperandsCons(es, active, c);
      AnalysisSound(es[0], if hoist then c + 1 else c);
      OperandsQuiet(es[1..], active, c1);
      QuietCons(hoist, c, x, h1);
    }
  }

  // ----- the lowering is well sequenced -----

  lemma {:induction false} WrapSequenced(binds: seq<(nat, C)>, body: C)
    requires WellSequenced(body) && forall i :: 0 <= i < |binds| ==> WellSequenced(binds[i].1)
    ensures WellSequenced(Wrap(binds, body))
    decreases |binds|
  {
    if binds != [] {
      WrapSequenced(binds[1..], body);
    }
  }

  lemma SequencedPair(k: Kind, x: C, y: C)
    requires WellSequenced(x) && WellSequenced(y)
    requires (MayAct(x) ==> Fixed(y)) && (MayAct(y) ==> Fixed(x))
    ensures WellSequenced(CNode(k, [x, y]))
  {
  }

  lemma SequencedCons(k: Kind, x: C, ops: seq<C>)
    requires Fixed(x) && OperandsOk(ops) && forall i :: 0 <= i < |ops| ==> WellSequenced(ops[i])
    ensures WellSequenced(CNode(k, [x] + ops))
  {
    var all := [x] + ops;
    forall i, j | 0 <= i < |all| && 0 <= j < |all| && i != j && MayAct(all[i]) ensures Fixed(all[j]) {
      assert i > 0 && MayAct(ops[i - 1]);
      if j > 0 {
        assert Fixed(ops[j - 1]);
      }
    }
  }

  lemma ConstantFixed(e: Expr, c: nat)
    requires IsConstant(e)
    ensures Fixed(Lower(e, c).0)
  {
  }

  lemma {:induction false} LowerSequenced(e: Expr, c: nat)
    requires OrderSafe(e)
    ensures WellSequenced(Lower(e, c).0)
    decreases e, 2
  {
    hide LowerOperands, MayAct, HasSideEffects, AnyEffects, SeqNeeded;
    match e
    case Call(f, args) =>
      SeqNeededCovers(args);
      OperandsSequenced(args, SeqNeeded(args), c);
      var h := LowerOperands(args, SeqNeeded(args), c);
      SequencedWrapped(h, KCall(f));
    case CallValue(g, args) =>
      LowerSequenced(g, c + 1);
      var c1 := Lower(g, c + 1).1;
      SeqNeededCovers(args);
      OperandsSequenced(args, SeqNeeded(args), c1);
      var h := LowerOperands(args, SeqNeeded(args), c1);
      SequencedWrapped(h, KCallValue);
      SequencedCons(KCallValue, CTemp(c), h.ops);
      WrapSequenced(h.binds, CNode(KCallValue, [CTemp(c)] + h.ops));
    case Op(op, _, args) =>
      var active := SeqNeeded(args) || IsSelfCompare(e);
      SeqNeededCovers(args);
      OperandsSequenced(args, active, c);
      var h := LowerOperands(args, active, c);
      SequencedWrapped(h, KOp(op));
    case Logic(_, l, r) =>
      LowerSequenced(l, c);
      LowerSequenced(r, Lower(l, c).1);
    case Cond(b, t, f) =>
      LowerSequenced(b, c);
      var c1 := Lower(b, c).1;
      LowerSequenced(t, c1);
      LowerSequenced(f, Lower(t, c1).1);
    case Both(form, id, a, b) => BothSequenced(form, id, a, b, c);
    case _ =>
  }

  lemma InTurnSequenced(k: Kind, c: nat, x: C, y: C, swapped: bool)
    requires WellSequenced(x) && WellSequenced(y)
    ensures WellSequenced(InTurn(k, c, x, y, swapped))
  {
    SequencedPair(k, CTemp(c), CTemp(c + 1));
    SequencedPair(k, CTemp(c + 1), CTemp(c));
    var node := CNode(k, if swapped then [CTemp(c + 1), CTemp(c)] else [CTemp(c), CTemp(c + 1)]);
    assert WellSequenced(CLet(c + 1, y, node));
  }

  lemma {:induction false} BothSequenced(form: Form, id: nat, a: Expr, b: Expr, c: nat)
    requires OrderSafe(Both(form, id, a, b))
    ensures WellSequenced(Lower(Both(form, id, a, b), c).0)
    decreases Both(form, id, a, b), 1
  {
    hide InTurn, WellSequenced, HasSideEffects;
    var k := KindOf(form, id);
    match WayOf(form, a, b)
    case InOrder =>
      LowerSequenced(a, c + 2);
      var (x, c1) := Lower(a, c + 2);
      LowerSequenced(b, c1);
      InTurnSequenced(k, c, x, Lower(b, c1).0, false);
    case Unordered =>
      LowerSequenced(a, c);
      var (x, c1) := Lower(a, c);
      LowerSequenced(b, c1);
      PartsApart(a, b, c);
      SequencedPair(k, x, Lower(b, c1).0);
    case Backwards =>
      LowerSequenced(b, c + 2);
      var (y, c1) := Lower(b, c + 2);
      LowerSequenced(a, c1);
      InTurnSequenced(k, c, y, Lower(a, c1).0, true);
  }

  /** Beside a part that may act stands a constant. */
  lemma PartsApart(a: Expr, b: Expr, c: nat)
    requires PairSafe(a, b)
    ensures var (x, c1) := Lower(a, c);
            var y := Lower(b, c1).0;
            (MayAct(x) ==> Fixed(y)) && (MayAct(y) ==> Fixed(x))
  {
    var c1 := Lower(a, c).1;
    if HasSideEffects(a) {
      ConstantFixed(b, c1);
    } else {
      AnalysisSound(a, c);
    }
    if HasSideEffects(b) {
      ConstantFixed(a, c);
    } else {
      AnalysisSound(b, c1);
    }
  }

  /** Only the last operand may act, and then all others are fixed. */
  predicate LastActs(ops: seq<C>) {
    forall i :: 0 <= i < |ops| - 1 ==> !MayAct(ops[i]) && (MayAct(ops[|ops| - 1]) ==> Fixed(ops[i]))
  }

  predicate Sequenced(h: Hoisted) {
    && LastActs(h.ops)
    && (forall i :: 0 <= i < |h.ops| ==> WellSequenced(h.ops[i]))
    && (forall i :: 0 <= i < |h.binds| ==> WellSequenced(h.binds[i].1))
  }

  lemma SequencedNone(c: nat)
    ensures Sequenced(Hoisted([], [], c))
  {
  }

  lemma SequencedHoist(hoist: bool, c: nat, x: C, h: Hoisted)
    requires WellSequenced(x) && Sequenced(h)
    requires |h.ops| > 0 ==> var x0 := if hoist then CTemp(c) else x;
               !MayAct(x0) && (MayAct(h.ops[|h.ops| - 1]) ==> Fixed(x0))
    ensures Sequenced(Hoisted(if hoist then [(c, x)] + h.binds else h.binds,
                              [if hoist then CTemp(c) else x] + h.ops, h.next))
  {
    var all := [if hoist then CTemp(c) else x] + h.ops;
    assert forall i :: 0 < i < |all| ==> all[i] == h.ops[i - 1];
  }

  lemma SequencedWrapped(h: Hoisted, k: Kind)
    requires Sequenced(h)
    ensures OperandsOk(h.ops) && forall i :: 0 <= i < |h.ops| ==> WellSequenced(h.ops[i])
    ensures WellSequenced(Wrap(h.binds, CNode(k, h.ops)))
  {
    WrapSequenced(h.binds, CNode(k, h.ops));
  }

  lemma {:induction false} OperandsSequenced(es: seq<Expr>, active: bool, c: nat)
    requires AllSafe(es) && ListSafe(es) && (active || !AnyEffects(es) || |es| <= 1)
    ensures var h := LowerOperands(es, active, c);
            Sequenced(h) && (|es| > 0 && MayAct(h.ops[|es| - 1]) ==> AnyEffects(es))
    decreases es, 1
  {
    hide LowerOperands, Lower, HasSideEffects, OrderSafe, SeqNeeded, MayAct, WellSequenced, Sequenced;
    if es != [] {
      var hoist, x, c1, h1 := OperandsCons(es, active, c);
      var c0 := if hoist then c + 1 else c;
      LowerSequenced(es[0], c0);
      OperandsSequenced(es[1..], active, c1);
      var h := LowerOperands(es, active, c);
      if !HasSideEffects(es[0]) {
        AnalysisSound(es[0], c0);
      }
      if IsAtom(es[0]) {
        AtomLowered(es[0], c0);
      }
      TempQuiet(c);
      SequencedHoist(hoist, c, x, h1);
    } else {
      EmptyHoist(active, c);
      SequencedNone(c);
    }
  }

  lemma TempQuiet(t: nat)
    ensures !MayAct(CTemp(t))
  {
  }

  lemma AtomLowered(e: Expr, c: nat)
    requires IsAtom(e)
    ensures !HasSideEffects(e)
    ensures if IsConstant(e) then Fixed(Lower(e, c).0) else Lower(e, c).0.CRead?
  {
  }

  // ----- and computes the left-to-right result -----

  /** Operands already emitted, in place, with the values they will have: at
      `tr` now and, while later operands still have effects, at any time. */
  ghost predicate Settled(w: World, pre: seq<C>, pv: seq<int>, tr: Trace, ahead: bool) {
    && |pre| == |pv|
    && (forall i :: 0 <= i < |pre| ==> Bound(pre[i], {}))
    && (forall i :: 0 <= i < |pre| ==> LeftToRight(w, pre[i], tr) == (pv[i], tr))
    && (ahead ==> forall i :: 0 <= i < |pre| ==> pre[i].CVal? || pre[i].CFn?)
  }

  lemma {:induction false} SettledRun(w: World, pre: seq<C>, pv: seq<int>, last: seq<C>, tr: Trace)
    requires Settled(w, pre, pv, tr, false)
    ensures LeftToRightAll(w, pre + last, tr) ==
            (var (vs, tr1) := LeftToRightAll(w, last, tr); (pv + vs, tr1))
    decreases |pre|
  {
    if pre == [] {
      assert pre + last == last && forall vs :: pv + vs == vs;
    } else {
      assert (pre + last)[1..] == pre[1..] + last;
      SettledRun(w, pre[1..], pv[1..], last, tr);
      var vs := LeftToRightAll(w, last, tr).0;
      assert [pv[0]] + (pv[1..] + vs) == pv + vs;
    }
  }

  lemma {:induction false} SubstWrap(binds: seq<(nat, C)>, body: C, t: nat, v: int)
    requires forall i :: 0 <= i < |binds| ==> binds[i].0 != t && Bound(binds[i].1, {})
    ensures Subst(Wrap(binds, body), t, v) == Wrap(binds, Subst(body, t, v))
    decreases |binds|
  {
    if binds != [] {
      SubstFresh(binds[0].1, t, v, {});
      SubstWrap(binds[1..], body, t, v);
    }
  }

  /** Initializing the temporary of one hoisted operand. */
  lemma SubstHoisted(pre: seq<C>, t: nat, v: int, h: Hoisted, k: Kind, c1: nat)
    requires Tidy(h, c1) && t < c1 && forall i :: 0 <= i < |pre| ==> Bound(pre[i], {})
    ensures Subst(Wrap(h.binds, CNode(k, pre + ([CTemp(t)] + h.ops))), t, v) ==
            Wrap(h.binds, CNode(k, (pre + [CVal(v)]) + h.ops))
  {
    hide Subst, SubstAll, Bound;
    var body := pre + ([CTemp(t)] + h.ops);
    KeysAhead(h, c1, t);
    SubstWrap(h.binds, CNode(k, body), t, v);
    forall i | 0 <= i < |pre| ensures Subst(pre[i], t, v) == pre[i] {
      SubstFresh(pre[i], t, v, {});
    }
    forall i | 0 <= i < |h.ops| ensures Subst(h.ops[i], t, v) == h.ops[i] {
      SubstFresh(h.ops[i], t, v, Keys(h.binds));
    }
    SubstOne(pre, h.ops, t, v, k);
  }

  lemma KeysAhead(h: Hoisted, c1: nat, t: nat)
    requires Tidy(h, c1) && t < c1
    ensures t !in Keys(h.binds) && forall i :: 0 <= i < |h.binds| ==> h.binds[i].0 != t && Bound(h.binds[i].1, {})
    ensures forall i :: 0 <= i < |h.ops| ==> Bound(h.ops[i], Keys(h.binds))
  {
    hide Bound;
  }

  lemma SubstOne(pre: seq<C>, ops: seq<C>, t: nat, v: int, k: Kind)
    requires forall i :: 0 <= i < |pre| ==> Subst(pre[i], t, v) == pre[i]
    requires forall i :: 0 <= i < |ops| ==> Subst(ops[i], t, v) == ops[i]
    ensures Subst(CNode(k, pre + ([CTemp(t)] + ops)), t, v) == CNode(k, (pre + [CVal(v)]) + ops)
  {
    hide SubstAll;
    var body, want := pre + ([CTemp(t)] + ops), (pre + [CVal(v)]) + ops;
    forall i | 0 <= i < |body| ensures Subst(body[i], t, v) == want[i] {
      if i > |pre| {
        assert body[i] == ops[i - |pre| - 1] == want[i];
      } else if i < |pre| {
        assert body[i] == pre[i] == want[i];
      }
    }
    assert SubstAll(body, t, v) == want;
  }

  lemma OneOperand(w: World, x: C, tr: Trace)
    ensures LeftToRightAll(w, [x], tr) == (var (v, tr1) := LeftToRight(w, x, tr); ([v], tr1))
  {
    var (v, tr1) := LeftToRight(w, x, tr);
    assert [x][1..] == [];
    assert LeftToRightAll(w, [], tr1) == ([], tr1);
    assert [v] + [] == [v];
  }

  lemma TwoOperands(w: World, x: C, y: C, tr: Trace)
    ensures LeftToRightAll(w, [x, y], tr) ==
            (var (v, tr1) := LeftToRight(w, x, tr);
             var (u, tr2) := LeftToRight(w, y, tr1);
             ([v, u], tr2))
  {
    var (v, tr1) := LeftToRight(w, x, tr);
    assert [x, y][1..] == [y];
    OneOperand(w, y, tr1);
    var u := LeftToRight(w, y, tr1).0;
    assert [v] + [u] == [v, u];
  }

  lemma NodeRun(w: World, k: Kind, args: seq<C>, tr: Trace)
    ensures LeftToRight(w, CNode(k, args), tr) ==
            (var (vs, tr1) := LeftToRightAll(w, args, tr); Apply(w, k, vs, tr1))
  {
  }

  lemma LetRun(w: World, t: nat, x: C, b: C, tr: Trace)
    ensures LeftToRight(w, CLet(t, x, b), tr) ==
            (var (v, tr1) := LeftToRight(w, x, tr); LeftToRight(w, Subst(b, t, v), tr1))
  {
  }

  lemma EvalCons(w: World, es: seq<Expr>, tr: Trace)
    requires es != []
    ensures SEvalAll(w, es, tr) ==
            (var (v, tr1) := SEval(w, es[0], tr);
             var (vs, tr2) := SEvalAll(w, es[1..], tr1);
             ([v] + vs, tr2))
  {
  }

  /** An operand that stays in place joins the settled ones. */
  lemma Settle(w: World, pre: seq<C>, pv: seq<int>, tr: Trace, x: C, v: int, tr1: Trace, was: bool, ahead: bool)
    requires Settled(w, pre, pv, tr, was) && Bound(x, {}) && (ahead ==> was) && (tr1 != tr ==> was)
    requires LeftToRight(w, x, tr1) == (v, tr1)
    requires ahead ==> x.CVal? || x.CFn?
    ensures Settled(w, pre + [x], pv + [v], tr1, ahead)
  {
    forall i | 0 <= i < |pre| + 1
      ensures Bound((pre + [x])[i], {}) && LeftToRight(w, (pre + [x])[i], tr1) == ((pv + [v])[i], tr1)
    {
      if i < |pre| && tr1 != tr {
        assert pre[i].CVal? || pre[i].CFn?;
        assert LeftToRight(w, pre[i], tr) == (pv[i], tr);
      }
    }
  }

  /** The operands `es` of a node, after the settled operands `pre`. */
  lemma {:induction false} OperandsMeaning(w: World, es: seq<Expr>, active: bool, c: nat, k: Kind, pre: seq<C>, pv: seq<int>, tr: Trace)
    requires AllSafe(es) && ListSafe(es) && (active || !AnyEffects(es) || |es| <= 1)
    requires Settled(w, pre, pv, tr, AnyEffects(es))
    ensures var h := LowerOperands(es, active, c);
            LeftToRight(w, Wrap(h.binds, CNode(k, pre + h.ops)), tr) ==
            (var (vs, tr1) := SEvalAll(w, es, tr); Apply(w, k, pv + vs, tr1))
    decreases es, 1
  {
    hide LeftToRight, LeftToRightAll, SEval, SEvalAll, LowerOperands, Lower, OrderSafe, Settled, Bound, HasSideEffects, MayAct, Apply, Subst;
    if es == [] {
      NoOperands(w, active, c, k, pre, pv, tr);
    } else {
      var hoist, x, c1, h1 := OperandsCons(es, active, c);
      var c0 := if hoist then c + 1 else c;
      LowerMeaning(w, es[0], c0, tr);
      LowerBound(es[0], c0);
      EvalCons(w, es, tr);
      var (v, tr1) := SEval(w, es[0], tr);
      var vs := SEvalAll(w, es[1..], tr1).0;
      assert (pv + [v]) + vs == pv + ([v] + vs);
      if IsAtom(es[0]) {
        AtomLowered(es[0], c0);
      }
      if !HasSideEffects(es[0]) {
        AnalysisSound(es[0], c0);
        QuietKeepsTrace(w, x, tr);
      }
      var ahead := AnyEffects(es[1..]);
      if hoist {
        OperandsTidy(es[1..], active, c1);
        SettledBound(w, pre, pv, tr, AnyEffects(es));
        SubstHoisted(pre, c, v, h1, k, c1);
        LetRun(w, c, x, Wrap(h1.binds, CNode(k, pre + ([CTemp(c)] + h1.ops))), tr);
        ValueRun(w, v, tr1);
        Settle(w, pre, pv, tr, CVal(v), v, tr1, AnyEffects(es), ahead);
        OperandsMeaning(w, es[1..], active, c1, k, pre + [CVal(v)], pv + [v], tr1);
      } else if |es| == 1 {
        LastOperand(w, es, active, c, k, pre, pv, tr);
      } else {
        assert pre + ([x] + h1.ops) == (pre + [x]) + h1.ops;
        if ahead {
          AtomShape(es[0], c);
        }
        Settle(w, pre, pv, tr, x, v, tr1, AnyEffects(es), ahead);
        OperandsMeaning(w, es[1..], active, c1, k, pre + [x], pv + [v], tr1);
      }
    }
  }

  lemma AtomShape(e: Expr, c: nat)
    requires IsConstant(e)
    ensures Lower(e, c).0.CVal? || Lower(e, c).0.CFn?
  {
  }

  lemma ValueRun(w: World, v: int, tr: Trace)
    ensures LeftToRight(w, CVal(v), tr) == (v, tr) && Bound(CVal(v), {})
  {
  }

  lemma SettledBound(w: World, pre: seq<C>, pv: seq<int>, tr: Trace, ahead: bool)
    requires Settled(w, pre, pv, tr, ahead)
    ensures forall i :: 0 <= i < |pre| ==> Bound(pre[i], {})
    ensures Settled(w, pre, pv, tr, false)
  {
  }

  lemma NoOperands(w: World, active: bool, c: nat, k: Kind, pre: seq<C>, pv: seq<int>, tr: Trace)
    requires Settled(w, pre, pv, tr, false)
    ensures var h := LowerOperands([], active, c);
            LeftToRight(w, Wrap(h.binds, CNode(k, pre + h.ops)), tr) ==
            (var (vs, tr1) := SEvalAll(w, [], tr); Apply(w, k, pv + vs, tr1))
  {
    SettledRun(w, pre, pv, [], tr);
  }

  lemma {:induction false} LastOperand(w: World, es: seq<Expr>, active: bool, c: nat, k: Kind, pre: seq<C>, pv: seq<int>, tr: Trace)
    requires |es| == 1 && AllSafe(es) && Settled(w, pre, pv, tr, AnyEffects(es))
    ensures var h := LowerOperands(es, active, c);
            LeftToRight(w, Wrap(h.binds, CNode(k, pre + h.ops)), tr) ==
            (var (vs, tr1) := SEvalAll(w, es, tr); Apply(w, k, pv + vs, tr1))
    decreases es, 0
  {
    hide LeftToRight, LeftToRightAll, SEval, LowerOperands, Lower, OrderSafe, Settled, Bound, HasSideEffects;
    var hoist, x, c1, h1 := OperandsCons(es, active, c);
    assert h1 == Hoisted([], [], c1) by {
      EmptyHoist(active, c1);
      assert es[1..] == [];
    }
    LowerMeaning(w, es[0], c, tr);
    var (v, tr1) := SEval(w, es[0], tr);
    assert pre + ([x] + []) == pre + [x];
    SettledBound(w, pre, pv, tr, AnyEffects(es));
    SettledRun(w, pre, pv, [x], tr);
    OneOperand(w, x, tr);
    NodeRun(w, k, pre + [x], tr);
    EvalCons(w, es, tr);
    assert SEvalAll(w, es[1..], tr1) == ([], tr1);
    assert [v] + [] == [v];
  }

  lemma EmptyHoist(active: bool, c: nat)
    ensures LowerOperands([], active, c) == Hoisted([], [], c)
  {
  }

  lemma EmptySettled(w: World, tr: Trace, ahead: bool)
    ensures Settled(w, [], [], tr, ahead)
  {
  }

  lemma ValueSettled(w: World, v: int, tr: Trace, ahead: bool)
    ensures Settled(w, [CVal(v)], [v], tr, ahead)
  {
  }

  lemma {:induction false} LowerMeaning(w: World, e: Expr, c: nat, tr: Trace)
    requires OrderSafe(e)
    ensures LeftToRight(w, Lower(e, c).0, tr) == SEval(w, e, tr)
    decreases e, 4
  {
    hide LeftToRightAll, SEvalAll, LowerOperands, Settled, HasSideEffects, MayAct, Subst, AnyEffects, ListSafe, AllSafe;
    match e
    case Call(f, args) => CallMeaning(w, f, args, c, tr);
    case CallValue(g, args) => CallValueMeaning(w, g, args, c, tr);
    case Op(op, cmp, args) => OpMeaning(w, op, cmp, args, c, tr);
    case Logic(_, l, r) =>
      LowerMeaning(w, l, c, tr);
      LowerMeaning(w, r, Lower(l, c).1, SEval(w, l, tr).1);
    case Cond(b, t, f) =>
      LowerMeaning(w, b, c, tr);
      var c1 := Lower(b, c).1;
      var tr1 := SEval(w, b, tr).1;
      LowerMeaning(w, t, c1, tr1);
      LowerMeaning(w, f, Lower(t, c1).1, tr1);
    case Both(form, id, a, b) => BothMeaning(w, form, id, a, b, c, tr);
    case _ =>
  }

  lemma {:induction false} CallMeaning(w: World, f: int, args: seq<Expr>, c: nat, tr: Trace)
    requires OrderSafe(Call(f, args))
    ensures LeftToRight(w, Lower(Call(f, args), c).0, tr) == SEval(w, Call(f, args), tr)
    decreases Call(f, args), 3
  {
    hide LeftToRight, LeftToRightAll, SEvalAll, LowerOperands, Settled, HasSideEffects, AnyEffects, ListSafe, AllSafe;
    SeqNeededCovers(args);
    EmptySettled(w, tr, AnyEffects(args));
    OperandsMeaning(w, args, SeqNeeded(args), c, KCall(f), [], [], tr);
    EmptyPrefix(LowerOperands(args, SeqNeeded(args), c).ops, SEvalAll(w, args, tr).0);
  }

  lemma SeqNeededCovers(es: seq<Expr>)
    ensures SeqNeeded(es) || !AnyEffects(es) || |es| <= 1
  {
  }

  lemma {:induction false} OpMeaning(w: World, op: nat, cmp: bool, args: seq<Expr>, c: nat, tr: Trace)
    requires OrderSafe(Op(op, cmp, args))
    ensures LeftToRight(w, Lower(Op(op, cmp, args), c).0, tr) == SEval(w, Op(op, cmp, args), tr)
    decreases Op(op, cmp, args), 3
  {
    hide LeftToRight, LeftToRightAll, SEvalAll, LowerOperands, Settled, HasSideEffects, AnyEffects, ListSafe, AllSafe, IsSelfCompare;
    var active := SeqNeeded(args) || IsSelfCompare(Op(op, cmp, args));
    SeqNeededCovers(args);
    EmptySettled(w, tr, AnyEffects(args));
    OperandsMeaning(w, args, active, c, KOp(op), [], [], tr);
    EmptyPrefix(LowerOperands(args, active, c).ops, SEvalAll(w, args, tr).0);
  }

  lemma {:induction false} CallValueMeaning(w: World, g: Expr, args: seq<Expr>, c: nat, tr: Trace)
    requires OrderSafe(CallValue(g, args))
    ensures LeftToRight(w, Lower(CallValue(g, args), c).0, tr) == SEval(w, CallValue(g, args), tr)
    decreases CallValue(g, args), 3
  {
    hide LeftToRight, LeftToRightAll, SEvalAll, LowerOperands, Settled, HasSideEffects, AnyEffects, ListSafe, AllSafe, Subst, Tidy;
    LowerMeaning(w, g, c + 1, tr);
    var (x, c1) := Lower(g, c + 1);
    var (f, tr1) := SEval(w, g, tr);
    var h := LowerOperands(args, SeqNeeded(args), c1);
    OperandsTidy(args, SeqNeeded(args), c1);
    SubstHoisted([], c, f, h, KCallValue, c1);
    EmptyPrefix([CTemp(c)] + h.ops, [f]);
    LetRun(w, c, x, Wrap(h.binds, CNode(KCallValue, [CTemp(c)] + h.ops)), tr);
    assert [] + [CVal(f)] == [CVal(f)];
    ValueSettled(w, f, tr1, AnyEffects(args));
    SeqNeededCovers(args);
    OperandsMeaning(w, args, SeqNeeded(args), c1, KCallValue, [CVal(f)], [f], tr1);
    var vs := SEvalAll(w, args, tr1).0;
    assert ([f] + vs)[1..] == vs;
  }

  lemma EmptyPrefix(ops: seq<C>, vs: seq<int>)
    ensures [] + ops == ops && [] + vs == vs
  {
  }

  /** Two parts: in order they are FC's; otherwise each is indifferent to the other. */
  lemma {:induction false} BothMeaning(w: World, form: Form, id: nat, a: Expr, b: Expr, c: nat, tr: Trace)
    requires OrderSafe(Both(form, id, a, b))
    ensures LeftToRight(w, Lower(Both(form, id, a, b), c).0, tr) == SEval(w, Both(form, id, a, b), tr)
    decreases Both(form, id, a, b), 3
  {
    hide LeftToRight, LeftToRightAll, InTurn, HasSideEffects, PairSafe;
    var k := KindOf(form, id);
    var (v, tr1) := SEval(w, a, tr);
    match WayOf(form, a, b)
    case InOrder =>
      LowerMeaning(w, a, c + 2, tr);
      var (x, c1) := Lower(a, c + 2);
      LowerMeaning(w, b, c1, tr1);
      LowerBound(b, c1);
      InTurnRun(w, k, c, x, Lower(b, c1).0, false, tr);
    case Unordered =>
      LowerMeaning(w, a, c, tr);
      var (x, c1) := Lower(a, c);
      LowerMeaning(w, b, c1, tr1);
      var y := Lower(b, c1).0;
      NodeRun(w, k, [x, y], tr);
      TwoOperands(w, x, y, tr);
    case Backwards =>
      LowerMeaning(w, b, c + 2, tr);
      var (y, c1) := Lower(b, c + 2);
      var trB := SEval(w, b, tr).1;
      LowerMeaning(w, a, c1, trB);
      LowerBound(a, c1);
      InTurnRun(w, k, c, y, Lower(a, c1).0, true, tr);
      LowerMeaning(w, a, c + 2, tr);
      Either(w, a, b, c, tr);
  }

  /** Parts that are indifferent to each other may change places. */
  lemma Either(w: World, a: Expr, b: Expr, c: nat, tr: Trace)
    requires PairSafe(a, b)
    requires LeftToRight(w, Lower(a, c + 2).0, tr) == SEval(w, a, tr) && LeftToRight(w, Lower(b, c + 2).0, tr) == SEval(w, b, tr)
    ensures var (x, tr1) := SEval(w, a, tr);
            var (y, tr2) := SEval(w, b, tr1);
            var (y', tr1') := SEval(w, b, tr);
            var (x', tr2') := SEval(w, a, tr1');
            x == x' && y == y' && tr2 == tr2'
  {
    hide LeftToRight, SEval, Lower, MayAct, HasSideEffects;
    if HasSideEffects(a) {
      ConstantEval(w, b);
    } else {
      AnalysisSound(a, c + 2);
      QuietKeepsTrace(w, Lower(a, c + 2).0, tr);
      if HasSideEffects(b) {
        ConstantEval(w, a);
      } else {
        AnalysisSound(b, c + 2);
        QuietKeepsTrace(w, Lower(b, c + 2).0, tr);
      }
    }
  }

  lemma ConstantEval(w: World, e: Expr)
    requires IsConstant(e)
    ensures forall tr: Trace, tr': Trace :: SEval(w, e, tr).0 == SEval(w, e, tr').0
    ensures forall tr: Trace :: SEval(w, e, tr).1 == tr
  {
  }

  lemma InTurnRun(w: World, k: Kind, c: nat, x: C, y: C, swapped: bool, tr: Trace)
    requires Bound(y, {})
    ensures LeftToRight(w, InTurn(k, c, x, y, swapped), tr) ==
            (var (u, tr1) := LeftToRight(w, x, tr);
             var (v, tr2) := LeftToRight(w, y, tr1);
             Apply(w, k, if swapped then [v, u] else [u, v], tr2))
  {
    hide LeftToRight, LeftToRightAll, Subst, SubstAll, Apply;
    var (u, tr1) := LeftToRight(w, x, tr);
    var (v, tr2) := LeftToRight(w, y, tr1);
    var node := CNode(k, if swapped then [CTemp(c + 1), CTemp(c)] else [CTemp(c), CTemp(c + 1)]);
    SubstFresh(y, c, u, {});
    InTurnSubst(k, c, y, u, v, swapped);
    LetRun(w, c, x, CLet(c + 1, y, node), tr);
    var mid := CNode(k, if swapped then [CTemp(c + 1), CVal(u)] else [CVal(u), CTemp(c + 1)]);
    LetRun(w, c + 1, y, mid, tr1);
    ValueRun(w, u, tr2);
    ValueRun(w, v, tr2);
    var (first, second) := if swapped then (v, u) else (u, v);
    NodeRun(w, k, [CVal(first), CVal(second)], tr2);
    TwoOperands(w, CVal(first), CVal(second), tr2);
  }

  /** The temporaries are read where they belong. */
  lemma InTurnSubst(k: Kind, c: nat, y: C, u: int, v: int, swapped: bool)
    requires Subst(y, c, u) == y
    ensures var mid := CNode(k, if swapped then [CTemp(c + 1), CVal(u)] else [CVal(u), CTemp(c + 1)]);
            && Subst(CLet(c + 1, y, CNode(k, if swapped then [CTemp(c + 1), CTemp(c)] else [CTemp(c), CTemp(c + 1)])), c, u) == CLet(c + 1, y, mid)
            && Subst(mid, c + 1, v) == CNode(k, if swapped then [CVal(v), CVal(u)] else [CVal(u), CVal(v)])
  {
    if swapped {
      assert SubstAll([CTemp(c + 1), CTemp(c)], c, u) == [CTemp(c + 1), CVal(u)];
      assert SubstAll([CTemp(c + 1), CVal(u)], c + 1, v) == [CVal(v), CVal(u)];
    } else {
      assert SubstAll([CTemp(c), CTemp(c + 1)], c, u) == [CVal(u), CTemp(c + 1)];
      assert SubstAll([CVal(u), CTemp(c + 1)], c + 1, v) == [CVal(u), CVal(v)];
    }
  }

  /** THE THEOREM. For every expression the condition admits, every world, every
      starting history and every schedule of the emitted C: a run that ends has
      FC's left-to-right value and history, a run that has not ended can go on,
      and none is longer than the expression's size. */
  lemma EveryOrderIsLeftToRight(w: World, e: Expr, c: nat, tr: Trace, sched: seq<seq<nat>>)
    requires OrderSafe(e)
    ensures var r := RunSchedule(w, Lower(e, c).0, tr, sched);
            r.Some? ==>
              && (r.value.0.CVal? ==> (r.value.0.v, r.value.1) == SEval(w, e, tr))
              && (!r.value.0.CVal? ==> exists path :: Step(w, r.value.0, r.value.1, path).Some?)
              && |sched| <= Size(Lower(e, c).0)
  {
    LowerMeaning(w, e, c, tr);
    LowerSequenced(e, c);
    LowerBound(e, c);
    if RunSchedule(w, Lower(e, c).0, tr, sched).Some? {
      ScheduleIrrelevant(w, Lower(e, c).0, tr, sched);
    }
  }
}
