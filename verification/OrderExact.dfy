/** How far the emitter's sequencing reaches: for expressions without branches, its
    condition is exactly what the left-to-right promise needs. */
module OrderExact {
  import opened OrderSource
  import opened OrderTarget
  import opened OrderLowering
  import opened OrderCorrect

  /** No run of the emitted C ends differently from FC's left-to-right order. */
  ghost predicate OrderIndependent(e: Expr, c: nat) {
    forall w: World, tr: Trace, sched: seq<seq<nat>>, v: int, tr1: Trace ::
      RunSchedule(w, Lower(e, c).0, tr, sched) == Some((CVal(v), tr1)) ==> (v, tr1) == SEval(w, e, tr)
  }

  lemma SafeIndependent(e: Expr, c: nat)
    requires OrderSafe(e)
    ensures OrderIndependent(e, c)
  {
    forall w: World, tr: Trace, sched: seq<seq<nat>>, v: int, tr1: Trace |
      RunSchedule(w, Lower(e, c).0, tr, sched) == Some((CVal(v), tr1))
      ensures (v, tr1) == SEval(w, e, tr)
    {
      EveryOrderIsLeftToRight(w, e, c, tr, sched);
    }
  }

  // ----- expressions without branches, in a world that shows all -----

  predicate Straight(e: Expr)
    decreases e, 1
  {
    match e
    case Lit(_) => true
    case Var(_) => true
    case FnIdent(_, _) => true
    case Call(_, args) => AllStraight(args)
    case CallValue(g, args) => Straight(g) && AllStraight(args)
    case Op(_, _, args) => AllStraight(args)
    case Logic(_, _, _) => false
    case Cond(_, _, _) => false
    case Both(_, _, a, b) => Straight(a) && Straight(b)
  }

  predicate AllStraight(es: seq<Expr>)
    decreases es, 0
  {
    es == [] || (Straight(es[0]) && AllStraight(es[1..]))
  }

  function Triangle(n: nat): nat {
    if n == 0 then 0 else Triangle(n - 1) + n
  }

  /** Cantor's pairing. */
  function Pair(a: nat, b: nat): nat {
    Triangle(a + b) + b
  }

  lemma {:induction false} TriangleGrows(m: nat, n: nat)
    requires m < n
    ensures Triangle(m) + m < Triangle(n)
  {
    if m < n - 1 {
      TriangleGrows(m, n - 1);
    }
  }

  lemma PairInjective(a: nat, b: nat, a': nat, b': nat)
    requires Pair(a, b) == Pair(a', b')
    ensures a == a' && b == b'
  {
    if a + b < a' + b' {
      TriangleGrows(a + b, a' + b');
    } else if a' + b' < a + b {
      TriangleGrows(a' + b', a + b);
    }
  }

  function Fold(v: int): nat {
    if v >= 0 then 2 * v else -2 * v - 1
  }

  function Code(vs: seq<int>): nat {
    if vs == [] then 0 else 1 + Pair(Fold(vs[0]), Code(vs[1..]))
  }

  lemma {:induction false} CodeInjective(vs: seq<int>, us: seq<int>)
    requires Code(vs) == Code(us)
    ensures vs == us
  {
    hide Pair;
    if vs != [] && us != [] {
      PairInjective(Fold(vs[0]), Code(vs[1..]), Fold(us[0]), Code(us[1..]));
      CodeInjective(vs[1..], us[1..]);
      assert vs == [vs[0]] + vs[1..] && us == [us[0]] + us[1..];
    }
  }

  /** A world that shows all: calls and reads return how many events came before, and
      an operation's result tells that and its operands. */
  function Telling(): World {
    World((tr: Trace, f: int, vs: seq<int>) => |tr|,
          (tr: Trace, x: nat) => |tr|,
          (tr: Trace, o: nat, vs: seq<int>) => Pair(|tr|, Code(vs)),
          (n: nat) => 0)
  }

  /** How many events a branch-free expression leaves. */
  function Calls(e: Expr): nat
    decreases e, 1
  {
    match e
    case Call(_, args) => 1 + AllCalls(args)
    case CallValue(g, args) => 1 + Calls(g) + AllCalls(args)
    case Op(_, _, args) => AllCalls(args)
    case Both(form, _, a, b) => Calls(a) + Calls(b) + if IsEffect(form) then 1 else 0
    case _ => 0
  }

  function AllCalls(es: seq<Expr>): nat
    decreases es, 0
  {
    if es == [] then 0 else Calls(es[0]) + AllCalls(es[1..])
  }

  lemma {:induction false} CallsAreEffects(e: Expr)
    requires Straight(e)
    ensures HasSideEffects(e) <==> Calls(e) > 0
    decreases e, 1
  {
    match e
    case Call(_, args) => AllCallsAreEffects(args);
    case CallValue(g, args) => AllCallsAreEffects(args);
    case Op(_, _, args) => AllCallsAreEffects(args);
    case Both(_, _, a, b) =>
      CallsAreEffects(a);
      CallsAreEffects(b);
    case _ =>
  }

  lemma {:induction false} AllCallsAreEffects(es: seq<Expr>)
    requires AllStraight(es)
    ensures AnyEffects(es) <==> AllCalls(es) > 0
    decreases es, 0
  {
    if es != [] {
      CallsAreEffects(es[0]);
      AllCallsAreEffects(es[1..]);
    }
  }

  lemma {:induction false} TraceGrows(w: World, e: Expr, tr: Trace)
    requires Straight(e)
    ensures var tr1 := SEval(w, e, tr).1; tr <= tr1 && |tr1| == |tr| + Calls(e)
    decreases e, 1
  {
    match e
    case Call(_, args) => TraceGrowsAll(w, args, tr);
    case CallValue(g, args) =>
      TraceGrows(w, g, tr);
      TraceGrowsAll(w, args, SEval(w, g, tr).1);
    case Op(_, _, args) => TraceGrowsAll(w, args, tr);
    case Both(_, _, a, b) =>
      TraceGrows(w, a, tr);
      TraceGrows(w, b, SEval(w, a, tr).1);
    case _ =>
  }

  lemma {:induction false} TraceGrowsAll(w: World, es: seq<Expr>, tr: Trace)
    requires AllStraight(es)
    ensures var tr1 := SEvalAll(w, es, tr).1; tr <= tr1 && |tr1| == |tr| + AllCalls(es)
    decreases es, 0
  {
    if es != [] {
      TraceGrows(w, es[0], tr);
      TraceGrowsAll(w, es[1..], SEval(w, es[0], tr).1);
    }
  }

  // ----- every value but a constant's tells when it was made -----

  /** How it tells: a read's value is the number of events before it, a call's that of
      the events before its own, and an operation's has it in its code. */
  datatype Mark = NoMark | AsRead | AsCall | AsOp

  ghost predicate Stamped(k: Mark, v: int, n: nat) {
    match k
    case NoMark => true
    case AsRead => v == n
    case AsCall => v == n - 1
    case AsOp => exists m: nat :: v == Pair(n, m)
  }

  lemma StampsDiffer(k: Mark, v: int, n: nat, v': int, n': nat)
    requires k != NoMark && n != n' && Stamped(k, v, n) && Stamped(k, v', n')
    ensures v != v'
  {
    hide Pair;
    if k == AsOp {
      var m: nat :| v == Pair(n, m);
      var m': nat :| v' == Pair(n', m');
      if v == v' {
        PairInjective(n, m, n', m');
      }
    }
  }

  function MarkOf(e: Expr): Mark {
    match e
    case Var(_) => AsRead
    case FnIdent(_, isVar) => if isVar then AsRead else NoMark
    case Call(_, _) => AsCall
    case CallValue(_, _) => AsCall
    case Op(_, _, _) => AsOp
    case Both(form, _, _, _) => if IsEffect(form) then AsCall else AsOp
    case _ => NoMark
  }

  lemma SourceStamped(e: Expr, tr: Trace)
    requires Straight(e)
    ensures var (v, tr1) := SEval(Telling(), e, tr); Stamped(MarkOf(e), v, |tr1|)
    ensures MarkOf(e) == NoMark <==> IsConstant(e)
  {
    hide Pair, Code, SEvalAll;
    var w := Telling();
    match e
    case Op(op, _, args) =>
      var (vs, tr1) := SEvalAll(w, args, tr);
      assert SEval(w, e, tr).0 == Pair(|tr1|, Code(vs));
    case Both(form, id, a, b) =>
      var (x, tr1) := SEval(w, a, tr);
      var (y, tr2) := SEval(w, b, tr1);
      assert SEval(w, e, tr) == Perform(w, form, id, [x, y], tr2);
      assert !IsEffect(form) ==> SEval(w, e, tr).0 == Pair(|tr2|, Code([x, y]));
    case _ =>
  }

  /** An operation's result tells when it ran, and on what. */
  lemma OpsDiffer(a: (seq<int>, Trace), b: (seq<int>, Trace))
    requires |a.1| != |b.1| || a.0 != b.0
    ensures Pair(|a.1|, Code(a.0)) != Pair(|b.1|, Code(b.0))
  {
    hide Pair, Code;
    if Pair(|a.1|, Code(a.0)) == Pair(|b.1|, Code(b.0)) {
      PairInjective(|a.1|, Code(a.0), |b.1|, Code(b.0));
      CodeInjective(a.0, b.0);
    }
  }

  // ----- building schedules -----

  function Under(i: nat, sched: seq<seq<nat>>): (r: seq<seq<nat>>)
    ensures |r| == |sched|
  {
    if sched == [] then [] else [[i] + sched[0]] + Under(i, sched[1..])
  }

  lemma {:induction false} ThenRun(w: World, e: C, tr: Trace, s1: seq<seq<nat>>, s2: seq<seq<nat>>)
    requires RunSchedule(w, e, tr, s1).Some?
    ensures var (e1, tr1) := RunSchedule(w, e, tr, s1).value;
            RunSchedule(w, e, tr, s1 + s2) == RunSchedule(w, e1, tr1, s2)
    decreases |s1|
  {
    if s1 == [] {
      assert s1 + s2 == s2;
    } else {
      assert (s1 + s2)[1..] == s1[1..] + s2;
      var (e1, tr1) := Step(w, e, tr, s1[0]).value;
      ThenRun(w, e1, tr1, s1[1..], s2);
    }
  }

  lemma {:induction false} ArgRun(w: World, k: Kind, args: seq<C>, i: nat, tr: Trace, sched: seq<seq<nat>>)
    requires i < |args| && RunSchedule(w, args[i], tr, sched).Some?
    ensures var (a, tr1) := RunSchedule(w, args[i], tr, sched).value;
            RunSchedule(w, CNode(k, args), tr, Under(i, sched)) == Some((CNode(k, args[i := a]), tr1))
    decreases |sched|
  {
    if sched == [] {
      assert args[i := args[i]] == args;
    } else {
      var (a, tr1) := Step(w, args[i], tr, sched[0]).value;
      var path := [i] + sched[0];
      assert path[1..] == sched[0];
      assert Under(i, sched)[1..] == Under(i, sched[1..]);
      assert Step(w, CNode(k, args), tr, path) == Some((CNode(k, args[i := a]), tr1));
      ArgRun(w, k, args[i := a], i, tr1, sched[1..]);
      var (b, tr2) := RunSchedule(w, a, tr1, sched[1..]).value;
      assert args[i := a][i := b] == args[i := b];
    }
  }

  lemma {:induction false} InitRun(w: World, t: nat, x: C, b: C, tr: Trace, sched: seq<seq<nat>>)
    requires RunSchedule(w, x, tr, sched).Some?
    ensures var (x1, tr1) := RunSchedule(w, x, tr, sched).value;
            RunSchedule(w, CLet(t, x, b), tr, Under(0, sched)) == Some((CLet(t, x1, b), tr1))
    decreases |sched|
  {
    if sched != [] {
      var (x1, tr1) := Step(w, x, tr, sched[0]).value;
      var path := [0] + sched[0];
      assert path[1..] == sched[0];
      assert Under(0, sched)[1..] == Under(0, sched[1..]);
      assert Step(w, CLet(t, x, b), tr, path) == Some((CLet(t, x1, b), tr1));
      InitRun(w, t, x1, b, tr1, sched[1..]);
    }
  }

  lemma OneStep(w: World, e: C, tr: Trace, path: seq<nat>)
    ensures RunSchedule(w, e, tr, [path]) == Step(w, e, tr, path)
  {
    assert [path][1..] == [];
  }

  // ----- every run of emitted code without branches -----

  predicate Flat(e: C)
    decreases e
  {
    match e
    case CNode(k, args) => (k.KCallValue? ==> args != []) && forall i :: 0 <= i < |args| ==> Flat(args[i])
    case CLogic(_, _, _) => false
    case CCond(_, _, _) => false
    case CLet(_, x, b) => Flat(x) && Flat(b)
    case _ => true
  }

  /** The calls still to come. */
  function Acts(e: C): nat
    decreases e, 1
  {
    match e
    case CNode(k, args) => ActsAll(args) + if IsCall(k) then 1 else 0
    case CLet(_, x, b) => Acts(x) + Acts(b)
    case _ => 0
  }

  function ActsAll(es: seq<C>): nat
    decreases es, 0
  {
    if es == [] then 0 else Acts(es[0]) + ActsAll(es[1..])
  }

  lemma {:induction false} ActsJoin(a: seq<C>, b: seq<C>)
    ensures ActsAll(a + b) == ActsAll(a) + ActsAll(b)
  {
    hide Acts;
    if a == [] {
      assert a + b == b;
    } else {
      assert (a + b)[1..] == a[1..] + b;
      ActsJoin(a[1..], b);
    }
  }

  lemma {:induction false} ActsUpdate(es: seq<C>, i: nat, a: C)
    requires i < |es|
    ensures ActsAll(es[i := a]) + Acts(es[i]) == ActsAll(es) + Acts(a)
  {
    hide Acts;
    if i == 0 {
      assert es[i := a][1..] == es[1..];
    } else {
      assert es[i := a][1..] == es[1..][i - 1 := a];
      ActsUpdate(es[1..], i - 1, a);
    }
  }

  lemma {:induction false} ValuesAct(es: seq<C>)
    requires AllValues(es)
    ensures ActsAll(es) == 0
  {
    if es != [] {
      ValuesAct(es[1..]);
    }
  }

  lemma {:induction false} SubstFlat(e: C, t: nat, v: int)
    requires Flat(e)
    ensures Flat(Subst(e, t, v)) && Acts(Subst(e, t, v)) == Acts(e)
    decreases e, 1
  {
    match e
    case CNode(k, args) => SubstFlatAll(args, t, v);
    case CLet(u, x, b) =>
      SubstFlat(x, t, v);
      SubstFlat(b, t, v);
    case _ =>
  }

  lemma {:induction false} SubstFlatAll(es: seq<C>, t: nat, v: int)
    requires forall i :: 0 <= i < |es| ==> Flat(es[i])
    ensures ActsAll(SubstAll(es, t, v)) == ActsAll(es)
    ensures forall i :: 0 <= i < |es| ==> Flat(SubstAll(es, t, v)[i])
    decreases es, 0
  {
    if es != [] {
      SubstFlat(es[0], t, v);
      SubstFlatAll(es[1..], t, v);
      assert SubstAll(es, t, v)[1..] == SubstAll(es[1..], t, v);
      forall i | 0 <= i < |es| ensures Flat(SubstAll(es, t, v)[i]) {
        if i > 0 {
          assert SubstAll(es, t, v)[i] == SubstAll(es[1..], t, v)[i - 1];
        }
      }
    }
  }

  /** What a step leaves: less to do, no free temporary, the history extended, and as
      many calls made or still to come as before. */
  ghost predicate StepFits(e: C, tr: Trace, e1: C, tr1: Trace) {
    Flat(e1) && Bound(e1, {}) && Size(e1) < Size(e) && tr <= tr1 && |tr1| + Acts(e1) == |tr| + Acts(e)
  }

  lemma {:induction false} StepCounts(w: World, e: C, tr: Trace, path: seq<nat>)
    requires Flat(e) && Bound(e, {}) && Step(w, e, tr, path).Some?
    ensures var (e1, tr1) := Step(w, e, tr, path).value; StepFits(e, tr, e1, tr1)
    decreases e
  {
    match e
    case CRead(_) =>
    case CFn(_) =>
    case CNode(k, args) =>
      if path == [] {
        ValuesAct(args);
      } else {
        var i := path[0];
        NodeStep(w, k, args, tr, path);
        StepCounts(w, args[i], tr, path[1..]);
        var (a, tr1) := Step(w, args[i], tr, path[1..]).value;
        NodeFits(k, args, i, a, tr, tr1);
      }
    case CLet(t, x, b) =>
      if path == [] {
        SubstFlat(b, t, x.v);
        SubstBound(b, t, x.v, {});
      } else {
        StepCounts(w, x, tr, path[1..]);
      }
  }

  lemma NodeFits(k: Kind, args: seq<C>, i: nat, a: C, tr: Trace, tr1: Trace)
    requires Flat(CNode(k, args)) && Bound(CNode(k, args), {}) && i < |args| && StepFits(args[i], tr, a, tr1)
    ensures StepFits(CNode(k, args), tr, CNode(k, args[i := a]), tr1)
  {
    SizeUpdate(args, i, a);
    ActsUpdate(args, i, a);
  }

  /** Where a finished run ends. */
  ghost predicate Ends(w: World, e: C, tr: Trace, sched: seq<seq<nat>>, v: int, tr1: Trace) {
    RunSchedule(w, e, tr, sched) == Some((CVal(v), tr1))
  }

  lemma {:induction false} EndsFit(w: World, e: C, tr: Trace, sched: seq<seq<nat>>, v: int, tr1: Trace)
    requires Flat(e) && Bound(e, {}) && Ends(w, e, tr, sched, v, tr1)
    ensures tr <= tr1 && |tr1| == |tr| + Acts(e)
    decreases |sched|
  {
    hide Flat, Bound, Step;
    if sched != [] {
      StepCounts(w, e, tr, sched[0]);
      var (e1, tr2) := Step(w, e, tr, sched[0]).value;
      EndsFit(w, e1, tr2, sched[1..], v, tr1);
    }
  }

  /** There always is one. */
  lemma {:induction false} RunsOut(w: World, e: C, tr: Trace) returns (sched: seq<seq<nat>>, v: int, tr1: Trace)
    requires Flat(e) && Bound(e, {})
    ensures Ends(w, e, tr, sched, v, tr1)
    decreases Size(e)
  {
    hide Flat, Bound, Step;
    if e.CVal? {
      sched, v, tr1 := [], e.v, tr;
    } else {
      var path := CanStep(w, e, tr);
      StepCounts(w, e, tr, path);
      var (e1, tr2) := Step(w, e, tr, path).value;
      var rest;
      rest, v, tr1 := RunsOut(w, e1, tr2);
      sched := [path] + rest;
      assert sched[1..] == rest;
    }
  }

  // ----- the lowering makes the source's calls -----

  lemma {:induction false} LowerFlat(e: Expr, c: nat)
    requires Straight(e)
    ensures Flat(Lower(e, c).0) && Acts(Lower(e, c).0) == Calls(e)
    decreases e, 2
  {
    hide LowerOperands, HasSideEffects, SeqNeeded, IsSelfCompare;
    match e
    case Call(f, args) =>
      OperandsFlat(args, SeqNeeded(args), c, KCall(f), []);
      assert [] + LowerOperands(args, SeqNeeded(args), c).ops == LowerOperands(args, SeqNeeded(args), c).ops;
    case CallValue(g, args) =>
      CallValueFlat(g, args, c);
    case Op(op, _, args) =>
      var active := SeqNeeded(args) || IsSelfCompare(e);
      OperandsFlat(args, active, c, KOp(op), []);
      assert [] + LowerOperands(args, active, c).ops == LowerOperands(args, active, c).ops;
    case Both(form, id, a, b) => BothFlat(form, id, a, b, c);
    case _ =>
  }

  lemma {:induction false} BothFlat(form: Form, id: nat, a: Expr, b: Expr, c: nat)
    requires Straight(Both(form, id, a, b))
    ensures var x := Lower(Both(form, id, a, b), c).0; Flat(x) && Acts(x) == Calls(Both(form, id, a, b))
    decreases Both(form, id, a, b), 1
  {
    hide InTurn, HasSideEffects, Acts, Flat;
    var k := KindOf(form, id);
    match WayOf(form, a, b)
    case InOrder =>
      LowerFlat(a, c + 2);
      var (x, c1) := Lower(a, c + 2);
      LowerFlat(b, c1);
      InTurnFlat(k, c, x, Lower(b, c1).0, false);
    case Unordered =>
      LowerFlat(a, c);
      var (x, c1) := Lower(a, c);
      LowerFlat(b, c1);
      TwoFlat(k, x, Lower(b, c1).0);
    case Backwards =>
      LowerFlat(b, c + 2);
      var (y, c1) := Lower(b, c + 2);
      LowerFlat(a, c1);
      InTurnFlat(k, c, y, Lower(a, c1).0, true);
  }

  lemma InTurnFlat(k: Kind, c: nat, x: C, y: C, swapped: bool)
    requires Flat(x) && Flat(y) && !k.KCallValue?
    ensures var e := InTurn(k, c, x, y, swapped); Flat(e) && Acts(e) == Acts(x) + Acts(y) + if IsCall(k) then 1 else 0
  {
    hide Acts;
    var node := CNode(k, if swapped then [CTemp(c + 1), CTemp(c)] else [CTemp(c), CTemp(c + 1)]);
    TwoFlat(k, CTemp(c), CTemp(c + 1));
    TwoFlat(k, CTemp(c + 1), CTemp(c));
    ActsLet(c, x, CLet(c + 1, y, node));
    ActsLet(c + 1, y, node);
  }

  lemma {:induction false} CallValueFlat(g: Expr, args: seq<Expr>, c: nat)
    requires Straight(CallValue(g, args))
    ensures var x := Lower(CallValue(g, args), c).0; Flat(x) && Acts(x) == Calls(CallValue(g, args))
    decreases CallValue(g, args), 1
  {
    hide LowerOperands, HasSideEffects, SeqNeeded, Acts;
    LowerFlat(g, c + 1);
    var (x, c1) := Lower(g, c + 1);
    ActsNode(KCallValue, [CTemp(c)]);
    OneAct(CTemp(c));
    OperandsFlat(args, SeqNeeded(args), c1, KCallValue, [CTemp(c)]);
    var h := LowerOperands(args, SeqNeeded(args), c1);
    ActsLet(c, x, Wrap(h.binds, CNode(KCallValue, [CTemp(c)] + h.ops)));
  }

  lemma TwoFlat(k: Kind, x: C, y: C)
    requires Flat(x) && Flat(y) && !k.KCallValue?
    ensures Flat(CNode(k, [x, y])) && Acts(CNode(k, [x, y])) == Acts(x) + Acts(y) + if IsCall(k) then 1 else 0
  {
    hide Acts;
    ActsNode(k, [x, y]);
    OneAct(y);
    assert [x, y][1..] == [y];
  }

  lemma OneAct(x: C)
    ensures ActsAll([x]) == Acts(x)
  {
    hide Acts;
    assert [x][1..] == [] && ActsAll([]) == 0;
  }

  lemma ActsNode(k: Kind, args: seq<C>)
    ensures Acts(CNode(k, args)) == ActsAll(args) + if IsCall(k) then 1 else 0
  {
  }

  lemma {:induction false} OperandsFlat(es: seq<Expr>, active: bool, c: nat, k: Kind, pre: seq<C>)
    requires AllStraight(es) && Flat(CNode(k, pre))
    ensures var h := LowerOperands(es, active, c);
            var e := Wrap(h.binds, CNode(k, pre + h.ops));
            Flat(e) && Acts(e) == AllCalls(es) + Acts(CNode(k, pre))
    decreases es, 1
  {
    hide LowerOperands, Lower, Straight, Acts;
    if es == [] {
      EmptyHoist(active, c);
      assert pre + [] == pre;
      NoWrap(CNode(k, pre));
    } else {
      var hoist, x, c1, h1 := OperandsCons(es, active, c);
      var x0 := if hoist then CTemp(c) else x;
      FirstStraight(es);
      LowerFlat(es[0], if hoist then c + 1 else c);
      ActsMore(k, pre, x0);
      OperandsFlat(es[1..], active, c1, k, pre + [x0]);
      assert pre + ([x0] + h1.ops) == (pre + [x0]) + h1.ops;
      if hoist {
        WrapCons(c, x, h1.binds, CNode(k, pre + ([x0] + h1.ops)));
        ActsLet(c, x, Wrap(h1.binds, CNode(k, pre + ([x0] + h1.ops))));
      }
    }
  }

  lemma ActsMore(k: Kind, pre: seq<C>, x: C)
    requires Flat(CNode(k, pre)) && Flat(x)
    ensures Flat(CNode(k, pre + [x])) && Acts(CNode(k, pre + [x])) == Acts(CNode(k, pre)) + Acts(x)
  {
    hide Acts;
    ActsJoin(pre, [x]);
    ActsNode(k, pre);
    ActsNode(k, pre + [x]);
    OneAct(x);
  }

  lemma ActsLet(t: nat, x: C, b: C)
    ensures Acts(CLet(t, x, b)) == Acts(x) + Acts(b) && (Acts(CTemp(t)) == 0)
  {
  }

  lemma WrapCons(c: nat, x: C, binds: seq<(nat, C)>, body: C)
    ensures Wrap([(c, x)] + binds, body) == CLet(c, x, Wrap(binds, body))
  {
    assert ([(c, x)] + binds)[1..] == binds;
  }

  lemma NoWrap(body: C)
    ensures Wrap([], body) == body
  {
  }

  lemma FirstStraight(es: seq<Expr>)
    requires es != [] && AllStraight(es)
    ensures Straight(es[0]) && AllStraight(es[1..])
  {
  }

  /** A finished run of an emitted expression. */
  lemma Emitted(w: World, e: Expr, c: nat, tr: Trace) returns (sched: seq<seq<nat>>, v: int, tr1: Trace)
    requires Straight(e)
    ensures Ends(w, Lower(e, c).0, tr, sched, v, tr1) && tr <= tr1 && |tr1| == |tr| + Calls(e)
  {
    hide Straight, Lower, Flat, Bound, Acts, Ends;
    LowerFlat(e, c);
    LowerBound(e, c);
    sched, v, tr1 := RunsOut(w, Lower(e, c).0, tr);
    EndsFit(w, Lower(e, c).0, tr, sched, v, tr1);
  }

  // ----- what a finished run leaves is stamped too -----

  function CMark(e: C): Mark {
    match e
    case CRead(_) => AsRead
    case CNode(k, _) => if IsCall(k) then AsCall else AsOp
    case CLet(_, _, b) => CMark(b)
    case _ => NoMark
  }

  lemma {:induction false} SubstMark(e: C, t: nat, v: int)
    ensures CMark(Subst(e, t, v)) == CMark(e)
    decreases e
  {
    match e
    case CLet(_, _, b) => SubstMark(b, t, v);
    case _ =>
  }

  lemma WrapMark(binds: seq<(nat, C)>, body: C)
    ensures CMark(Wrap(binds, body)) == CMark(body)
  {
    if binds != [] {
      WrapMark(binds[1..], body);
    }
  }

  lemma {:induction false} StepMark(e: C, tr: Trace, path: seq<nat>)
    requires Flat(e) && CMark(e) != NoMark && Step(Telling(), e, tr, path).Some?
    ensures var (e1, tr1) := Step(Telling(), e, tr, path).value;
            if e1.CVal? then Stamped(CMark(e), e1.v, |tr1|) else CMark(e1) == CMark(e)
    decreases e
  {
    hide Pair, Code;
    match e
    case CRead(_) =>
    case CNode(k, args) =>
      if path == [] {
        assert k.KOp? ==> Apply(Telling(), k, Values(args), tr).0 == Pair(|tr|, Code(Values(args)));
      }
    case CLet(t, x, b) =>
      if path == [] {
        SubstMark(b, t, x.v);
        assert !Subst(b, t, x.v).CVal?;
      }
  }

  lemma {:induction false} EndStamped(e: C, tr: Trace, sched: seq<seq<nat>>, v: int, tr1: Trace)
    requires Flat(e) && Bound(e, {}) && CMark(e) != NoMark && Ends(Telling(), e, tr, sched, v, tr1)
    ensures Stamped(CMark(e), v, |tr1|)
    decreases |sched|
  {
    hide Flat, Bound, Step, Stamped, Telling;
    assert sched != [];
    StepCounts(Telling(), e, tr, sched[0]);
    StepMark(e, tr, sched[0]);
    var (e1, tr2) := Step(Telling(), e, tr, sched[0]).value;
    if e1.CVal? {
      ValueStays(Telling(), e1, tr2, sched[1..]);
    } else {
      EndStamped(e1, tr2, sched[1..], v, tr1);
    }
  }

  lemma ValueStays(w: World, e: C, tr: Trace, sched: seq<seq<nat>>)
    requires e.CVal? && RunSchedule(w, e, tr, sched).Some?
    ensures RunSchedule(w, e, tr, sched) == Some((e, tr))
  {
  }

  lemma LowerMark(e: Expr, c: nat)
    requires Straight(e)
    ensures CMark(Lower(e, c).0) == MarkOf(e)
  {
    hide LowerOperands, HasSideEffects, SeqNeeded, IsSelfCompare;
    match e
    case Call(f, args) =>
      var h := LowerOperands(args, SeqNeeded(args), c);
      WrapMark(h.binds, CNode(KCall(f), h.ops));
    case CallValue(g, args) =>
      var h := LowerOperands(args, SeqNeeded(args), Lower(g, c + 1).1);
      WrapMark(h.binds, CNode(KCallValue, [CTemp(c)] + h.ops));
    case Op(op, _, args) =>
      var h := LowerOperands(args, SeqNeeded(args) || IsSelfCompare(e), c);
      WrapMark(h.binds, CNode(KOp(op), h.ops));
    case Both(form, id, a, b) => BothMark(form, id, a, b, c);
    case _ =>
  }

  lemma BothMark(form: Form, id: nat, a: Expr, b: Expr, c: nat)
    ensures CMark(Lower(Both(form, id, a, b), c).0) == if IsEffect(form) then AsCall else AsOp
  {
    hide HasSideEffects, InTurn;
    var k := KindOf(form, id);
    match WayOf(form, a, b)
    case InOrder =>
      var (x, c1) := Lower(a, c + 2);
      InTurnMark(k, c, x, Lower(b, c1).0, false);
    case Unordered =>
    case Backwards =>
      var (y, c1) := Lower(b, c + 2);
      InTurnMark(k, c, y, Lower(a, c1).0, true);
  }

  lemma InTurnMark(k: Kind, c: nat, x: C, y: C, swapped: bool)
    ensures CMark(InTurn(k, c, x, y, swapped)) == if IsCall(k) then AsCall else AsOp
  {
    var node := CNode(k, if swapped then [CTemp(c + 1), CTemp(c)] else [CTemp(c), CTemp(c + 1)]);
    assert CMark(CLet(c + 1, y, node)) == CMark(node);
  }

  /** Every finished run of an emitted expression, whatever its schedule. */
  lemma EmittedStamped(e: Expr, c: nat, tr: Trace, sched: seq<seq<nat>>, v: int, tr1: Trace)
    requires Straight(e) && Ends(Telling(), Lower(e, c).0, tr, sched, v, tr1)
    ensures |tr1| == |tr| + Calls(e) && Stamped(MarkOf(e), v, |tr1|)
  {
    hide Straight, Lower, Flat, Bound, Acts, Ends, MarkOf;
    LowerFlat(e, c);
    LowerBound(e, c);
    LowerMark(e, c);
    EndsFit(Telling(), Lower(e, c).0, tr, sched, v, tr1);
    if MarkOf(e) != NoMark {
      EndStamped(Lower(e, c).0, tr, sched, v, tr1);
    }
  }

  // ----- runs put together -----

  lemma LetEnds(w: World, t: nat, x: C, body: C, tr: Trace, sx: seq<seq<nat>>, v: int, trA: Trace, rest: seq<seq<nat>>, r: int, tr1: Trace)
    requires Ends(w, x, tr, sx, v, trA) && Ends(w, Subst(body, t, v), trA, rest, r, tr1)
    ensures Ends(w, CLet(t, x, body), tr, Under(0, sx) + [[]] + rest, r, tr1)
  {
    hide RunSchedule, Subst;
    InitRun(w, t, x, body, tr, sx);
    InitStep(w, t, v, body, trA);
    ThenRun(w, CLet(t, x, body), tr, Under(0, sx), [[]]);
    ThenRun(w, CLet(t, x, body), tr, Under(0, sx) + [[]], rest);
  }

  lemma InitStep(w: World, t: nat, v: int, body: C, tr: Trace)
    ensures RunSchedule(w, CLet(t, CVal(v), body), tr, [[]]) == Some((Subst(body, t, v), tr))
  {
    OneStep(w, CLet(t, CVal(v), body), tr, []);
  }

  lemma ArgEnds(w: World, k: Kind, args: seq<C>, i: nat, tr: Trace, sx: seq<seq<nat>>, v: int, trA: Trace, rest: seq<seq<nat>>, r: int, tr1: Trace)
    requires i < |args| && Ends(w, args[i], tr, sx, v, trA) && Ends(w, CNode(k, args[i := CVal(v)]), trA, rest, r, tr1)
    ensures Ends(w, CNode(k, args), tr, Under(i, sx) + rest, r, tr1)
  {
    hide RunSchedule;
    ArgRun(w, k, args, i, tr, sx);
    ThenRun(w, CNode(k, args), tr, Under(i, sx), rest);
  }

  /** Operands that wait in place. */
  predicate Waiting(pre: seq<C>) {
    forall j :: 0 <= j < |pre| ==> pre[j].CVal? || pre[j].CFn? || pre[j].CRead?
  }

  /** What the waiting operands are worth when they are read. */
  predicate Held(w: World, pre: seq<C>, vs: seq<int>, tr: Trace) {
    |pre| <= |vs| && forall j :: 0 <= j < |pre| ==> (pre[j].CVal? ==> vs[j] == pre[j].v) && (pre[j].CRead? ==> vs[j] == w.read(tr, pre[j].x))
  }

  predicate NodeEnds(w: World, e: C, k: Kind, tr: Trace, sched: seq<seq<nat>>, vs: seq<int>, tr1: Trace) {
    RunSchedule(w, e, tr, sched) == Some((CVal(Apply(w, k, vs, tr1).0), Apply(w, k, vs, tr1).1))
  }

  /** The waiting operands are read, and the node is applied. */
  lemma {:induction false} WaitingEnds(w: World, k: Kind, pre: seq<C>, i: nat, tr: Trace) returns (sched: seq<seq<nat>>, vs: seq<int>)
    requires Waiting(pre) && i <= |pre| && forall j :: 0 <= j < i ==> pre[j].CVal?
    ensures NodeEnds(w, CNode(k, pre), k, tr, sched, vs, tr) && |vs| == |pre| && Held(w, pre, vs, tr)
    decreases |pre| - i
  {
    hide Apply;
    if i == |pre| {
      sched, vs := [[]], Values(pre);
      OneStep(w, CNode(k, pre), tr, []);
    } else if pre[i].CVal? {
      sched, vs := WaitingEnds(w, k, pre, i + 1, tr);
    } else {
      var v := if pre[i].CRead? then w.read(tr, pre[i].x) else w.fn(pre[i].name);
      OneStep(w, pre[i], tr, []);
      var rest;
      rest, vs := WaitingEnds(w, k, pre[i := CVal(v)], i + 1, tr);
      var r := Apply(w, k, vs, tr);
      ArgEnds(w, k, pre, i, tr, [[]], v, tr, rest, r.0, r.1);
      sched := Under(i, [[]]) + rest;
    }
  }

  lemma {:induction false} NoBinds(es: seq<Expr>, c: nat)
    ensures LowerOperands(es, false, c).binds == []
  {
    hide Lower;
    if es != [] {
      NoBinds(es[1..], Lower(es[0], c).1);
    }
  }

  lemma MoreHeld(w: World, pre: seq<C>, x: C, vs: seq<int>, tr: Trace)
    requires Held(w, pre + [x], vs, tr)
    ensures Held(w, pre, vs, tr) && (x.CVal? ==> vs[|pre|] == x.v) && (x.CRead? ==> vs[|pre|] == w.read(tr, x.x))
  {
    assert forall j :: 0 <= j < |pre| ==> (pre + [x])[j] == pre[j];
    assert (pre + [x])[|pre|] == x;
  }

  lemma MoreWaiting(pre: seq<C>, x: C)
    requires Waiting(pre) && (x.CVal? || x.CFn? || x.CRead?)
    ensures Waiting(pre + [x])
  {
  }

  lemma WaitingBound(pre: seq<C>)
    requires Waiting(pre)
    ensures forall j :: 0 <= j < |pre| ==> Bound(pre[j], {})
  {
  }

  lemma AtomWaits(e: Expr, c: nat)
    requires IsAtom(e)
    ensures var x := Lower(e, c).0; x.CVal? || x.CFn? || x.CRead?
    ensures Calls(e) == 0 && OrderSafe(e) && forall w: World, tr: Trace :: SEval(w, e, tr).1 == tr
  {
  }

  /** One operand run to its value, ahead of the others: under its temporary, or in
      place. */
  lemma OperandEnds(w: World, es: seq<Expr>, active: bool, c: nat, k: Kind, pre: seq<C>, tr: Trace,
                    sx: seq<seq<nat>>, v: int, trA: Trace, c1: nat, rest: seq<seq<nat>>, vs: seq<int>, tr1: Trace)
      returns (sched: seq<seq<nat>>)
    requires es != [] && Waiting(pre)
    requires var hoist := active && |es| > 1 && !IsAtom(es[0]);
             && (hoist || !active || |es| == 1) && c1 == Lower(es[0], if hoist then c + 1 else c).1
             && Ends(w, Lower(es[0], if hoist then c + 1 else c).0, tr, sx, v, trA)
    requires var h1 := LowerOperands(es[1..], active, c1);
             NodeEnds(w, Wrap(h1.binds, CNode(k, (pre + [CVal(v)]) + h1.ops)), k, trA, rest, vs, tr1)
    ensures var h := LowerOperands(es, active, c); NodeEnds(w, Wrap(h.binds, CNode(k, pre + h.ops)), k, tr, sched, vs, tr1)
  {
    hide LowerOperands, Lower, IsAtom, RunSchedule, Subst, Apply, Tidy, Bound;
    var hoist, x, c2, h1 := OperandsCons(es, active, c);
    var r := Apply(w, k, vs, tr1);
    if hoist {
      var body := Wrap(h1.binds, CNode(k, pre + ([CTemp(c)] + h1.ops)));
      OperandsTidy(es[1..], active, c1);
      WaitingBound(pre);
      SubstHoisted(pre, c, v, h1, k, c1);
      LetEnds(w, c, x, body, tr, sx, v, trA, rest, r.0, r.1);
      WrapCons(c, x, h1.binds, CNode(k, pre + ([CTemp(c)] + h1.ops)));
      sched := Under(0, sx) + [[]] + rest;
    } else {
      if active {
        assert es[1..] == [];
        EmptyHoist(active, c1);
      } else {
        NoBinds(es[1..], c1);
      }
      var args := pre + ([x] + h1.ops);
      assert args[|pre|] == x && args[|pre| := CVal(v)] == (pre + [CVal(v)]) + h1.ops;
      NoWrap(CNode(k, args));
      NoWrap(CNode(k, (pre + [CVal(v)]) + h1.ops));
      ArgEnds(w, k, args, |pre|, tr, sx, v, trA, rest, r.0, r.1);
      sched := Under(|pre|, sx) + rest;
    }
  }

  /** Whatever the operands are, they can be run in order, and the waiting ones after
      them. */
  lemma {:induction false} RestEnds(w: World, es: seq<Expr>, active: bool, c: nat, k: Kind, pre: seq<C>, tr: Trace)
      returns (sched: seq<seq<nat>>, vs: seq<int>, tr1: Trace)
    requires AllStraight(es) && Waiting(pre)
    ensures var h := LowerOperands(es, active, c); NodeEnds(w, Wrap(h.binds, CNode(k, pre + h.ops)), k, tr, sched, vs, tr1)
    ensures |vs| == |pre| + |es| && Held(w, pre, vs, tr1) && tr <= tr1 && |tr1| == |tr| + AllCalls(es)
    decreases |es|
  {
    hide LowerOperands, Lower, Straight, Calls, Waiting, Held, NodeEnds, Ends, IsAtom, OrderSafe;
    if es == [] {
      EmptyHoist(active, c);
      assert pre + [] == pre;
      NoWrap(CNode(k, pre));
      tr1 := tr;
      sched, vs := WaitingEnds(w, k, pre, 0, tr);
    } else {
      var hoist, x, c1, h1 := OperandsCons(es, active, c);
      FirstStraight(es);
      if hoist || !active || |es| == 1 {
        var sx, v, trA := Emitted(w, es[0], if hoist then c + 1 else c, tr);
        MoreWaiting(pre, CVal(v));
        var rest;
        rest, vs, tr1 := RestEnds(w, es[1..], active, c1, k, pre + [CVal(v)], trA);
        sched := OperandEnds(w, es, active, c, k, pre, tr, sx, v, trA, c1, rest, vs, tr1);
        MoreHeld(w, pre, CVal(v), vs, tr1);
      } else {
        AtomWaits(es[0], c);
        MoreWaiting(pre, x);
        sched, vs, tr1 := RestEnds(w, es[1..], active, c1, k, pre + [x], tr);
        assert pre + ([x] + h1.ops) == (pre + [x]) + h1.ops;
        MoreHeld(w, pre, x, vs, tr1);
      }
    }
  }

  // ----- what the condition excludes goes wrong -----

  /** An expression or a list outside the condition has effects. */
  lemma {:induction false} UnsafeActs(e: Expr)
    requires Straight(e) && !OrderSafe(e)
    ensures HasSideEffects(e)
    decreases e, 1
  {
    match e
    case Op(_, _, args) => UnsafeListActs(args);
    case Both(_, _, a, b) =>
      if !OrderSafe(a) { UnsafeActs(a); } else if !OrderSafe(b) { UnsafeActs(b); }
    case _ =>
  }

  lemma {:induction false} UnsafeListActs(es: seq<Expr>)
    requires AllStraight(es) && !(AllSafe(es) && ListSafe(es))
    ensures AnyEffects(es)
    decreases es, 0
  {
    if !OrderSafe(es[0]) {
      UnsafeActs(es[0]);
    } else if !(AllSafe(es[1..]) && ListSafe(es[1..])) {
      UnsafeListActs(es[1..]);
    }
  }

  /** Two histories that part stay apart. */
  lemma Apart(tr: Trace, tr': Trace, tr1: Trace, tr1': Trace)
    requires tr <= tr1 && tr' <= tr1' && |tr| == |tr'| && tr != tr'
    ensures tr1 != tr1'
  {
    assert tr1[..|tr|] == tr && tr1'[..|tr'|] == tr';
  }

  predicate Differ(k: Kind, vs: seq<int>, tr: Trace, us: seq<int>, tr': Trace) {
    |tr| == |tr'| && |vs| == |us| && (k.KCallValue? ==> vs != []) && (vs != us || tr != tr')
  }

  /** What a node makes of different operands is different. */
  lemma NodesDiffer(k: Kind, vs: seq<int>, tr: Trace, us: seq<int>, tr': Trace)
    requires Differ(k, vs, tr, us, tr')
    ensures Apply(Telling(), k, vs, tr) != Apply(Telling(), k, us, tr')
    ensures |Apply(Telling(), k, vs, tr).1| == |tr| + (if IsCall(k) then 1 else 0)
  {
    hide Pair, Code;
    if k.KOp? {
      if tr == tr' {
        OpsDiffer((vs, tr), (us, tr'));
      }
    } else {
      var a, b := Apply(Telling(), k, vs, tr).1, Apply(Telling(), k, us, tr').1;
      assert a[..|tr|] == tr && b[..|tr|] == tr';
      if k.KCallValue? {
        assert vs == [vs[0]] + vs[1..] && us == [us[0]] + us[1..];
      }
    }
  }

  /** After one operand ended wrong, no run of the others can make up for it. */
  lemma RestDiffers(es: seq<Expr>, pre: seq<C>, pv: seq<int>, tr: Trace, v: int, trA: Trace, vs: seq<int>, tr1: Trace)
    requires es != [] && AllStraight(es) && |pre| == |pv| && |vs| == |pre| + |es|
    requires |trA| == |tr| + Calls(es[0]) && (v, trA) != SEval(Telling(), es[0], tr)
    requires Held(Telling(), pre + [CVal(v)], vs, tr1) && trA <= tr1 && |tr1| == |trA| + AllCalls(es[1..])
    ensures var (us, tr') := SEvalAll(Telling(), es, tr); |tr1| == |tr'| && (vs != pv + us || tr1 != tr')
  {
    hide SEval, SEvalAll, Straight, Calls, Held, Telling;
    var w := Telling();
    FirstStraight(es);
    EvalCons(w, es, tr);
    TraceGrows(w, es[0], tr);
    var (u, trB) := SEval(w, es[0], tr);
    TraceGrowsAll(w, es[1..], trB);
    TraceGrowsAll(w, es, tr);
    var (us, tr') := SEvalAll(w, es, tr);
    assert (pv + us)[|pv|] == u;
    MoreHeld(w, pre, CVal(v), vs, tr1);
    if trA != trB {
      Apart(trA, trB, tr1, tr');
    }
  }

  /** A function variable left in place before effects is read too late. */
  lemma StaleDiffers(es: seq<Expr>, pre: seq<C>, pv: seq<int>, tr: Trace, vs: seq<int>, tr1: Trace)
    requires es != [] && AllStraight(es) && |pre| == |pv| && |vs| == |pre| + |es|
    requires es[0].FnIdent? && es[0].isVariable && AnyEffects(es[1..])
    requires Held(Telling(), pre + [CRead(es[0].name)], vs, tr1) && |tr1| == |tr| + AllCalls(es[1..])
    ensures var (us, tr') := SEvalAll(Telling(), es, tr); |tr1| == |tr'| && vs != pv + us
  {
    hide Straight, Held;
    var w := Telling();
    FirstStraight(es);
    EvalCons(w, es, tr);
    AllCallsAreEffects(es[1..]);
    TraceGrowsAll(w, es[1..], tr);
    var us := SEvalAll(w, es, tr).0;
    assert us[0] == |tr| && (pv + us)[|pv|] == us[0];
    MoreHeld(w, pre, CRead(es[0].name), vs, tr1);
  }

  lemma ListCases(es: seq<Expr>)
    requires es != [] && !(AllSafe(es) && ListSafe(es)) && OrderSafe(es[0])
    ensures || !(AllSafe(es[1..]) && ListSafe(es[1..]))
            || (es[0].FnIdent? && es[0].isVariable && AnyEffects(es[1..]))
    ensures |es| > 1
  {
    if |es| == 1 {
      assert es[1..] == [];
    }
  }

  /** A finished run of a safe expression has its value and history. */
  lemma SafeEnds(e: Expr, c: nat, tr: Trace) returns (sched: seq<seq<nat>>)
    requires Straight(e) && OrderSafe(e)
    ensures var (v, tr1) := SEval(Telling(), e, tr); Ends(Telling(), Lower(e, c).0, tr, sched, v, tr1)
  {
    hide Straight, OrderSafe, Lower, SEval, Telling;
    var v, tr1;
    sched, v, tr1 := Emitted(Telling(), e, c, tr);
    EveryOrderIsLeftToRight(Telling(), e, c, tr, sched);
  }

  /** Outside the condition some run ends otherwise. */
  lemma {:induction false} Misled(e: Expr, c: nat, tr: Trace) returns (sched: seq<seq<nat>>, v: int, tr1: Trace)
    requires Straight(e) && !OrderSafe(e)
    ensures Ends(Telling(), Lower(e, c).0, tr, sched, v, tr1)
    ensures |tr1| == |tr| + Calls(e) && (v, tr1) != SEval(Telling(), e, tr)
    decreases e, 3
  {
    hide LowerOperands, HasSideEffects, Ends, SEvalAll, Telling, IsSelfCompare, ListSafe, AllSafe, AllStraight, AnyEffects;
    match e
    case Call(f, args) => sched, v, tr1 := MisledNode(args, SeqNeeded(args), c, KCall(f), tr);
    case Op(op, _, args) => sched, v, tr1 := MisledNode(args, SeqNeeded(args) || IsSelfCompare(e), c, KOp(op), tr);
    case CallValue(g, args) => sched, v, tr1 := MisledCallValue(g, args, c, tr);
    case Both(form, id, a, b) => sched, v, tr1 := MisledBoth(form, id, a, b, c, tr);
    case _ =>
  }

  /** A list outside the condition: its operands arrive otherwise, or at another time. */
  lemma {:induction false} MisledOperands(es: seq<Expr>, active: bool, c: nat, k: Kind, pre: seq<C>, pv: seq<int>, tr: Trace)
      returns (sched: seq<seq<nat>>, vs: seq<int>, tr1: Trace)
    requires AllStraight(es) && !(AllSafe(es) && ListSafe(es)) && (active || |es| <= 1) && Waiting(pre) && |pre| == |pv|
    ensures var h := LowerOperands(es, active, c); NodeEnds(Telling(), Wrap(h.binds, CNode(k, pre + h.ops)), k, tr, sched, vs, tr1)
    ensures var (us, tr') := SEvalAll(Telling(), es, tr);
            |vs| == |pre| + |es| && |tr1| == |tr'| && (vs != pv + us || tr1 != tr')
    decreases es, 1
  {
    hide LowerOperands, Lower, Straight, Calls, Waiting, Held, NodeEnds, Ends, IsAtom, OrderSafe, SEval, SEvalAll, Telling, AllSafe, ListSafe, AnyEffects;
    var w := Telling();
    NonemptyUnsafe(es);
    var hoist, x, c1, h1 := OperandsCons(es, active, c);
    var c0 := if hoist then c + 1 else c;
    FirstStraight(es);
    if !OrderSafe(es[0]) {
      AtomSafe(es[0]);
      var sx, v, trA := Misled(es[0], c0, tr);
      MoreWaiting(pre, CVal(v));
      var rest;
      rest, vs, tr1 := RestEnds(w, es[1..], active, c1, k, pre + [CVal(v)], trA);
      sched := OperandEnds(w, es, active, c, k, pre, tr, sx, v, trA, c1, rest, vs, tr1);
      RestDiffers(es, pre, pv, tr, v, trA, vs, tr1);
    } else {
      ListCases(es);
      EvalCons(w, es, tr);
      var (v, trA) := SEval(w, es[0], tr);
      if hoist {
        NotVariable(es[0]);
        var sx := SafeEnds(es[0], c0, tr);
        MoreWaiting(pre, CVal(v));
        var rest;
        rest, vs, tr1 := MisledOperands(es[1..], active, c1, k, pre + [CVal(v)], pv + [v], trA);
        sched := OperandEnds(w, es, active, c, k, pre, tr, sx, v, trA, c1, rest, vs, tr1);
        assert (pv + [v]) + SEvalAll(w, es[1..], trA).0 == pv + ([v] + SEvalAll(w, es[1..], trA).0);
      } else {
        AtomWaits(es[0], c);
        MoreWaiting(pre, x);
        assert pre + ([x] + h1.ops) == (pre + [x]) + h1.ops;
        if !(AllSafe(es[1..]) && ListSafe(es[1..])) {
          sched, vs, tr1 := MisledOperands(es[1..], active, c1, k, pre + [x], pv + [v], tr);
          assert (pv + [v]) + SEvalAll(w, es[1..], trA).0 == pv + ([v] + SEvalAll(w, es[1..], trA).0);
        } else {
          VariableReads(es[0], c);
          sched, vs, tr1 := RestEnds(w, es[1..], active, c1, k, pre + [x], tr);
          StaleDiffers(es, pre, pv, tr, vs, tr1);
        }
      }
    }
  }

  lemma NonemptyUnsafe(es: seq<Expr>)
    requires !(AllSafe(es) && ListSafe(es))
    ensures es != []
  {
  }

  lemma AtomSafe(e: Expr)
    ensures IsAtom(e) ==> OrderSafe(e)
  {
  }

  lemma NotVariable(e: Expr)
    ensures !IsAtom(e) ==> !e.FnIdent?
  {
  }

  lemma VariableReads(e: Expr, c: nat)
    requires e.FnIdent? && e.isVariable
    ensures Lower(e, c) == (CRead(e.name), c)
  {
  }

  lemma {:induction false} MisledNode(args: seq<Expr>, active: bool, c: nat, k: Kind, tr: Trace)
      returns (sched: seq<seq<nat>>, v: int, tr1: Trace)
    requires AllStraight(args) && !(AllSafe(args) && ListSafe(args)) && (SeqNeeded(args) ==> active) && !k.KCallValue?
    ensures var h := LowerOperands(args, active, c);
            Ends(Telling(), Wrap(h.binds, CNode(k, h.ops)), tr, sched, v, tr1)
    ensures var (us, tr') := SEvalAll(Telling(), args, tr);
            (v, tr1) != Apply(Telling(), k, us, tr') && |tr1| == |tr| + AllCalls(args) + (if IsCall(k) then 1 else 0)
    decreases args, 2
  {
    hide LowerOperands, Telling, Apply, SEvalAll, AllSafe, ListSafe, AllStraight, AnyEffects, RunSchedule;
    UnsafeListActs(args);
    var vs, tr2;
    sched, vs, tr2 := MisledOperands(args, active, c, k, [], [], tr);
    TraceGrowsAll(Telling(), args, tr);
    var (us, tr') := SEvalAll(Telling(), args, tr);
    EmptyPrefix(LowerOperands(args, active, c).ops, us);
    NodesDiffer(k, vs, tr2, us, tr');
    v, tr1 := Apply(Telling(), k, vs, tr2).0, Apply(Telling(), k, vs, tr2).1;
  }

  lemma {:induction false} MisledCallValue(g: Expr, args: seq<Expr>, c: nat, tr: Trace)
      returns (sched: seq<seq<nat>>, v: int, tr1: Trace)
    requires Straight(CallValue(g, args)) && !OrderSafe(CallValue(g, args))
    ensures var e := CallValue(g, args);
            Ends(Telling(), Lower(e, c).0, tr, sched, v, tr1) && |tr1| == |tr| + Calls(e) && (v, tr1) != SEval(Telling(), e, tr)
    decreases CallValue(g, args), 2
  {
    hide LowerOperands, Telling, Apply, SEvalAll, AllSafe, ListSafe, AllStraight, AnyEffects, RunSchedule, Subst, Tidy, Ends, Waiting;
    var w := Telling();
    var (x, c1) := Lower(g, c + 1);
    var active := SeqNeeded(args);
    var h := LowerOperands(args, active, c1);
    var body := Wrap(h.binds, CNode(KCallValue, [CTemp(c)] + h.ops));
    OperandsTidy(args, active, c1);
    EmptyPrefix([CTemp(c)] + h.ops, []);
    TraceGrows(w, g, tr);
    var (f, trG) := SEval(w, g, tr);
    TraceGrowsAll(w, args, trG);
    var (us, tr') := SEvalAll(w, args, trG);
    var sx, u, trA, rest, vs, tr2;
    if !OrderSafe(g) {
      sx, u, trA := Misled(g, c + 1, tr);
      OneWaits(u);
      rest, vs, tr2 := RestEnds(w, args, active, c1, KCallValue, [CVal(u)], trA);
      CalleeDiffers(f, trG, us, tr', u, trA, vs, tr2);
    } else {
      UnsafeListActs(args);
      sx := SafeEnds(g, c + 1, tr);
      u, trA := f, trG;
      OneWaits(u);
      rest, vs, tr2 := MisledOperands(args, active, c1, KCallValue, [CVal(u)], [u], trA);
    }
    SubstHoisted([], c, u, h, KCallValue, c1);
    EmptyPrefix([CVal(u)] + h.ops, []);
    assert [] + [CVal(u)] == [CVal(u)];
    var r := Apply(w, KCallValue, vs, tr2);
    NodeIsEnd(w, Subst(body, c, u), KCallValue, trA, rest, vs, tr2);
    LetEnds(w, c, x, body, tr, sx, u, trA, rest, r.0, r.1);
    NodesDiffer(KCallValue, vs, tr2, [f] + us, tr');
    CalledWith(w, f, us, tr');
    sched, v, tr1 := Under(0, sx) + [[]] + rest, r.0, r.1;
  }

  lemma OneWaits(v: int)
    ensures Waiting([CVal(v)])
  {
  }

  lemma NodeIsEnd(w: World, e: C, k: Kind, tr: Trace, sched: seq<seq<nat>>, vs: seq<int>, tr1: Trace)
    requires NodeEnds(w, e, k, tr, sched, vs, tr1)
    ensures Ends(w, e, tr, sched, Apply(w, k, vs, tr1).0, Apply(w, k, vs, tr1).1)
  {
  }

  lemma CalledWith(w: World, f: int, us: seq<int>, tr: Trace)
    ensures Apply(w, KCallValue, [f] + us, tr) == (w.call(tr, f, us), tr + [Event(f, us)])
  {
    assert ([f] + us)[1..] == us;
  }

  lemma CalleeDiffers(f: int, trG: Trace, us: seq<int>, tr': Trace, u: int, trA: Trace, vs: seq<int>, tr2: Trace)
    requires |trA| == |trG| && (u, trA) != (f, trG) && trG <= tr' && trA <= tr2 && Held(Telling(), [CVal(u)], vs, tr2)
    ensures vs != [f] + us || tr2 != tr'
  {
    assert [CVal(u)][0] == CVal(u);
    if trA != trG {
      Apart(trA, trG, tr2, tr');
    }
  }

  // ----- two parts -----

  /** One part after the other, in turn. */
  lemma InTurnEnds(w: World, k: Kind, c: nat, cx: C, cy: C, swapped: bool, tr: Trace,
                   sx: seq<seq<nat>>, x: int, tr1: Trace, sy: seq<seq<nat>>, y: int, tr2: Trace)
      returns (sched: seq<seq<nat>>)
    requires Bound(cy, {}) && Ends(w, cx, tr, sx, x, tr1) && Ends(w, cy, tr1, sy, y, tr2)
    ensures NodeEnds(w, InTurn(k, c, cx, cy, swapped), k, tr, sched, if swapped then [y, x] else [x, y], tr2)
  {
    hide RunSchedule, Ends, Bound, Subst, SubstAll, Apply;
    var (u, v) := if swapped then (y, x) else (x, y);
    var r := Apply(w, k, [u, v], tr2);
    var node := CNode(k, if swapped then [CTemp(c + 1), CTemp(c)] else [CTemp(c), CTemp(c + 1)]);
    var mid := CNode(k, if swapped then [CTemp(c + 1), CVal(x)] else [CVal(x), CTemp(c + 1)]);
    SubstFresh(cy, c, x, {});
    InTurnSubst(k, c, cy, x, y, swapped);
    TwoEnd(w, k, u, v, tr2);
    LetEnds(w, c + 1, cy, mid, tr1, sy, y, tr2, [[]], r.0, r.1);
    LetEnds(w, c, cx, CLet(c + 1, cy, node), tr, sx, x, tr1, Under(0, sy) + [[]] + [[]], r.0, r.1);
    sched := Under(0, sx) + [[]] + (Under(0, sy) + [[]] + [[]]);
    EndIsNode(w, InTurn(k, c, cx, cy, swapped), k, tr, sched, [u, v], tr2);
  }

  lemma TwoEnd(w: World, k: Kind, x: int, y: int, tr: Trace)
    ensures var r := Apply(w, k, [x, y], tr); Ends(w, CNode(k, [CVal(x), CVal(y)]), tr, [[]], r.0, r.1)
  {
    hide Apply;
    OneStep(w, CNode(k, [CVal(x), CVal(y)]), tr, []);
    assert Values([CVal(x), CVal(y)]) == [x, y];
  }

  lemma EndIsNode(w: World, e: C, k: Kind, tr: Trace, sched: seq<seq<nat>>, vs: seq<int>, tr1: Trace)
    requires Ends(w, e, tr, sched, Apply(w, k, vs, tr1).0, Apply(w, k, vs, tr1).1)
    ensures NodeEnds(w, e, k, tr, sched, vs, tr1)
  {
  }

  /** In place they may run in either order. */
  lemma InPlaceEnds(w: World, k: Kind, cx: C, cy: C, tr: Trace, sx: seq<seq<nat>>, x: int, sy: seq<seq<nat>>, y: int, tr1: Trace, tr2: Trace, inOrder: bool)
      returns (sched: seq<seq<nat>>)
    requires inOrder ==> Ends(w, cx, tr, sx, x, tr1) && Ends(w, cy, tr1, sy, y, tr2)
    requires !inOrder ==> Ends(w, cy, tr, sy, y, tr1) && Ends(w, cx, tr1, sx, x, tr2)
    ensures NodeEnds(w, CNode(k, [cx, cy]), k, tr, sched, [x, y], tr2)
  {
    hide RunSchedule, Ends, Apply;
    var r := Apply(w, k, [x, y], tr2);
    TwoEnd(w, k, x, y, tr2);
    assert [cx, cy][0 := CVal(x)] == [CVal(x), cy] && [cx, cy][1 := CVal(y)] == [cx, CVal(y)];
    assert [CVal(x), cy][1 := CVal(y)] == [CVal(x), CVal(y)] && [cx, CVal(y)][0 := CVal(x)] == [CVal(x), CVal(y)];
    if inOrder {
      ArgEnds(w, k, [CVal(x), cy], 1, tr1, sy, y, tr2, [[]], r.0, r.1);
      ArgEnds(w, k, [cx, cy], 0, tr, sx, x, tr1, Under(1, sy) + [[]], r.0, r.1);
      sched := Under(0, sx) + (Under(1, sy) + [[]]);
    } else {
      ArgEnds(w, k, [cx, CVal(y)], 0, tr1, sx, x, tr2, [[]], r.0, r.1);
      ArgEnds(w, k, [cx, cy], 1, tr, sy, y, tr1, Under(0, sx) + [[]], r.0, r.1);
      sched := Under(1, sy) + (Under(0, sx) + [[]]);
    }
    EndIsNode(w, CNode(k, [cx, cy]), k, tr, sched, [x, y], tr2);
  }

  /** The parts arrive otherwise, or at another time. */
  ghost predicate Off(a: Expr, b: Expr, tr: Trace, x: int, y: int, tr2: Trace) {
    var (x', tr1') := SEval(Telling(), a, tr);
    var (y', tr2') := SEval(Telling(), b, tr1');
    |tr2'| == |tr2| == |tr| + Calls(a) + Calls(b) && ([x, y] != [x', y'] || tr2 != tr2')
  }

  lemma GrowsPair(w: World, l: Expr, r: Expr, tr: Trace)
    requires Straight(l) && Straight(r)
    ensures var tr1 := SEval(w, l, tr).1;
            var tr2 := SEval(w, r, tr1).1;
            tr <= tr1 <= tr2 && |tr1| == |tr| + Calls(l) && |tr2| == |tr| + Calls(l) + Calls(r)
  {
    TraceGrows(w, l, tr);
    TraceGrows(w, r, SEval(w, l, tr).1);
  }

  /** Both parts, in order, the first that is outside the condition misled. */
  lemma {:induction false} MisledPair(e: Expr, a: Expr, b: Expr, c: nat, d: nat, tr: Trace)
      returns (sx: seq<seq<nat>>, x: int, tr1: Trace, sy: seq<seq<nat>>, y: int, tr2: Trace)
    requires e.Both? && e.fst == a && e.snd == b
    requires Straight(a) && Straight(b) && !(OrderSafe(a) && OrderSafe(b))
    ensures Ends(Telling(), Lower(a, c).0, tr, sx, x, tr1) && Ends(Telling(), Lower(b, d).0, tr1, sy, y, tr2)
    ensures Off(a, b, tr, x, y, tr2)
    decreases e, 1
  {
    hide Telling, SEval, Lower, Straight, OrderSafe, Ends;
    var w := Telling();
    GrowsPair(w, a, b, tr);
    var (x', tr1') := SEval(w, a, tr);
    var (y', tr2') := SEval(w, b, tr1');
    if OrderSafe(a) {
      sx := SafeEnds(a, c, tr);
      x, tr1 := x', tr1';
      sy, y, tr2 := Misled(b, d, tr1);
      assert [x, y][1] == y && [x', y'][1] == y';
    } else {
      sx, x, tr1 := Misled(a, c, tr);
      sy, y, tr2 := Emitted(w, b, d, tr1);
      assert [x, y][0] == x && [x', y'][0] == x';
      if tr1 != tr1' {
        Apart(tr1, tr1', tr2, tr2');
      }
    }
  }

  /** Both parts, in the other order, although each is indifferent to the other: the
      one outside the condition is misled beside a constant. */
  lemma {:induction false} MisledSwapped(e: Expr, a: Expr, b: Expr, c: nat, d: nat, tr: Trace)
      returns (sy: seq<seq<nat>>, y: int, tr1: Trace, sx: seq<seq<nat>>, x: int, tr2: Trace)
    requires e.Both? && e.fst == a && e.snd == b && PairSafe(a, b)
    requires Straight(a) && Straight(b) && !(OrderSafe(a) && OrderSafe(b))
    ensures Ends(Telling(), Lower(b, c).0, tr, sy, y, tr1) && Ends(Telling(), Lower(a, d).0, tr1, sx, x, tr2)
    ensures Off(a, b, tr, x, y, tr2)
    decreases e, 1
  {
    hide Telling, SEval, Lower, Straight, OrderSafe, Ends, HasSideEffects, Calls;
    var w := Telling();
    GrowsPair(w, a, b, tr);
    var (x', tr1') := SEval(w, a, tr);
    var (y', tr2') := SEval(w, b, tr1');
    if !OrderSafe(a) {
      UnsafeActs(a);
      ConstantSafe(b);
      ConstantEval(w, b);
      sy := SafeEnds(b, c, tr);
      y, tr1 := y', tr;
      sx, x, tr2 := Misled(a, d, tr);
    } else {
      UnsafeActs(b);
      ConstantSafe(a);
      ConstantEval(w, a);
      sy, y, tr1 := Misled(b, c, tr);
      sx := SafeEnds(a, d, tr1);
      x, tr2 := x', tr1;
    }
    assert [x, y][0] == x && [x', y'][0] == x' && [x, y][1] == y && [x', y'][1] == y';
  }

  lemma ConstantSafe(e: Expr)
    requires IsConstant(e)
    ensures OrderSafe(e) && Calls(e) == 0
  {
  }

  /** Both parts, in the other order, an effect in one meeting a value in the other that
      tells when it was made. */
  lemma Crossed(a: Expr, b: Expr, c: nat, d: nat, tr: Trace)
      returns (sy: seq<seq<nat>>, y: int, tr1: Trace, sx: seq<seq<nat>>, x: int, tr2: Trace)
    requires Straight(a) && Straight(b) && !PairSafe(a, b)
    ensures Ends(Telling(), Lower(b, c).0, tr, sy, y, tr1) && Ends(Telling(), Lower(a, d).0, tr1, sx, x, tr2)
    ensures Off(a, b, tr, x, y, tr2)
  {
    hide Telling, SEval, Lower, Straight, Ends, HasSideEffects, Calls, Stamped, MarkOf;
    var w := Telling();
    GrowsPair(w, a, b, tr);
    var (x', tr1') := SEval(w, a, tr);
    var (y', tr2') := SEval(w, b, tr1');
    sy, y, tr1 := Emitted(w, b, c, tr);
    sx, x, tr2 := Emitted(w, a, d, tr1);
    EmittedStamped(b, c, tr, sy, y, tr1);
    EmittedStamped(a, d, tr1, sx, x, tr2);
    SourceStamped(a, tr);
    SourceStamped(b, tr1');
    CallsAreEffects(a);
    CallsAreEffects(b);
    if HasSideEffects(b) && !IsConstant(a) {
      StampsDiffer(MarkOf(a), x, |tr2|, x', |tr1'|);
    } else {
      StampsDiffer(MarkOf(b), y, |tr1|, y', |tr2'|);
    }
    assert [x, y][0] == x && [x', y'][0] == x' && [x, y][1] == y && [x', y'][1] == y';
  }

  lemma {:induction false} MisledBoth(form: Form, id: nat, a: Expr, b: Expr, c: nat, tr: Trace)
      returns (sched: seq<seq<nat>>, v: int, tr1: Trace)
    requires Straight(Both(form, id, a, b)) && !OrderSafe(Both(form, id, a, b))
    ensures var e := Both(form, id, a, b);
            Ends(Telling(), Lower(e, c).0, tr, sched, v, tr1) && |tr1| == |tr| + Calls(e) && (v, tr1) != SEval(Telling(), e, tr)
    decreases Both(form, id, a, b), 2
  {
    hide Telling, Ends, PairSafe, NodeEnds, InTurn, Off, HasSideEffects, Apply, RunSchedule;
    var w, k, e := Telling(), KindOf(form, id), Both(form, id, a, b);
    var x, y, trB;
    match WayOf(form, a, b) {
      case InOrder =>
        var (cx, c1) := Lower(a, c + 2);
        var cy := Lower(b, c1).0;
        LowerBound(b, c1);
        var sx, tr2, sy;
        sx, x, tr2, sy, y, trB := MisledPair(e, a, b, c + 2, c1, tr);
        sched := InTurnEnds(w, k, c, cx, cy, false, tr, sx, x, tr2, sy, y, trB);
      case Unordered =>
        var (cx, c1) := Lower(a, c);
        var cy := Lower(b, c1).0;
        var sx, tr2, sy;
        if PairSafe(a, b) {
          sx, x, tr2, sy, y, trB := MisledPair(e, a, b, c, c1, tr);
          sched := InPlaceEnds(w, k, cx, cy, tr, sx, x, sy, y, tr2, trB, true);
        } else {
          sy, y, tr2, sx, x, trB := Crossed(a, b, c1, c, tr);
          sched := InPlaceEnds(w, k, cx, cy, tr, sx, x, sy, y, tr2, trB, false);
        }
      case Backwards =>
        var (cy, c1) := Lower(b, c + 2);
        var cx := Lower(a, c1).0;
        LowerBound(a, c1);
        var sx, tr2, sy;
        if PairSafe(a, b) {
          sy, y, tr2, sx, x, trB := MisledSwapped(e, a, b, c + 2, c1, tr);
        } else {
          sy, y, tr2, sx, x, trB := Crossed(a, b, c + 2, c1, tr);
        }
        sched := InTurnEnds(w, k, c, cy, cx, true, tr, sy, y, tr2, sx, x, trB);
    }
    NodeIsEnd(w, Lower(e, c).0, k, tr, sched, [x, y], trB);
    OffDiffers(form, id, a, b, tr, x, y, trB);
    v, tr1 := Apply(w, k, [x, y], trB).0, Apply(w, k, [x, y], trB).1;
  }

  lemma OffDiffers(form: Form, id: nat, a: Expr, b: Expr, tr: Trace, x: int, y: int, tr2: Trace)
    requires Off(a, b, tr, x, y, tr2)
    ensures var r := Apply(Telling(), KindOf(form, id), [x, y], tr2);
            r != SEval(Telling(), Both(form, id, a, b), tr) && |r.1| == |tr| + Calls(Both(form, id, a, b))
  {
    hide Telling;
    var (x', tr1') := SEval(Telling(), a, tr);
    var (y', tr2') := SEval(Telling(), b, tr1');
    NodesDiffer(KindOf(form, id), [x, y], tr2, [x', y'], tr2');
    Performs(Telling(), form, id, [x', y'], tr2');
  }

  lemma Performs(w: World, form: Form, id: nat, vs: seq<int>, tr: Trace)
    ensures Apply(w, KindOf(form, id), vs, tr) == Perform(w, form, id, vs, tr)
  {
  }

  // ----- the condition is exact -----

  /** Without branches, every run of the emitted code is FC's if and only if the
      expression meets the condition, at every place in it. */
  lemma OrderExactly(e: Expr, c: nat)
    requires Straight(e)
    ensures OrderIndependent(e, c) <==> OrderSafe(e)
  {
    hide Straight, OrderSafe, Telling, SEval, Lower;
    if OrderSafe(e) {
      SafeIndependent(e, c);
    } else {
      var sched, v, tr1 := Misled(e, c, []);
      assert RunSchedule(Telling(), Lower(e, c).0, [], sched) == Some((CVal(v), tr1));
    }
  }

  /** `f(g, h())`, where the top-level `g` is a variable; `p[h()]`; an atomic store of
      `h()` through `p`; a raw slice of `p` and an unsigned length `h()`; and a loop over
      `h()..n`. */
  lemma Gaps(f: int, h: int, c: nat)
    ensures !OrderIndependent(Call(f, [FnIdent(0, true), Call(h, [])]), c)
    ensures !OrderIndependent(Both(PtrIndex, 0, Var(0), Call(h, [])), c)
    ensures !OrderIndependent(Both(AtomicStore, 0, Var(0), Call(h, [])), c)
    ensures !OrderIndependent(Both(RawSlice(false), 0, Var(0), Call(h, [])), c)
    ensures !OrderIndependent(Both(RangeLoop, 0, Call(h, []), Var(0)), c)
  {
    hide OrderIndependent;
    StaleArgument(f, h);
    OrderExactly(Call(f, [FnIdent(0, true), Call(h, [])]), c);
    LonePair(PtrIndex, Var(0), Call(h, []));
    OrderExactly(Both(PtrIndex, 0, Var(0), Call(h, [])), c);
    LonePair(AtomicStore, Var(0), Call(h, []));
    OrderExactly(Both(AtomicStore, 0, Var(0), Call(h, [])), c);
    LonePair(RawSlice(false), Var(0), Call(h, []));
    OrderExactly(Both(RawSlice(false), 0, Var(0), Call(h, [])), c);
    LonePair(RangeLoop, Call(h, []), Var(0));
    OrderExactly(Both(RangeLoop, 0, Call(h, []), Var(0)), c);
  }

  lemma StaleArgument(f: int, h: int)
    ensures var e := Call(f, [FnIdent(0, true), Call(h, [])]); Straight(e) && !OrderSafe(e)
  {
    var tail := [Call(h, [])];
    var args := [FnIdent(0, true)] + tail;
    assert args == [FnIdent(0, true), Call(h, [])] && args[1..] == tail && tail[1..] == [];
    assert AllStraight([]) && Straight(tail[0]) && HasSideEffects(tail[0]);
    assert AllStraight(tail) && AnyEffects(tail);
    assert AllStraight(args) && args[0].isVariable;
    assert !ListSafe(args);
  }

  lemma LonePair(form: Form, a: Expr, b: Expr)
    requires (a.Var? && b.Call? && b.args == []) || (b.Var? && a.Call? && a.args == [])
    ensures Straight(Both(form, 0, a, b))
    ensures OrderSafe(Both(form, 0, a, b)) <==> WayOf(form, a, b).InOrder?
  {
    assert AllStraight([]) && ListSafe([]) && AllSafe([]);
    assert Straight(a) && Straight(b) && OrderSafe(a) && OrderSafe(b);
  }
}
