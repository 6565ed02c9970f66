/** The emitter that sequences operands in place: it overwrites the operand slots
    of a node with references to temporaries, emits the node, and puts the
    operands back. */
module OrderEmitter {
  import opened OrderSource
  import opened OrderTarget
  import opened OrderLowering
  import opened OrderCorrect

  /** What an operand slot of the tree holds: the program's operand, or the
      stand-in written over it. */
  datatype Slot = Operand(e: Expr) | TempRef(t: nat)

  function Operands(es: seq<Expr>): (r: seq<Slot>)
    ensures |r| == |es| && forall i :: 0 <= i < |es| ==> r[i] == Operand(es[i])
  {
    seq(|es|, i requires 0 <= i < |es| => Operand(es[i]))
  }

  /** What is emitted for a slot that is left to be read in place. */
  function InPlace(s: Slot): C {
    match s
    case Operand(e) => Lower(e, 0).0
    case TempRef(t) => CTemp(t)
  }

  function AllInPlace(slots: seq<Slot>): (r: seq<C>)
    ensures |r| == |slots| && forall i :: 0 <= i < |slots| ==> r[i] == InPlace(slots[i])
  {
    seq(|slots|, i requires 0 <= i < |slots| => InPlace(slots[i]))
  }

  predicate StaysPut(s: Slot) {
    s.Operand? ==> IsAtom(s.e)
  }

  lemma AtomNeedsNoTemp(e: Expr, c: nat)
    requires IsAtom(e)
    ensures Lower(e, c) == (Lower(e, 0).0, c)
  {
  }

  /** The whole list, its first operands already dealt with: `binds` and `front`
      are what they became. */
  predicate Progress(es: seq<Expr>, active: bool, start: nat, i: nat, binds: seq<(nat, C)>, front: seq<C>, now: nat)
    requires i <= |es|
  {
    var rest := LowerOperands(es[i..], active, now);
    LowerOperands(es, active, start) == Hoisted(binds + rest.binds, front + rest.ops, rest.next)
  }

  lemma ProgressStart(es: seq<Expr>, active: bool, start: nat)
    ensures Progress(es, active, start, 0, [], [], start)
  {
    var h := LowerOperands(es, active, start);
    assert es[0..] == es && [] + h.binds == h.binds && [] + h.ops == h.ops;
  }

  lemma ProgressStep(es: seq<Expr>, active: bool, start: nat, i: nat, binds: seq<(nat, C)>, front: seq<C>, now: nat)
    requires i < |es| && Progress(es, active, start, i, binds, front, now)
    ensures var hoist := active && i < |es| - 1 && !IsAtom(es[i]);
            var (x, c1) := Lower(es[i], if hoist then now + 1 else now);
            if hoist then Progress(es, active, start, i + 1, binds + [(now, x)], front + [CTemp(now)], c1)
            else Progress(es, active, start, i + 1, binds, front + [x], c1)
  {
    hide LowerOperands, Lower, IsAtom;
    assert es[i..][1..] == es[i + 1..] && es[i..][0] == es[i];
    var hoist, x, c1, h1 := OperandsCons(es[i..], active, now);
    if hoist {
      assert binds + ([(now, x)] + h1.binds) == (binds + [(now, x)]) + h1.binds;
      assert front + ([CTemp(now)] + h1.ops) == (front + [CTemp(now)]) + h1.ops;
    } else {
      assert front + ([x] + h1.ops) == (front + [x]) + h1.ops;
    }
  }

  lemma ProgressEnd(es: seq<Expr>, active: bool, start: nat, binds: seq<(nat, C)>, front: seq<C>, now: nat)
    requires Progress(es, active, start, |es|, binds, front, now)
    ensures LowerOperands(es, active, start) == Hoisted(binds, front, now)
  {
    EmptyHoist(active, now);
    assert es[|es|..] == [] && binds + [] == binds && front + [] == front;
  }

  class Emitter {
    var temps: nat

    constructor ()
      ensures temps == 0
    {
      temps := 0;
    }

    /** Evaluates all operands but the last into temporaries, in source order,
        atoms excepted, and makes their slots read the temporaries. */
    method SeqHoist(slots: array<Slot>, saved: array<Slot>, ghost es: seq<Expr>) returns (binds: seq<(nat, C)>)
      requires slots != saved && slots.Length == saved.Length == |es| >= 2
      requires slots[..] == Operands(es)
      modifies this, slots, saved
      ensures saved[..|es| - 1] == Operands(es)[..|es| - 1] && slots[|es| - 1] == Operand(es[|es| - 1])
      ensures forall j :: 0 <= j < |es| - 1 ==>
                StaysPut(slots[j]) && (slots[j].Operand? ==> slots[j] == Operand(es[j]))
      ensures Progress(es, true, old(temps), |es| - 1, binds, AllInPlace(slots[..|es| - 1]), temps)
      decreases es, 0
    {
      hide LowerOperands, Lower, Progress, IsAtom;
      binds := [];
      ProgressStart(es, true, temps);
      ghost var front: seq<C> := [];
      assert AllInPlace(slots[..0]) == [];
      for i := 0 to slots.Length - 1
        invariant forall j :: i <= j < |es| ==> slots[j] == Operand(es[j])
        invariant forall j :: 0 <= j < i ==>
                    && saved[j] == Operand(es[j]) && StaysPut(slots[j])
                    && (slots[j].Operand? ==> slots[j] == Operand(es[j]))
        invariant Progress(es, true, old(temps), i, binds, AllInPlace(slots[..i]), temps)
      {
        front := AllInPlace(slots[..i]);
        ProgressStep(es, true, old(temps), i, binds, front, temps);
        saved[i] := slots[i];
        var e := slots[i].e;
        assert e == es[i];
        if IsAtom(e) {
          AtomNeedsNoTemp(e, temps);
        } else {
          var t := temps;
          temps := temps + 1;
          var x := EmitExpr(e);
          binds := binds + [(t, x)];
          slots[i] := TempRef(t);
        }
        assert AllInPlace(slots[..i + 1]) == front + [InPlace(slots[i])];
      }
    }

    /** Undoes SeqHoist. */
    method SeqRestore(slots: array<Slot>, saved: array<Slot>)
      requires slots != saved && slots.Length == saved.Length >= 1
      modifies slots
      ensures slots[..] == saved[..saved.Length - 1] + [old(slots[slots.Length - 1])]
    {
      for i := 0 to slots.Length - 1
        invariant forall j :: 0 <= j < i ==> slots[j] == saved[j]
        invariant slots[slots.Length - 1] == old(slots[slots.Length - 1])
      {
        slots[i] := saved[i];
      }
    }

    /** The operand of one slot, where the node reads it. */
    method EmitSlot(slot: Slot, ghost es: seq<Expr>, ghost i: nat) returns (x: C)
      requires i < |es| && (slot.Operand? ==> slot.e == es[i])
      modifies this
      ensures slot.TempRef? ==> x == CTemp(slot.t) && temps == old(temps)
      ensures slot.Operand? ==> (x, temps) == Lower(es[i], old(temps))
      decreases es, 0
    {
      match slot
      case TempRef(t) => x := CTemp(t);
      case Operand(e) => x := EmitExpr(e);
    }

    /** The operands of one node. Emitting leaves the slots as they were. */
    method EmitOperands(es: seq<Expr>, active: bool, slots: array<Slot>) returns (binds: seq<(nat, C)>, ops: seq<C>)
      requires slots[..] == Operands(es)
      modifies this, slots
      ensures Hoisted(binds, ops, temps) == LowerOperands(es, active, old(temps))
      ensures slots[..] == Operands(es)
      decreases es, 1
    {
      hide LowerOperands, Lower, Progress, IsAtom;
      binds, ops := [], [];
      var n := slots.Length;
      ghost var start := temps;
      if active && n >= 2 {
        var saved := new Slot[n](_ => TempRef(0));
        binds := SeqHoist(slots, saved, es);
        ghost var held := slots[..];
        ghost var now := temps;
        assert held[..n - 1] == slots[..n - 1];
        for i := 0 to n - 1
          invariant temps == now && slots[..] == held && saved[..n - 1] == Operands(es)[..n - 1]
          invariant ops == AllInPlace(held[..i])
        {
          if slots[i].Operand? {
            AtomNeedsNoTemp(es[i], temps);
          }
          var x := EmitSlot(slots[i], es, i);
          ops := ops + [x];
          assert held[..i + 1] == held[..i] + [held[i]];
          assert AllInPlace(held[..i + 1]) == AllInPlace(held[..i]) + [InPlace(held[i])];
        }
        ProgressStep(es, true, start, n - 1, binds, ops, now);
        var x := EmitSlot(slots[n - 1], es, n - 1);
        ops := ops + [x];
        ProgressEnd(es, true, start, binds, ops, temps);
        SeqRestore(slots, saved);
        assert Operands(es) == Operands(es)[..n - 1] + [Operand(es[n - 1])];
      } else {
        ProgressStart(es, active, start);
        for i := 0 to n
          invariant slots[..] == Operands(es)
          invariant Progress(es, active, start, i, [], ops, temps)
        {
          ProgressStep(es, active, start, i, [], ops, temps);
          var x := EmitSlot(slots[i], es, i);
          ops := ops + [x];
        }
        ProgressEnd(es, active, start, [], ops, temps);
      }
    }

    /** A node's operands, from fresh slots over its operand list. */
    method EmitNode(es: seq<Expr>, active: bool) returns (binds: seq<(nat, C)>, ops: seq<C>)
      modifies this
      ensures Hoisted(binds, ops, temps) == LowerOperands(es, active, old(temps))
      decreases es, 2
    {
      var slots := new Slot[|es|](i requires 0 <= i < |es| => Operand(es[i]));
      assert slots[..] == Operands(es);
      binds, ops := EmitOperands(es, active, slots);
    }

    /** Two parts, in temporaries or in place. A loop's end goes out before its start. */
    method EmitBoth(form: Form, id: nat, a: Expr, b: Expr) returns (x: C)
      modifies this
      ensures (x, temps) == Lower(Both(form, id, a, b), old(temps))
      decreases Both(form, id, a, b), 2
    {
      var k := if IsEffect(form) then KCall(id) else KOp(id);
      var inTurn := match form {
        case Guarded => true
        case RawSlice(checked) => checked || (HasSideEffects(a) && HasSideEffects(b))
        case Assign => HasSideEffects(a) || HasSideEffects(b)
        case RangeLoop => true
        case _ => false
      };
      if inTurn {
        var t := temps;
        temps := temps + 2;
        if form.RangeLoop? {
          var second := EmitExpr(b);
          var first := EmitExpr(a);
          x := CLet(t, second, CLet(t + 1, first, CNode(k, [CTemp(t + 1), CTemp(t)])));
        } else {
          var first := EmitExpr(a);
          var second := EmitExpr(b);
          x := CLet(t, first, CLet(t + 1, second, CNode(k, [CTemp(t), CTemp(t + 1)])));
        }
      } else {
        var first := EmitExpr(a);
        var second := EmitExpr(b);
        x := CNode(k, [first, second]);
      }
    }

    method EmitExpr(e: Expr) returns (x: C)
      modifies this
      ensures (x, temps) == Lower(e, old(temps))
      decreases e, 3
    {
      hide LowerOperands, SeqNeeded, IsSelfCompare;
      match e
      case Lit(v) => x := CVal(v);
      case Var(v) => x := CRead(v);
      case FnIdent(n, isVar) => x := if isVar then CRead(n) else CFn(n);
      case Call(f, args) =>
        var binds, ops := EmitNode(args, SeqNeeded(args));
        x := Wrap(binds, CNode(KCall(f), ops));
      case CallValue(g, args) =>
        var t := temps;
        temps := temps + 1;
        var callee := EmitExpr(g);
        var binds, ops := EmitNode(args, SeqNeeded(args));
        x := CLet(t, callee, Wrap(binds, CNode(KCallValue, [CTemp(t)] + ops)));
      case Op(op, _, args) =>
        var binds, ops := EmitNode(args, SeqNeeded(args) || IsSelfCompare(e));
        x := Wrap(binds, CNode(KOp(op), ops));
      case Logic(isAnd, l, r) =>
        var a := EmitExpr(l);
        var b := EmitExpr(r);
        x := CLogic(isAnd, a, b);
      case Cond(b, t, f) =>
        var c := EmitExpr(b);
        var y := EmitExpr(t);
        var z := EmitExpr(f);
        x := CCond(c, y, z);
      case Both(form, id, a, b) => x := EmitBoth(form, id, a, b);
    }

    /** An expression the condition admits, emitted: every schedule of the C
        gives FC's left-to-right value and history. */
    method EmitWhole(e: Expr) returns (x: C)
      modifies this
      ensures OrderSafe(e) ==> forall w: World, tr: Trace, sched: seq<seq<nat>>, v: int, tr1: Trace ::
                RunSchedule(w, x, tr, sched) == Some((CVal(v), tr1)) ==> (v, tr1) == SEval(w, e, tr)
    {
      ghost var c := temps;
      x := EmitExpr(e);
      if OrderSafe(e) {
        forall w: World, tr: Trace, sched: seq<seq<nat>>, v: int, tr1: Trace |
          RunSchedule(w, x, tr, sched) == Some((CVal(v), tr1))
          ensures (v, tr1) == SEval(w, e, tr)
        {
          EveryOrderIsLeftToRight(w, e, c, tr, sched);
        }
      }
    }
  }
}
