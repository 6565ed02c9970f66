/** The emitter of type definitions: a depth-first topological sort, and the
    wrappers emitted by a fixpoint that runs again after every definition. */
module TypeOrderEmitter {
  import opened TypeOrderSpec

  // ----- topological sort -----

  datatype Mark = Unvisited | Visiting | Done

  /** An order in which everything a definition holds comes before it. */
  predicate Sorted(p: Program, order: seq<nat>) {
    && Distinct(order)
    && (forall k :: 0 <= k < |order| ==> order[k] < |p.defs|)
    && (forall k, j :: 0 <= k < |order| && 0 <= j < |p.defs| && DependsOn(p, order[k], j) ==> j in order[..k])
  }

  lemma SortedSnoc(p: Program, order: seq<nat>, i: nat)
    requires Sorted(p, order) && i < |p.defs| && i !in order
    requires forall j :: 0 <= j < |p.defs| && DependsOn(p, i, j) ==> j in order
    ensures Sorted(p, order + [i])
  {
    var next := order + [i];
    assert next[..|order|] == order;
    assert forall k :: 0 <= k < |order| ==> next[..k] == order[..k];
  }

  class Sorter {
    const p: Program
    var state: array<Mark>
    var order: seq<nat>

    ghost predicate Valid()
      reads this, state
    {
      && state.Length == |p.defs|
      && Sorted(p, order)
      && (forall i :: 0 <= i < |p.defs| ==> (state[i] == Done <==> i in order))
    }

    constructor (p: Program)
      ensures this.p == p && Valid() && fresh(state) && order == []
      ensures forall i :: 0 <= i < |p.defs| ==> state[i] == Unvisited
    {
      this.p := p;
      state := new Mark[|p.defs|](_ => Unvisited);
      order := [];
    }

    /** The names of the aggregates a definition holds by value. */
    method Deps(idx: nat) returns (deps: seq<nat>)
      requires idx < |p.defs|
      ensures forall n :: n in deps <==>
                !p.defs[idx].isExtern && exists k :: 0 <= k < |p.defs[idx].fields| && ByValue(p.defs[idx].fields[k]) == Some(n)
    {
      deps := [];
      var d := p.defs[idx];
      if d.isExtern { return; }
      for k := 0 to |d.fields|
        invariant forall n :: n in deps <==> exists j :: 0 <= j < k && ByValue(d.fields[j]) == Some(n)
      {
        var dep := ByValue(d.fields[k]);
        if dep.Some? {
          deps := deps + [dep.name];
        }
      }
    }

    /** Visits a definition after everything it holds. Definitions being visited
        stay so; the order only grows. */
    method Visit(idx: nat, ghost rank: seq<nat>)
      requires Valid() && WellFormed(p) && RanksBy(p, rank) && idx < |p.defs|
      requires forall i :: 0 <= i < |p.defs| && state[i] == Visiting ==> rank[idx] < rank[i]
      modifies this`order, state
      ensures Valid() && state == old(state)
      ensures state[idx] == Done && old(order) <= order
      ensures forall i :: 0 <= i < |p.defs| ==> (state[i] == Visiting <==> old(state[i]) == Visiting)
      decreases rank[idx]
    {
      if state[idx] != Unvisited { return; }
      state[idx] := Visiting;
      var deps := Deps(idx);
      for di := 0 to |deps|
        invariant Valid() && old(order) <= order
        invariant forall i :: 0 <= i < |p.defs| ==> (state[i] == Visiting <==> i == idx || old(state[i]) == Visiting)
        invariant forall j, k :: 0 <= j < |p.defs| && 0 <= k < di && p.defs[j].name == deps[k] ==> j in order
      {
        var j := 0;
        while j < |p.defs| && !(j != idx && p.defs[j].name == deps[di])
          invariant j <= |p.defs|
          invariant forall i :: 0 <= i < j ==> i == idx || p.defs[i].name != deps[di]
        {
          j := j + 1;
        }
        NotItself(p, idx, rank);
        assert DependsOn(p, idx, idx) <==> p.defs[idx].name in deps;
        assert deps[di] in deps;
        if j < |p.defs| {
          assert DependsOn(p, idx, j);
          Visit(j, rank);
        }
      }
      forall j | 0 <= j < |p.defs| && DependsOn(p, idx, j) ensures j in order {
        assert p.defs[j].name in deps;
      }
      SortedSnoc(p, order, idx);
      order := order + [idx];
      state[idx] := Done;
    }

    /** Visits all. */
    method Sort(ghost rank: seq<nat>)
      requires Valid() && WellFormed(p) && RanksBy(p, rank)
      requires forall i :: 0 <= i < |p.defs| ==> state[i] == Unvisited
      modifies this`order, state
      ensures Sorted(p, order)
      ensures forall i :: 0 <= i < |p.defs| ==> i in order
    {
      for i := 0 to |p.defs|
        invariant Valid()
        invariant forall j :: 0 <= j < |p.defs| ==> state[j] != Visiting
        invariant forall j :: 0 <= j < i ==> j in order
      {
        Visit(i, rank);
      }
    }
  }

  lemma NotItself(p: Program, idx: nat, rank: seq<nat>)
    requires RanksBy(p, rank) && idx < |p.defs|
    ensures !DependsOn(p, idx, idx)
  {
  }

  // ----- wrappers -----

  class WrapEmit {
    const p: Program
    var optDone: array<bool>
    var resDone: array<bool>
    var defsDone: seq<nat>
    var out: seq<Body>

    /** What has been emitted is what is marked, and is in order. */
    ghost predicate Valid()
      reads this, optDone, resDone
    {
      && optDone != resDone && optDone.Length == |p.options| && resDone.Length == |p.results|
      && WellFormed(p) && Ordered(p, out)
      && (forall i :: 0 <= i < |p.options| ==> (optDone[i] <==> WrapBody(p.options[i]) in out))
      && (forall i :: 0 <= i < |p.results| ==> (resDone[i] <==> WrapBody(p.results[i]) in out))
      && (forall n :: n in defsDone ==> Complete(p, Aggregate(n), out))
      && (forall b :: b in out && b.WrapBody? ==> b.t in p.options || b.t in p.results)
    }

    constructor (p: Program)
      requires WellFormed(p)
      ensures this.p == p && Valid() && fresh(optDone) && fresh(resDone) && out == [] && defsDone == []
    {
      this.p := p;
      optDone := new bool[|p.options|](_ => false);
      resDone := new bool[|p.results|](_ => false);
      defsDone := [];
      out := [];
    }

    /** The test of the fixpoint, as a property of what is emitted. */
    ghost predicate InnerComplete(inner: Type)
      reads this
    {
      match inner
      case Scalar => true
      case FixedArray(_) => true
      case Aggregate(n) => n in defsDone
      case Option(_) => WrapBody(inner) in out
      case Result(_) => WrapBody(inner) in out
    }

    method WrapInnerComplete(inner: Type) returns (ok: bool)
      requires Valid() && Known(p, inner) && !inner.FixedArray?
      ensures ok == InnerComplete(inner)
    {
      match inner
      case Scalar => ok := true;
      case FixedArray(_) => ok := true;
      case Aggregate(n) => ok := n in defsDone;
      case Option(_) =>
        for i := 0 to |p.options|
          invariant forall j :: 0 <= j < i ==> p.options[j] != inner
        {
          if p.options[i] == inner {
            return optDone[i];
          }
        }
        ok := true;
      case Result(_) =>
        for i := 0 to |p.results|
          invariant forall j :: 0 <= j < i ==> p.results[j] != inner
        {
          if p.results[i] == inner {
            return resDone[i];
          }
        }
        ok := true;
    }

    /** Nothing more can be emitted. */
    ghost predicate Settled()
      requires Valid()
      reads this, optDone, resDone
    {
      && (forall i :: 0 <= i < |p.options| && !optDone[i] ==> !InnerComplete(p.options[i].inner))
      && (forall i :: 0 <= i < |p.results| && !resDone[i] ==> !InnerComplete(p.results[i].inner))
    }

    method EmitOption(i: nat)
      requires Valid() && i < |p.options| && !optDone[i] && InnerComplete(p.options[i].inner)
      modifies this`out, optDone
      ensures Valid() && optDone[i] && out == old(out) + [WrapBody(p.options[i])]
      ensures forall j :: 0 <= j < |p.options| && j != i ==> optDone[j] == old(optDone[j])
    {
      hide WellFormed, Ordered, Complete;
      var b := WrapBody(p.options[i]);
      OptionReady(i);
      DoneStays(b);
      out := out + [b];
      optDone[i] := true;
    }

    method EmitResult(i: nat)
      requires Valid() && i < |p.results| && !resDone[i] && InnerComplete(p.results[i].inner)
      modifies this`out, resDone
      ensures Valid() && resDone[i] && out == old(out) + [WrapBody(p.results[i])]
      ensures forall j :: 0 <= j < |p.results| && j != i ==> resDone[j] == old(resDone[j])
    {
      hide WellFormed, Ordered, Complete;
      var b := WrapBody(p.results[i]);
      ResultReady(i);
      DoneStays(b);
      out := out + [b];
      resDone[i] := true;
    }

    lemma OptionShape(i: nat)
      requires Valid() && i < |p.options|
      ensures p.options[i].Option? && Known(p, p.options[i].inner) && !p.options[i].inner.FixedArray?
    {
      assert Known(p, p.options[i]);
    }

    lemma ResultShape(i: nat)
      requires Valid() && i < |p.results|
      ensures p.results[i].Result? && Known(p, p.results[i].inner) && !p.results[i].inner.FixedArray?
    {
      assert Known(p, p.results[i]);
    }

    lemma OptionReady(i: nat)
      requires Valid() && i < |p.options| && !optDone[i] && InnerComplete(p.options[i].inner)
      ensures Ordered(p, out + [WrapBody(p.options[i])]) && p.options[i].Option?
      ensures forall j :: 0 <= j < |p.options| && j != i ==> p.options[j] != p.options[i]
      ensures forall j :: 0 <= j < |p.results| ==> p.results[j] != p.options[i]
    {
      assert Known(p, p.options[i]);
      OrderedSnoc(p, out, WrapBody(p.options[i]));
    }

    lemma ResultReady(i: nat)
      requires Valid() && i < |p.results| && !resDone[i] && InnerComplete(p.results[i].inner)
      ensures Ordered(p, out + [WrapBody(p.results[i])]) && p.results[i].Result?
      ensures forall j :: 0 <= j < |p.results| && j != i ==> p.results[j] != p.results[i]
      ensures forall j :: 0 <= j < |p.options| ==> p.options[j] != p.results[i]
    {
      assert Known(p, p.results[i]);
      OrderedSnoc(p, out, WrapBody(p.results[i]));
    }

    lemma DoneStays(b: Body)
      requires Valid()
      ensures forall n :: n in defsDone ==> Complete(p, Aggregate(n), out + [b])
    {
    }

    /** One pass over the options; `progress` when it emitted any. */
    method EmitOptions() returns (progress: bool)
      requires Valid()
      modifies this`out, optDone
      ensures Valid() && old(out) <= out
      ensures forall n :: DefBody(n) in out <==> DefBody(n) in old(out)
      ensures progress ==> Pending(optDone[..]) < old(Pending(optDone[..]))
      ensures !progress ==> out == old(out) && optDone[..] == old(optDone[..])
      ensures !progress ==> forall i :: 0 <= i < |p.options| && !optDone[i] ==> !InnerComplete(p.options[i].inner)
    {
      progress := false;
      for i := 0 to |p.options|
        invariant Valid() && old(out) <= out
        invariant forall n :: DefBody(n) in out <==> DefBody(n) in old(out)
        invariant progress ==> Pending(optDone[..]) < old(Pending(optDone[..]))
        invariant !progress ==> out == old(out) && optDone[..] == old(optDone[..])
        invariant !progress ==> forall j :: 0 <= j < i && !optDone[j] ==> !InnerComplete(p.options[j].inner)
      {
        hide Ordered, Complete, Known, WellFormed;
        if optDone[i] { continue; }
        OptionShape(i);
        var ok := WrapInnerComplete(p.options[i].inner);
        if !ok { continue; }
        ghost var was := optDone[..];
        EmitOption(i);
        assert optDone[..] == was[i := true];
        PendingLess(was, i);
        progress := true;
      }
    }

    method EmitResults() returns (progress: bool)
      requires Valid()
      modifies this`out, resDone
      ensures Valid() && old(out) <= out
      ensures forall n :: DefBody(n) in out <==> DefBody(n) in old(out)
      ensures progress ==> Pending(resDone[..]) < old(Pending(resDone[..]))
      ensures !progress ==> out == old(out) && resDone[..] == old(resDone[..])
      ensures !progress ==> forall i :: 0 <= i < |p.results| && !resDone[i] ==> !InnerComplete(p.results[i].inner)
    {
      progress := false;
      for i := 0 to |p.results|
        invariant Valid() && old(out) <= out
        invariant forall n :: DefBody(n) in out <==> DefBody(n) in old(out)
        invariant progress ==> Pending(resDone[..]) < old(Pending(resDone[..]))
        invariant !progress ==> out == old(out) && resDone[..] == old(resDone[..])
        invariant !progress ==> forall j :: 0 <= j < i && !resDone[j] ==> !InnerComplete(p.results[j].inner)
      {
        hide Ordered, Complete, Known, WellFormed;
        if resDone[i] { continue; }
        ResultShape(i);
        var ok := WrapInnerComplete(p.results[i].inner);
        if !ok { continue; }
        ghost var was := resDone[..];
        EmitResult(i);
        assert resDone[..] == was[i := true];
        PendingLess(was, i);
        progress := true;
      }
    }

    /** Emits every wrapper whose inner type is complete, until none is left. */
    method EmitWrapperBodies()
      requires Valid()
      modifies this`out, optDone, resDone
      ensures Valid() && Settled()
      ensures old(out) <= out && forall n :: DefBody(n) in out <==> DefBody(n) in old(out)
    {
      var progress := true;
      while progress
        invariant Valid() && old(out) <= out
        invariant forall n :: DefBody(n) in out <==> DefBody(n) in old(out)
        invariant !progress ==> Settled()
        decreases Pending(optDone[..]) + Pending(resDone[..]), progress
      {
        var some := EmitOptions();
        var more := EmitResults();
        progress := some || more;
      }
    }

    /** What a settled fixpoint has reached: everything whose aggregate is done. */
    lemma {:induction false} SettledComplete(t: Type)
      requires Valid() && Settled() && Known(p, t)
      requires ByValue(t).Some? ==> ByValue(t).name in defsDone
      ensures Complete(p, t, out)
      decreases t
    {
      match t
      case Scalar =>
      case Aggregate(n) =>
      case FixedArray(e) => SettledComplete(e);
      case Option(i) =>
        SettledComplete(i);
        var k :| 0 <= k < |p.options| && p.options[k] == t;
        assert InnerComplete(i);
      case Result(i) =>
        SettledComplete(i);
        var k :| 0 <= k < |p.results| && p.results[k] == t;
        assert InnerComplete(i);
    }

    /** One definition, and the wrappers it unlocks. */
    method EmitDef(idx: nat)
      requires Valid() && Settled() && idx < |p.defs|
      requires DefBody(p.defs[idx].name) !in out
      requires forall j :: 0 <= j < |p.defs| && DependsOn(p, idx, j) ==> p.defs[j].name in defsDone
      modifies this, optDone, resDone
      ensures optDone == old(optDone) && resDone == old(resDone)
      ensures Valid() && Settled() && defsDone == old(defsDone) + [p.defs[idx].name]
      ensures old(out) <= out
      ensures forall n :: DefBody(n) in out <==> DefBody(n) in old(out) || (n == p.defs[idx].name && !p.defs[idx].isExtern)
    {
      var d := p.defs[idx];
      if !d.isExtern {
        var b := DefBody(d.name);
        forall k | 0 <= k < |d.fields| ensures Complete(p, d.fields[k], out) {
          FieldDone(idx, k);
          SettledComplete(d.fields[k]);
        }
        assert Ready(p, b, out) by {
          forall i, k | 0 <= i < |p.defs| && p.defs[i].name == d.name && 0 <= k < |p.defs[i].fields|
            ensures Complete(p, p.defs[i].fields[k], out)
          {
            assert i == idx;
          }
        }
        OrderedSnoc(p, out, b);
        DoneStays(b);
        out := out + [b];
      }
      defsDone := defsDone + [d.name];
      assert Valid();
      EmitWrapperBodies();
    }

    lemma FieldDone(idx: nat, k: nat)
      requires Valid() && idx < |p.defs| && k < |p.defs[idx].fields| && !p.defs[idx].isExtern
      requires forall j :: 0 <= j < |p.defs| && DependsOn(p, idx, j) ==> p.defs[j].name in defsDone
      ensures Known(p, p.defs[idx].fields[k])
      ensures ByValue(p.defs[idx].fields[k]).Some? ==> ByValue(p.defs[idx].fields[k]).name in defsDone
    {
      var t := p.defs[idx].fields[k];
      if ByValue(t).Some? {
        KnownHasDef(p, t);
        var j :| 0 <= j < |p.defs| && p.defs[j].name == ByValue(t).name;
        assert DependsOn(p, idx, j);
      }
    }

    /** All definitions in the given order, and all wrappers. */
    method EmitAll(order: seq<nat>)
      requires Valid() && out == [] && defsDone == [] && Sorted(p, order)
      requires forall i :: 0 <= i < |p.defs| ==> i in order
      modifies this, optDone, resDone
      ensures Ordered(p, out) && Covers(p, out)
    {
      EmitWrapperBodies();
      for k := 0 to |order|
        invariant Valid() && Settled() && optDone == old(optDone) && resDone == old(resDone)
        invariant forall i :: 0 <= i < |p.defs| ==> (p.defs[i].name in defsDone <==> i in order[..k])
        invariant forall n :: DefBody(n) in out <==>
                    exists i :: 0 <= i < |p.defs| && p.defs[i].name == n && !p.defs[i].isExtern && i in order[..k]
      {
        assert order[..k + 1] == order[..k] + [order[k]];
        assert order[k] !in order[..k];
        EmitDef(order[k]);
      }
      assert order[..|order|] == order;
      forall i | 0 <= i < |p.options| ensures WrapBody(p.options[i]) in out {
        KnownHasDefDone(p.options[i], order);
        SettledComplete(p.options[i]);
      }
      forall i | 0 <= i < |p.results| ensures WrapBody(p.results[i]) in out {
        KnownHasDefDone(p.results[i], order);
        SettledComplete(p.results[i]);
      }
    }

    lemma KnownHasDefDone(t: Type, order: seq<nat>)
      requires Valid() && Known(p, t)
      requires forall i :: 0 <= i < |p.defs| ==> p.defs[i].name in defsDone
      ensures ByValue(t).Some? ==> ByValue(t).name in defsDone
    {
      if ByValue(t).Some? {
        KnownHasDef(p, t);
      }
    }
  }

  lemma {:induction false} KnownHasDef(p: Program, t: Type)
    requires Known(p, t) && ByValue(t).Some?
    ensures HasDef(p, ByValue(t).name)
    decreases t
  {
    match t
    case FixedArray(e) => KnownHasDef(p, e);
    case Option(i) => KnownHasDef(p, i);
    case Result(i) => KnownHasDef(p, i);
    case _ =>
  }

  /** How many wrappers are still to be emitted. */
  function Pending(done: seq<bool>): nat {
    if done == [] then 0 else (if done[0] then 0 else 1) + Pending(done[1..])
  }

  lemma {:induction false} PendingLess(done: seq<bool>, i: nat)
    requires i < |done| && !done[i]
    ensures Pending(done[i := true]) < Pending(done)
    decreases |done|
  {
    if i == 0 {
      assert done[i := true][1..] == done[1..];
    } else {
      assert done[i := true][1..] == done[1..][i - 1 := true];
      PendingLess(done[1..], i - 1);
    }
  }

  /** The definitions of a program whose types hold each other without a cycle:
      every body once, each after all it holds by value, and none missing. */
  method EmitTypes(p: Program) returns (out: seq<Body>)
    requires WellFormed(p) && Acyclic(p)
    ensures Ordered(p, out) && Covers(p, out)
  {
    ghost var rank :| RanksBy(p, rank);
    var sorter := new Sorter(p);
    sorter.Sort(rank);
    var we := new WrapEmit(p);
    we.EmitAll(sorter.order);
    out := we.out;
  }
}
