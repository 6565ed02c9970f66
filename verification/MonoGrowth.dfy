/** What the cap on the depth of type arguments bounds, and what it does not. */
module MonoGrowth {
  import opened MonoTypes
  import opened MonoTable

  // ----- the types of an alphabet -----

  /** What types may be built from. `tuples`: tuples as well; `steps`: any constant,
      which is what `'n + k` reaches. */
  datatype Alphabet = Alphabet(
    prims: set<nat>, vars: set<nat>, consts: set<int>, wraps: set<nat>, templates: set<nat>, funs: set<nat>,
    arity: nat, tuples: bool, steps: bool)

  predicate Over(al: Alphabet, t: Ty)
    decreases t
  {
    match t
    case Prim(id) => id in al.prims
    case Var(i) => i in al.vars
    case Const(n) => n in al.consts || al.steps
    case ConstPlus(i, _) => i in al.vars && al.steps
    case Wrap(k, inner) => k in al.wraps && Over(al, inner)
    case Func(ps, r) => |ps| <= al.arity && Over(al, r) && forall i :: 0 <= i < |ps| ==> Over(al, ps[i])
    case Tuple(es) => al.tuples && |es| <= al.arity && forall i :: 0 <= i < |es| ==> Over(al, es[i])
    case Stub(tm, bs) => tm in al.templates && |bs| <= al.arity && forall i :: 0 <= i < |bs| ==> Over(al, bs[i])
    case Agg(tm, bs, fs, _) =>
      && tm in al.templates && |bs| <= al.arity && (forall i :: 0 <= i < |bs| ==> Over(al, bs[i]))
      && (forall i :: 0 <= i < |fs| ==> Over(al, fs[i]))
  }

  predicate AllOver(al: Alphabet, ts: seq<Ty>) {
    forall i :: 0 <= i < |ts| ==> Over(al, ts[i])
  }

  predicate EntryOver(al: Alphabet, e: Entry) {
    && AllOver(al, e.args) && |e.args| <= al.arity
    && match e
       case TypeEntry(tm, _) => tm in al.templates
       case TupleEntry(_) => al.tuples
       case FunEntry(f, _) => f in al.funs
  }

  predicate ItemOver(al: Alphabet, item: Item) {
    match item
    case Call(f, bs) => f in al.funs && |bs| <= al.arity && AllOver(al, bs)
    case Use(t) => Over(al, t)
    case TupleLit(es) => al.tuples && |es| <= al.arity && AllOver(al, es)
  }

  predicate ProgramOver(al: Alphabet, p: Program) {
    && (forall i :: 0 <= i < |p.types| ==> AllOver(al, p.types[i]))
    && (forall f, i :: 0 <= f < |p.funs| && 0 <= i < |p.funs[f]| ==> ItemOver(al, p.funs[f][i]))
  }

  predicate SeedsOver(al: Alphabet, seeds: seq<Entry>) {
    forall i :: 0 <= i < |seeds| ==> EntryOver(al, seeds[i])
  }

  /** Discovery stays in the alphabet. */
  lemma {:induction false} SubstOver(al: Alphabet, t: Ty, args: seq<Ty>)
    requires Over(al, t) && AllOver(al, args)
    ensures Over(al, Subst(t, args))
    decreases t
  {
    match t
    case Wrap(_, inner) => SubstOver(al, inner, args);
    case Func(ps, r) =>
      SubstOver(al, r, args);
      forall i | 0 <= i < |ps| ensures Over(al, SubstAll(ps, args)[i]) { SubstOver(al, ps[i], args); }
    case Tuple(es) =>
      forall i | 0 <= i < |es| ensures Over(al, SubstAll(es, args)[i]) { SubstOver(al, es[i], args); }
    case Stub(_, bs) =>
      forall i | 0 <= i < |bs| ensures Over(al, SubstAll(bs, args)[i]) { SubstOver(al, bs[i], args); }
    case Agg(_, bs, fs, _) =>
      forall i | 0 <= i < |bs| ensures Over(al, SubstAll(bs, args)[i]) { SubstOver(al, bs[i], args); }
      forall i | 0 <= i < |fs| ensures Over(al, SubstAll(fs, args)[i]) { SubstOver(al, fs[i], args); }
    case _ =>
  }

  lemma SubstAllOver(al: Alphabet, ts: seq<Ty>, args: seq<Ty>)
    requires AllOver(al, ts) && AllOver(al, args)
    ensures AllOver(al, SubstAll(ts, args))
  {
    forall i | 0 <= i < |ts| ensures Over(al, SubstAll(ts, args)[i]) { SubstOver(al, ts[i], args); }
  }

  lemma {:induction false} NamesOver(al: Alphabet, t: Ty, e: Entry)
    requires Over(al, t) && Names(t, e)
    ensures EntryOver(al, e)
    decreases t
  {
    match t
    case Wrap(_, inner) => NamesOver(al, inner, e);
    case Func(ps, r) =>
      if Names(r, e) {
        NamesOver(al, r, e);
      } else {
        var i :| 0 <= i < |ps| && Names(ps[i], e);
        NamesOver(al, ps[i], e);
      }
    case Tuple(es) =>
      if e != TupleEntry(es) {
        var i :| 0 <= i < |es| && Names(es[i], e);
        NamesOver(al, es[i], e);
      }
    case Stub(tm, bs) => assert e == TypeEntry(tm, bs);
    case Agg(tm, bs, fs, _) =>
      if i :| 0 <= i < |bs| && Names(bs[i], e) {
        NamesOver(al, bs[i], e);
      } else if i :| 0 <= i < |fs| && Names(fs[i], e) {
        NamesOver(al, fs[i], e);
      }
    case _ =>
  }

  lemma MakesOver(al: Alphabet, p: Program, e1: Entry, e2: Entry)
    requires ProgramOver(al, p) && EntryOver(al, e1) && Makes(p, e1, e2)
    ensures EntryOver(al, e2)
  {
    hide Over, Subst, SubstAll, Names;
    match e1
    case FunEntry(f, args) =>
      var i :| 0 <= i < |p.funs[f]| && ItemMakes(p.funs[f][i], args, e2);
      assert ItemOver(al, p.funs[f][i]);
      ItemMakesOver(al, p.funs[f][i], args, e2);
    case TypeEntry(tm, args) =>
      var fs := FieldsOf(p, e1);
      if tm < |p.types| {
        SubstAllOver(al, p.types[tm], args);
      }
      var i :| 0 <= i < |fs| && Names(fs[i], e2);
      NamesOver(al, fs[i], e2);
    case TupleEntry(args) =>
      var i :| 0 <= i < |args| && Names(args[i], e2);
      NamesOver(al, args[i], e2);
  }

  lemma ItemMakesOver(al: Alphabet, item: Item, args: seq<Ty>, e: Entry)
    requires ItemOver(al, item) && AllOver(al, args) && ItemMakes(item, args, e)
    ensures EntryOver(al, e)
  {
    match item
    case Call(_, bs) =>
      var concrete := SubstAll(bs, args);
      SubstAllOver(al, bs, args);
      if AnyNames(concrete, e) {
        var i :| 0 <= i < |concrete| && Names(concrete[i], e);
        NamesOver(al, concrete[i], e);
      }
    case Use(t) =>
      SubstOver(al, t, args);
      NamesOver(al, Subst(t, args), e);
    case TupleLit(es) => SubstAllOver(al, es, args);
  }

  lemma {:induction false} GroundedOver(al: Alphabet, p: Program, seeds: seq<Entry>, entries: seq<Entry>, k: nat)
    requires ProgramOver(al, p) && SeedsOver(al, seeds) && Grounded(p, seeds, entries) && k < |entries|
    ensures EntryOver(al, entries[k])
    decreases k
  {
    hide EntryOver, Makes, ProgramOver;
    if entries[k] !in seeds {
      var j :| 0 <= j < k && Makes(p, entries[j], entries[k]);
      GroundedOver(al, p, seeds, entries, j);
      MakesOver(al, p, entries[j], entries[k]);
    }
  }

  // ----- without tuples and steps there are only so many types of a depth -----

  function Rows(ts: set<Ty>, n: nat): set<seq<Ty>> {
    if n == 0 then {[]}
    else {[]} + set t, s | t in ts && s in Rows(ts, n - 1) :: [t] + s
  }

  lemma {:induction false} RowsHold(ts: set<Ty>, n: nat, s: seq<Ty>)
    requires |s| <= n && forall i :: 0 <= i < |s| ==> s[i] in ts
    ensures s in Rows(ts, n)
    decreases n
  {
    if s != [] {
      RowsHold(ts, n - 1, s[1..]);
      assert s == [s[0]] + s[1..];
    }
  }

  /** The spellings up to a depth. */
  function Types(al: Alphabet, d: nat): set<Ty> {
    if d == 0 then {}
    else
      var below := Types(al, d - 1);
      var rows := Rows(below, al.arity);
      (set i | i in al.prims :: Prim(i)) + (set i | i in al.vars :: Var(i)) + (set n | n in al.consts :: Const(n))
      + (set k, t | k in al.wraps && t in below :: Wrap(k, t))
      + (set ps, r | ps in rows && r in below :: Func(ps, r))
      + (set tm, bs | tm in al.templates && bs in rows :: Stub(tm, bs))
  }

  lemma {:induction false} DeepestAt(ts: seq<Ty>, i: nat)
    requires i < |ts|
    ensures Depth(ts[i]) <= MaxDepth(ts)
  {
    if i > 0 {
      DeepestAt(ts[1..], i - 1);
    }
  }

  lemma TypesShape(al: Alphabet, d: nat)
    ensures d > 0 ==>
              var below := Types(al, d - 1);
              && (forall i :: i in al.prims ==> Prim(i) in Types(al, d))
              && (forall i :: i in al.vars ==> Var(i) in Types(al, d))
              && (forall n :: n in al.consts ==> Const(n) in Types(al, d))
              && (forall k, t :: k in al.wraps && t in below ==> Wrap(k, t) in Types(al, d))
              && (forall ps, r :: ps in Rows(below, al.arity) && r in below ==> Func(ps, r) in Types(al, d))
              && (forall tm, bs :: tm in al.templates && bs in Rows(below, al.arity) ==> Stub(tm, bs) in Types(al, d))
  {
    hide Rows;
  }

  lemma {:induction false} TypesHold(al: Alphabet, t: Ty, d: nat)
    requires !al.tuples && !al.steps && Over(al, t) && Depth(t) <= d
    ensures Canon(t) in Types(al, d)
    decreases t, 1
  {
    hide Types, Rows, MaxDepth;
    TypesShape(al, d);
    match t
    case Wrap(_, inner) => TypesHold(al, inner, d - 1);
    case Func(ps, r) =>
      TypesHold(al, r, d - 1);
      RowTypesHold(al, ps, d - 1);
    case Stub(_, bs) => RowTypesHold(al, bs, d - 1);
    case Agg(_, bs, _, _) => RowTypesHold(al, bs, d - 1);
    case _ =>
  }

  lemma {:induction false} RowTypesHold(al: Alphabet, ts: seq<Ty>, d: nat)
    requires !al.tuples && !al.steps && AllOver(al, ts) && |ts| <= al.arity && MaxDepth(ts) <= d
    ensures CanonAll(ts) in Rows(Types(al, d), al.arity)
    decreases ts, 0
  {
    hide Types, Rows, Canon;
    forall i | 0 <= i < |ts| ensures CanonAll(ts)[i] in Types(al, d) {
      DeepestAt(ts, i);
      TypesHold(al, ts[i], d);
    }
    RowsHold(Types(al, d), al.arity, CanonAll(ts));
  }

  /** The instances of the alphabet that the depth cap admits, by name. */
  function Instances(al: Alphabet): set<Entry> {
    var rows := Rows(Types(al, MAX_DEPTH), al.arity);
    (set tm, s | tm in al.templates && s in rows :: TypeEntry(tm, s)) + (set f, s | f in al.funs && s in rows :: FunEntry(f, s))
  }

  /** What the table would be if the depth cap alone stopped discovery. */
  ghost predicate Admitted(p: Program, seeds: seq<Entry>, entries: seq<Entry>) {
    Grounded(p, seeds, entries) && forall i :: 0 <= i < |entries| ==> !TooDeep(entries[i])
  }

  predicate NamesIn(entries: seq<Entry>, names: set<Entry>) {
    forall i :: 0 <= i < |entries| ==> Key(entries[i]) in names
  }

  /** The depth cap alone leaves only finitely many instances to discover. */
  ghost predicate Bounded(p: Program, seeds: seq<Entry>) {
    exists names: set<Entry> :: BoundedBy(p, seeds, names)
  }

  ghost predicate BoundedBy(p: Program, seeds: seq<Entry>, names: set<Entry>) {
    forall entries: seq<Entry> :: Admitted(p, seeds, entries) ==> NamesIn(entries, names)
  }

  lemma DepthCapBounds(al: Alphabet, p: Program, seeds: seq<Entry>)
    requires ProgramOver(al, p) && SeedsOver(al, seeds) && !al.tuples && !al.steps
    ensures Bounded(p, seeds)
  {
    hide Types, Rows, ProgramOver, SeedsOver, Grounded;
    forall entries: seq<Entry> | Admitted(p, seeds, entries) ensures NamesIn(entries, Instances(al)) {
      forall k | 0 <= k < |entries| ensures Key(entries[k]) in Instances(al) {
        GroundedOver(al, p, seeds, entries, k);
        RowTypesHold(al, entries[k].args, MAX_DEPTH);
      }
    }
    assert BoundedBy(p, seeds, Instances(al));
  }

  // ----- families the cap does not see -----

  /** `f<'a>` calls `f<{ 'a, x }>`. */
  function GrowingTuple(x: nat): Program {
    Program([], [[Call(0, [Tuple([Var(0), Prim(x)])])]])
  }

  /** `f<'n>` calls `f<'n + 1>`. */
  function GrowingConst(): Program {
    Program([], [[Call(0, [ConstPlus(0, 1)])]])
  }

  function Pairs(x: nat, n: nat): Ty {
    if n == 0 then Prim(x) else Tuple([Pairs(x, n - 1), Prim(x)])
  }

  function PairInstance(x: nat, n: nat): Entry {
    FunEntry(0, [Pairs(x, n)])
  }

  function ConstInstance(n: nat): Entry {
    FunEntry(0, [Const(n)])
  }

  lemma {:induction false} PairsPlain(x: nat, n: nat)
    ensures Canon(Pairs(x, n)) == Pairs(x, n) && Depth(Pairs(x, n)) == 1 && !HasVar(Pairs(x, n))
  {
    if n > 0 {
      PairsPlain(x, n - 1);
      assert CanonAll([Pairs(x, n - 1), Prim(x)]) == [Pairs(x, n - 1), Prim(x)];
    }
  }

  lemma {:induction false} PairsDiffer(x: nat, n: nat, m: nat)
    requires Pairs(x, n) == Pairs(x, m)
    ensures n == m
  {
    if n > 0 && m > 0 {
      assert Pairs(x, n).elems[0] == Pairs(x, m).elems[0];
      PairsDiffer(x, n - 1, m - 1);
    }
  }

  lemma PairKey(x: nat, n: nat)
    ensures Key(PairInstance(x, n)) == PairInstance(x, n) && !TooDeep(PairInstance(x, n)) && !AnyVar([Pairs(x, n)])
  {
    PairsPlain(x, n);
    assert CanonAll([Pairs(x, n)]) == [Pairs(x, n)];
    assert MaxDepth([Pairs(x, n)]) == 1;
  }

  lemma PairArgs(x: nat, n: nat)
    ensures SubstAll([Tuple([Var(0), Prim(x)])], [Pairs(x, n)]) == [Pairs(x, n + 1)]
  {
    var args, es := [Pairs(x, n)], [Var(0), Prim(x)];
    assert SubstAll(es, args) == [Pairs(x, n), Prim(x)];
    assert Subst(Tuple(es), args) == Pairs(x, n + 1);
  }

  /** One turn of the growing call. */
  lemma PairStep(x: nat, n: nat)
    ensures Makes(GrowingTuple(x), PairInstance(x, n), PairInstance(x, n + 1))
    ensures Requires(GrowingTuple(x), PairInstance(x, n), Key(PairInstance(x, n + 1)))
  {
    hide Subst, SubstAll, Key, Pairs, HasVar;
    PairArgs(x, n);
    PairKey(x, n + 1);
    var item := Call(0, [Tuple([Var(0), Prim(x)])]);
    assert GrowingTuple(x).funs[0][0] == item;
    assert ItemMakes(item, [Pairs(x, n)], PairInstance(x, n + 1));
    assert ItemNeeds(item, [Pairs(x, n)], Key(PairInstance(x, n + 1)));
  }

  function PairInstances(x: nat, n: nat): (es: seq<Entry>)
    ensures |es| == n && forall i :: 0 <= i < n ==> es[i] == PairInstance(x, i)
  {
    seq(n, i requires 0 <= i < n => PairInstance(x, i))
  }

  function ConstInstances(n: nat): (es: seq<Entry>)
    ensures |es| == n && forall i :: 0 <= i < n ==> es[i] == ConstInstance(i)
  {
    seq(n, i requires 0 <= i < n => ConstInstance(i))
  }

  lemma PairsAdmitted(x: nat, n: nat)
    ensures Admitted(GrowingTuple(x), [PairInstance(x, 0)], PairInstances(x, n))
  {
    hide Makes, TooDeep, PairInstance, GrowingTuple;
    var es := PairInstances(x, n);
    forall k | 0 <= k < n
      ensures !TooDeep(es[k])
      ensures es[k] in [PairInstance(x, 0)] || exists j :: 0 <= j < k && Makes(GrowingTuple(x), es[j], es[k])
    {
      PairKey(x, k);
      if k > 0 {
        PairStep(x, k - 1);
        assert Makes(GrowingTuple(x), es[k - 1], es[k]);
      }
    }
  }

  lemma ConstsAdmitted(n: nat)
    ensures Admitted(GrowingConst(), [ConstInstance(0)], ConstInstances(n))
  {
    var es := ConstInstances(n);
    forall k | 0 <= k < n
      ensures !TooDeep(es[k])
      ensures es[k] in [ConstInstance(0)] || exists j :: 0 <= j < k && Makes(GrowingConst(), es[j], es[k])
    {
      assert MaxDepth([Const(k)]) == 1;
      if k > 0 {
        var item := Call(0, [ConstPlus(0, 1)]);
        assert GrowingConst().funs[0][0] == item;
        assert SubstAll([ConstPlus(0, 1)], [Const(k - 1)]) == [Const(k)];
        assert ItemMakes(item, es[k - 1].args, es[k]);
        assert Makes(GrowingConst(), es[k - 1], es[k]);
      }
    }
  }

  /** A list with more names than a set does not stay in it. */
  lemma {:induction false} TooMany(es: seq<Entry>, names: set<Entry>)
    requires |es| > |names| && forall i, j :: 0 <= i < j < |es| ==> Key(es[i]) != Key(es[j])
    ensures !NamesIn(es, names)
    decreases |es|
  {
    var n := |es| - 1;
    var last := Key(es[n]);
    if last in names {
      TooMany(es[..n], names - {last});
      var i :| 0 <= i < n && Key(es[..n][i]) !in names - {last};
      assert Key(es[i]) !in names;
    }
  }

  lemma PairNames(x: nat, i: nat, j: nat)
    requires i != j
    ensures Key(PairInstance(x, i)) != Key(PairInstance(x, j))
  {
    PairKey(x, i);
    PairKey(x, j);
    if Pairs(x, i) == Pairs(x, j) {
      PairsDiffer(x, i, j);
    }
  }

  lemma PairsUnbounded(x: nat)
    ensures !Bounded(GrowingTuple(x), [PairInstance(x, 0)])
  {
    hide Admitted, NamesIn, PairInstance;
    forall names: set<Entry> ensures !BoundedBy(GrowingTuple(x), [PairInstance(x, 0)], names) {
      var es := PairInstances(x, |names| + 1);
      PairsAdmitted(x, |names| + 1);
      forall i, j | 0 <= i < j < |es| ensures Key(es[i]) != Key(es[j]) {
        PairNames(x, i, j);
      }
      TooMany(es, names);
    }
  }

  lemma ConstsUnbounded()
    ensures !Bounded(GrowingConst(), [ConstInstance(0)])
  {
    hide Admitted, NamesIn;
    forall names: set<Entry> ensures !BoundedBy(GrowingConst(), [ConstInstance(0)], names) {
      var es := ConstInstances(|names| + 1);
      ConstsAdmitted(|names| + 1);
      forall i, j | 0 <= i < j < |es| ensures Key(es[i]) != Key(es[j]) {
        assert CanonAll([Const(i)])[0] == Const(i) && CanonAll([Const(j)])[0] == Const(j);
      }
      TooMany(es, names);
    }
  }

  ghost predicate AllBounded(al: Alphabet) {
    forall p: Program, seeds: seq<Entry> :: ProgramOver(al, p) && SeedsOver(al, seeds) ==> Bounded(p, seeds)
  }

  /** Exactly when the depth cap alone makes discovery end: on the programs over an
      alphabet in which something can be called and paired, when they may not build
      tuples nor step constants. */
  lemma DepthCapExact(al: Alphabet, x: nat)
    requires x in al.prims && 0 in al.vars && 0 in al.funs && al.arity >= 2
    ensures AllBounded(al) <==> !al.tuples && !al.steps
  {
    hide Bounded, BoundedBy;
    if !al.tuples && !al.steps {
      forall p: Program, seeds: seq<Entry> | ProgramOver(al, p) && SeedsOver(al, seeds) ensures Bounded(p, seeds) {
        DepthCapBounds(al, p, seeds);
      }
    }
    if al.tuples {
      var p, seeds := GrowingTuple(x), [PairInstance(x, 0)];
      assert Over(al, Tuple([Var(0), Prim(x)]));
      assert ItemOver(al, p.funs[0][0]);
      assert ProgramOver(al, p);
      assert EntryOver(al, seeds[0]);
      PairsUnbounded(x);
    }
    if al.steps {
      var p, seeds := GrowingConst(), [ConstInstance(0)];
      assert ItemOver(al, p.funs[0][0]);
      assert ProgramOver(al, p);
      assert EntryOver(al, seeds[0]);
      ConstsUnbounded();
    }
  }

  // ----- discovery on the growing program -----

  /** All that the growing program makes: its instances, and the tuples they take. */
  ghost predicate Grown(x: nat, e: Entry) {
    if e.FunEntry? then exists n: nat :: e == PairInstance(x, n)
    else exists n: nat :: e == TupleEntry([Pairs(x, n), Prim(x)])
  }

  lemma {:induction false} PairsName(x: nat, n: nat, e: Entry)
    requires Names(Pairs(x, n), e)
    ensures !e.FunEntry? && Grown(x, e)
  {
    if n > 0 {
      var es := [Pairs(x, n - 1), Prim(x)];
      if e != TupleEntry(es) {
        var i :| 0 <= i < 2 && Names(es[i], e);
        PairsName(x, n - 1, e);
      }
    }
  }

  lemma GrownMakes(x: nat, e1: Entry, e2: Entry)
    requires Grown(x, e1) && Makes(GrowingTuple(x), e1, e2)
    ensures Grown(x, e2)
  {
    if e1.FunEntry? {
      var n: nat :| e1 == PairInstance(x, n);
      PairArgs(x, n);
      var row := [Pairs(x, n + 1)];
      assert ItemMakes(GrowingTuple(x).funs[0][0], e1.args, e2);
      if e2 == FunEntry(0, row) {
        assert e2 == PairInstance(x, n + 1);
      } else {
        var i :| 0 <= i < |row| && Names(row[i], e2);
        PairsName(x, n + 1, e2);
      }
    } else {
      var n: nat :| e1 == TupleEntry([Pairs(x, n), Prim(x)]);
      var fs := FieldsOf(GrowingTuple(x), e1);
      var i :| 0 <= i < |fs| && Names(fs[i], e2);
      PairsName(x, n, e2);
    }
  }

  lemma {:induction false} AllGrown(x: nat, entries: seq<Entry>, k: nat)
    requires Grounded(GrowingTuple(x), [PairInstance(x, 0)], entries) && k < |entries|
    ensures Grown(x, entries[k])
    decreases k
  {
    hide Makes, Grown, GrowingTuple;
    if entries[k] in [PairInstance(x, 0)] {
      FirstGrown(x);
    } else {
      var j :| 0 <= j < k && Makes(GrowingTuple(x), entries[j], entries[k]);
      AllGrown(x, entries, j);
      GrownMakes(x, entries[j], entries[k]);
    }
  }

  lemma FirstGrown(x: nat)
    ensures Grown(x, PairInstance(x, 0))
  {
  }

  lemma {:induction false} ClosedHasPairs(x: nat, entries: seq<Entry>, n: nat)
    requires Grounded(GrowingTuple(x), [PairInstance(x, 0)], entries) && Closed(GrowingTuple(x), entries)
    requires Has(entries, Key(PairInstance(x, 0)))
    ensures Has(entries, PairInstance(x, n))
  {
    hide Requires, Makes, GrowingTuple, Grounded, PairInstance, Key;
    PairKey(x, n);
    if n > 0 {
      ClosedHasPairs(x, entries, n - 1);
      var i :| 0 <= i < |entries| && Key(entries[i]) == PairInstance(x, n - 1);
      AllGrown(x, entries, i);
      OnlyItself(x, entries[i], n - 1);
      PairStep(x, n - 1);
    }
  }

  lemma OnlyItself(x: nat, e: Entry, n: nat)
    requires Grown(x, e) && Key(e) == PairInstance(x, n)
    ensures e == PairInstance(x, n)
  {
    var m: nat :| e == PairInstance(x, m);
    PairKey(x, m);
  }

  function NamesOf(entries: seq<Entry>): set<Entry> {
    if entries == [] then {} else NamesOf(entries[..|entries| - 1]) + {Key(entries[|entries| - 1])}
  }

  lemma {:induction false} NamesCounted(entries: seq<Entry>)
    ensures |NamesOf(entries)| <= |entries|
    ensures forall i :: 0 <= i < |entries| ==> Key(entries[i]) in NamesOf(entries)
  {
    hide Key;
    if entries != [] {
      NamesCounted(entries[..|entries| - 1]);
      assert forall i :: 0 <= i < |entries| - 1 ==> entries[i] == entries[..|entries| - 1][i];
    }
  }

  lemma NeverClosed(x: nat, entries: seq<Entry>)
    requires Grounded(GrowingTuple(x), [PairInstance(x, 0)], entries) && Has(entries, Key(PairInstance(x, 0)))
    ensures !Closed(GrowingTuple(x), entries)
  {
    hide Grounded, PairInstance, Key, GrowingTuple;
    if Closed(GrowingTuple(x), entries) {
      NamesCounted(entries);
      var es := PairInstances(x, |entries| + 1);
      forall i | 0 <= i < |es| ensures Key(es[i]) in NamesOf(entries) {
        PairKey(x, i);
        ClosedHasPairs(x, entries, i);
        var k :| 0 <= k < |entries| && Key(entries[k]) == PairInstance(x, i);
      }
      forall i, j | 0 <= i < j < |es| ensures Key(es[i]) != Key(es[j]) {
        PairNames(x, i, j);
      }
      TooMany(es, NamesOf(entries));
    }
  }

  lemma GrownAccepted(x: nat, entries: seq<Entry>, e: Entry)
    requires Grown(x, e) && Refused(_ => false, entries, e)
    ensures |entries| >= MAX_INSTANCES
  {
    if e.FunEntry? {
      var n: nat :| e == PairInstance(x, n);
      PairKey(x, n);
    }
  }

  /** The program `let f = (x: 'a) -> ... f({ x, 1 })`: no cap on depth or on one
      template stops it, and discovery ends with a full table. */
  method GrowingRun(x: nat) returns (entries: seq<Entry>, error: bool, dangling: bool)
    ensures error && |entries| == MAX_INSTANCES && forall i :: 0 <= i < |entries| ==> !TooDeep(entries[i])
  {
    hide Grounded, Closed, GrowingTuple, Refused, Reached;
    entries, error, dangling := Discover(GrowingTuple(x), _ => false, [PairInstance(x, 0)]);
    if !error {
      assert [PairInstance(x, 0)][0] == PairInstance(x, 0);
      NeverClosed(x, entries);
    }
    var e :| Refused(_ => false, entries, e) && Reached(GrowingTuple(x), [PairInstance(x, 0)], entries, e);
    ReachedGrown(x, entries, e);
    GrownAccepted(x, entries, e);
  }

  lemma ReachedGrown(x: nat, entries: seq<Entry>, e: Entry)
    requires Grounded(GrowingTuple(x), [PairInstance(x, 0)], entries)
    requires Reached(GrowingTuple(x), [PairInstance(x, 0)], entries, e)
    ensures Grown(x, e)
  {
    hide Makes, Grown, GrowingTuple, Grounded;
    if e in [PairInstance(x, 0)] {
      FirstGrown(x);
    } else {
      var j :| 0 <= j < |entries| && Makes(GrowingTuple(x), entries[j], e);
      AllGrown(x, entries, j);
      GrownMakes(x, entries[j], e);
    }
  }

  /** A body may take a deep argument and pair it: the tuple is as deep, and no cap
      refuses it. */
  lemma DeepTupleAccepted(deep: Ty, x: nat)
    requires Depth(deep) > MAX_DEPTH
    ensures TooDeep(FunEntry(0, [deep])) && !Refused(_ => false, [], TupleEntry([deep, Prim(x)]))
  {
    assert MaxDepth([deep]) == Depth(deep);
  }
}
