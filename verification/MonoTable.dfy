/** The instance table and its two discovery fixpoints. */
module MonoTable {
  import opened MonoTypes

  const MAX_DEPTH: nat := 128
  const MAX_INSTANCES: nat := 200000
  const MAX_PER_TEMPLATE: nat := 2048

  predicate Has(entries: seq<Entry>, key: Entry) {
    exists i :: 0 <= i < |entries| && Key(entries[i]) == key
  }

  lemma HasStays(a: seq<Entry>, b: seq<Entry>, key: Entry)
    requires Has(a, key) && a <= b
    ensures Has(b, key)
  {
    var i :| 0 <= i < |a| && Key(a[i]) == key;
    assert b[i] == a[i];
  }

  predicate SameTemplate(a: Entry, b: Entry) {
    (a.TypeEntry? && b.TypeEntry? && a.tmpl == b.tmpl) || (a.FunEntry? && b.FunEntry? && a.fn == b.fn)
  }

  function CountTemplate(entries: seq<Entry>, e: Entry): nat {
    if entries == [] then 0
    else (if SameTemplate(entries[0], e) then 1 else 0) + CountTemplate(entries[1..], e)
  }

  /** A tuple is registered without type arguments and without a template, so only
      the number of instances can refuse it. */
  predicate TooDeep(e: Entry) {
    !e.TupleEntry? && MaxDepth(e.args) > MAX_DEPTH
  }

  predicate Rejected(rejects: Entry -> bool, e: Entry) {
    !e.TupleEntry? && rejects(e)
  }

  /** A new instance that a finite program would not make, or may not. */
  predicate Refused(rejects: Entry -> bool, entries: seq<Entry>, e: Entry) {
    || Rejected(rejects, e)
    || TooDeep(e)
    || |entries| >= MAX_INSTANCES
    || (!e.TupleEntry? && HasConstArg(e.args) && CountTemplate(entries, e) >= MAX_PER_TEMPLATE)
  }

  /** Every entry comes from a seed, or from an entry before it. */
  predicate Grounded(p: Program, seeds: seq<Entry>, entries: seq<Entry>) {
    forall k :: 0 <= k < |entries| ==>
      entries[k] in seeds || exists j :: 0 <= j < k && Makes(p, entries[j], entries[k])
  }

  predicate Reached(p: Program, seeds: seq<Entry>, entries: seq<Entry>, e: Entry) {
    e in seeds || exists j :: 0 <= j < |entries| && Makes(p, entries[j], e)
  }

  /** Nothing is missing that the C of an entry needs. */
  ghost predicate Closed(p: Program, entries: seq<Entry>) {
    forall i, key :: 0 <= i < |entries| && Requires(p, entries[i], key) ==> Has(entries, key)
  }

  /** The first `n` entries that are functions have all they need. */
  ghost predicate BodiesClosed(p: Program, entries: seq<Entry>, n: nat)
    requires n <= |entries|
  {
    forall i, key :: 0 <= i < n && entries[i].FunEntry? && Requires(p, entries[i], key) ==> Has(entries, key)
  }

  ghost predicate FieldsClosed(p: Program, entries: seq<Entry>, n: nat)
    requires n <= |entries|
  {
    forall i, key :: 0 <= i < n && !entries[i].FunEntry? && Requires(p, entries[i], key) ==> Has(entries, key)
  }

  lemma BodiesStay(p: Program, a: seq<Entry>, b: seq<Entry>, n: nat)
    requires a <= b && n <= |a| && BodiesClosed(p, a, n)
    ensures BodiesClosed(p, b, n)
  {
    forall i, key | 0 <= i < n && b[i].FunEntry? && Requires(p, b[i], key) ensures Has(b, key) {
      assert a[i] == b[i];
      HasStays(a, b, key);
    }
  }

  /** Only types and tuples were added. */
  predicate TypesAdded(a: seq<Entry>, b: seq<Entry>) {
    a <= b && forall i :: |a| <= i < |b| ==> !b[i].FunEntry?
  }

  /** The instances a type carries: through wrappers and function signatures, but not
      inside another instance's arguments, nor through a tuple. */
  predicate Carries(t: Ty, e: Entry) {
    match t
    case Wrap(_, inner) => Carries(inner, e)
    case Func(ps, r) => Carries(r, e) || exists i :: 0 <= i < |ps| && Carries(ps[i], e)
    case Stub(tm, bs) => e == TypeEntry(tm, bs)
    case Agg(tm, bs, _, _) => e == TypeEntry(tm, bs)
    case _ => false
  }

  class Table {
    const p: Program
    const rejects: Entry -> bool   // a void argument, or a static assertion that fails
    ghost const seeds: seq<Entry>
    var entries: seq<Entry>
    var error: bool
    ghost var culprit: Entry

    ghost predicate Valid()
      reads this
    {
      && |entries| <= MAX_INSTANCES
      && (forall i, j :: 0 <= i < j < |entries| ==> Key(entries[i]) != Key(entries[j]))
      && (forall i :: 0 <= i < |entries| ==> !TooDeep(entries[i]) && !Rejected(rejects, entries[i]))
      && Grounded(p, seeds, entries)
      && (error ==> Refused(rejects, entries, culprit) && Reached(p, seeds, entries, culprit))
    }

    constructor (p: Program, rejects: Entry -> bool, ghost seeds: seq<Entry>)
      ensures this.p == p && this.rejects == rejects && this.seeds == seeds
      ensures Valid() && entries == [] && !error
    {
      this.p, this.rejects, this.seeds := p, rejects, seeds;
      entries, error := [], false;
    }

    /** What every step of discovery keeps: the table only grows, and not at all
        after an error. */
    twostate predicate Grown()
      reads this
    {
      old(entries) <= entries && (old(error) ==> error && entries == old(entries))
    }

    method Find(key: Entry) returns (found: bool)
      ensures found == Has(entries, key)
    {
      for i := 0 to |entries|
        invariant forall j :: 0 <= j < i ==> Key(entries[j]) != key
      {
        if Key(entries[i]) == key { return true; }
      }
      return false;
    }

    method CountSame(e: Entry) returns (n: nat)
      ensures n == CountTemplate(entries, e)
    {
      n := 0;
      assert entries[0..] == entries;
      for i := 0 to |entries|
        invariant CountTemplate(entries, e) == n + CountTemplate(entries[i..], e)
      {
        assert entries[i..][0] == entries[i] && entries[i..][1..] == entries[i + 1..];
        if SameTemplate(entries[i], e) {
          n := n + 1;
        }
      }
    }

    /** Adds an instance, unless it is there, is refused, or an error was reported. */
    method Register(e: Entry)
      requires Valid() && Reached(p, seeds, entries, e)
      modifies this
      ensures Valid() && Grown()
      ensures entries == old(entries) || entries == old(entries) + [e]
      ensures !error ==> Has(entries, Key(e))
      ensures error && !old(error) ==> culprit == e
      ensures !old(error) ==> (error <==> !Has(old(entries), Key(e)) && Refused(rejects, old(entries), e))
    {
      hide Makes, MaxDepth, CountTemplate, HasConstArg, Grounded;
      if error { return; }
      var found := Find(Key(e));
      if found { return; }
      var same := CountSame(e);
      if Rejected(rejects, e) || TooDeep(e) || |entries| >= MAX_INSTANCES
         || (!e.TupleEntry? && HasConstArg(e.args) && same >= MAX_PER_TEMPLATE) {
        culprit := e;
        error := true;
        return;
      }
      GroundedSnoc(p, seeds, entries, e);
      entries := entries + [e];
      assert Key(entries[|entries| - 1]) == Key(e);
    }

    /** Registers what the entry being processed makes. */
    method RegisterFor(e: Entry, ghost maker: Entry)
      requires Valid() && maker in entries && Makes(p, maker, e)
      modifies this
      ensures Valid() && Grown() && maker in entries && (!error ==> Has(entries, Key(e)))
      ensures !e.FunEntry? ==> TypesAdded(old(entries), entries)
    {
      Register(e);
    }

    /** Registers the instances a type names. */
    method DiscoverNested(t: Ty, ghost maker: Entry)
      requires Valid() && maker in entries && Covers(p, maker, t)
      modifies this
      ensures TypesAdded(old(entries), entries)
      ensures Valid() && Grown() && maker in entries
      ensures !error && !HasVar(t) ==> Supplies(entries, t)
      decreases t, 1
    {
      hide Names, Needs, HasVar, AnyNames, AnyNeeds, Key, Makes, Has, Valid, Covers, CoversAll, Supplies, SuppliesAll;
      CoverParts(p, maker, t);
      ClosedParts(t);
      match t {
      case Wrap(_, inner) => DiscoverNested(inner, maker);
      case Func(ps, r) =>
        DiscoverEach(ps, maker);
        ghost var mid := entries;
        DiscoverNested(r, maker);
        SuppliesStay(mid, entries, ps);
      case Tuple(es) =>
        DiscoverEach(es, maker);
        if !HasVar(t) {
          ghost var mid := entries;
          RegisterFor(TupleEntry(es), maker);
          SuppliesStay(mid, entries, es);
        }
      case Stub(tm, bs) =>
        if !HasVar(t) {
          RegisterFor(TypeEntry(tm, bs), maker);
        }
      case Agg(tm, bs, fs, named) =>
        var found := Find(Key(TypeEntry(tm, bs)));
        if !HasVar(t) && !(named && found) {
          DiscoverEach(bs, maker);
          RegisterFor(TypeEntry(tm, bs), maker);
        }
        ghost var mid := entries;
        DiscoverEach(fs, maker);
        KeyStays(mid, entries, Key(TypeEntry(tm, bs)));
      case _ =>
      }
      SupplyWhole(entries, t);
    }

    method DiscoverEach(ts: seq<Ty>, ghost maker: Entry)
      requires Valid() && maker in entries && CoversAll(p, maker, ts)
      modifies this
      ensures TypesAdded(old(entries), entries)
      ensures Valid() && Grown() && maker in entries
      ensures !error && !AnyVar(ts) ==> SuppliesAll(entries, ts)
      decreases ts, 0
    {
      hide Names, HasVar, Key, Makes, Has, Supplies, Valid;
      for i := 0 to |ts|
        invariant Valid() && Grown() && maker in entries && TypesAdded(old(entries), entries)
        invariant !error && !AnyVar(ts) ==> forall j :: 0 <= j < i ==> Supplies(entries, ts[j])
      {
        ghost var mid := entries;
        assert forall e :: Names(ts[i], e) ==> AnyNames(ts, e);
        DiscoverNested(ts[i], maker);
        forall j | 0 <= j < i && Supplies(mid, ts[j]) ensures Supplies(entries, ts[j]) {
          SupplyStays(mid, entries, ts[j]);
        }
      }
    }

    /** A generic call in a body, under one substitution. */
    method DiscoverCall(fn: nat, args: seq<Ty>, binding: seq<Ty>, ghost maker: Entry)
      requires Valid() && maker in entries && forall e :: ItemMakes(Call(fn, args), binding, e) ==> Makes(p, maker, e)
      modifies this
      ensures Valid() && Grown() && maker in entries
      ensures !error ==> forall key :: ItemNeeds(Call(fn, args), binding, key) ==> Has(entries, key)
    {
      hide Makes, Names, Needs, HasVar, Key, Subst, SubstAll, Valid, Has;
      var concrete := SubstAll(args, binding);
      if !AnyVar(concrete) {
        assert ItemMakes(Call(fn, args), binding, FunEntry(fn, concrete));
        assert CoversAll(p, maker, concrete) by {
          forall e | AnyNames(concrete, e) ensures Makes(p, maker, e) {
            assert ItemMakes(Call(fn, args), binding, e);
          }
        }
        DiscoverEach(concrete, maker);
        ghost var mid := entries;
        RegisterFor(FunEntry(fn, concrete), maker);
        SuppliesStay(mid, entries, concrete);
      }
    }

    /** One part of a generic function's body. */
    method DiscoverItem(item: Item, binding: seq<Ty>, ghost maker: Entry)
      requires Valid() && maker in entries && forall e :: ItemMakes(item, binding, e) ==> Makes(p, maker, e)
      modifies this
      ensures Valid() && Grown() && maker in entries
      ensures !error ==> forall key :: ItemNeeds(item, binding, key) ==> Has(entries, key)
    {
      hide Makes, Names, Needs, HasVar, Key, Subst, SubstAll, Valid, Has;
      match item
      case Call(fn, args) => DiscoverCall(fn, args, binding, maker);
      case Use(t) =>
        var concrete := Subst(t, binding);
        if !HasVar(concrete) {
          assert forall e :: Names(concrete, e) ==> ItemMakes(item, binding, e);
          DiscoverNested(concrete, maker);
        }
      case TupleLit(es) =>
        var concrete := SubstAll(es, binding);
        if !AnyVar(concrete) {
          assert ItemMakes(item, binding, TupleEntry(concrete));
          RegisterFor(TupleEntry(concrete), maker);
        }
    }

    /** The body of entry `i`, a function instance. */
    method DiscoverBody(i: nat)
      requires Valid() && i < |entries| && entries[i].FunEntry?
      modifies this
      ensures Valid() && Grown()
      ensures !error ==> forall key :: Requires(p, old(entries[i]), key) ==> Has(entries, key)
    {
      hide Names, Needs, HasVar, Key, Subst, SubstAll, Valid, Has, ItemMakes, ItemNeeds;
      var e := entries[i];
      if e.fn >= |p.funs| { return; }
      var body := p.funs[e.fn];
      for j := 0 to |body|
        invariant Valid() && Grown() && e in entries
        invariant !error ==> forall k, key :: 0 <= k < j && ItemNeeds(body[k], e.args, key) ==> Has(entries, key)
      {
        ghost var mid := entries;
        assert forall e2 :: ItemMakes(body[j], e.args, e2) ==> Makes(p, e, e2);
        DiscoverItem(body[j], e.args, e);
        forall k, key | 0 <= k < j && ItemNeeds(body[k], e.args, key) && Has(mid, key) ensures Has(entries, key) {
          HasStays(mid, entries, key);
        }
      }
    }

    /** Walks the bodies of function instances, those found on the way included,
        until none is left. */
    method DiscoverTransitive()
      requires Valid()
      modifies this
      ensures Valid() && Grown()
      ensures !error ==> BodiesClosed(p, entries, |entries|)
    {
      hide Valid, Requires, Key, Has;
      Bounded();
      var discovered: nat := 0;
      while discovered < |entries|
        invariant Valid() && Grown() && discovered <= |entries|
        invariant !error ==> BodiesClosed(p, entries, discovered)
        decreases MAX_INSTANCES - |entries|, |entries| - discovered
      {
        Bounded();
        var batchEnd := |entries|;
        for i: nat := discovered to batchEnd
          invariant Valid() && Grown() && discovered <= i <= batchEnd <= |entries| <= MAX_INSTANCES
          invariant !error ==> BodiesClosed(p, entries, i)
        {
          ghost var mid := entries;
          if entries[i].FunEntry? {
            DiscoverBody(i);
          }
          Bounded();
          if !error {
            BodiesStay(p, mid, entries, i);
          }
        }
        discovered := batchEnd;
      }
    }

    lemma Bounded()
      requires Valid()
      ensures |entries| <= MAX_INSTANCES
    {
    }

    /** The fields of entry `i`, a type instance. */
    method DiscoverFields(i: nat)
      requires Valid() && i < |entries| && !entries[i].FunEntry?
      modifies this
      ensures Valid() && Grown()
      ensures !error ==> forall key :: Requires(p, old(entries[i]), key) ==> Has(entries, key)
      ensures TypesAdded(old(entries), entries)
    {
      hide Names, Needs, HasVar, Key, Subst, SubstAll, Valid, Has;
      var e := entries[i];
      var fields := FieldsOf(p, e);
      for f := 0 to |fields|
        invariant Valid() && Grown() && e in entries && TypesAdded(old(entries), entries)
        invariant !error ==> forall k :: 0 <= k < f && !HasVar(fields[k]) ==> Supplies(entries, fields[k])
      {
        ghost var mid := entries;
        assert forall e2 :: Names(fields[f], e2) ==> Makes(p, e, e2);
        DiscoverNested(fields[f], e);
        forall k | 0 <= k < f && Supplies(mid, fields[k]) ensures Supplies(entries, fields[k]) {
          SupplyStays(mid, entries, fields[k]);
        }
      }
    }

    /** Walks the fields of all type instances until a pass adds nothing, then
        looks for a name that was left without an instance. */
    method FinalizeTypes() returns (dangling: bool)
      requires Valid()
      modifies this
      ensures Valid() && Grown() && TypesAdded(old(entries), entries)
      ensures !error ==> FieldsClosed(p, entries, |entries|) && !dangling
    {
      hide Valid, Requires, Key, Has;
      Bounded();
      var prev := 0;
      var again := true;
      while again
        invariant Valid() && Grown() && TypesAdded(old(entries), entries) && |entries| <= MAX_INSTANCES
        invariant !again && !error ==> FieldsClosed(p, entries, |entries|)
        decreases MAX_INSTANCES - |entries|, again
      {
        Bounded();
        prev := |entries|;
        ghost var start := entries;
        for i := 0 to prev
          invariant Valid() && Grown() && TypesAdded(old(entries), entries)
          invariant start <= entries && |entries| <= MAX_INSTANCES
          invariant !error && entries == start ==> FieldsClosed(p, entries, i)
        {
          ghost var mid := entries;
          if !entries[i].FunEntry? {
            DiscoverFields(i);
          }
          assert mid <= entries && (entries == start ==> mid == start);
          Bounded();
        }
        again := |entries| > prev;
      }
      dangling := false;
      if error { return; }
      ghost var last := entries;
      for i := 0 to |entries|
        invariant !dangling && entries == last && !error && Valid()
      {
        if !entries[i].FunEntry? {
          var fields := FieldsOf(p, entries[i]);
          for f := 0 to |fields|
            invariant !dangling && entries == last && !error && Valid()
          {
            FieldSupplied(p, entries, i, f);
            dangling := CheckDangling(fields[f]);
          }
        }
      }
    }

    /** Does the type carry an instance that is not in the table? */
    method CheckDangling(t: Ty) returns (dangling: bool)
      ensures dangling <==> !HasVar(t) && exists e :: Carries(t, e) && !Has(entries, Key(e))
      ensures HasVar(t) || Supplies(entries, t) ==> !dangling
      decreases t
    {
      hide Names, Key, Has;
      dangling := false;
      if HasVar(t) { return; }
      match t
      case Wrap(_, inner) =>
        assert Supplies(entries, t) ==> Supplies(entries, inner);
        dangling := CheckDangling(inner);
      case Func(ps, r) =>
        for i := 0 to |ps|
          invariant Supplies(entries, t) ==> !dangling
          invariant dangling <==> exists e, j :: 0 <= j < i && Carries(ps[j], e) && !Has(entries, Key(e))
        {
          assert !HasVar(ps[i]);
          assert Supplies(entries, t) ==> Supplies(entries, ps[i]);
          var one := CheckDangling(ps[i]);
          dangling := dangling || one;
        }
        assert Supplies(entries, t) ==> Supplies(entries, r);
        var one := CheckDangling(r);
        dangling := dangling || one;
      case Stub(tm, bs) =>
        var found := Find(Key(TypeEntry(tm, bs)));
        assert Needs(t, Key(TypeEntry(tm, bs)));
        assert Carries(t, TypeEntry(tm, bs));
        dangling := !found;
      case Agg(tm, bs, _, _) =>
        var found := Find(Key(TypeEntry(tm, bs)));
        assert Needs(t, Key(TypeEntry(tm, bs)));
        assert Carries(t, TypeEntry(tm, bs));
        dangling := !found;
      case _ =>
    }

    /** Instances that earlier phases registered. */
    method RegisterSeeds(list: seq<Entry>)
      requires Valid() && forall i :: 0 <= i < |list| ==> list[i] in seeds
      modifies this
      ensures Valid() && Grown()
      ensures !error ==> forall i :: 0 <= i < |list| ==> Has(entries, Key(list[i]))
    {
      hide Key, Makes, Has, Valid;
      for i := 0 to |list|
        invariant Valid() && Grown()
        invariant !error ==> forall j :: 0 <= j < i ==> Has(entries, Key(list[j]))
      {
        ghost var mid := entries;
        Register(list[i]);
        forall j | 0 <= j < i && Has(mid, Key(list[j])) ensures Has(entries, Key(list[j])) {
          HasStays(mid, entries, Key(list[j]));
        }
      }
    }
  }

  lemma FieldSupplied(p: Program, entries: seq<Entry>, i: nat, f: nat)
    requires FieldsClosed(p, entries, |entries|) && i < |entries| && !entries[i].FunEntry? && f < |FieldsOf(p, entries[i])|
    ensures HasVar(FieldsOf(p, entries[i])[f]) || Supplies(entries, FieldsOf(p, entries[i])[f])
  {
    var t := FieldsOf(p, entries[i])[f];
    if !HasVar(t) {
      forall key | Needs(t, key) ensures Has(entries, key) {
        assert Requires(p, entries[i], key);
      }
    }
  }

  /** All that `t` names is made by `maker`. */
  ghost predicate Covers(p: Program, maker: Entry, t: Ty) {
    forall e :: Names(t, e) ==> Makes(p, maker, e)
  }

  ghost predicate CoversAll(p: Program, maker: Entry, ts: seq<Ty>) {
    forall e :: AnyNames(ts, e) ==> Makes(p, maker, e)
  }

  lemma CoverParts(p: Program, maker: Entry, t: Ty)
    requires Covers(p, maker, t)
    ensures match t
            case Wrap(_, inner) => Covers(p, maker, inner)
            case Func(ps, r) => CoversAll(p, maker, ps) && Covers(p, maker, r)
            case Tuple(es) => CoversAll(p, maker, es) && Makes(p, maker, TupleEntry(es))
            case Stub(tm, bs) => Makes(p, maker, TypeEntry(tm, bs))
            case Agg(tm, bs, fs, _) =>
              CoversAll(p, maker, bs) && CoversAll(p, maker, fs) && Makes(p, maker, TypeEntry(tm, bs))
            case _ => true
  {
    match t
    case Wrap(_, inner) => assert forall e :: Names(inner, e) ==> Names(t, e);
    case Func(ps, r) =>
      assert forall e :: Names(r, e) ==> Names(t, e);
      assert forall e :: AnyNames(ps, e) ==> Names(t, e);
    case Tuple(es) =>
      assert Names(t, TupleEntry(es));
      assert forall e :: AnyNames(es, e) ==> Names(t, e);
    case Stub(tm, bs) => assert Names(t, TypeEntry(tm, bs));
    case Agg(tm, bs, fs, _) =>
      assert Names(t, TypeEntry(tm, bs));
      assert forall e :: AnyNames(bs, e) ==> Names(t, e);
      assert forall e :: AnyNames(fs, e) ==> Names(t, e);
    case _ =>
  }

  /** All that the type needs is in the table. */
  ghost predicate Supplies(entries: seq<Entry>, t: Ty) {
    forall key :: Needs(t, key) ==> Has(entries, key)
  }

  ghost predicate SuppliesAll(entries: seq<Entry>, ts: seq<Ty>) {
    forall i :: 0 <= i < |ts| ==> Supplies(entries, ts[i])
  }

  lemma SupplyStays(a: seq<Entry>, b: seq<Entry>, t: Ty)
    requires a <= b
    ensures Supplies(a, t) ==> Supplies(b, t)
  {
    if Supplies(a, t) {
      forall key | Needs(t, key) ensures Has(b, key) {
        HasStays(a, b, key);
      }
    }
  }

  lemma SuppliesStay(a: seq<Entry>, b: seq<Entry>, ts: seq<Ty>)
    requires a <= b
    ensures SuppliesAll(a, ts) ==> SuppliesAll(b, ts)
  {
    forall i | 0 <= i < |ts| ensures Supplies(a, ts[i]) ==> Supplies(b, ts[i]) {
      SupplyStays(a, b, ts[i]);
    }
  }

  lemma KeyStays(a: seq<Entry>, b: seq<Entry>, key: Entry)
    requires a <= b
    ensures Has(a, key) ==> Has(b, key)
  {
    if Has(a, key) {
      HasStays(a, b, key);
    }
  }

  /** A type without variables has parts without. */
  lemma ClosedParts(t: Ty)
    ensures !HasVar(t) ==>
              match t
              case Wrap(_, inner) => !HasVar(inner)
              case Func(ps, r) => !AnyVar(ps) && !HasVar(r)
              case Tuple(es) => !AnyVar(es)
              case _ => true
  {
  }

  /** Supplying the parts and the type's own instance supplies the type. */
  lemma SupplyWhole(entries: seq<Entry>, t: Ty)
    ensures match t
            case Wrap(_, inner) => Supplies(entries, inner) ==> Supplies(entries, t)
            case Func(ps, r) => SuppliesAll(entries, ps) && Supplies(entries, r) ==> Supplies(entries, t)
            case Tuple(es) => SuppliesAll(entries, es) && Has(entries, Key(TupleEntry(es))) ==> Supplies(entries, t)
            case Stub(tm, bs) => Has(entries, Key(TypeEntry(tm, bs))) ==> Supplies(entries, t)
            case Agg(tm, bs, _, _) => Has(entries, Key(TypeEntry(tm, bs))) ==> Supplies(entries, t)
            case _ => Supplies(entries, t)
  {
  }

  lemma GroundedSnoc(p: Program, seeds: seq<Entry>, entries: seq<Entry>, e: Entry)
    requires Grounded(p, seeds, entries) && Reached(p, seeds, entries, e)
    ensures Grounded(p, seeds, entries + [e])
  {
    var next := entries + [e];
    forall k | 0 <= k < |next|
      ensures next[k] in seeds || exists j :: 0 <= j < k && Makes(p, next[j], next[k])
    {
      if k < |entries| {
        if entries[k] !in seeds {
          var j :| 0 <= j < k && Makes(p, entries[j], entries[k]);
          assert Makes(p, next[j], next[k]);
        }
      } else if e !in seeds {
        var j :| 0 <= j < |entries| && Makes(p, entries[j], e);
        assert Makes(p, next[j], next[k]);
      }
    }
  }

  /** Instance discovery. It ends on every program. Without an error the table is
      closed, holds the seeds, and its backstop finds nothing to report; with one,
      some instance that the program really makes was refused. Either way it has
      no instance twice, none the program does not make, and none that a check
      rejects or whose depth is over the cap, tuples apart: the cap does not see them. */
  method Discover(p: Program, rejects: Entry -> bool, seeds: seq<Entry>) returns (entries: seq<Entry>, error: bool, dangling: bool)
    ensures forall i, j :: 0 <= i < j < |entries| ==> Key(entries[i]) != Key(entries[j])
    ensures Grounded(p, seeds, entries)
    ensures |entries| <= MAX_INSTANCES && forall i :: 0 <= i < |entries| ==> !TooDeep(entries[i]) && !Rejected(rejects, entries[i])
    ensures !error ==> Closed(p, entries) && !dangling && forall i :: 0 <= i < |seeds| ==> Has(entries, Key(seeds[i]))
    ensures error ==> exists e :: Refused(rejects, entries, e) && Reached(p, seeds, entries, e)
  {
    var t := new Table(p, rejects, seeds);
    t.RegisterSeeds(seeds);
    ghost var a := t.entries;
    t.DiscoverTransitive();
    ghost var b := t.entries;
    dangling := t.FinalizeTypes();
    entries, error := t.entries, t.error;
    if !error {
      AllClosed(p, b, entries);
      forall i | 0 <= i < |seeds| ensures Has(entries, Key(seeds[i])) {
        HasStays(a, entries, Key(seeds[i]));
      }
    } else {
      assert Refused(rejects, entries, t.culprit) && Reached(p, seeds, entries, t.culprit);
    }
  }

  lemma AllClosed(p: Program, a: seq<Entry>, b: seq<Entry>)
    requires TypesAdded(a, b) && BodiesClosed(p, a, |a|) && FieldsClosed(p, b, |b|)
    ensures Closed(p, b)
  {
    BodiesStay(p, a, b, |a|);
  }

  // ----- all that is needed is there -----

  /** A chain of needs that starts at a seed. */
  ghost predicate Chain(p: Program, seeds: seq<Entry>, chain: seq<Entry>) {
    && |chain| > 0 && chain[0] in seeds
    && forall i :: 0 < i < |chain| ==> Requires(p, chain[i - 1], Key(chain[i]))
  }

  /** No type variable is left in what the instance is made of, as type checking
      guarantees: an instance binds all of its template's parameters. */
  predicate Ground(p: Program, e: Entry) {
    match e
    case FunEntry(f, args) => f < |p.funs| ==> forall i :: 0 <= i < |p.funs[f]| ==> GroundItem(p.funs[f][i], args)
    case _ => !AnyVar(FieldsOf(p, e))
  }

  predicate GroundItem(item: Item, args: seq<Ty>) {
    match item
    case Call(_, bs) => !AnyVar(SubstAll(bs, args))
    case Use(t) => !HasVar(Subst(t, args))
    case TupleLit(es) => !AnyVar(SubstAll(es, args))
  }

  /** What an instance needs depends on its name only. */
  lemma RequiresByKey(p: Program, a: Entry, b: Entry, key: Entry)
    requires Key(a) == Key(b) && Requires(p, a, key) && Ground(p, b)
    ensures Requires(p, b, key)
  {
    hide HasVar, Subst, SubstAll, Canon, CanonAll, Needs;
    match a
    case FunEntry(f, args) =>
      var i :| 0 <= i < |p.funs[f]| && ItemNeeds(p.funs[f][i], args, key);
      assert GroundItem(p.funs[f][i], b.args);
      ItemByKey(p.funs[f][i], args, b.args, key);
    case _ =>
      var fa, fb := FieldsOf(p, a), FieldsOf(p, b);
      var i :| 0 <= i < |fa| && !HasVar(fa[i]) && Needs(fa[i], key);
      FieldsByKey(p, a, b, i);
      assert !HasVar(fb[i]);
      NeedsByCanon(fa[i], fb[i], key);
  }

  lemma FieldsByKey(p: Program, a: Entry, b: Entry, i: nat)
    requires Key(a) == Key(b) && !a.FunEntry? && i < |FieldsOf(p, a)|
    ensures |FieldsOf(p, b)| == |FieldsOf(p, a)| && Canon(FieldsOf(p, a)[i]) == Canon(FieldsOf(p, b)[i])
  {
    if a.TypeEntry? {
      SubstByCanon(p.types[a.tmpl][i], a.args, b.args);
    } else {
      assert CanonAll(a.args)[i] == CanonAll(b.args)[i];
    }
  }

  lemma ItemByKey(item: Item, a: seq<Ty>, b: seq<Ty>, key: Entry)
    requires CanonAll(a) == CanonAll(b) && ItemNeeds(item, a, key) && GroundItem(item, b)
    ensures ItemNeeds(item, b, key)
  {
    hide HasVar, Subst, SubstAll, Canon, CanonAll, Needs;
    match item
    case Call(f, bs) =>
      SubstAllByCanon(bs, a, b);
      var sa, sb := SubstAll(bs, a), SubstAll(bs, b);
      if AnyNeeds(sa, key) {
        var i :| 0 <= i < |sa| && Needs(sa[i], key);
        CanonAt(sa, sb, i);
        NeedsByCanon(sa[i], sb[i], key);
        assert AnyNeeds(sb, key);
      }
    case Use(t) =>
      SubstByCanon(t, a, b);
      NeedsByCanon(Subst(t, a), Subst(t, b), key);
    case TupleLit(es) => SubstAllByCanon(es, a, b);
  }

  lemma CanonAt(a: seq<Ty>, b: seq<Ty>, i: nat)
    requires CanonAll(a) == CanonAll(b) && i < |a|
    ensures i < |b| && Canon(a[i]) == Canon(b[i])
  {
    assert CanonAll(a)[i] == CanonAll(b)[i];
  }

  lemma NeedsByCanon(t: Ty, u: Ty, key: Entry)
    requires Canon(t) == Canon(u) && Needs(t, key)
    ensures Needs(u, key)
  {
    NeedsCanon(t, key);
    NeedsCanon(u, key);
  }

  lemma {:induction false} NeedsCanon(t: Ty, key: Entry)
    ensures Needs(t, key) <==> Needs(Canon(t), key)
    decreases t
  {
    match t
    case Wrap(_, inner) => NeedsCanon(inner, key);
    case Func(ps, r) =>
      NeedsCanon(r, key);
      NeedsCanonAll(ps, key);
    case Tuple(es) =>
      NeedsCanonAll(es, key);
      CanonAllIdempotent(es);
    case Stub(_, bs) => CanonAllIdempotent(bs);
    case Agg(_, bs, _, _) => CanonAllIdempotent(bs);
    case _ =>
  }

  lemma {:induction false} NeedsCanonAll(ts: seq<Ty>, key: Entry)
    ensures AnyNeeds(ts, key) <==> AnyNeeds(CanonAll(ts), key)
    decreases ts
  {
    forall i | 0 <= i < |ts| ensures Needs(ts[i], key) <==> Needs(CanonAll(ts)[i], key) {
      NeedsCanon(ts[i], key);
    }
  }

  lemma SameCount(a: seq<Ty>, b: seq<Ty>)
    requires CanonAll(a) == CanonAll(b)
    ensures |a| == |b|
  {
    assert |a| == |CanonAll(a)| == |CanonAll(b)| == |b|;
  }

  lemma {:induction false} SubstByCanon(t: Ty, a: seq<Ty>, b: seq<Ty>)
    requires CanonAll(a) == CanonAll(b)
    ensures Canon(Subst(t, a)) == Canon(Subst(t, b))
    decreases t, 1
  {
    hide CanonAll, SubstAll;
    SameCount(a, b);
    match t
    case Var(i) =>
      if i < |a| {
        CanonAt(a, b, i);
      }
    case ConstPlus(i, _) =>
      if i < |a| {
        CanonAt(a, b, i);
      }
    case Wrap(_, inner) => SubstByCanon(inner, a, b);
    case Func(ps, r) =>
      SubstByCanon(r, a, b);
      SubstAllByCanon(ps, a, b);
    case Tuple(es) => SubstAllByCanon(es, a, b);
    case Stub(_, bs) => SubstAllByCanon(bs, a, b);
    case Agg(_, bs, _, _) => SubstAllByCanon(bs, a, b);
    case _ =>
  }

  lemma {:induction false} SubstAllByCanon(ts: seq<Ty>, a: seq<Ty>, b: seq<Ty>)
    requires CanonAll(a) == CanonAll(b)
    ensures CanonAll(SubstAll(ts, a)) == CanonAll(SubstAll(ts, b))
    decreases ts, 0
  {
    forall i | 0 <= i < |ts| ensures CanonAll(SubstAll(ts, a))[i] == CanonAll(SubstAll(ts, b))[i] {
      SubstByCanon(ts[i], a, b);
    }
    assert CanonAll(SubstAll(ts, a)) == CanonAll(SubstAll(ts, b));
  }

  /** Every closed table with the seeds in it has every instance that a chain of
      needs reaches. With Grounded, the table lies between what is needed and what
      some entry before may name. */
  lemma {:induction false} ClosedHasChains(p: Program, seeds: seq<Entry>, entries: seq<Entry>, chain: seq<Entry>, k: nat)
    requires Closed(p, entries) && (forall i :: 0 <= i < |seeds| ==> Has(entries, Key(seeds[i])))
    requires (forall i :: 0 <= i < |entries| ==> Ground(p, entries[i])) && Chain(p, seeds, chain) && k < |chain|
    ensures Has(entries, Key(chain[k]))
    decreases k
  {
    hide Requires, Key, Ground;
    if k > 0 {
      ClosedHasChains(p, seeds, entries, chain, k - 1);
      var i :| 0 <= i < |entries| && Key(entries[i]) == Key(chain[k - 1]);
      RequiresByKey(p, chain[k - 1], entries[i], Key(chain[k]));
    }
  }
}
