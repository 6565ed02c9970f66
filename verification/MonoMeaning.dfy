/** What substitution, spelling and need mean on type terms, told by the places in a term;
    and that a well-kinded program needs no instance with a variable left in it. */
module MonoMeaning {
  import opened MonoTypes
  import opened MonoTable

  datatype Option<T> = None | Some(value: T)

  // ----- places in a term -----

  /** The parts of a term, in order: the parameters of a function type and its result,
      the arguments of an instance and its fields. */
  function Parts(t: Ty): seq<Ty> {
    match t
    case Wrap(_, inner) => [inner]
    case Func(ps, r) => ps + [r]
    case Tuple(es) => es
    case Stub(_, bs) => bs
    case Agg(_, bs, fs, _) => bs + fs
    case _ => []
  }

  lemma PartsSmaller(t: Ty, i: nat)
    requires i < |Parts(t)|
    ensures Parts(t)[i] < t
  {
    match t
    case Func(ps, r) => assert i < |ps| ==> Parts(t)[i] == ps[i];
    case Agg(_, bs, fs, _) => assert if i < |bs| then Parts(t)[i] == bs[i] else Parts(t)[i] == fs[i - |bs|];
    case _ =>
  }

  function At(t: Ty, path: seq<nat>): Option<Ty>
    decreases |path|
  {
    if path == [] then Some(t)
    else if path[0] < |Parts(t)| then At(Parts(t)[path[0]], path[1..])
    else None
  }

  /** The same form, parts apart. */
  predicate SameHead(t: Ty, u: Ty) {
    && |Parts(t)| == |Parts(u)|
    && match t
       case Wrap(k, _) => u.Wrap? && u.k == k
       case Func(ps, _) => u.Func? && |u.params| == |ps|
       case Tuple(_) => u.Tuple?
       case Stub(tm, _) => u.Stub? && u.tmpl == tm
       case Agg(tm, bs, _, named) => u.Agg? && u.tmpl == tm && |u.args| == |bs| && u.named == named
       case _ => u == t
  }

  predicate IsParameter(t: Ty, args: seq<Ty>) {
    (t.Var? && t.i < |args|) || (t.ConstPlus? && t.i < |args| && args[t.i].Const?)
  }

  // ----- substitution -----

  /** Substitution replaces the parameters, each by its argument or by a constant so much
      larger, and keeps everything else in its place. */
  lemma {:induction false} SubstReplaces(t: Ty, args: seq<Ty>, path: seq<nat>)
    requires At(t, path).Some?
    ensures var u := At(t, path).value;
            && At(Subst(t, args), path) == Some(Subst(u, args))
            && (!IsParameter(u, args) ==> SameHead(u, Subst(u, args)))
            && (u.Var? && IsParameter(u, args) ==> Subst(u, args) == args[u.i])
            && (u.ConstPlus? && IsParameter(u, args) ==> Subst(u, args) == Const(args[u.i].n + u.step))
    decreases |path|
  {
    hide Parts;
    HeadKept(t, args);
    if path != [] {
      PartSubst(t, args, path[0]);
      SubstReplaces(Parts(t)[path[0]], args, path[1..]);
    }
  }

  lemma HeadKept(t: Ty, args: seq<Ty>)
    ensures !IsParameter(t, args) ==> SameHead(t, Subst(t, args))
    ensures IsParameter(t, args) ==> Parts(t) == []
  {
  }

  lemma PartSubst(t: Ty, args: seq<Ty>, i: nat)
    requires i < |Parts(t)|
    ensures |Parts(Subst(t, args))| == |Parts(t)| && Parts(Subst(t, args))[i] == Subst(Parts(t)[i], args)
  {
    match t
    case Func(ps, r) =>
      assert i < |ps| ==> Parts(t)[i] == ps[i] && Parts(Subst(t, args))[i] == SubstAll(ps, args)[i];
    case Agg(_, bs, fs, _) =>
      if i < |bs| {
        assert Parts(t)[i] == bs[i] && Parts(Subst(t, args))[i] == SubstAll(bs, args)[i];
      } else {
        assert Parts(t)[i] == fs[i - |bs|] && Parts(Subst(t, args))[i] == SubstAll(fs, args)[i - |bs|];
      }
    case _ =>
  }

  /** A term without variables stays as it is. */
  lemma {:induction false} SubstNothing(t: Ty, args: seq<Ty>)
    requires !HasVar(t)
    ensures Subst(t, args) == t
    decreases t, 1
  {
    match t
    case Wrap(_, inner) => SubstNothing(inner, args);
    case Func(ps, r) =>
      SubstNothingAll(ps, args);
      SubstNothing(r, args);
    case Tuple(es) => SubstNothingAll(es, args);
    case Stub(_, bs) => SubstNothingAll(bs, args);
    case Agg(_, bs, fs, _) =>
      SubstNothingAll(bs, args);
      SubstNothingAll(fs, args);
    case _ =>
  }

  lemma {:induction false} SubstNothingAll(ts: seq<Ty>, args: seq<Ty>)
    requires forall i :: 0 <= i < |ts| ==> !HasVar(ts[i])
    ensures SubstAll(ts, args) == ts
    decreases ts, 0
  {
    forall i | 0 <= i < |ts| ensures SubstAll(ts, args)[i] == ts[i] {
      SubstNothing(ts[i], args);
    }
  }

  /** A term has a variable exactly when one stands in some place of it. */
  lemma {:induction false} VarsAreSomewhere(t: Ty)
    ensures HasVar(t) <==> exists path: seq<nat> :: VarAt(t, path)
    decreases t
  {
    hide HasVar, Parts;
    if t.Var? || t.ConstPlus? {
      assert VarAt(t, []);
    }
    VarInParts(t);
    forall i: nat | i < |Parts(t)| ensures HasVar(Parts(t)[i]) <==> exists path: seq<nat> :: VarAt(Parts(t)[i], path) {
      PartsSmaller(t, i);
      VarsAreSomewhere(Parts(t)[i]);
    }
    if HasVar(t) && !t.Var? && !t.ConstPlus? {
      var i: nat :| i < |Parts(t)| && HasVar(Parts(t)[i]);
      var path: seq<nat> :| VarAt(Parts(t)[i], path);
      assert ([i] + path)[1..] == path;
      assert VarAt(t, [i] + path);
    }
    if exists path: seq<nat> :: VarAt(t, path) {
      var path: seq<nat> :| VarAt(t, path);
      if path != [] {
        assert VarAt(Parts(t)[path[0]], path[1..]);
      }
    }
  }

  predicate VarAt(t: Ty, path: seq<nat>) {
    var u := At(t, path);
    u.Some? && (u.value.Var? || u.value.ConstPlus?)
  }

  lemma VarInParts(t: Ty)
    ensures HasVar(t) <==> t.Var? || t.ConstPlus? || exists i: nat :: i < |Parts(t)| && HasVar(Parts(t)[i])
  {
    match t
    case Wrap(_, inner) => assert Parts(t)[0] == inner;
    case Func(ps, r) =>
      assert Parts(t)[|ps|] == r;
      assert forall i :: 0 <= i < |ps| ==> Parts(t)[i] == ps[i];
    case Agg(_, bs, fs, _) =>
      assert forall i :: 0 <= i < |bs| ==> Parts(t)[i] == bs[i];
      assert forall i :: 0 <= i < |fs| ==> Parts(t)[|bs| + i] == fs[i];
    case Tuple(es) => assert forall i: nat :: i < |es| ==> Parts(t)[i] == es[i];
    case Stub(_, bs) => assert forall i: nat :: i < |bs| ==> Parts(t)[i] == bs[i];
    case _ =>
  }

  // ----- spelling -----

  /** No node carries its fields. */
  predicate Plain(t: Ty)
    decreases t
  {
    match t
    case Wrap(_, inner) => Plain(inner)
    case Func(ps, r) => Plain(r) && forall i :: 0 <= i < |ps| ==> Plain(ps[i])
    case Tuple(es) => forall i :: 0 <= i < |es| ==> Plain(es[i])
    case Stub(_, bs) => forall i :: 0 <= i < |bs| ==> Plain(bs[i])
    case Agg(_, _, _, _) => false
    case _ => true
  }

  /** Spelling forgets the fields an instance carries, and nothing else: terms without
      fields are spelled as themselves, so two of them alike only if they are equal. */
  lemma {:induction false} SpellingIsExact(t: Ty)
    ensures Plain(Canon(t)) && (Plain(t) ==> Canon(t) == t)
    ensures t.Agg? ==> Canon(t) == Canon(Stub(t.tmpl, t.args))
    decreases t, 1
  {
    match t
    case Wrap(_, inner) => SpellingIsExact(inner);
    case Func(ps, r) =>
      SpellingsAreExact(ps);
      SpellingIsExact(r);
    case Tuple(es) => SpellingsAreExact(es);
    case Stub(_, bs) => SpellingsAreExact(bs);
    case Agg(_, bs, _, _) => SpellingsAreExact(bs);
    case _ =>
  }

  lemma {:induction false} SpellingsAreExact(ts: seq<Ty>)
    ensures forall i :: 0 <= i < |ts| ==> Plain(CanonAll(ts)[i]) && (Plain(ts[i]) ==> CanonAll(ts)[i] == ts[i])
    ensures (forall i :: 0 <= i < |ts| ==> Plain(ts[i])) ==> CanonAll(ts) == ts
    decreases ts, 0
  {
    forall i | 0 <= i < |ts| ensures Plain(CanonAll(ts)[i]) && (Plain(ts[i]) ==> CanonAll(ts)[i] == ts[i]) {
      SpellingIsExact(ts[i]);
    }
  }

  /** Instances of different templates, or of arguments spelled differently, have
      different names. */
  lemma NamesDiffer(a: Entry, b: Entry)
    requires Key(a) == Key(b)
    ensures a.FunEntry? <==> b.FunEntry?
    ensures a.TypeEntry? <==> b.TypeEntry?
    ensures a.FunEntry? ==> a.fn == b.fn
    ensures a.TypeEntry? ==> a.tmpl == b.tmpl
    ensures CanonAll(a.args) == CanonAll(b.args)
  {
  }

  // ----- what a type needs, and what it may register -----

  /** The instance a node stands for itself. */
  function Own(t: Ty): Option<Entry> {
    match t
    case Tuple(es) => Some(TupleEntry(es))
    case Stub(tm, bs) => Some(TypeEntry(tm, bs))
    case Agg(tm, bs, _, _) => Some(TypeEntry(tm, bs))
    case _ => None
  }

  /** A place that is reached without going into an instance's arguments or fields. */
  predicate Outside(t: Ty, path: seq<nat>)
    decreases |path|
  {
    path == [] || (!t.Stub? && !t.Agg? && path[0] < |Parts(t)| && Outside(Parts(t)[path[0]], path[1..]))
  }

  predicate NeedAt(t: Ty, key: Entry, path: seq<nat>) {
    var u := At(t, path);
    Outside(t, path) && u.Some? && Own(u.value).Some? && Key(Own(u.value).value) == key
  }

  /** The C of a type spells the names of the instances in it, through pointers, slices,
      options, results, arrays, function signatures and tuples, but not of those that
      only go into another one's name. */
  lemma {:induction false} NeedsAre(t: Ty, key: Entry)
    ensures Needs(t, key) <==> exists path: seq<nat> :: NeedAt(t, key, path)
    decreases t
  {
    hide Key, Needs, Parts;
    NeedsInParts(t, key);
    if Own(t).Some? && Key(Own(t).value) == key {
      assert NeedAt(t, key, []);
    }
    if !t.Stub? && !t.Agg? {
      forall i: nat | i < |Parts(t)| ensures Needs(Parts(t)[i], key) <==> exists path: seq<nat> :: NeedAt(Parts(t)[i], key, path) {
        PartsSmaller(t, i);
        NeedsAre(Parts(t)[i], key);
      }
      if exists i: nat :: i < |Parts(t)| && Needs(Parts(t)[i], key) {
        var i: nat :| i < |Parts(t)| && Needs(Parts(t)[i], key);
        var path: seq<nat> :| NeedAt(Parts(t)[i], key, path);
        assert ([i] + path)[1..] == path;
        assert NeedAt(t, key, [i] + path);
      }
    }
    if exists path: seq<nat> :: NeedAt(t, key, path) {
      var path: seq<nat> :| NeedAt(t, key, path);
      if path != [] {
        assert NeedAt(Parts(t)[path[0]], key, path[1..]);
      }
    }
  }

  lemma NeedsInParts(t: Ty, key: Entry)
    ensures Needs(t, key) <==>
            || (Own(t).Some? && Key(Own(t).value) == key)
            || (!t.Stub? && !t.Agg? && exists i: nat :: i < |Parts(t)| && Needs(Parts(t)[i], key))
  {
    hide Key;
    match t
    case Wrap(_, inner) => assert Parts(t)[0] == inner;
    case Func(ps, r) =>
      assert Parts(t)[|ps|] == r;
      assert forall i :: 0 <= i < |ps| ==> Parts(t)[i] == ps[i];
    case Tuple(es) => assert forall i: nat :: i < |es| ==> Parts(t)[i] == es[i];
    case _ =>
  }

  /** A pointer, slice, option, result or array spells what its element spells. */
  lemma WrapNeeds(k: nat, u: Ty, args: seq<Ty>, key: Entry)
    ensures Needs(Subst(Wrap(k, u), args), key) <==> Needs(Subst(u, args), key)
  {
  }

  predicate NameAt(t: Ty, e: Entry, path: seq<nat>) {
    var u := At(t, path);
    NotInStubs(t, path) && u.Some? && Own(u.value) == Some(e)
  }

  /** A place that is reached without going into the arguments of a bare name. */
  predicate NotInStubs(t: Ty, path: seq<nat>)
    decreases |path|
  {
    path == [] || (!t.Stub? && path[0] < |Parts(t)| && NotInStubs(Parts(t)[path[0]], path[1..]))
  }

  /** Discovery registers what stands in some place of the type, fields included. */
  lemma {:induction false} NamesAre(t: Ty, e: Entry)
    ensures Names(t, e) <==> exists path: seq<nat> :: NameAt(t, e, path)
    decreases t
  {
    hide Names, Parts;
    NamesInParts(t, e);
    if Own(t) == Some(e) {
      assert NameAt(t, e, []);
    }
    if !t.Stub? {
      forall i: nat | i < |Parts(t)| ensures Names(Parts(t)[i], e) <==> exists path: seq<nat> :: NameAt(Parts(t)[i], e, path) {
        PartsSmaller(t, i);
        NamesAre(Parts(t)[i], e);
      }
      if exists i: nat :: i < |Parts(t)| && Names(Parts(t)[i], e) {
        var i: nat :| i < |Parts(t)| && Names(Parts(t)[i], e);
        var path: seq<nat> :| NameAt(Parts(t)[i], e, path);
        assert ([i] + path)[1..] == path;
        assert NameAt(t, e, [i] + path);
      }
    }
    if exists path: seq<nat> :: NameAt(t, e, path) {
      var path: seq<nat> :| NameAt(t, e, path);
      if path != [] {
        assert NameAt(Parts(t)[path[0]], e, path[1..]);
      }
    }
  }

  lemma NamesInParts(t: Ty, e: Entry)
    ensures Names(t, e) <==>
            Own(t) == Some(e) || (!t.Stub? && exists i: nat :: i < |Parts(t)| && Names(Parts(t)[i], e))
  {
    match t
    case Wrap(_, inner) => assert Parts(t)[0] == inner;
    case Func(ps, r) =>
      assert Parts(t)[|ps|] == r;
      assert forall i :: 0 <= i < |ps| ==> Parts(t)[i] == ps[i];
    case Agg(_, bs, fs, _) =>
      assert forall i :: 0 <= i < |bs| ==> Parts(t)[i] == bs[i];
      assert forall i :: 0 <= i < |fs| ==> Parts(t)[|bs| + i] == fs[i];
    case Tuple(es) => assert forall i: nat :: i < |es| ==> Parts(t)[i] == es[i];
    case _ =>
  }

  // ----- well-kinded programs -----

  /** For every generic type and function, which of its parameters stand for constants. */
  datatype Signature = Signature(types: seq<seq<bool>>, funs: seq<seq<bool>>)

  /** A term that fits the declarations: it names parameters that exist, adds only to those
      that stand for constants, and binds every parameter of each instance it names. */
  predicate WellKinded(t: Ty, params: seq<bool>, sig: Signature)
    decreases t, 1
  {
    match t
    case Var(i) => i < |params|
    case ConstPlus(i, _) => i < |params| && params[i]
    case Wrap(_, inner) => WellKinded(inner, params, sig)
    case Func(ps, r) => WellKinded(r, params, sig) && AllKinded(ps, params, sig)
    case Tuple(es) => AllKinded(es, params, sig)
    case Stub(tm, bs) => tm < |sig.types| && AllKinded(bs, params, sig) && Suit(bs, sig.types[tm], params)
    case Agg(tm, bs, fs, _) =>
      tm < |sig.types| && AllKinded(bs, params, sig) && Suit(bs, sig.types[tm], params) && AllKinded(fs, params, sig)
    case _ => true
  }

  predicate AllKinded(ts: seq<Ty>, params: seq<bool>, sig: Signature)
    decreases ts, 0
  {
    forall i :: 0 <= i < |ts| ==> WellKinded(ts[i], params, sig)
  }

  predicate IsConstant(t: Ty, params: seq<bool>) {
    t.Const? || t.ConstPlus? || (t.Var? && t.i < |params| && params[t.i])
  }

  /** One argument for each parameter, a constant where one is asked for. */
  predicate Suit(ts: seq<Ty>, kinds: seq<bool>, params: seq<bool>) {
    |ts| == |kinds| && forall i :: 0 <= i < |ts| && kinds[i] ==> IsConstant(ts[i], params)
  }

  predicate ItemOk(item: Item, params: seq<bool>, sig: Signature) {
    match item
    case Call(f, bs) => f < |sig.funs| && AllKinded(bs, params, sig) && Suit(bs, sig.funs[f], params)
    case Use(t) => WellKinded(t, params, sig)
    case TupleLit(es) => AllKinded(es, params, sig)
  }

  predicate ProgramOk(p: Program, sig: Signature) {
    && |p.types| == |sig.types| && |p.funs| == |sig.funs|
    && (forall tm :: 0 <= tm < |p.types| ==> AllKinded(p.types[tm], sig.types[tm], sig))
    && (forall f, j :: 0 <= f < |p.funs| && 0 <= j < |p.funs[f]| ==> ItemOk(p.funs[f][j], sig.funs[f], sig))
  }

  /** An instance that binds all parameters, and to terms without any. */
  predicate EntryOk(e: Entry, sig: Signature) {
    && AllKinded(e.args, [], sig)
    && match e
       case TypeEntry(tm, args) => tm < |sig.types| && Suit(args, sig.types[tm], [])
       case TupleEntry(_) => true
       case FunEntry(f, args) => f < |sig.funs| && Suit(args, sig.funs[f], [])
  }

  lemma {:induction false} KindedHasNoVar(t: Ty, sig: Signature)
    requires WellKinded(t, [], sig)
    ensures !HasVar(t)
    decreases t
  {
    match t
    case Wrap(_, inner) => KindedHasNoVar(inner, sig);
    case Func(ps, r) =>
      KindedHaveNoVar(ps, sig);
      KindedHasNoVar(r, sig);
    case Tuple(es) => KindedHaveNoVar(es, sig);
    case Stub(_, bs) => KindedHaveNoVar(bs, sig);
    case Agg(_, bs, fs, _) =>
      KindedHaveNoVar(bs, sig);
      KindedHaveNoVar(fs, sig);
    case _ =>
  }

  lemma {:induction false} KindedHaveNoVar(ts: seq<Ty>, sig: Signature)
    requires AllKinded(ts, [], sig)
    ensures !AnyVar(ts)
    decreases ts
  {
    forall i | 0 <= i < |ts| ensures !HasVar(ts[i]) {
      KindedHasNoVar(ts[i], sig);
    }
  }

  /** Binding every parameter, and the constant ones to constants, leaves no variable. */
  lemma {:induction false} SubstKinded(t: Ty, params: seq<bool>, args: seq<Ty>, sig: Signature)
    requires WellKinded(t, params, sig) && AllKinded(args, [], sig) && Suit(args, params, [])
    ensures WellKinded(Subst(t, args), [], sig) && !HasVar(Subst(t, args))
    ensures IsConstant(t, params) ==> Subst(t, args).Const?
    decreases t, 1
  {
    match t
    case Wrap(_, inner) => SubstKinded(inner, params, args, sig);
    case Func(ps, r) =>
      SubstsKinded(ps, params, args, sig);
      SubstKinded(r, params, args, sig);
    case Tuple(es) => SubstsKinded(es, params, args, sig);
    case Stub(tm, bs) =>
      SubstsKinded(bs, params, args, sig);
      SubstsSuit(bs, sig.types[tm], params, args, sig);
    case Agg(tm, bs, fs, _) =>
      SubstsKinded(bs, params, args, sig);
      SubstsSuit(bs, sig.types[tm], params, args, sig);
      SubstsKinded(fs, params, args, sig);
    case _ => KindedHasNoVar(Subst(t, args), sig);
  }

  lemma {:induction false} SubstsKinded(ts: seq<Ty>, params: seq<bool>, args: seq<Ty>, sig: Signature)
    requires AllKinded(ts, params, sig) && AllKinded(args, [], sig) && Suit(args, params, [])
    ensures AllKinded(SubstAll(ts, args), [], sig) && !AnyVar(SubstAll(ts, args))
    ensures forall i :: 0 <= i < |ts| && IsConstant(ts[i], params) ==> SubstAll(ts, args)[i].Const?
    decreases ts, 0
  {
    hide SubstAll;
    forall i | 0 <= i < |ts|
      ensures WellKinded(SubstAll(ts, args)[i], [], sig) && !HasVar(SubstAll(ts, args)[i])
      ensures IsConstant(ts[i], params) ==> SubstAll(ts, args)[i].Const?
    {
      SubstKinded(ts[i], params, args, sig);
    }
  }

  lemma SubstsSuit(ts: seq<Ty>, kinds: seq<bool>, params: seq<bool>, args: seq<Ty>, sig: Signature)
    requires Suit(ts, kinds, params)
    requires forall i :: 0 <= i < |ts| && IsConstant(ts[i], params) ==> SubstAll(ts, args)[i].Const?
    ensures Suit(SubstAll(ts, args), kinds, [])
  {
  }

  // ----- every instance that is needed is there -----

  lemma {:induction false} NamedAreOk(t: Ty, e: Entry, sig: Signature)
    requires WellKinded(t, [], sig) && Names(t, e)
    ensures EntryOk(e, sig)
    decreases t
  {
    hide EntryOk;
    if Own(t) == Some(e) {
      OwnIsOk(t, sig);
    } else {
      NamesInParts(t, e);
      var i: nat :| i < |Parts(t)| && Names(Parts(t)[i], e);
      PartsSmaller(t, i);
      PartsKinded(t, [], sig, i);
      NamedAreOk(Parts(t)[i], e, sig);
    }
  }

  lemma OwnIsOk(t: Ty, sig: Signature)
    requires WellKinded(t, [], sig)
    ensures Own(t).Some? ==> EntryOk(Own(t).value, sig)
  {
  }

  lemma PartsKinded(t: Ty, params: seq<bool>, sig: Signature, i: nat)
    requires WellKinded(t, params, sig) && i < |Parts(t)|
    ensures WellKinded(Parts(t)[i], params, sig)
  {
    match t
    case Func(ps, r) => assert i < |ps| ==> Parts(t)[i] == ps[i];
    case Agg(_, bs, fs, _) => assert if i < |bs| then Parts(t)[i] == bs[i] else Parts(t)[i] == fs[i - |bs|];
    case _ =>
  }

  lemma AnyNamedAreOk(ts: seq<Ty>, e: Entry, sig: Signature)
    requires AllKinded(ts, [], sig) && AnyNames(ts, e)
    ensures EntryOk(e, sig)
  {
    var i :| 0 <= i < |ts| && Names(ts[i], e);
    NamedAreOk(ts[i], e, sig);
  }

  lemma FieldsKinded(p: Program, sig: Signature, e: Entry)
    requires ProgramOk(p, sig) && EntryOk(e, sig)
    ensures AllKinded(FieldsOf(p, e), [], sig)
  {
    if e.TypeEntry? {
      SubstsKinded(p.types[e.tmpl], sig.types[e.tmpl], e.args, sig);
    }
  }

  lemma ItemMakesOk(item: Item, params: seq<bool>, args: seq<Ty>, e: Entry, sig: Signature)
    requires ItemOk(item, params, sig) && AllKinded(args, [], sig) && Suit(args, params, []) && ItemMakes(item, args, e)
    ensures EntryOk(e, sig)
  {
    hide WellKinded, Subst, SubstAll, Names;
    match item
    case Call(f, bs) =>
      SubstsKinded(bs, params, args, sig);
      SubstsSuit(bs, sig.funs[f], params, args, sig);
      if AnyNames(SubstAll(bs, args), e) {
        AnyNamedAreOk(SubstAll(bs, args), e, sig);
      }
    case Use(t) =>
      SubstKinded(t, params, args, sig);
      NamedAreOk(Subst(t, args), e, sig);
    case TupleLit(es) => SubstsKinded(es, params, args, sig);
  }

  lemma MakesOk(p: Program, sig: Signature, a: Entry, b: Entry)
    requires ProgramOk(p, sig) && EntryOk(a, sig) && Makes(p, a, b)
    ensures EntryOk(b, sig)
  {
    hide ItemMakes, FieldsOf, ItemOk;
    match a
    case FunEntry(f, args) =>
      var i :| 0 <= i < |p.funs[f]| && ItemMakes(p.funs[f][i], args, b);
      ItemMakesOk(p.funs[f][i], sig.funs[f], args, b, sig);
    case _ =>
      FieldsKinded(p, sig, a);
      AnyNamedAreOk(FieldsOf(p, a), b, sig);
  }

  /** From well-kinded seeds of a well-kinded program only such instances come. */
  lemma {:induction false} GroundedOk(p: Program, sig: Signature, seeds: seq<Entry>, entries: seq<Entry>, k: nat)
    requires ProgramOk(p, sig) && Grounded(p, seeds, entries) && k < |entries|
    requires forall i :: 0 <= i < |seeds| ==> EntryOk(seeds[i], sig)
    ensures EntryOk(entries[k], sig)
    decreases k
  {
    hide Makes, EntryOk, ProgramOk;
    if entries[k] !in seeds {
      var j: nat :| j < k && Makes(p, entries[j], entries[k]);
      GroundedOk(p, sig, seeds, entries, j);
      MakesOk(p, sig, entries[j], entries[k]);
    }
  }

  /** What a part of a body needs, with no word about variables. */
  predicate ItemSpells(item: Item, args: seq<Ty>, key: Entry) {
    match item
    case Call(f, bs) =>
      key == Key(FunEntry(f, SubstAll(bs, args))) || exists i :: 0 <= i < |bs| && Needs(Subst(bs[i], args), key)
    case Use(t) => Needs(Subst(t, args), key)
    case TupleLit(es) => key == Key(TupleEntry(SubstAll(es, args)))
  }

  lemma ItemNeedsAll(item: Item, params: seq<bool>, args: seq<Ty>, key: Entry, sig: Signature)
    requires ItemOk(item, params, sig) && AllKinded(args, [], sig) && Suit(args, params, [])
    ensures GroundItem(item, args) && (ItemNeeds(item, args, key) <==> ItemSpells(item, args, key))
  {
    hide WellKinded, Subst, SubstAll, Needs;
    match item
    case Call(_, bs) =>
      SubstsKinded(bs, params, args, sig);
      assert forall i :: 0 <= i < |bs| ==> Subst(bs[i], args) == SubstAll(bs, args)[i];
    case Use(t) => SubstKinded(t, params, args, sig);
    case TupleLit(es) => SubstsKinded(es, params, args, sig);
  }

  /** In an instance of a well-kinded program no part is passed over: every field and
      every part of the body counts. */
  lemma NothingPassedOver(p: Program, sig: Signature, e: Entry, key: Entry)
    requires ProgramOk(p, sig) && EntryOk(e, sig)
    ensures Ground(p, e)
    ensures e.FunEntry? ==> (Requires(p, e, key) <==> exists j :: 0 <= j < |p.funs[e.fn]| && ItemSpells(p.funs[e.fn][j], e.args, key))
    ensures e.TypeEntry? ==> (Requires(p, e, key) <==> exists j :: 0 <= j < |p.types[e.tmpl]| && Needs(Subst(p.types[e.tmpl][j], e.args), key))
    ensures e.TupleEntry? ==> (Requires(p, e, key) <==> exists j :: 0 <= j < |e.args| && Needs(e.args[j], key))
  {
    hide ItemNeeds, ItemSpells, GroundItem, Subst, SubstAll, Needs, HasVar, ItemOk, WellKinded;
    match e
    case FunEntry(f, args) =>
      forall j | 0 <= j < |p.funs[f]|
        ensures GroundItem(p.funs[f][j], args) && (ItemNeeds(p.funs[f][j], args, key) <==> ItemSpells(p.funs[f][j], args, key))
      {
        ItemNeedsAll(p.funs[f][j], sig.funs[f], args, key, sig);
      }
    case TypeEntry(tm, args) =>
      FieldsKinded(p, sig, e);
      KindedHaveNoVar(FieldsOf(p, e), sig);
      assert forall j :: 0 <= j < |p.types[tm]| ==> FieldsOf(p, e)[j] == Subst(p.types[tm][j], args);
    case TupleEntry(_) =>
      FieldsKinded(p, sig, e);
      KindedHaveNoVar(FieldsOf(p, e), sig);
  }

  /** All that a well-kinded program needs is in every closed table that came from its
      seeds: whatever a chain of needs reaches. Nothing else is asked of the instances;
      that no variable is left in them is a consequence. */
  lemma NeededIsThere(p: Program, sig: Signature, seeds: seq<Entry>, entries: seq<Entry>, chain: seq<Entry>, k: nat)
    requires ProgramOk(p, sig) && (forall i :: 0 <= i < |seeds| ==> EntryOk(seeds[i], sig))
    requires Grounded(p, seeds, entries) && Closed(p, entries)
    requires forall i :: 0 <= i < |seeds| ==> Has(entries, Key(seeds[i]))
    requires Chain(p, seeds, chain) && k < |chain|
    ensures Has(entries, Key(chain[k]))
  {
    hide EntryOk, ProgramOk, Grounded, Key, Chain, Has;
    forall i | 0 <= i < |entries| ensures Ground(p, entries[i]) {
      GroundedOk(p, sig, seeds, entries, i);
      NothingPassedOver(p, sig, entries[i], entries[i]);
    }
    ClosedHasChains(p, seeds, entries, chain, k);
  }

  /** Every seed is a chain, and a chain goes on with what its last instance needs. */
  lemma ChainsAre(p: Program, seeds: seq<Entry>, chain: seq<Entry>, e: Entry)
    ensures Chain(p, seeds, [e]) <==> e in seeds
    ensures chain != [] ==>
              (Chain(p, seeds, chain + [e]) <==> Chain(p, seeds, chain) && Requires(p, chain[|chain| - 1], Key(e)))
  {
    hide Requires, Key;
    var next := chain + [e];
    assert forall i :: 0 <= i < |chain| ==> next[i] == chain[i];
    if chain != [] && Chain(p, seeds, next) {
      forall i | 0 < i < |chain| ensures Requires(p, chain[i - 1], Key(chain[i])) {
        assert Requires(p, next[i - 1], Key(next[i]));
      }
      assert Requires(p, next[|chain| - 1], Key(next[|chain|]));
    }
  }

  lemma {:induction false} OutsideStays(t: Ty, args: seq<Ty>, path: seq<nat>)
    requires Outside(t, path) && At(t, path).Some?
    ensures Outside(Subst(t, args), path)
    decreases |path|
  {
    hide Parts;
    if path != [] {
      HeadKept(t, args);
      PartSubst(t, args, path[0]);
      OutsideStays(Parts(t)[path[0]], args, path[1..]);
    }
  }

  /** Where a body of a registered function names an instance, at any place under pointers,
      slices, options, results, function types or tuples, that instance is in the table,
      its arguments being those written with the function's arguments put in. */
  lemma NamedInBodyIsThere(p: Program, sig: Signature, entries: seq<Entry>, i: nat, j: nat, path: seq<nat>)
    requires ProgramOk(p, sig) && Closed(p, entries)
    requires i < |entries| && entries[i].FunEntry? && EntryOk(entries[i], sig)
    requires j < |p.funs[entries[i].fn]| && p.funs[entries[i].fn][j].Use?
    requires var t := p.funs[entries[i].fn][j].ty; Outside(t, path) && At(t, path).Some? && Own(At(t, path).value).Some?
    ensures match Own(At(p.funs[entries[i].fn][j].ty, path).value).value
            case TypeEntry(tm, bs) => Has(entries, Key(TypeEntry(tm, SubstAll(bs, entries[i].args))))
            case TupleEntry(es) => Has(entries, Key(TupleEntry(SubstAll(es, entries[i].args))))
            case FunEntry(_, _) => false
  {
    hide Key, Has, ItemOk, WellKinded, SubstAll;
    var e := entries[i];
    var t := p.funs[e.fn][j].ty;
    var u := At(t, path).value;
    var own := Own(Subst(u, e.args)).value;
    SubstReplaces(t, e.args, path);
    OutsideStays(t, e.args, path);
    assert NeedAt(Subst(t, e.args), Key(own), path);
    NeedsAre(Subst(t, e.args), Key(own));
    assert ItemSpells(p.funs[e.fn][j], e.args, Key(own));
    NothingPassedOver(p, sig, e, Key(own));
  }

  // ----- the caps -----

  /** A way down through a term's type arguments; a tuple's elements and the fields an
      instance carries are not on one. */
  predicate Down(t: Ty, path: seq<nat>)
    decreases |path|
  {
    || path == []
    || (!t.Tuple? && path[0] < |Parts(t)| && (t.Agg? ==> path[0] < |t.args|) && Down(Parts(t)[path[0]], path[1..]))
  }

  lemma DepthInParts(t: Ty, n: nat)
    ensures Depth(t) > 0
    ensures Depth(t) > n + 1 <==>
            !t.Tuple? && exists i: nat :: i < |Parts(t)| && (t.Agg? ==> i < |t.args|) && Depth(Parts(t)[i]) > n
  {
    match t
    case Wrap(_, inner) => assert Parts(t)[0] == inner;
    case Func(ps, r) =>
      DeepestOf(ps);
      assert Parts(t)[|ps|] == r;
      assert forall i :: 0 <= i < |ps| ==> Parts(t)[i] == ps[i];
    case Stub(_, bs) =>
      DeepestOf(bs);
      assert forall i :: 0 <= i < |bs| ==> Parts(t)[i] == bs[i];
    case Agg(_, bs, _, _) =>
      DeepestOf(bs);
      assert forall i :: 0 <= i < |bs| ==> Parts(t)[i] == bs[i];
    case _ =>
  }

  lemma {:induction false} DeepestOf(ts: seq<Ty>)
    ensures forall i :: 0 <= i < |ts| ==> Depth(ts[i]) <= MaxDepth(ts)
    ensures ts != [] ==> exists i :: 0 <= i < |ts| && Depth(ts[i]) == MaxDepth(ts)
    ensures ts == [] ==> MaxDepth(ts) == 0
  {
    hide Depth;
    if ts != [] {
      DeepestOf(ts[1..]);
      assert forall i :: 1 <= i < |ts| ==> ts[i] == ts[1..][i - 1];
      if MaxDepth(ts) != Depth(ts[0]) {
        var i :| 0 <= i < |ts[1..]| && Depth(ts[1..][i]) == MaxDepth(ts[1..]);
        assert Depth(ts[i + 1]) == MaxDepth(ts);
      }
    }
  }

  predicate DownBy(t: Ty, n: nat, path: seq<nat>) {
    |path| == n && Down(t, path)
  }

  /** Depth counts the nodes on the longest way down. */
  lemma {:induction false} DepthIs(t: Ty, n: nat)
    ensures Depth(t) > n <==> exists path: seq<nat> :: DownBy(t, n, path)
    decreases n
  {
    hide Depth;
    if n == 0 {
      DepthInParts(t, 0);
      assert DownBy(t, 0, []);
    } else {
      var less: nat := n - 1;
      DepthInParts(t, less);
      forall i: nat | i < |Parts(t)|
        ensures Depth(Parts(t)[i]) > less <==> exists path: seq<nat> :: DownBy(Parts(t)[i], less, path)
      {
        DepthIs(Parts(t)[i], less);
      }
      if Depth(t) > n {
        var i: nat :| i < |Parts(t)| && (t.Agg? ==> i < |t.args|) && Depth(Parts(t)[i]) > less;
        var path: seq<nat> :| DownBy(Parts(t)[i], less, path);
        Longer(t, i, less, path);
      }
      if exists path: seq<nat> :: DownBy(t, n, path) {
        var path: seq<nat> :| DownBy(t, n, path);
        assert DownBy(Parts(t)[path[0]], less, path[1..]);
      }
    }
  }

  lemma Longer(t: Ty, i: nat, n: nat, path: seq<nat>)
    requires !t.Tuple? && i < |Parts(t)| && (t.Agg? ==> i < |t.args|) && DownBy(Parts(t)[i], n, path)
    ensures DownBy(t, n + 1, [i] + path)
  {
    hide Parts;
    assert ([i] + path)[1..] == path;
  }

  lemma {:induction false} CountSnoc(entries: seq<Entry>, x: Entry, e: Entry)
    ensures CountTemplate(entries + [x], e) == CountTemplate(entries, e) + if SameTemplate(x, e) then 1 else 0
  {
    hide SameTemplate;
    if entries == [] {
      assert entries + [x] == [x];
    } else {
      CountSnoc(entries[1..], x, e);
      assert (entries + [x])[1..] == entries[1..] + [x];
    }
  }

  /** Named alike up to the arguments; tuples have no template. */
  predicate OneTemplate(a: Entry, b: Entry) {
    !a.TupleEntry? && a.(args := b.args) == b
  }

  /** Where the instances of a template stand among the first `n` entries. */
  function Instances(entries: seq<Entry>, n: nat, e: Entry): set<int>
    requires n <= |entries|
  {
    set i | 0 <= i < n && OneTemplate(entries[i], e)
  }

  lemma InstancesStep(entries: seq<Entry>, n: nat, e: Entry)
    requires n < |entries|
    ensures Instances(entries, n + 1, e) == Instances(entries, n, e) + if OneTemplate(entries[n], e) then {n} else {}
    ensures n !in Instances(entries, n, e)
  {
    hide OneTemplate;
  }

  lemma {:induction false} CountIs(entries: seq<Entry>, n: nat, e: Entry)
    requires n <= |entries|
    ensures CountTemplate(entries[..n], e) == |Instances(entries, n, e)|
    decreases n
  {
    hide Instances, CountTemplate;
    if n > 0 {
      var less: nat := n - 1;
      CountIs(entries, less, e);
      CountSnoc(entries[..less], entries[less], e);
      assert entries[..n] == entries[..less] + [entries[less]];
      InstancesStep(entries, less, e);
    } else {
      assert entries[..0] == [];
      NoInstances(entries, e);
    }
  }

  lemma NoInstances(entries: seq<Entry>, e: Entry)
    ensures Instances(entries, 0, e) == {} && CountTemplate([], e) == 0
  {
  }

  /** A new instance is refused in exactly four cases: a check rejects it; one of its
      arguments nests more than 128 deep; there are 200000 instances; or it has a constant
      argument and its template has 2048. The first, second and fourth spare a tuple. */
  lemma RefusedWhen(rejects: Entry -> bool, entries: seq<Entry>, e: Entry)
    ensures Refused(rejects, entries, e) <==>
            || |entries| >= 200000
            || (!e.TupleEntry? && rejects(e))
            || (!e.TupleEntry? && exists i: nat, path: seq<nat> :: i < |e.args| && DownBy(e.args[i], 128, path))
            || (!e.TupleEntry? && |Instances(entries, |entries|, e)| >= 2048
                && exists i :: 0 <= i < |e.args| && (e.args[i].Const? || e.args[i].ConstPlus?))
  {
    hide Depth, MaxDepth, CountTemplate, Instances;
    CountIs(entries, |entries|, e);
    assert entries[..|entries|] == entries;
    DeepestOf(e.args);
    forall i | 0 <= i < |e.args|
      ensures Depth(e.args[i]) > 128 <==> exists path: seq<nat> :: DownBy(e.args[i], 128, path)
    {
      DepthIs(e.args[i], 128);
    }
  }

  // ----- the table -----

  /** An instance is in the table when one of the same name is. */
  lemma HasIs(entries: seq<Entry>, e: Entry)
    ensures Has(entries, Key(e)) <==> exists x :: x in entries && Key(x) == Key(e)
  {
    hide Key;
    if Has(entries, Key(e)) {
      var i :| 0 <= i < |entries| && Key(entries[i]) == Key(e);
      assert entries[i] in entries;
    }
  }

  /** Each entry is a seed, or an earlier one makes it. */
  lemma GroundedIs(p: Program, seeds: seq<Entry>, entries: seq<Entry>)
    ensures Grounded(p, seeds, entries) <==>
            forall k :: 0 <= k < |entries| ==> entries[k] in seeds || exists e :: e in entries[..k] && Makes(p, e, entries[k])
  {
    hide Makes;
    forall k | 0 <= k < |entries|
      ensures (exists j :: 0 <= j < k && Makes(p, entries[j], entries[k])) <==> exists e :: e in entries[..k] && Makes(p, e, entries[k])
    {
      if j :| 0 <= j < k && Makes(p, entries[j], entries[k]) {
        assert entries[j] in entries[..k];
      }
      if e :| e in entries[..k] && Makes(p, e, entries[k]) {
        var j :| 0 <= j < k && entries[j] == e;
      }
    }
  }
}
