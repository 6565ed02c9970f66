/** Type terms, generic templates, and what one instance makes of others. */
module MonoTypes {

  /** `Stub` and `Agg` both name the instance of a generic struct or union; `Agg`
      carries its fields as well, and `named` says whether the node already has
      the instance's name. */
  datatype Ty =
    | Prim(id: nat)
    | Var(i: nat)
    | Const(n: int)
    | ConstPlus(i: nat, step: int)       // 'n + k for a const parameter
    | Wrap(k: nat, inner: Ty)         // pointer, slice, option, result, array
    | Func(params: seq<Ty>, ret: Ty)
    | Tuple(elems: seq<Ty>)
    | Stub(tmpl: nat, args: seq<Ty>)
    | Agg(tmpl: nat, args: seq<Ty>, fields: seq<Ty>, named: bool)

  /** What a generic function's body contains that names instances. */
  datatype Item =
    | Call(fn: nat, args: seq<Ty>)
    | Use(ty: Ty)                     // a type operand, a literal, a variant constructor
    | TupleLit(elems: seq<Ty>)

  datatype Program = Program(types: seq<seq<Ty>>, funs: seq<seq<Item>>)

  /** A table entry. A tuple instance has no template. */
  datatype Entry =
    | TypeEntry(tmpl: nat, args: seq<Ty>)
    | TupleEntry(args: seq<Ty>)
    | FunEntry(fn: nat, args: seq<Ty>)

  function SubstAll(ts: seq<Ty>, args: seq<Ty>): (r: seq<Ty>)
    ensures |r| == |ts| && forall i :: 0 <= i < |ts| ==> r[i] == Subst(ts[i], args)
    decreases ts, 0
  {
    if ts == [] then [] else [Subst(ts[0], args)] + SubstAll(ts[1..], args)
  }

  function Subst(t: Ty, args: seq<Ty>): Ty
    decreases t, 1
  {
    match t
    case Var(i) => if i < |args| then args[i] else t
    case ConstPlus(i, k) => if i < |args| && args[i].Const? then Const(args[i].n + k) else t
    case Wrap(k, inner) => Wrap(k, Subst(inner, args))
    case Func(ps, r) => Func(SubstAll(ps, args), Subst(r, args))
    case Tuple(es) => Tuple(SubstAll(es, args))
    case Stub(tm, bs) => Stub(tm, SubstAll(bs, args))
    case Agg(tm, bs, fs, named) => Agg(tm, SubstAll(bs, args), SubstAll(fs, args), named)
    case _ => t
  }

  predicate HasVar(t: Ty)
    decreases t
  {
    match t
    case Var(_) => true
    case ConstPlus(_, _) => true
    case Wrap(_, inner) => HasVar(inner)
    case Func(ps, r) => HasVar(r) || exists i :: 0 <= i < |ps| && HasVar(ps[i])
    case Tuple(es) => exists i :: 0 <= i < |es| && HasVar(es[i])
    case Stub(_, bs) => exists i :: 0 <= i < |bs| && HasVar(bs[i])
    case Agg(_, bs, fs, _) =>
      (exists i :: 0 <= i < |bs| && HasVar(bs[i])) || (exists i :: 0 <= i < |fs| && HasVar(fs[i]))
    case _ => false
  }

  predicate AnyVar(ts: seq<Ty>) {
    exists i :: 0 <= i < |ts| && HasVar(ts[i])
  }

  /** The spelling of a type: two nodes have the same one when they denote the same
      type. Instances are kept apart by it. */
  function Canon(t: Ty): Ty
    decreases t, 1
  {
    match t
    case Wrap(k, inner) => Wrap(k, Canon(inner))
    case Func(ps, r) => Func(CanonAll(ps), Canon(r))
    case Tuple(es) => Tuple(CanonAll(es))
    case Stub(tm, bs) => Stub(tm, CanonAll(bs))
    case Agg(tm, bs, _, _) => Stub(tm, CanonAll(bs))
    case _ => t
  }

  function CanonAll(ts: seq<Ty>): (r: seq<Ty>)
    ensures |r| == |ts| && forall i :: 0 <= i < |ts| ==> r[i] == Canon(ts[i])
    decreases ts, 0
  {
    if ts == [] then [] else [Canon(ts[0])] + CanonAll(ts[1..])
  }

  /** The C name of an instance. */
  function Key(e: Entry): Entry {
    match e
    case TypeEntry(tm, args) => TypeEntry(tm, CanonAll(args))
    case TupleEntry(args) => TupleEntry(CanonAll(args))
    case FunEntry(f, args) => FunEntry(f, CanonAll(args))
  }

  // ----- sizes -----

  function MaxDepth(ts: seq<Ty>): nat
    decreases ts, 0
  {
    if ts == [] then 0
    else
      var d, rest := Depth(ts[0]), MaxDepth(ts[1..]);
      if d > rest then d else rest
  }

  /** How deep a type argument nests. A tuple's elements are not its type
      arguments, so a tuple counts as flat. */
  function Depth(t: Ty): nat
    decreases t, 1
  {
    match t
    case Wrap(_, inner) => 1 + Depth(inner)
    case Func(ps, r) => (var d, rest := Depth(r), MaxDepth(ps); 1 + if d > rest then d else rest)
    case Stub(_, bs) => 1 + MaxDepth(bs)
    case Agg(_, bs, _, _) => 1 + MaxDepth(bs)
    case _ => 1
  }

  predicate HasConstArg(args: seq<Ty>) {
    exists i :: 0 <= i < |args| && (args[i].Const? || args[i].ConstPlus?)
  }

  // ----- which instances a type or an instance names -----

  /** Discovering `t` may register `e`. */
  predicate Names(t: Ty, e: Entry)
    decreases t
  {
    match t
    case Wrap(_, inner) => Names(inner, e)
    case Func(ps, r) => Names(r, e) || exists i :: 0 <= i < |ps| && Names(ps[i], e)
    case Tuple(es) => e == TupleEntry(es) || exists i :: 0 <= i < |es| && Names(es[i], e)
    case Stub(tm, bs) => e == TypeEntry(tm, bs)
    case Agg(tm, bs, fs, _) =>
      || e == TypeEntry(tm, bs)
      || (exists i :: 0 <= i < |bs| && Names(bs[i], e))
      || (exists i :: 0 <= i < |fs| && Names(fs[i], e))
    case _ => false
  }

  predicate AnyNames(ts: seq<Ty>, e: Entry) {
    exists i :: 0 <= i < |ts| && Names(ts[i], e)
  }

  /** The C of `t` spells the name of the instance `key`: its own, or that of a type
      inside its wrappers and tuples. Type arguments only go into names. */
  predicate Needs(t: Ty, key: Entry)
    decreases t
  {
    match t
    case Wrap(_, inner) => Needs(inner, key)
    case Func(ps, r) => Needs(r, key) || exists i :: 0 <= i < |ps| && Needs(ps[i], key)
    case Tuple(es) => key == Key(TupleEntry(es)) || exists i :: 0 <= i < |es| && Needs(es[i], key)
    case Stub(tm, bs) => key == Key(TypeEntry(tm, bs))
    case Agg(tm, bs, _, _) => key == Key(TypeEntry(tm, bs))
    case _ => false
  }

  predicate AnyNeeds(ts: seq<Ty>, key: Entry) {
    exists i :: 0 <= i < |ts| && Needs(ts[i], key)
  }

  /** The fields of a type instance. */
  function FieldsOf(p: Program, e: Entry): seq<Ty> {
    match e
    case TypeEntry(tm, args) => if tm < |p.types| then SubstAll(p.types[tm], args) else []
    case TupleEntry(args) => args
    case FunEntry(_, _) => []
  }

  predicate ItemMakes(item: Item, args: seq<Ty>, e: Entry) {
    match item
    case Call(f, bs) => e == FunEntry(f, SubstAll(bs, args)) || AnyNames(SubstAll(bs, args), e)
    case Use(t) => Names(Subst(t, args), e)
    case TupleLit(es) => e == TupleEntry(SubstAll(es, args))
  }

  /** Processing `e1` may register `e2`. */
  predicate Makes(p: Program, e1: Entry, e2: Entry) {
    match e1
    case FunEntry(f, args) => f < |p.funs| && exists i :: 0 <= i < |p.funs[f]| && ItemMakes(p.funs[f][i], args, e2)
    case _ => AnyNames(FieldsOf(p, e1), e2)
  }

  /** A part of a body that still mentions a type variable makes nothing. */
  predicate ItemNeeds(item: Item, args: seq<Ty>, key: Entry) {
    match item
    case Call(f, bs) => !AnyVar(SubstAll(bs, args)) && (key == Key(FunEntry(f, SubstAll(bs, args))) || AnyNeeds(SubstAll(bs, args), key))
    case Use(t) => !HasVar(Subst(t, args)) && Needs(Subst(t, args), key)
    case TupleLit(es) => !AnyVar(SubstAll(es, args)) && key == Key(TupleEntry(SubstAll(es, args)))
  }

  /** The emitted C of `e` needs the instance `key`. */
  predicate Requires(p: Program, e: Entry, key: Entry) {
    match e
    case FunEntry(f, args) => f < |p.funs| && exists i :: 0 <= i < |p.funs[f]| && ItemNeeds(p.funs[f][i], args, key)
    case _ => exists i :: 0 <= i < |FieldsOf(p, e)| && !HasVar(FieldsOf(p, e)[i]) && Needs(FieldsOf(p, e)[i], key)
  }

  // ----- equal spellings need equal instances -----

  lemma {:induction false} CanonIdempotent(t: Ty)
    ensures Canon(Canon(t)) == Canon(t)
    decreases t, 1
  {
    match t
    case Wrap(_, inner) => CanonIdempotent(inner);
    case Func(ps, r) =>
      CanonAllIdempotent(ps);
      CanonIdempotent(r);
    case Tuple(es) => CanonAllIdempotent(es);
    case Stub(_, bs) => CanonAllIdempotent(bs);
    case Agg(_, bs, _, _) => CanonAllIdempotent(bs);
    case _ =>
  }

  lemma {:induction false} CanonAllIdempotent(ts: seq<Ty>)
    ensures CanonAll(CanonAll(ts)) == CanonAll(ts)
    decreases ts, 0
  {
    if ts != [] {
      CanonIdempotent(ts[0]);
      CanonAllIdempotent(ts[1..]);
      assert CanonAll(ts)[1..] == CanonAll(ts[1..]);
    }
  }
}
