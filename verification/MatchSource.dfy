/** FC patterns, their meaning on values, and first-match-wins. */
module MatchSource {

  datatype Option<T> = None | Some(value: T)

  datatype Type =
    | TInt                              // integers, characters, booleans, enums
    | TStr
    | TPtr
    | TOption(inner: Type)
    | TResult(ok: Type)
    | TUnion(variants: seq<Option<Type>>)
    | TFields(fields: seq<Type>)        // structs and tuples

  datatype Value =
    | Int(v: int)
    | Str(bytes: seq<int>)
    | Ptr(addr: int)
    | Absent
    | Present(inner: Value)
    | Success(ok: Value)
    | Failure(code: int)
    | Variant(tag: nat, payload: Option<Value>)
    | Fields(fields: seq<Value>)

  datatype Pattern =
    | Wildcard
    | Binding(name: nat)
    | Lit(v: int)
    | StrLit(bytes: seq<int>)
    | PNone
    | PSome(inner: Pattern)
    | POk(inner: Pattern)
    | PErr(inner: Pattern)
    | PVariant(tag: nat, payload: Pattern)
    | PFields(parts: seq<Part>)
    | POr(alts: seq<Pattern>)

  /** One listed field of a struct pattern, or one element of a tuple pattern. */
  datatype Part = Part(index: nat, pat: Pattern)

  /** An option of a pointer is that pointer, with null for none. */
  predicate IsNullSentinel(t: Type) {
    t.TOption? && t.inner.TPtr?
  }

  predicate HasType(v: Value, t: Type)
    decreases v
  {
    match t
    case TInt => v.Int?
    case TStr => v.Str?
    case TPtr => v.Ptr?
    case TOption(inner) =>
      v.Absent? || (v.Present? && HasType(v.inner, inner) && (inner.TPtr? ==> v.inner.Ptr? && v.inner.addr != 0))
    case TResult(inner) => (v.Success? && HasType(v.ok, inner)) || (v.Failure? && v.code != 0)
    case TUnion(vs) =>
      && v.Variant? && v.tag < |vs| && v.payload.Some? == vs[v.tag].Some?
      && (v.payload.Some? ==> HasType(v.payload.value, vs[v.tag].value))
    case TFields(ts) =>
      v.Fields? && |v.fields| == |ts| && forall i :: 0 <= i < |ts| ==> HasType(v.fields[i], ts[i])
  }

  /** What the checker guarantees of a pattern on a subject of type `t`. */
  predicate Fits(pat: Pattern, t: Type)
    decreases pat
  {
    match pat
    case Wildcard => true
    case Binding(_) => true
    case Lit(_) => t.TInt?
    case StrLit(_) => t.TStr?
    case PNone => t.TOption?
    case PSome(inner) => t.TOption? && Fits(inner, t.inner)
    case POk(inner) => t.TResult? && Fits(inner, t.ok)
    case PErr(inner) => t.TResult? && Fits(inner, TInt)
    case PVariant(tag, payload) =>
      t.TUnion? && tag < |t.variants| && (t.variants[tag].Some? ==> Fits(payload, t.variants[tag].value))
    case PFields(parts) =>
      t.TFields? && forall i :: 0 <= i < |parts| ==> parts[i].index < |t.fields| && Fits(parts[i].pat, t.fields[parts[i].index])
    case POr(alts) => forall i :: 0 <= i < |alts| ==> Fits(alts[i], t) && BindsNothing(alts[i])
  }

  predicate BindsNothing(pat: Pattern)
    decreases pat
  {
    match pat
    case Binding(_) => false
    case PSome(inner) => BindsNothing(inner)
    case POk(inner) => BindsNothing(inner)
    case PErr(inner) => BindsNothing(inner)
    case PVariant(_, payload) => BindsNothing(payload)
    case PFields(parts) => forall i :: 0 <= i < |parts| ==> BindsNothing(parts[i].pat)
    case POr(alts) => forall i :: 0 <= i < |alts| ==> BindsNothing(alts[i])
    case _ => true
  }

  predicate Matches(pat: Pattern, v: Value)
    decreases pat
  {
    match pat
    case Wildcard => true
    case Binding(_) => true
    case Lit(k) => v == Int(k)
    case StrLit(bytes) => v == Str(bytes)
    case PNone => v.Absent?
    case PSome(inner) => v.Present? && Matches(inner, v.inner)
    case POk(inner) => v.Success? && Matches(inner, v.ok)
    case PErr(inner) => v.Failure? && Matches(inner, Int(v.code))
    case PVariant(tag, payload) =>
      v.Variant? && v.tag == tag && (v.payload.Some? ==> Matches(payload, v.payload.value))
    case PFields(parts) =>
      v.Fields? && forall i :: 0 <= i < |parts| ==>
        parts[i].index < |v.fields| && Matches(parts[i].pat, v.fields[parts[i].index])
    case POr(alts) => exists i :: 0 <= i < |alts| && Matches(alts[i], v)
  }

  /** A bound variable: its name, type and value. */
  datatype Bound = Bound(name: nat, t: Type, v: Value)

  /** The bindings of a match, in source order. */
  function Bindings(pat: Pattern, t: Type, v: Value): seq<Bound>
    requires Fits(pat, t) && HasType(v, t) && Matches(pat, v)
    decreases pat, 1
  {
    match pat
    case Binding(name) => [Bound(name, t, v)]
    case PSome(inner) => Bindings(inner, t.inner, v.inner)
    case POk(inner) => Bindings(inner, t.ok, v.ok)
    case PErr(inner) => Bindings(inner, TInt, Int(v.code))
    case PVariant(tag, payload) => if v.payload.Some? then Bindings(payload, t.variants[tag].value, v.payload.value) else []
    case PFields(parts) => PartBindings(parts, t, v)
    case _ => []
  }

  function PartBindings(parts: seq<Part>, t: Type, v: Value): seq<Bound>
    requires t.TFields? && HasType(v, t)
    requires forall i :: 0 <= i < |parts| ==>
               && parts[i].index < |t.fields| && Fits(parts[i].pat, t.fields[parts[i].index])
               && Matches(parts[i].pat, v.fields[parts[i].index])
    decreases parts, 0
  {
    if parts == [] then []
    else
      var first := parts[0];
      assert first.pat < first;
      Bindings(first.pat, t.fields[first.index], v.fields[first.index]) + PartBindings(parts[1..], t, v)
  }

  // ----- arms -----

  datatype Arm = Arm(pat: Pattern, guard: Option<nat>, body: nat)

  /** A guard evaluated or a body run, with the bindings it saw. */
  datatype Event = Event(id: nat, bound: seq<Bound>)

  type Trace = seq<Event>

  /** What the arms run against. Guards and bodies see their bindings and all that
      happened before, and both are observed; a body may leave the match. */
  datatype World = World(
    guard: (nat, seq<Bound>, Trace) -> bool,
    leaves: (nat, seq<Bound>, Trace) -> bool,
    result: (nat, seq<Bound>, Trace) -> int)

  datatype Outcome = Result(v: int) | Left | Uncovered

  function RunBody(w: World, body: nat, bs: seq<Bound>, tr: Trace): (Outcome, Trace) {
    (if w.leaves(body, bs, tr) then Left else Result(w.result(body, bs, tr)), tr + [Event(body, bs)])
  }

  predicate ArmsFit(arms: seq<Arm>, t: Type) {
    forall i :: 0 <= i < |arms| ==> Fits(arms[i].pat, t)
  }

  /** The first arm that matches, and whose guard, if any, then holds. */
  function RunMatch(w: World, arms: seq<Arm>, t: Type, v: Value, tr: Trace): (Outcome, Trace)
    requires ArmsFit(arms, t) && HasType(v, t)
    decreases |arms|
  {
    if arms == [] then (Uncovered, tr)
    else if !Matches(arms[0].pat, v) then RunMatch(w, arms[1..], t, v, tr)
    else
      var bs := Bindings(arms[0].pat, t, v);
      match arms[0].guard
      case None => RunBody(w, arms[0].body, bs, tr)
      case Some(g) =>
        var tr1 := tr + [Event(g, bs)];
        if w.guard(g, bs, tr) then RunBody(w, arms[0].body, bs, tr1) else RunMatch(w, arms[1..], t, v, tr1)
  }

  /** What the exhaustiveness check proves: some unguarded arm takes every value. */
  ghost predicate Exhaustive(arms: seq<Arm>, t: Type) {
    forall v :: HasType(v, t) ==> Covers(arms, v)
  }

  predicate Covers(arms: seq<Arm>, v: Value) {
    exists i :: 0 <= i < |arms| && arms[i].guard.None? && Matches(arms[i].pat, v)
  }
}
