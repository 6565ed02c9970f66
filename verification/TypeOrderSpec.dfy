/** Types that hold others by value, and what a C file must satisfy to define
    them: every body once, after everything it holds is complete. */
module TypeOrderSpec {

  datatype Type =
    | Scalar                 // complete without a body: primitives, pointers, slices,
                             // functions, enums, null-sentinel options, void
    | Aggregate(name: nat)   // struct, union or instance, by its C name
    | FixedArray(elem: Type)
    | Option(inner: Type)
    | Result(inner: Type)

  /** A struct or union definition. An extern struct's body is in a C header. */
  datatype Def = Def(name: nat, isExtern: bool, fields: seq<Type>)

  datatype Body = DefBody(name: nat) | WrapBody(t: Type)

  /** The program's definitions, and the wrapper types it uses. */
  datatype Program = Program(defs: seq<Def>, options: seq<Type>, results: seq<Type>)

  predicate HasDef(p: Program, name: nat) {
    exists i :: 0 <= i < |p.defs| && p.defs[i].name == name
  }

  predicate IsExternName(p: Program, name: nat) {
    exists i :: 0 <= i < |p.defs| && p.defs[i].name == name && p.defs[i].isExtern
  }

  /** Every type held by value has a definition, or is in its set of wrappers. An
      array is never wrapped. */
  predicate Known(p: Program, t: Type)
    decreases t
  {
    match t
    case Scalar => true
    case Aggregate(n) => HasDef(p, n)
    case FixedArray(e) => Known(p, e)
    case Option(i) => t in p.options && !i.FixedArray? && Known(p, i)
    case Result(i) => t in p.results && !i.FixedArray? && Known(p, i)
  }

  predicate Distinct<T(==)>(s: seq<T>) {
    forall i, j :: 0 <= i < j < |s| ==> s[i] != s[j]
  }

  predicate WellFormed(p: Program) {
    && (forall i, j :: 0 <= i < j < |p.defs| ==> p.defs[i].name != p.defs[j].name)
    && Distinct(p.options) && Distinct(p.results)
    && (forall i :: 0 <= i < |p.options| ==> p.options[i].Option? && Known(p, p.options[i]))
    && (forall i :: 0 <= i < |p.results| ==> p.results[i].Result? && Known(p, p.results[i]))
    && (forall i, k :: 0 <= i < |p.defs| && 0 <= k < |p.defs[i].fields| ==> Known(p, p.defs[i].fields[k]))
  }

  datatype Maybe = None | Some(name: nat)

  /** The aggregate a type holds by value, through arrays and wrappers. */
  function ByValue(t: Type): Maybe {
    match t
    case Scalar => None
    case Aggregate(n) => Some(n)
    case FixedArray(e) => ByValue(e)
    case Option(i) => ByValue(i)
    case Result(i) => ByValue(i)
  }

  /** Definition `i` holds definition `j` by value. */
  predicate DependsOn(p: Program, i: nat, j: nat)
    requires i < |p.defs| && j < |p.defs|
  {
    !p.defs[i].isExtern && exists k :: 0 <= k < |p.defs[i].fields| && ByValue(p.defs[i].fields[k]) == Some(p.defs[j].name)
  }

  /** No definition holds itself: each can be given a rank above all it holds. */
  ghost predicate RanksBy(p: Program, rank: seq<nat>) {
    |rank| == |p.defs| &&
    forall i, j :: 0 <= i < |p.defs| && 0 <= j < |p.defs| && DependsOn(p, i, j) ==> rank[j] < rank[i]
  }

  ghost predicate Acyclic(p: Program) {
    exists rank: seq<nat> :: RanksBy(p, rank)
  }

  // ----- what the C compiler demands -----

  predicate Complete(p: Program, t: Type, out: seq<Body>)
    decreases t
  {
    match t
    case Scalar => true
    case Aggregate(n) => IsExternName(p, n) || DefBody(n) in out
    case FixedArray(e) => Complete(p, e, out)
    case Option(_) => WrapBody(t) in out
    case Result(_) => WrapBody(t) in out
  }

  /** Everything a body holds by value is complete after `out`. */
  predicate Ready(p: Program, b: Body, out: seq<Body>) {
    match b
    case DefBody(n) =>
      forall i, k :: 0 <= i < |p.defs| && p.defs[i].name == n && 0 <= k < |p.defs[i].fields| ==>
        Complete(p, p.defs[i].fields[k], out)
    case WrapBody(t) => (t.Option? || t.Result?) && Complete(p, t.inner, out)
  }

  predicate Ordered(p: Program, out: seq<Body>) {
    Distinct(out) && forall i :: 0 <= i < |out| ==> Ready(p, out[i], out[..i])
  }

  predicate Covers(p: Program, out: seq<Body>) {
    && (forall i :: 0 <= i < |p.defs| ==> (DefBody(p.defs[i].name) in out <==> !p.defs[i].isExtern))
    && (forall i :: 0 <= i < |p.options| ==> WrapBody(p.options[i]) in out)
    && (forall i :: 0 <= i < |p.results| ==> WrapBody(p.results[i]) in out)
  }

  lemma OrderedSnoc(p: Program, out: seq<Body>, b: Body)
    requires Ordered(p, out) && b !in out && Ready(p, b, out)
    ensures Ordered(p, out + [b])
  {
    var next := out + [b];
    assert next[..|out|] == out;
    forall i | 0 <= i < |next| ensures Ready(p, next[i], next[..i]) {
      if i < |out| {
        assert next[..i] == out[..i];
      }
    }
  }

  // ----- acyclic programs are all that can be defined at all -----

  /** The aggregate a complete type holds, however deep, was defined before. */
  lemma {:induction false} HeldBefore(p: Program, t: Type, out: seq<Body>, k: nat)
    requires Ordered(p, out) && k <= |out| && Complete(p, t, out[..k])
    requires ByValue(t).Some? && !IsExternName(p, ByValue(t).name)
    ensures DefBody(ByValue(t).name) in out[..k]
    decreases t
  {
    match t
    case Aggregate(_) =>
    case FixedArray(e) => HeldBefore(p, e, out, k);
    case Option(i) =>
      var m :| 0 <= m < k && out[m] == WrapBody(t);
      assert Ready(p, out[m], out[..m]);
      HeldBefore(p, i, out, m);
    case Result(i) =>
      var m :| 0 <= m < k && out[m] == WrapBody(t);
      assert Ready(p, out[m], out[..m]);
      HeldBefore(p, i, out, m);
  }

  function IndexOf(out: seq<Body>, b: Body): (k: nat)
    ensures k <= |out| && b !in out[..k] && (k < |out| ==> out[k] == b)
  {
    if out == [] || out[0] == b then 0 else 1 + IndexOf(out[1..], b)
  }

  lemma FoundBefore(out: seq<Body>, b: Body, k: nat)
    requires k <= |out| && b in out[..k]
    ensures IndexOf(out, b) < k
  {
  }

  /** Where a definition's body stands; an extern one stands before all. */
  function Place(p: Program, out: seq<Body>, i: nat): nat
    requires i < |p.defs|
  {
    if p.defs[i].isExtern then 0 else 1 + IndexOf(out, DefBody(p.defs[i].name))
  }

  lemma HeldPlace(p: Program, out: seq<Body>, i: nat, j: nat)
    requires WellFormed(p) && Ordered(p, out) && Covers(p, out)
    requires i < |p.defs| && j < |p.defs| && DependsOn(p, i, j)
    ensures Place(p, out, j) < Place(p, out, i)
  {
    var b, c := DefBody(p.defs[i].name), DefBody(p.defs[j].name);
    var k := IndexOf(out, b);
    assert b in out;
    assert k < |out|;
    var f :| 0 <= f < |p.defs[i].fields| && ByValue(p.defs[i].fields[f]) == Some(p.defs[j].name);
    assert Ready(p, out[k], out[..k]);
    if !p.defs[j].isExtern {
      NotExtern(p, j);
      HeldBefore(p, p.defs[i].fields[f], out, k);
      FoundBefore(out, c, k);
    }
  }

  lemma NotExtern(p: Program, j: nat)
    requires WellFormed(p) && j < |p.defs| && !p.defs[j].isExtern
    ensures !IsExternName(p, p.defs[j].name)
  {
  }

  /** Only acyclic programs have an order in which they can be defined. */
  lemma OrderedMeansAcyclic(p: Program, out: seq<Body>)
    requires WellFormed(p) && Ordered(p, out) && Covers(p, out)
    ensures Acyclic(p)
  {
    var rank := seq(|p.defs|, i requires 0 <= i < |p.defs| => Place(p, out, i));
    forall i, j | 0 <= i < |p.defs| && 0 <= j < |p.defs| && DependsOn(p, i, j) ensures rank[j] < rank[i] {
      HeldPlace(p, out, i, j);
    }
    assert RanksBy(p, rank);
  }
}
