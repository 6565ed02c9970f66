/** What an order of definitions gives a C compiler, told by what is reached from a field
    through arrays, options and results, however deep. */
module TypeOrderMeaning {
  import opened TypeOrderSpec

  /** Arrays, options and results hold their element. */
  predicate Layered(t: Type) {
    t.FixedArray? || t.Option? || t.Result?
  }

  function Under(t: Type): (u: Type)
    requires Layered(t)
    ensures u < t
  {
    if t.FixedArray? then t.elem else t.inner
  }

  /** The type `n` levels down; a scalar where there is none. */
  function Down(t: Type, n: nat): Type {
    if n == 0 then t else if Layered(t) then Down(Under(t), n - 1) else Scalar
  }

  predicate Reaches(t: Type, name: nat, n: nat) {
    Down(t, n) == Aggregate(name)
  }

  lemma {:induction false} ByValueIs(t: Type, name: nat)
    ensures ByValue(t) == Some(name) <==> exists n: nat :: Reaches(t, name, n)
    decreases t
  {
    if t == Aggregate(name) {
      assert Reaches(t, name, 0);
    }
    if Layered(t) {
      ByValueIs(Under(t), name);
      if ByValue(t) == Some(name) {
        var n: nat :| Reaches(Under(t), name, n);
        assert Reaches(t, name, n + 1);
      }
    }
    if exists n: nat :: Reaches(t, name, n) {
      var n: nat :| Reaches(t, name, n);
      if n > 0 && Layered(t) {
        assert Reaches(Under(t), name, n - 1);
      }
    }
  }

  /** A field of one definition holds another one by value. */
  predicate FieldHolds(p: Program, i: nat, j: nat, k: nat, n: nat)
    requires i < |p.defs| && j < |p.defs|
  {
    k < |p.defs[i].fields| && Reaches(p.defs[i].fields[k], p.defs[j].name, n)
  }

  /** What the order is about: a definition written here that has, at any depth of a
      field, another one. */
  lemma DependsIs(p: Program, i: nat, j: nat)
    requires i < |p.defs| && j < |p.defs|
    ensures DependsOn(p, i, j) <==> !p.defs[i].isExtern && exists k: nat, n: nat :: FieldHolds(p, i, j, k, n)
  {
    hide ByValue, Reaches;
    if DependsOn(p, i, j) {
      var k: nat :| k < |p.defs[i].fields| && ByValue(p.defs[i].fields[k]) == Some(p.defs[j].name);
      ByValueIs(p.defs[i].fields[k], p.defs[j].name);
      var n: nat :| Reaches(p.defs[i].fields[k], p.defs[j].name, n);
      assert FieldHolds(p, i, j, k, n);
    }
    if exists k: nat, n: nat :: FieldHolds(p, i, j, k, n) {
      var k: nat, n: nat :| FieldHolds(p, i, j, k, n);
      ByValueIs(p.defs[i].fields[k], p.defs[j].name);
    }
  }

  /** A name without a definition, a wrapper that was not collected, or a wrapped array. */
  predicate Unknown(p: Program, u: Type) {
    match u
    case Aggregate(name) => forall i :: 0 <= i < |p.defs| ==> p.defs[i].name != name
    case Option(i) => u !in p.options || i.FixedArray?
    case Result(i) => u !in p.results || i.FixedArray?
    case _ => false
  }

  predicate UnknownAt(p: Program, t: Type, n: nat) {
    Unknown(p, Down(t, n))
  }

  /** A type is known when nothing unknown is in it. */
  lemma {:induction false} KnownIs(p: Program, t: Type)
    ensures Known(p, t) <==> forall n: nat :: !UnknownAt(p, t, n)
    decreases t
  {
    if Layered(t) {
      KnownIs(p, Under(t));
    }
    if Known(p, t) {
      forall n: nat ensures !UnknownAt(p, t, n) {
        if n > 0 && Layered(t) {
          assert !UnknownAt(p, Under(t), n - 1);
        }
      }
    } else if Layered(t) && !Known(p, Under(t)) {
      var n: nat :| UnknownAt(p, Under(t), n);
      assert UnknownAt(p, t, n + 1);
    } else {
      assert UnknownAt(p, t, 0);
    }
  }

  /** What a program must give: distinct names, distinct wrappers of each kind, and
      nothing unknown in a wrapper or a field. */
  lemma WellFormedIs(p: Program)
    ensures WellFormed(p) <==>
            && (forall i, j :: 0 <= i < |p.defs| && 0 <= j < |p.defs| && p.defs[i].name == p.defs[j].name ==> i == j)
            && (forall i, j :: 0 <= i < |p.options| && 0 <= j < |p.options| && p.options[i] == p.options[j] ==> i == j)
            && (forall i, j :: 0 <= i < |p.results| && 0 <= j < |p.results| && p.results[i] == p.results[j] ==> i == j)
            && (forall t :: t in p.options ==> t.Option? && Known(p, t)) && (forall t :: t in p.results ==> t.Result? && Known(p, t))
            && (forall d :: d in p.defs ==> forall t :: t in d.fields ==> Known(p, t))
  {
    hide Known;
    if WellFormed(p) {
      forall d | d in p.defs ensures forall t :: t in d.fields ==> Known(p, t) {
        var i :| 0 <= i < |p.defs| && p.defs[i] == d;
        forall t | t in d.fields ensures Known(p, t) {
          var k :| 0 <= k < |d.fields| && d.fields[k] == t;
        }
      }
    }
  }

  /** There when the body at `k` is written: a scalar, an array, a wrapper whose body is
      before, an aggregate whose body is before or comes from a header. */
  predicate There(p: Program, out: seq<Body>, k: nat, u: Type)
    requires k <= |out|
  {
    match u
    case Aggregate(name) => DefBody(name) in out[..k] || exists i :: 0 <= i < |p.defs| && p.defs[i].name == name && p.defs[i].isExtern
    case Option(_) => WrapBody(u) in out[..k]
    case Result(_) => WrapBody(u) in out[..k]
    case _ => true
  }

  lemma {:induction false} AllThere(p: Program, out: seq<Body>, k: nat, t: Type, n: nat)
    requires Ordered(p, out) && k <= |out| && Complete(p, t, out[..k])
    ensures There(p, out, k, Down(t, n))
    decreases t, n
  {
    if n > 0 {
      match t
      case FixedArray(e) => AllThere(p, out, k, e, n - 1);
      case Option(i) => AllThereInside(p, out, k, t, n);
      case Result(i) => AllThereInside(p, out, k, t, n);
      case _ =>
    }
  }

  lemma {:induction false} AllThereInside(p: Program, out: seq<Body>, k: nat, t: Type, n: nat)
    requires Ordered(p, out) && k <= |out| && Complete(p, t, out[..k]) && n > 0 && (t.Option? || t.Result?)
    ensures There(p, out, k, Down(t, n))
    decreases t, n, 0
  {
    var m: nat :| m < k && out[m] == WrapBody(t);
    assert Ready(p, out[m], out[..m]);
    AllThere(p, out, m, t.inner, n - 1);
    ThereStays(p, out, m, k, Down(t, n));
  }

  lemma ThereStays(p: Program, out: seq<Body>, m: nat, k: nat, u: Type)
    requires m <= k <= |out| && There(p, out, m, u)
    ensures There(p, out, k, u)
  {
    assert forall b :: b in out[..m] ==> b in out[..k];
  }

  /** In an ordered output, when the body of a definition is written, whatever is in its
      fields, through arrays, options and results down to any depth, is there; and so is
      whatever is in a wrapper when the wrapper's is. */
  lemma HeldIsThere(p: Program, out: seq<Body>, k: nat, i: nat, f: nat, n: nat)
    requires Ordered(p, out) && k < |out|
    ensures out[k].WrapBody? ==> There(p, out, k, Down(out[k].t, n + 1))
    ensures i < |p.defs| && out[k] == DefBody(p.defs[i].name) && f < |p.defs[i].fields| ==> There(p, out, k, Down(p.defs[i].fields[f], n))
  {
    hide Complete, There, Down;
    assert Ready(p, out[k], out[..k]);
    if out[k].WrapBody? {
      AllThere(p, out, k, out[k].t.inner, n);
      OneDown(out[k].t, n);
    }
    if i < |p.defs| && out[k] == DefBody(p.defs[i].name) && f < |p.defs[i].fields| {
      AllThere(p, out, k, p.defs[i].fields[f], n);
    }
  }

  lemma OneDown(t: Type, n: nat)
    requires t.Option? || t.Result?
    ensures Down(t, n + 1) == Down(t.inner, n)
  {
  }

  /** Each body is written once: of every definition that no header has, and of every
      wrapper. */
  lemma OnceEach(p: Program, out: seq<Body>)
    requires Ordered(p, out) && Covers(p, out)
    ensures forall i, j :: 0 <= i < |out| && 0 <= j < |out| && out[i] == out[j] ==> i == j
    ensures forall d :: d in p.defs ==> (DefBody(d.name) in out <==> !d.isExtern)
    ensures forall t :: t in p.options || t in p.results ==> WrapBody(t) in out
  {
  }
}
