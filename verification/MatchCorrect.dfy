/** The emitted chain runs the arm FC picks, with FC's bindings, and reads no
    payload before its tag test has held. */
module MatchCorrect {
  import opened MatchSource
  import opened MatchTarget
  import opened MatchLowering

  /** The place `path` of the subject holds the value `v`. */
  ghost predicate Holds(path: Path, s: CVal, v: Value, t: Type) {
    HasType(v, t) && Read(path, s) == Repr(v, t)
  }

  // ----- an `if` is opened exactly when there is something to test -----

  lemma {:induction false} TestsWhenPredicate(pat: Pattern, path: Path, t: Type)
    requires Fits(pat, t)
    ensures HasPredicate(pat) <==> Tests(pat, path, t) != []
    decreases pat, 1
  {
    match pat
    case PFields(parts) =>
      PartsWhenPredicate(parts, path, t);
    case _ =>
  }

  lemma {:induction false} PartsWhenPredicate(parts: seq<Part>, path: Path, t: Type)
    requires t.TFields?
    requires forall i :: 0 <= i < |parts| ==> parts[i].index < |t.fields| && Fits(parts[i].pat, t.fields[parts[i].index])
    ensures (exists i :: 0 <= i < |parts| && HasPredicate(parts[i].pat)) <==> PartTests(parts, path, t) != []
    decreases parts, 0
  {
    if parts != [] {
      var first := parts[0];
      assert first.pat < first;
      TestsWhenPredicate(first.pat, Field(path, first.index), t.fields[first.index]);
      PartsWhenPredicate(parts[1..], path, t);
      if exists i :: 0 <= i < |parts| && HasPredicate(parts[i].pat) {
        var i :| 0 <= i < |parts| && HasPredicate(parts[i].pat);
        if i > 0 {
          assert HasPredicate(parts[1..][i - 1].pat);
        }
      }
      if i :| 0 <= i < |parts[1..]| && HasPredicate(parts[1..][i].pat) {
        assert HasPredicate(parts[i + 1].pat);
      }
    }
  }

  // ----- tests decide the match -----

  lemma {:induction false} CheckAppend(a: seq<Test>, b: seq<Test>, s: CVal)
    ensures CheckAll(a + b, s) == if CheckAll(a, s).Yes? then CheckAll(b, s) else CheckAll(a, s)
    decreases |a|
  {
    if a == [] {
      assert a + b == b;
    } else {
      assert (a + b)[1..] == a[1..] + b;
      CheckAppend(a[1..], b, s);
    }
  }

  lemma CheckOne(t: Test, rest: seq<Test>, s: CVal)
    ensures CheckAll([t] + rest, s) == if Check(t, s).Yes? then CheckAll(rest, s) else Check(t, s)
  {
    assert ([t] + rest)[0] == t && ([t] + rest)[1..] == rest;
  }

  lemma CheckSingle(t: Test, s: CVal)
    ensures CheckAll([t], s) == Check(t, s)
  {
    assert [t][1..] == [];
  }

  /** Every or-pattern has an alternative. */
  predicate Proper(pat: Pattern)
    decreases pat
  {
    match pat
    case PSome(inner) => Proper(inner)
    case POk(inner) => Proper(inner)
    case PErr(inner) => Proper(inner)
    case PVariant(_, payload) => Proper(payload)
    case PFields(parts) => forall i :: 0 <= i < |parts| ==> Proper(parts[i].pat)
    case POr(alts) => alts != [] && forall i :: 0 <= i < |alts| ==> Proper(alts[i])
    case _ => true
  }

  /** The tests hold exactly when the pattern matches, and never read storage that
      holds no value. */
  lemma {:induction false} TestsDecide(pat: Pattern, path: Path, t: Type, v: Value, s: CVal)
    requires Fits(pat, t) && Proper(pat) && Holds(path, s, v, t)
    ensures CheckAll(Tests(pat, path, t), s) == Of(Matches(pat, v))
    decreases pat, 1
  {
    hide CheckAll, Tests, Matches, HasType, Repr, Read, Fits, Proper, HasPredicate;
    match pat
    case PSome(inner) => SomeDecides(inner, path, t, v, s);
    case POk(_) => ResultDecides(pat, path, t, v, s);
    case PErr(_) => ResultDecides(pat, path, t, v, s);
    case PVariant(tag, payload) => VariantDecides(tag, payload, path, t, v, s);
    case PFields(parts) => FieldsDecide(parts, path, t, v, s);
    case POr(alts) => OrDecides(alts, path, t, v, s);
    case _ => LeafDecides(pat, path, t, v, s);
  }

  lemma LeafDecides(pat: Pattern, path: Path, t: Type, v: Value, s: CVal)
    requires Fits(pat, t) && Holds(path, s, v, t)
    requires pat.Wildcard? || pat.Binding? || pat.Lit? || pat.StrLit? || pat.PNone?
    ensures CheckAll(Tests(pat, path, t), s) == Of(Matches(pat, v))
  {
    match pat
    case Lit(k) => CheckSingle(Equals(path, k), s);
    case StrLit(b) => CheckSingle(EqualsStr(path, b), s);
    case PNone =>
      CheckSingle(Equals(path, 0), s);
      CheckSingle(HasNoValue(path), s);
    case _ =>
  }

  lemma {:induction false} ResultDecides(pat: Pattern, path: Path, t: Type, v: Value, s: CVal)
    requires (pat.POk? || pat.PErr?) && Fits(pat, t) && Proper(pat) && Holds(path, s, v, t)
    ensures CheckAll(Tests(pat, path, t), s) == Of(Matches(pat, v))
    decreases pat, 0
  {
    if pat.POk? {
      CheckOne(ErrIsZero(path), Tests(pat.inner, PayloadValue(path), t.ok), s);
      if v.Success? {
        TestsDecide(pat.inner, PayloadValue(path), t.ok, v.ok, s);
      }
    } else {
      CheckOne(ErrIsNonzero(path), Tests(pat.inner, ErrorCode(path), TInt), s);
      if v.Failure? {
        TestsDecide(pat.inner, ErrorCode(path), TInt, Int(v.code), s);
      }
    }
  }

  lemma {:induction false} VariantDecides(tag: nat, payload: Pattern, path: Path, t: Type, v: Value, s: CVal)
    requires Fits(PVariant(tag, payload), t) && Proper(PVariant(tag, payload)) && Holds(path, s, v, t)
    ensures CheckAll(Tests(PVariant(tag, payload), path, t), s) == Of(Matches(PVariant(tag, payload), v))
    decreases PVariant(tag, payload), 0
  {
    var rest := if t.variants[tag].Some? then Tests(payload, UnionMember(path, tag), t.variants[tag].value) else [];
    CheckOne(TagIs(path, tag), rest, s);
    if v.tag == tag && v.payload.Some? {
      TestsDecide(payload, UnionMember(path, tag), t.variants[tag].value, v.payload.value, s);
    }
  }

  lemma {:induction false} FieldsDecide(parts: seq<Part>, path: Path, t: Type, v: Value, s: CVal)
    requires Fits(PFields(parts), t) && Proper(PFields(parts)) && Holds(path, s, v, t)
    ensures CheckAll(Tests(PFields(parts), path, t), s) == Of(Matches(PFields(parts), v))
    decreases PFields(parts), 0
  {
    hide CheckAll, Repr, Read;
    PartsDecide(parts, path, t, v, s);
    if Matches(PFields(parts), v) {
      forall i | 0 <= i < |parts| ensures Matches(parts[i].pat, v.fields[parts[i].index]) {
      }
    } else {
      var i :| 0 <= i < |parts| && !(parts[i].index < |v.fields| && Matches(parts[i].pat, v.fields[parts[i].index]));
      assert parts[i].index < |t.fields|;
    }
  }

  lemma {:induction false} SomeDecides(inner: Pattern, path: Path, t: Type, v: Value, s: CVal)
    requires Fits(PSome(inner), t) && Proper(PSome(inner)) && Holds(path, s, v, t)
    ensures CheckAll(Tests(PSome(inner), path, t), s) == Of(Matches(PSome(inner), v))
    decreases PSome(inner), 0
  {
    if IsNullSentinel(t) {
      CheckOne(NotEquals(path, 0), Tests(inner, path, t.inner), s);
      if v.Present? {
        assert Repr(v.inner, t.inner) == CScalar(v.inner.addr);
        TestsDecide(inner, path, t.inner, v.inner, s);
      }
    } else {
      CheckOne(HasValue(path), Tests(inner, PayloadValue(path), t.inner), s);
      if v.Present? {
        TestsDecide(inner, PayloadValue(path), t.inner, v.inner, s);
      }
    }
  }

  /** The place of a field. */
  lemma FieldHolds(path: Path, t: Type, v: Value, s: CVal, i: nat)
    requires t.TFields? && Holds(path, s, v, t) && i < |t.fields|
    ensures v.Fields? && |v.fields| == |t.fields| && Holds(Field(path, i), s, v.fields[i], t.fields[i])
  {
  }

  lemma {:induction false} PartsDecide(parts: seq<Part>, path: Path, t: Type, v: Value, s: CVal)
    requires t.TFields? && Holds(path, s, v, t)
    requires forall i :: 0 <= i < |parts| ==>
               parts[i].index < |t.fields| && Fits(parts[i].pat, t.fields[parts[i].index]) && Proper(parts[i].pat)
    ensures v.Fields? && |v.fields| == |t.fields|
    ensures CheckAll(PartTests(parts, path, t), s) ==
            Of(forall i :: 0 <= i < |parts| ==> Matches(parts[i].pat, v.fields[parts[i].index]))
    decreases parts, 0
  {
    hide CheckAll, Repr, Read, HasType, Fits, Proper, Matches, Tests;
    FieldCount(path, t, v, s);
    if parts == [] {
      CheckNone(s);
    } else {
      var first, rest := parts[0], parts[1..];
      assert first.pat < first;
      FieldHolds(path, t, v, s, first.index);
      TestsDecide(first.pat, Field(path, first.index), t.fields[first.index], v.fields[first.index], s);
      PartsDecide(rest, path, t, v, s);
      CheckAppend(Tests(first.pat, Field(path, first.index), t.fields[first.index]), PartTests(rest, path, t), s);
      if Matches(first.pat, v.fields[first.index]) {
        if forall i :: 0 <= i < |rest| ==> Matches(rest[i].pat, v.fields[rest[i].index]) {
          forall i | 0 <= i < |parts| ensures Matches(parts[i].pat, v.fields[parts[i].index]) {
            if i > 0 {
              assert parts[i] == rest[i - 1];
            }
          }
        } else {
          var i :| 0 <= i < |rest| && !Matches(rest[i].pat, v.fields[rest[i].index]);
          assert parts[i + 1] == rest[i];
        }
      }
    }
  }

  lemma FieldCount(path: Path, t: Type, v: Value, s: CVal)
    requires t.TFields? && Holds(path, s, v, t)
    ensures v.Fields? && |v.fields| == |t.fields|
  {
  }

  lemma {:induction false} OrDecides(alts: seq<Pattern>, path: Path, t: Type, v: Value, s: CVal)
    requires Fits(POr(alts), t) && Proper(POr(alts)) && Holds(path, s, v, t)
    ensures CheckAll(Tests(POr(alts), path, t), s) == Of(Matches(POr(alts), v))
    decreases POr(alts), 0
  {
    hide CheckAll, CheckAny, HasType, Repr, Read, Tests, AltTests, HasPredicate, Matches, Proper, Fits;
    OrParts(alts, path, t, v);
    if HasPredicate(POr(alts)) {
      CheckSingle(AnyOf(AltTests(alts, path, t)), s);
      AltsDecide(alts, path, t, v, s);
    } else {
      TestsDecide(alts[0], path, t, v, s);
      TestsWhenPredicate(alts[0], path, t);
      CheckNone(s);
    }
  }

  lemma CheckNone(s: CVal)
    ensures CheckAll([], s) == Yes
  {
  }

  lemma OrParts(alts: seq<Pattern>, path: Path, t: Type, v: Value)
    requires Fits(POr(alts), t) && Proper(POr(alts))
    ensures alts != [] && forall i :: 0 <= i < |alts| ==> Fits(alts[i], t) && Proper(alts[i])
    ensures HasPredicate(POr(alts)) || !HasPredicate(alts[0])
    ensures Tests(POr(alts), path, t) == if HasPredicate(POr(alts)) then [AnyOf(AltTests(alts, path, t))] else []
    ensures Matches(POr(alts), v) <==> exists i :: 0 <= i < |alts| && Matches(alts[i], v)
    ensures Matches(alts[0], v) ==> Matches(POr(alts), v)
  {
  }

  lemma {:induction false} AltsDecide(alts: seq<Pattern>, path: Path, t: Type, v: Value, s: CVal)
    requires forall i :: 0 <= i < |alts| ==> Fits(alts[i], t) && Proper(alts[i])
    requires Holds(path, s, v, t)
    ensures CheckAny(AltTests(alts, path, t), s) == Of(exists i :: 0 <= i < |alts| && Matches(alts[i], v))
    decreases alts, 0
  {
    hide CheckAll, CheckAny, HasType, Repr, Read, Fits, Proper, Matches, Tests, AltTests;
    AltsShape(alts, path, t, s);
    if alts != [] {
      TestsDecide(alts[0], path, t, v, s);
      AltsDecide(alts[1..], path, t, v, s);
      if !Matches(alts[0], v) {
        if i :| 0 <= i < |alts| && Matches(alts[i], v) {
          assert alts[1..][i - 1] == alts[i];
        }
        if i :| 0 <= i < |alts[1..]| && Matches(alts[1..][i], v) {
          assert alts[i + 1] == alts[1..][i];
        }
      }
    }
  }

  lemma AltsShape(alts: seq<Pattern>, path: Path, t: Type, s: CVal)
    requires forall i :: 0 <= i < |alts| ==> Fits(alts[i], t)
    ensures CheckAny(AltTests(alts, path, t), s) ==
            if alts == [] then No
            else
              var r := CheckAll(Tests(alts[0], path, t), s);
              if r.No? then CheckAny(AltTests(alts[1..], path, t), s) else r
  {
    if alts != [] {
      var all := AltTests(alts, path, t);
      assert all[0] == All(Tests(alts[0], path, t)) && all[1..] == AltTests(alts[1..], path, t);
    }
  }

  // ----- declarations give the bindings -----

  /** FC's bindings as C objects. */
  function Encode(bs: seq<Bound>): seq<(nat, CVal)>
    requires forall i :: 0 <= i < |bs| ==> HasType(bs[i].v, bs[i].t)
  {
    if bs == [] then [] else [(bs[0].name, Repr(bs[0].v, bs[0].t))] + Encode(bs[1..])
  }

  predicate Typed(bs: seq<Bound>) {
    forall i :: 0 <= i < |bs| ==> HasType(bs[i].v, bs[i].t)
  }

  lemma {:induction false} EncodeAppend(a: seq<Bound>, b: seq<Bound>)
    requires Typed(a) && Typed(b)
    ensures Typed(a + b) && Encode(a + b) == Encode(a) + Encode(b)
    decreases |a|
  {
    hide Repr, HasType;
    if a == [] {
      assert a + b == b && [] + Encode(b) == Encode(b);
    } else {
      assert (a + b)[1..] == a[1..] + b;
      EncodeAppend(a[1..], b);
      var first := [(a[0].name, Repr(a[0].v, a[0].t))];
      assert first + (Encode(a[1..]) + Encode(b)) == (first + Encode(a[1..])) + Encode(b);
    }
  }

  lemma DeclareNone(s: CVal)
    ensures Declare([], s) == Some([])
  {
  }

  lemma DeclareCons(a: seq<Decl>, s: CVal)
    requires a != []
    ensures var o, rest := Read(a[0].path, s), Declare(a[1..], s);
            Declare(a, s) == if o.Junk? || rest.None? then None else Some([(a[0].name, o)] + rest.value)
  {
    hide Read;
  }

  lemma {:induction false} DeclareAppend(a: seq<Decl>, b: seq<Decl>, s: CVal)
    requires Declare(a, s).Some? && Declare(b, s).Some?
    ensures Declare(a + b, s) == Some(Declare(a, s).value + Declare(b, s).value)
    decreases |a|
  {
    hide Read, Declare;
    if a == [] {
      assert a + b == b;
      DeclareNone(s);
      assert [] + Declare(b, s).value == Declare(b, s).value;
    } else {
      var first := (a[0].name, Read(a[0].path, s));
      DeclareCons(a, s);
      DeclareCons(a + b, s);
      assert (a + b)[1..] == a[1..] + b;
      DeclareAppend(a[1..], b, s);
      var da, db := Declare(a[1..], s).value, Declare(b, s).value;
      assert [first] + (da + db) == ([first] + da) + db;
    }
  }

  lemma NoJunk(v: Value, t: Type)
    requires HasType(v, t)
    ensures Repr(v, t) != Junk
  {
  }

  /** After a match, the declarations read exactly the bindings, all from storage
      that holds a value. */
  lemma {:induction false} DeclsBind(pat: Pattern, path: Path, t: Type, v: Value, s: CVal)
    requires Fits(pat, t) && Holds(path, s, v, t) && Matches(pat, v)
    ensures Typed(Bindings(pat, t, v))
    ensures Declare(Decls(pat, path, t), s) == Some(Encode(Bindings(pat, t, v)))
    decreases pat, 1
  {
    match pat
    case Binding(name) => BindingBinds(name, path, t, v, s);
    case PSome(inner) =>
      if IsNullSentinel(t) {
        assert Repr(v.inner, t.inner) == CScalar(v.inner.addr);
        DeclsBind(inner, path, t.inner, v.inner, s);
      } else {
        DeclsBind(inner, PayloadValue(path), t.inner, v.inner, s);
      }
    case POk(inner) => DeclsBind(inner, PayloadValue(path), t.ok, v.ok, s);
    case PErr(inner) => DeclsBind(inner, ErrorCode(path), TInt, Int(v.code), s);
    case PVariant(tag, payload) =>
      if v.payload.Some? {
        DeclsBind(payload, UnionMember(path, tag), t.variants[tag].value, v.payload.value, s);
      }
    case PFields(parts) => PartDeclsBind(parts, path, t, v, s);
    case _ =>
  }

  lemma BindingBinds(name: nat, path: Path, t: Type, v: Value, s: CVal)
    requires Holds(path, s, v, t)
    ensures Typed([Bound(name, t, v)]) && Declare([Decl(name, path)], s) == Some(Encode([Bound(name, t, v)]))
  {
    NoJunk(v, t);
    assert [Decl(name, path)][1..] == [];
    assert [Bound(name, t, v)][1..] == [];
  }

  lemma {:induction false} PartDeclsBind(parts: seq<Part>, path: Path, t: Type, v: Value, s: CVal)
    requires t.TFields? && Holds(path, s, v, t)
    requires forall i :: 0 <= i < |parts| ==>
               && parts[i].index < |t.fields| && Fits(parts[i].pat, t.fields[parts[i].index])
               && Matches(parts[i].pat, v.fields[parts[i].index])
    ensures Typed(PartBindings(parts, t, v))
    ensures Declare(PartDecls(parts, path, t), s) == Some(Encode(PartBindings(parts, t, v)))
    decreases parts, 0
  {
    if parts != [] {
      var first, rest := parts[0], parts[1..];
      assert first.pat < first;
      var ft, fv := t.fields[first.index], v.fields[first.index];
      FieldHolds(path, t, v, s, first.index);
      DeclsBind(first.pat, Field(path, first.index), ft, fv, s);
      PartDeclsBind(rest, path, t, v, s);
      DeclareAppend(Decls(first.pat, Field(path, first.index), ft), PartDecls(rest, path, t), s);
      EncodeAppend(Bindings(first.pat, ft, fv), PartBindings(rest, t, v));
    }
  }

  /** The layout loses nothing: a C object is the form of one value of its type. */
  lemma {:induction false} ReprInjective(v: Value, u: Value, t: Type)
    requires HasType(v, t) && HasType(u, t) && Repr(v, t) == Repr(u, t)
    ensures v == u
    decreases v
  {
    match t
    case TOption(inner) =>
      if v.Present? && u.Present? && !IsNullSentinel(t) {
        ReprInjective(v.inner, u.inner, inner);
      }
    case TResult(inner) =>
      if v.Success? && u.Success? {
        ReprInjective(v.ok, u.ok, inner);
      }
    case TUnion(vs) =>
      if v.payload.Some? && u.payload.Some? {
        ReprInjective(v.payload.value, u.payload.value, vs[v.tag].value);
      }
    case TFields(ts) =>
      forall i | 0 <= i < |ts| ensures v.fields[i] == u.fields[i] {
        assert Repr(v, t).fields[i] == Repr(v.fields[i], ts[i]);
        assert Repr(u, t).fields[i] == Repr(u.fields[i], ts[i]);
        ReprInjective(v.fields[i], u.fields[i], ts[i]);
      }
    case _ =>
  }

  // ----- the match -----

  predicate TypedTrace(tr: Trace) {
    forall i :: 0 <= i < |tr| ==> Typed(tr[i].bound)
  }

  function EncodeTrace(tr: Trace): (r: seq<CEvent>)
    requires TypedTrace(tr)
    ensures |r| == |tr|
  {
    if tr == [] then [] else EncodeTrace(tr[..|tr| - 1]) + [CEvent(tr[|tr| - 1].id, Encode(tr[|tr| - 1].bound))]
  }

  lemma EncodeEvent(tr: Trace, e: Event)
    requires TypedTrace(tr) && Typed(e.bound)
    ensures TypedTrace(tr + [e]) && EncodeTrace(tr + [e]) == EncodeTrace(tr) + [CEvent(e.id, Encode(e.bound))]
  {
    assert (tr + [e])[..|tr|] == tr;
  }

  /** The guards and bodies of the emitted C are those of the FC program. */
  ghost predicate Same(w: World, cw: CWorld) {
    forall id: nat, bs: seq<Bound>, tr: Trace :: Typed(bs) && TypedTrace(tr) ==>
      && w.guard(id, bs, tr) == cw.guard(id, Encode(bs), EncodeTrace(tr))
      && w.leaves(id, bs, tr) == cw.leaves(id, Encode(bs), EncodeTrace(tr))
      && w.result(id, bs, tr) == cw.result(id, Encode(bs), EncodeTrace(tr))
  }

  function COutcomeOf(o: Outcome): COutcome {
    match o
    case Result(v) => CResult(v)
    case Left => CLeft
    case Uncovered => Aborted
  }

  /** The C run `c` ends as the FC run `r`. */
  predicate Agrees(c: (COutcome, seq<CEvent>), r: (Outcome, Trace)) {
    TypedTrace(r.1) && c == (COutcomeOf(r.0), EncodeTrace(r.1))
  }

  predicate ArmsProper(arms: seq<Arm>) {
    forall i :: 0 <= i < |arms| ==> Proper(arms[i].pat)
  }

  lemma BodyAgrees(w: World, cw: CWorld, body: nat, bs: seq<Bound>, tr: Trace)
    requires Same(w, cw) && Typed(bs) && TypedTrace(tr)
    ensures Agrees(RunCBody(cw, body, Encode(bs), EncodeTrace(tr)), RunBody(w, body, bs, tr))
  {
    EncodeEvent(tr, Event(body, bs));
  }

  /** The subject is read from its temporary. */
  lemma SubjectHolds(v: Value, t: Type)
    requires HasType(v, t)
    ensures Holds(Subject, Repr(v, t), v, t)
  {
  }

  lemma FinishedTrials(cw: CWorld, ts: seq<Trial>, s: CVal, done: int, tr: seq<CEvent>)
    ensures RunTrials(cw, ts, s, Some(done), tr) == (CResult(done), tr)
    decreases |ts|
  {
  }

  /** The next trial, no arm having run. */
  lemma TrialStep(cw: CWorld, arms: seq<Arm>, t: Type, s: CVal, tr: seq<CEvent>)
    requires arms != [] && ArmsFit(arms, t)
    ensures ArmsFit(arms[1..], t)
    ensures RunTrials(cw, Trials(arms, t), s, None, tr) ==
            (var arm, rest := arms[0], Trials(arms[1..], t);
             var check := CheckAll(Tests(arm.pat, Subject, t), s);
             var bs := Declare(Decls(arm.pat, Subject, t), s);
             if check.Bad? then (Fault, tr)
             else if check.No? then RunTrials(cw, rest, s, None, tr)
             else if bs.None? then (Fault, tr)
             else
               var tr1 := if arm.guard.Some? then tr + [CEvent(arm.guard.value, bs.value)] else tr;
               if arm.guard.Some? && !cw.guard(arm.guard.value, bs.value, tr) then RunTrials(cw, rest, s, None, tr1)
               else
                 var (o, tr2) := RunCBody(cw, arm.body, bs.value, tr1);
                 if o.CResult? then RunTrials(cw, rest, s, Some(o.v), tr2) else (o, tr2))
  {
    hide Tests, Decls, CheckAll, Declare, RunCBody, Fits;
    var ts := Trials(arms, t);
    assert ts[0] == ArmTrial(arms[0], t) && ts[1..] == Trials(arms[1..], t);
  }

  lemma MatchStep(w: World, arms: seq<Arm>, t: Type, v: Value, tr: Trace)
    requires arms != [] && ArmsFit(arms, t) && HasType(v, t)
    ensures ArmsFit(arms[1..], t)
    ensures !Matches(arms[0].pat, v) ==> RunMatch(w, arms, t, v, tr) == RunMatch(w, arms[1..], t, v, tr)
    ensures Matches(arms[0].pat, v) ==>
              var arm := arms[0];
              var bs := Bindings(arm.pat, t, v);
              RunMatch(w, arms, t, v, tr) ==
              if arm.guard.None? then RunBody(w, arm.body, bs, tr)
              else
                var tr1 := tr + [Event(arm.guard.value, bs)];
                if w.guard(arm.guard.value, bs, tr) then RunBody(w, arm.body, bs, tr1)
                else RunMatch(w, arms[1..], t, v, tr1)
  {
    hide Bindings, Matches, HasType;
  }

  lemma NoTrials(w: World, cw: CWorld, t: Type, v: Value, tr: Trace)
    requires TypedTrace(tr) && HasType(v, t)
    ensures Agrees(RunTrials(cw, Trials([], t), Repr(v, t), None, EncodeTrace(tr)), RunMatch(w, [], t, v, tr))
  {
  }

  /** Flag-guarded trials: every guard and body FC runs, in order, and no other. */
  lemma {:induction false} TrialsAgree(w: World, cw: CWorld, arms: seq<Arm>, t: Type, v: Value, tr: Trace)
    requires Same(w, cw) && ArmsFit(arms, t) && ArmsProper(arms) && HasType(v, t) && TypedTrace(tr)
    ensures Agrees(RunTrials(cw, Trials(arms, t), Repr(v, t), None, EncodeTrace(tr)), RunMatch(w, arms, t, v, tr))
    decreases |arms|
  {
    hide RunTrials, RunMatch, Tests, Decls, CheckAll, Declare, Bindings, Matches, HasType, Repr, Encode, EncodeTrace, RunBody, RunCBody, Typed, TypedTrace;
    if arms == [] {
      NoTrials(w, cw, t, v, tr);
    } else {
      var arm, rest, s := arms[0], arms[1..], Repr(v, t);
      TrialStep(cw, arms, t, s, EncodeTrace(tr));
      MatchStep(w, arms, t, v, tr);
      SubjectHolds(v, t);
      TestsDecide(arm.pat, Subject, t, v, s);
      if !Matches(arm.pat, v) {
        TrialsAgree(w, cw, rest, t, v, tr);
      } else {
        DeclsBind(arm.pat, Subject, t, v, s);
        var bs := Bindings(arm.pat, t, v);
        if arm.guard.None? {
          BodyAgrees(w, cw, arm.body, bs, tr);
          Finish(w, cw, arm.body, Trials(rest, t), s, bs, tr);
        } else {
          var g := arm.guard.value;
          var tr1 := tr + [Event(g, bs)];
          EncodeEvent(tr, Event(g, bs));
          if w.guard(g, bs, tr) {
            BodyAgrees(w, cw, arm.body, bs, tr1);
            Finish(w, cw, arm.body, Trials(rest, t), s, bs, tr1);
          } else {
            TrialsAgree(w, cw, rest, t, v, tr1);
          }
        }
      }
    }
  }

  /** Once a body has run, the rest of the trials do nothing. */
  lemma Finish(w: World, cw: CWorld, body: nat, rest: seq<Trial>, s: CVal, bs: seq<Bound>, tr: Trace)
    requires Same(w, cw) && Typed(bs) && TypedTrace(tr)
    ensures var (o, tr2) := RunCBody(cw, body, Encode(bs), EncodeTrace(tr));
            (if o.CResult? then RunTrials(cw, rest, s, Some(o.v), tr2) else (o, tr2)) == (o, tr2)
  {
    var (o, tr2) := RunCBody(cw, body, Encode(bs), EncodeTrace(tr));
    if o.CResult? {
      FinishedTrials(cw, rest, s, o.v, tr2);
    }
  }

  lemma ChainStep(cw: CWorld, arms: seq<Arm>, t: Type, s: CVal, tr: seq<CEvent>)
    requires arms != [] && ArmsFit(arms, t)
    ensures ArmsFit(arms[1..], t)
    ensures var arm := arms[0];
            var check := if |arms| == 1 then Yes else CheckAll(Tests(arm.pat, Subject, t), s);
            var bs := Declare(Decls(arm.pat, Subject, t), s);
            && (check.Yes? && bs.Some? ==>
                  RunChain(cw, Links(arms, t), s, tr) == RunCBody(cw, arm.body, bs.value, tr))
            && (check.No? ==> RunChain(cw, Links(arms, t), s, tr) == RunChain(cw, Links(arms[1..], t), s, tr))
  {
    hide Tests, Decls, Declare, RunCBody, Fits;
    CheckNone(s);
    var tests := if |arms| == 1 then [] else Tests(arms[0].pat, Subject, t);
    var link := Link(tests, Block(Decls(arms[0].pat, Subject, t), arms[0].body));
    var links := Links(arms, t);
    assert links[0] == link;
    if tests != [] {
      assert links[1..] == Links(arms[1..], t);
    }
  }

  /** The value is taken by some arm, none of which has a guard. */
  lemma {:induction false} LinksAgree(w: World, cw: CWorld, arms: seq<Arm>, t: Type, v: Value, tr: Trace)
    requires Same(w, cw) && ArmsFit(arms, t) && ArmsProper(arms) && HasType(v, t) && TypedTrace(tr)
    requires Covers(arms, v) && !AnyGuard(arms)
    ensures Agrees(RunChain(cw, Links(arms, t), Repr(v, t), EncodeTrace(tr)), RunMatch(w, arms, t, v, tr))
    decreases |arms|
  {
    hide RunChain, RunMatch, Tests, Decls, CheckAll, Declare, Bindings, Matches, HasType, Repr, Encode, EncodeTrace, RunBody, RunCBody, Typed, TypedTrace, Covers, Links;
    CoverRest(arms, v);
    var arm, s := arms[0], Repr(v, t);
    assert arm.guard.None?;
    ChainStep(cw, arms, t, s, EncodeTrace(tr));
    MatchStep(w, arms, t, v, tr);
    SubjectHolds(v, t);
    TestsDecide(arm.pat, Subject, t, v, s);
    if Matches(arm.pat, v) {
      DeclsBind(arm.pat, Subject, t, v, s);
      BodyAgrees(w, cw, arm.body, Bindings(arm.pat, t, v), tr);
    } else {
      LinksAgree(w, cw, arms[1..], t, v, tr);
    }
  }

  lemma CoverRest(arms: seq<Arm>, v: Value)
    requires Covers(arms, v)
    ensures arms != [] && (|arms| == 1 ==> Matches(arms[0].pat, v))
    ensures !Matches(arms[0].pat, v) ==> Covers(arms[1..], v)
    ensures !AnyGuard(arms) ==> !AnyGuard(arms[1..])
  {
    var i :| 0 <= i < |arms| && arms[i].guard.None? && Matches(arms[i].pat, v);
    if i > 0 {
      assert arms[1..][i - 1] == arms[i];
    }
    if AnyGuard(arms[1..]) {
      var j :| 0 <= j < |arms[1..]| && arms[1..][j].guard.Some?;
      assert arms[j + 1].guard.Some?;
    }
  }

  /** A covered match always picks an arm. */
  lemma {:induction false} CoveredRuns(w: World, arms: seq<Arm>, t: Type, v: Value, tr: Trace)
    requires ArmsFit(arms, t) && HasType(v, t) && Covers(arms, v)
    ensures !RunMatch(w, arms, t, v, tr).0.Uncovered?
    decreases |arms|
  {
    var i :| 0 <= i < |arms| && arms[i].guard.None? && Matches(arms[i].pat, v);
    if i > 0 {
      assert arms[1..][i - 1] == arms[i];
      if !Matches(arms[0].pat, v) {
        CoveredRuns(w, arms[1..], t, v, tr);
      } else if arms[0].guard.Some? {
        CoveredRuns(w, arms[1..], t, v, tr + [Event(arms[0].guard.value, Bindings(arms[0].pat, t, v))]);
      }
    }
  }

  lemma {:induction false} ChainIsC(arms: seq<Arm>, t: Type)
    requires ArmsFit(arms, t) && arms != []
    ensures IsC(Chain(Links(arms, t)))
    decreases |arms|
  {
    if |arms| > 1 {
      ChainIsC(arms[1..], t);
      var links := Links(arms, t);
      if Tests(arms[0].pat, Subject, t) != [] {
        assert links[1..] == Links(arms[1..], t);
        assert forall i :: 0 < i < |links| ==> links[i] == links[1..][i - 1];
      }
    }
  }

  /** THE THEOREM. For every exhaustive match and every value of the subject's
      type, whatever guards and bodies do: the emitted statement is C, runs
      exactly the guards and the body FC runs, in order and with FC's bindings,
      never reads an absent payload, and never reaches its abort. */
  lemma MatchPreservesMeaning(w: World, cw: CWorld, arms: seq<Arm>, t: Type, v: Value, tr: Trace)
    requires Same(w, cw) && ArmsFit(arms, t) && ArmsProper(arms) && Exhaustive(arms, t)
    requires HasType(v, t) && TypedTrace(tr)
    ensures IsC(LowerMatch(arms, t))
    ensures var c := RunC(cw, LowerMatch(arms, t), Repr(v, t), EncodeTrace(tr));
            Agrees(c, RunMatch(w, arms, t, v, tr)) && (c.0.CResult? || c.0.CLeft?)
  {
    hide RunChain, RunTrials, RunMatch, HasType, Repr, EncodeTrace, TypedTrace, Links, Trials, Covers;
    CoveredRuns(w, arms, t, v, tr);
    if AnyGuard(arms) {
      TrialsAgree(w, cw, arms, t, v, tr);
    } else {
      CoverRest(arms, v);
      ChainIsC(arms, t);
      LinksAgree(w, cw, arms, t, v, tr);
    }
  }
}
