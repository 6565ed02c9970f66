/** What patterns, values and first-match-wins mean, told form by form and arm by arm;
    and which C is faulty. */
module MatchMeaning {
  import opened MatchSource
  import opened MatchTarget
  import opened MatchLowering
  import opened MatchCorrect

  // ----- values and types -----

  /** Which values a type has. */
  lemma ValuesAre(v: Value, t: Type, vs: seq<Option<Type>>, ts: seq<Type>)
    ensures HasType(v, TInt) <==> v.Int?
    ensures HasType(v, TStr) <==> v.Str?
    ensures HasType(v, TPtr) <==> v.Ptr?
    ensures HasType(v, TOption(t)) <==>
            v == Absent || (v.Present? && HasType(v.inner, t) && !(t == TPtr && v.inner == Ptr(0)))
    ensures HasType(v, TResult(t)) <==> (v.Success? && HasType(v.ok, t)) || (v.Failure? && v != Failure(0))
    ensures HasType(v, TUnion(vs)) <==>
            v.Variant? && v.tag < |vs| && match (v.payload, vs[v.tag])
                                          case (Some(u), Some(s)) => HasType(u, s)
                                          case (None, None) => true
                                          case _ => false
    ensures HasType(v, TFields(ts)) <==>
            v.Fields? && |v.fields| == |ts| && forall i :: 0 <= i < |ts| ==> HasType(v.fields[i], ts[i])
  {
  }

  /** No pointer is in the type: a pattern can tell its values apart. */
  predicate Tellable(t: Type)
    decreases t
  {
    match t
    case TPtr => false
    case TOption(inner) => Tellable(inner)
    case TResult(ok) => Tellable(ok)
    case TUnion(vs) => forall i :: 0 <= i < |vs| && vs[i].Some? ==> Tellable(vs[i].value)
    case TFields(ts) => forall i :: 0 <= i < |ts| ==> Tellable(ts[i])
    case _ => true
  }

  /** The pattern that is written like the value. */
  function Exactly(v: Value): Pattern {
    match v
    case Int(n) => Lit(n)
    case Str(bytes) => StrLit(bytes)
    case Ptr(_) => Wildcard
    case Absent => PNone
    case Present(inner) => PSome(Exactly(inner))
    case Success(ok) => POk(Exactly(ok))
    case Failure(code) => PErr(Lit(code))
    case Variant(tag, payload) => PVariant(tag, if payload.Some? then Exactly(payload.value) else Wildcard)
    case Fields(fields) => PFields(seq(|fields|, i requires 0 <= i < |fields| => Part(i, Exactly(fields[i]))))
  }

  /** Every value has a pattern that fits its type and takes it; and, pointers apart,
      nothing else of the type. */
  lemma {:induction false} OnlyItself(v: Value, u: Value, t: Type)
    requires HasType(v, t) && HasType(u, t)
    ensures Fits(Exactly(v), t) && BindsNothing(Exactly(v)) && Proper(Exactly(v)) && Matches(Exactly(v), v)
    ensures Tellable(t) && Matches(Exactly(v), u) ==> u == v
    decreases v
  {
    match v
    case Present(inner) => OnlyItself(inner, if u.Present? then u.inner else inner, t.inner);
    case Success(ok) => OnlyItself(ok, if u.Success? then u.ok else ok, t.ok);
    case Variant(tag, payload) =>
      if payload.Some? {
        var same := u.Variant? && u.tag == tag;
        OnlyItself(payload.value, if same then u.payload.value else payload.value, t.variants[tag].value);
      }
    case Fields(fields) =>
      forall i | 0 <= i < |fields|
        ensures Fits(Exactly(fields[i]), t.fields[i]) && BindsNothing(Exactly(fields[i])) && Proper(Exactly(fields[i]))
        ensures Matches(Exactly(fields[i]), fields[i])
        ensures Tellable(t.fields[i]) && Matches(Exactly(fields[i]), u.fields[i]) ==> u.fields[i] == fields[i]
      {
        OnlyItself(fields[i], u.fields[i], t.fields[i]);
      }
      if Tellable(t) && Matches(Exactly(v), u) {
        FieldsMatch(v, u);
        assert u.fields == fields;
      }
    case Failure(code) =>
      assert Fits(Lit(code), TInt) && BindsNothing(Lit(code)) && Proper(Lit(code));
      assert forall n :: Matches(Lit(code), Int(n)) ==> n == code;
    case _ =>
  }

  lemma FieldsMatch(v: Value, u: Value)
    requires v.Fields? && u.Fields? && Matches(Exactly(v), u)
    ensures forall i :: 0 <= i < |v.fields| && i < |u.fields| ==> Matches(Exactly(v.fields[i]), u.fields[i])
  {
    forall i | 0 <= i < |v.fields| && i < |u.fields| ensures Matches(Exactly(v.fields[i]), u.fields[i]) {
      assert Exactly(v).parts[i] == Part(i, Exactly(v.fields[i]));
    }
  }

  // ----- patterns -----

  /** What a form of pattern takes. */
  lemma TakesAre(p: Pattern, v: Value, name: nat, code: int)
    ensures Matches(Wildcard, v) && Matches(Binding(name), v)
    ensures Matches(PSome(p), Present(v)) <==> Matches(p, v)
    ensures Matches(POk(p), Success(v)) <==> Matches(p, v)
    ensures Matches(PErr(p), Failure(code)) <==> Matches(p, Int(code))
    ensures !Matches(PSome(p), Absent) && !Matches(PNone, Present(v)) && Matches(PNone, Absent)
    ensures !Matches(POk(p), Failure(code)) && !Matches(PErr(p), Success(v))
  {
    var some, ok, err := PSome(p), POk(p), PErr(p);
    assert Matches(some, Present(v)) <==> Matches(p, v);
    assert Matches(ok, Success(v)) <==> Matches(p, v);
    assert Matches(err, Failure(code)) <==> Matches(p, Int(code));
  }

  /** A variant's pattern takes that variant, if its payload is taken. */
  lemma TakesVariant(p: Pattern, v: Value, tag: nat, other: nat)
    ensures Matches(PVariant(tag, p), Variant(tag, Some(v))) <==> Matches(p, v)
    ensures Matches(PVariant(tag, p), Variant(tag, None))
    ensures other != tag ==> !Matches(PVariant(tag, p), Variant(other, Some(v))) && !Matches(PVariant(tag, p), Variant(other, None))
  {
  }

  /** An or-pattern takes what one of its alternatives takes; a struct's or tuple's
      pattern what all of the listed parts take. */
  lemma TakesMany(p: Pattern, v: Value, i: nat, more: seq<Part>, alts: seq<Pattern>)
    ensures !Matches(POr([]), v) && (Matches(POr([p] + alts), v) <==> Matches(p, v) || Matches(POr(alts), v))
    ensures v.Fields? ==> Matches(PFields([]), v)
    ensures v.Fields? && i < |v.fields| ==>
              (Matches(PFields([Part(i, p)] + more), v) <==> Matches(p, v.fields[i]) && Matches(PFields(more), v))
  {
    hide Matches;
    OrSplits(p, alts, v);
    Trivial(v);
    if v.Fields? && i < |v.fields| {
      FieldsSplit(Part(i, p), more, v);
    }
  }

  lemma Trivial(v: Value)
    ensures !Matches(POr([]), v) && (v.Fields? ==> Matches(PFields([]), v))
  {
  }

  lemma OrSplits(p: Pattern, alts: seq<Pattern>, v: Value)
    ensures Matches(POr([p] + alts), v) <==> Matches(p, v) || Matches(POr(alts), v)
  {
    hide Matches;
    var all := [p] + alts;
    AnyAlternative(all, v);
    AnyAlternative(alts, v);
    assert all[0] == p && forall i :: 0 <= i < |alts| ==> all[i + 1] == alts[i];
    if Matches(POr(all), v) && !Matches(p, v) {
      var i :| 0 <= i < |all| && Matches(all[i], v);
      assert all[i] == alts[i - 1];
    }
  }

  lemma AnyAlternative(alts: seq<Pattern>, v: Value)
    ensures Matches(POr(alts), v) <==> exists i :: 0 <= i < |alts| && Matches(alts[i], v)
  {
  }

  lemma FieldsSplit(part: Part, more: seq<Part>, v: Value)
    requires v.Fields? && part.index < |v.fields|
    ensures Matches(PFields([part] + more), v) <==> Matches(part.pat, v.fields[part.index]) && Matches(PFields(more), v)
  {
    var all := [part] + more;
    assert all[0] == part && forall i :: 0 <= i < |more| ==> all[i + 1] == more[i];
    assert forall i :: 1 <= i < |all| ==> all[i] == more[i - 1];
  }

  /** Which patterns the checker lets stand for a type. */
  lemma FitsAre(p: Pattern, t: Type, u: Type)
    ensures (Fits(PSome(p), TOption(t)) <==> Fits(p, t)) && Fits(PNone, TOption(t))
    ensures (Fits(POk(p), TResult(t)) <==> Fits(p, t)) && (Fits(PErr(p), TResult(t)) <==> Fits(p, TInt))
    ensures Fits(PSome(p), u) || Fits(PNone, u) ==> u.TOption?
    ensures Fits(POk(p), u) || Fits(PErr(p), u) ==> u.TResult?
  {
    hide BindsNothing;
  }

  lemma FitsPlain(u: Type, name: nat, n: int, bytes: seq<int>)
    ensures Fits(Wildcard, u) && Fits(Binding(name), u)
    ensures (Fits(Lit(n), u) <==> u == TInt) && (Fits(StrLit(bytes), u) <==> u == TStr)
  {
  }

  /** Alternatives bind nothing. */
  lemma FitsMany(p: Pattern, u: Type, tag: nat, vs: seq<Option<Type>>, ts: seq<Type>, alts: seq<Pattern>, parts: seq<Part>)
    ensures Fits(PVariant(tag, p), TUnion(vs)) <==> tag < |vs| && (vs[tag].Some? ==> Fits(p, vs[tag].value))
    ensures Fits(PFields(parts), TFields(ts)) <==> forall i :: 0 <= i < |parts| ==> parts[i].index < |ts| && Fits(parts[i].pat, ts[parts[i].index])
    ensures Fits(POr(alts), u) <==> forall i :: 0 <= i < |alts| ==> Fits(alts[i], u) && BindsNothing(alts[i])
  {
    hide BindsNothing;
  }

  /** A pattern that binds nothing has no bindings, whatever it takes; one that is a name
      has. */
  lemma {:induction false} NothingBound(p: Pattern, t: Type, v: Value)
    requires Fits(p, t) && HasType(v, t) && Matches(p, v) && BindsNothing(p)
    ensures Bindings(p, t, v) == []
    decreases p, 1
  {
    match p
    case PSome(inner) => NothingBound(inner, t.inner, v.inner);
    case POk(inner) => NothingBound(inner, t.ok, v.ok);
    case PErr(inner) => NothingBound(inner, TInt, Int(v.code));
    case PVariant(tag, payload) =>
      if v.payload.Some? {
        NothingBound(payload, t.variants[tag].value, v.payload.value);
      }
    case PFields(parts) => NothingBoundIn(parts, t, v);
    case _ =>
  }

  lemma {:induction false} NothingBoundIn(parts: seq<Part>, t: Type, v: Value)
    requires t.TFields? && HasType(v, t)
    requires forall i :: 0 <= i < |parts| ==>
               && parts[i].index < |t.fields| && Fits(parts[i].pat, t.fields[parts[i].index])
               && Matches(parts[i].pat, v.fields[parts[i].index]) && BindsNothing(parts[i].pat)
    ensures PartBindings(parts, t, v) == []
    decreases parts, 0
  {
    if parts != [] {
      var first := parts[0];
      assert first.pat < first;
      NothingBound(first.pat, t.fields[first.index], v.fields[first.index]);
      NothingBoundIn(parts[1..], t, v);
    }
  }

  /** What a form of pattern binds. */
  lemma BindsAre(p: Pattern, t: Type, v: Value, name: nat)
    requires Fits(p, t) && HasType(v, t) && Matches(p, v)
    ensures Bindings(Binding(name), t, v) == [Bound(name, t, v)]
    ensures !(t.TPtr? && v == Ptr(0)) ==> Bindings(PSome(p), TOption(t), Present(v)) == Bindings(p, t, v)
  {
    hide BindsNothing;
  }

  lemma ResultBinds(p: Pattern, q: Pattern, t: Type, v: Value, code: int)
    requires Fits(p, t) && HasType(v, t) && Matches(p, v)
    requires Fits(q, TInt) && code != 0 && Matches(q, Int(code))
    ensures Bindings(POk(p), TResult(t), Success(v)) == Bindings(p, t, v)
    ensures Bindings(PErr(q), TResult(t), Failure(code)) == Bindings(q, TInt, Int(code))
  {
    hide BindsNothing;
  }

  lemma VariantBinds(p: Pattern, t: Type, v: Value)
    requires Fits(p, t) && HasType(v, t) && Matches(p, v)
    ensures Bindings(PVariant(0, p), TUnion([Some(t)]), Variant(0, Some(v))) == Bindings(p, t, v)
  {
  }

  /** A struct's or tuple's bindings are those of the listed parts, in order. */
  lemma PartsBind(part: Part, more: seq<Part>, t: Type, v: Value)
    requires Fits(PFields([part] + more), t) && HasType(v, t) && Matches(PFields([part] + more), v)
    ensures part.index < |t.fields| && Fits(part.pat, t.fields[part.index]) && Matches(part.pat, v.fields[part.index])
    ensures Fits(PFields(more), t) && Matches(PFields(more), v)
    ensures Bindings(PFields([part] + more), t, v) ==
            Bindings(part.pat, t.fields[part.index], v.fields[part.index]) + Bindings(PFields(more), t, v)
  {
    var all := [part] + more;
    assert all[0] == part && all[1..] == more;
    assert forall i :: 0 <= i < |more| ==> all[i + 1] == more[i];
  }

  // ----- the arm that runs -----

  /** The guards tried in the first `k` arms: of those that match, in order. */
  function Tried(arms: seq<Arm>, k: nat, t: Type, v: Value): Trace
    requires k <= |arms| && ArmsFit(arms, t) && HasType(v, t)
  {
    if k == 0 then []
    else
      var arm := arms[k - 1];
      Tried(arms, k - 1, t, v) +
      if Matches(arm.pat, v) && arm.guard.Some? then [Event(arm.guard.value, Bindings(arm.pat, t, v))] else []
  }

  /** Arm `k` is passed over: it does not match, or its guard, which sees its bindings and
      all that was done before, does not hold. */
  predicate Passed(w: World, arms: seq<Arm>, k: nat, t: Type, v: Value, tr: Trace)
    requires k < |arms| && ArmsFit(arms, t) && HasType(v, t)
  {
    var arm := arms[k];
    || !Matches(arm.pat, v)
    || (arm.guard.Some? && !w.guard(arm.guard.value, Bindings(arm.pat, t, v), tr + Tried(arms, k, t, v)))
  }

  /** The arm that runs is the first that is not passed over; if all are, none does. */
  lemma {:induction false} FirstTaken(w: World, arms: seq<Arm>, t: Type, v: Value, tr: Trace, k: nat)
    requires ArmsFit(arms, t) && HasType(v, t) && k <= |arms|
    requires forall j: nat :: j < k ==> Passed(w, arms, j, t, v, tr)
    requires k < |arms| ==> !Passed(w, arms, k, t, v, tr)
    ensures k == |arms| ==> RunMatch(w, arms, t, v, tr) == (Uncovered, tr + Tried(arms, k, t, v))
    ensures k < |arms| ==>
              var bs, before := Bindings(arms[k].pat, t, v), tr + Tried(arms, k + 1, t, v);
              RunMatch(w, arms, t, v, tr) ==
              (if w.leaves(arms[k].body, bs, before) then Left else Result(w.result(arms[k].body, bs, before)), before + [Event(arms[k].body, bs)])
  {
    hide RunMatch, Matches, Bindings, HasType, Fits;
    Skipped(w, arms, t, v, tr, k);
    var tr1 := tr + Tried(arms, k, t, v);
    if k < |arms| {
      assert arms[k..][0] == arms[k];
      var bs := Bindings(arms[k].pat, t, v);
      MatchStep(w, arms[k..], t, v, tr1);
      if arms[k].guard.None? {
        assert tr + Tried(arms, k + 1, t, v) == tr1;
      } else {
        assert tr + Tried(arms, k + 1, t, v) == tr1 + [Event(arms[k].guard.value, bs)];
      }
    } else {
      assert arms[k..] == [];
      NoArms(w, t, v, tr1);
    }
  }

  /** Arms that are passed over leave the events of their guards, and the other arms. */
  lemma {:induction false} Skipped(w: World, arms: seq<Arm>, t: Type, v: Value, tr: Trace, k: nat)
    requires ArmsFit(arms, t) && HasType(v, t) && k <= |arms|
    requires forall j: nat :: j < k ==> Passed(w, arms, j, t, v, tr)
    ensures RunMatch(w, arms, t, v, tr) == RunMatch(w, arms[k..], t, v, tr + Tried(arms, k, t, v))
    decreases k
  {
    hide RunMatch, Matches, Bindings, HasType, Fits;
    if k > 0 {
      Skipped(w, arms, t, v, tr, k - 1);
      assert Passed(w, arms, k - 1, t, v, tr);
      assert arms[k - 1..][0] == arms[k - 1] && arms[k - 1..][1..] == arms[k..];
      var tr1 := tr + Tried(arms, k - 1, t, v);
      MatchStep(w, arms[k - 1..], t, v, tr1);
      assert tr + (Tried(arms, k - 1, t, v) + []) == tr1;
      assert forall e :: tr + (Tried(arms, k - 1, t, v) + [e]) == tr1 + [e];
    } else {
      assert arms[0..] == arms && tr + [] == tr;
    }
  }

  lemma NoArms(w: World, t: Type, v: Value, tr: Trace)
    requires HasType(v, t)
    ensures RunMatch(w, [], t, v, tr) == (Uncovered, tr)
  {
  }

  // ----- C -----

  /** How values are laid out: an option of a pointer is the pointer, with null for none;
      what is not there is no value of its type. */
  lemma LayoutIs(v: Value, t: Type, code: int, n: int)
    requires HasType(v, t)
    ensures Repr(Int(n), TInt) == CScalar(n) && Repr(Ptr(n), TPtr) == CScalar(n)
    ensures t == TPtr ==> Repr(Absent, TOption(t)) == CScalar(0) && (v != Ptr(0) ==> Repr(Present(v), TOption(t)) == CScalar(v.addr))
    ensures t != TPtr ==> Repr(Absent, TOption(t)) == COpt(false, Junk) && Repr(Present(v), TOption(t)) == COpt(true, Repr(v, t))
    ensures Repr(Success(v), TResult(t)) == CRes(0, Repr(v, t)) && (code != 0 ==> Repr(Failure(code), TResult(t)) == CRes(code, Junk))
    ensures Repr(Variant(0, Some(v)), TUnion([Some(t)])) == CUnion(0, Repr(v, t)) && Repr(Variant(0, None), TUnion([None])) == CUnion(0, Junk)
    ensures Repr(Fields([v]), TFields([t])) == CFields([Repr(v, t)])
  {
    var ts, vs := [t], [v];
    assert Repr(Fields(vs), TFields(ts)) == CFields(seq(|ts|, i requires 0 <= i < |ts| => Repr(vs[i], ts[i])));
    assert seq(|ts|, i requires 0 <= i < |ts| => Repr(vs[i], ts[i])) == [Repr(v, t)];
  }

  /** A test of a place that holds no value is a fault, and so is what it stands in. */
  lemma TestFaults(t: Test, rest: seq<Test>, s: CVal)
    requires !t.AnyOf? && Read(t.p, s) == Junk
    ensures Check(t, s) == Bad && CheckAll([t] + rest, s) == Bad && CheckAny([All([t])], s) == Bad
  {
  }

  /** So is a declaration. A union's other variants, what an object does not have, and
      what is behind a place without a value hold none. */
  lemma NoValue(p: Path, s: CVal, n: nat, name: nat, more: seq<Decl>)
    ensures Read(p, s) == Junk ==>
              && Declare([Decl(name, p)] + more, s) == None
              && Read(Field(p, n), s) == Read(PayloadValue(p), s) == Read(ErrorCode(p), s) == Read(UnionMember(p, n), s) == Junk
    ensures Read(p, s).CUnion? && Read(p, s).tag != n ==> Read(UnionMember(p, n), s) == Junk
    ensures Read(p, s).CFields? && |Read(p, s).fields| <= n ==> Read(Field(p, n), s) == Junk
  {
    assert ([Decl(name, p)] + more)[0] == Decl(name, p);
  }

  /** An `else` follows an `if`: a block without a test ends the chain. */
  lemma ElseIsLast(links: seq<Link>, i: nat)
    requires IsC(Chain(links)) && i < |links| && links[i].tests == []
    ensures i == |links| - 1
  {
  }

  /** A chain whose tests all fail runs nothing and yields no value; one that reaches a
      fault ends in it; trials that all fail abort. */
  lemma Endings(w: CWorld, links: seq<Link>, trials: seq<Trial>, s: CVal, tr: seq<CEvent>)
    ensures !IsC(Chain([])) && RunC(w, Chain([]), s, tr) == (Fell, tr) && RunC(w, Flagged([]), s, tr) == (Aborted, tr)
    ensures links != [] && CheckAll(links[0].tests, s) == Bad ==> RunC(w, Chain(links), s, tr) == (Fault, tr)
    ensures trials != [] && CheckAll(trials[0].tests, s) == Bad ==> RunC(w, Flagged(trials), s, tr) == (Fault, tr)
    ensures links != [] && CheckAll(links[0].tests, s) == Yes && Declare(links[0].block.decls, s) == None ==>
              RunC(w, Chain(links), s, tr) == (Fault, tr)
    ensures trials != [] && CheckAll(trials[0].tests, s) == Yes && Declare(trials[0].decls, s) == None ==>
              RunC(w, Flagged(trials), s, tr) == (Fault, tr)
  {
  }

  /** A pattern that binds nothing has no name in it. */
  lemma NamesBind(p: Pattern, name: nat, alts: seq<Pattern>, parts: seq<Part>, tag: nat)
    ensures !BindsNothing(Binding(name)) && BindsNothing(Wildcard)
    ensures (BindsNothing(PSome(p)) <==> BindsNothing(p)) && (BindsNothing(POk(p)) <==> BindsNothing(p)) && (BindsNothing(PErr(p)) <==> BindsNothing(p))
    ensures BindsNothing(PVariant(tag, p)) <==> BindsNothing(p)
    ensures BindsNothing(PFields(parts)) <==> forall i :: 0 <= i < |parts| ==> BindsNothing(parts[i].pat)
    ensures BindsNothing(POr(alts)) <==> forall i :: 0 <= i < |alts| ==> BindsNothing(alts[i])
  {
  }

  // ----- what is assumed -----

  /** An or-pattern has an alternative; nothing else is asked of a pattern's shape. */
  lemma ProperIs(p: Pattern, alts: seq<Pattern>, parts: seq<Part>, tag: nat, name: nat, n: int, bytes: seq<int>)
    ensures Proper(Wildcard) && Proper(Binding(name)) && Proper(Lit(n)) && Proper(StrLit(bytes)) && Proper(PNone)
    ensures (Proper(PSome(p)) <==> Proper(p)) && (Proper(POk(p)) <==> Proper(p)) && (Proper(PErr(p)) <==> Proper(p))
    ensures Proper(PVariant(tag, p)) <==> Proper(p)
    ensures Proper(PFields(parts)) <==> forall i :: 0 <= i < |parts| ==> Proper(parts[i].pat)
    ensures Proper(POr(alts)) <==> alts != [] && forall i :: 0 <= i < |alts| ==> Proper(alts[i])
  {
  }

  /** Exhaustive: each value of the type is taken by an arm without a guard. A wildcard
      will do. */
  lemma ExhaustiveIs(arms: seq<Arm>, t: Type, body: nat)
    ensures Exhaustive(arms, t) <==> forall v :: HasType(v, t) ==> TakenUnguarded(arms, v)
    ensures Exhaustive(arms + [Arm(Wildcard, None, body)], t)
  {
    hide HasType, Covers, TakenUnguarded;
    if Exhaustive(arms, t) {
      forall v | HasType(v, t) ensures TakenUnguarded(arms, v) {
        CoversIs(arms, v);
      }
    }
    if forall v :: HasType(v, t) ==> TakenUnguarded(arms, v) {
      forall v | HasType(v, t) ensures Covers(arms, v) {
        CoversIs(arms, v);
      }
    }
    forall v | HasType(v, t) ensures Covers(arms + [Arm(Wildcard, None, body)], v) {
      LastTakes(arms, v, body);
    }
  }

  predicate TakenUnguarded(arms: seq<Arm>, v: Value) {
    exists arm :: arm in arms && arm.guard == None && Matches(arm.pat, v)
  }

  lemma CoversIs(arms: seq<Arm>, v: Value)
    ensures Covers(arms, v) <==> TakenUnguarded(arms, v)
  {
    hide Matches;
    if Covers(arms, v) {
      var i :| 0 <= i < |arms| && arms[i].guard.None? && Matches(arms[i].pat, v);
      assert arms[i] in arms;
    }
    if TakenUnguarded(arms, v) {
      var arm :| arm in arms && arm.guard == None && Matches(arm.pat, v);
      var i :| 0 <= i < |arms| && arms[i] == arm;
      assert arms[i].guard.None? && Matches(arms[i].pat, v);
    }
  }

  lemma LastTakes(arms: seq<Arm>, v: Value, body: nat)
    ensures Covers(arms + [Arm(Wildcard, None, body)], v)
  {
    hide Matches;
    Anything(v);
    var all := arms + [Arm(Wildcard, None, body)];
    assert all[|arms|].guard.None? && Matches(all[|arms|].pat, v);
  }

  lemma Anything(v: Value)
    ensures Matches(Wildcard, v)
  {
  }

  /** Whatever the guards and bodies of the emitted C do, there are FC's that do the same. */
  lemma EveryWorld(cw: CWorld) returns (w: World)
    ensures Same(w, cw)
  {
    w := World(
      (id: nat, bs: seq<Bound>, tr: Trace) => Typed(bs) && TypedTrace(tr) && cw.guard(id, Encode(bs), EncodeTrace(tr)),
      (id: nat, bs: seq<Bound>, tr: Trace) => Typed(bs) && TypedTrace(tr) && cw.leaves(id, Encode(bs), EncodeTrace(tr)),
      (id: nat, bs: seq<Bound>, tr: Trace) => if Typed(bs) && TypedTrace(tr) then cw.result(id, Encode(bs), EncodeTrace(tr)) else 0);
  }

  /** They see the same names and values. */
  lemma EncodedAre(bs: seq<Bound>, i: nat)
    requires Typed(bs) && i < |bs|
    ensures |Encode(bs)| == |bs| && Encode(bs)[i] == (bs[i].name, Repr(bs[i].v, bs[i].t))
    decreases i, |bs|
  {
    hide Repr, HasType;
    EncodedCount(bs);
    if i > 0 {
      EncodedAre(bs[1..], i - 1);
    }
  }

  lemma {:induction false} EncodedCount(bs: seq<Bound>)
    requires Typed(bs)
    ensures |Encode(bs)| == |bs|
  {
    hide Repr, HasType;
    if bs != [] {
      EncodedCount(bs[1..]);
    }
  }
}
