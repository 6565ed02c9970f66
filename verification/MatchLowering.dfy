/** How the emitter turns patterns and arms into C. */
module MatchLowering {
  import opened MatchSource
  import opened MatchTarget

  predicate HasPredicate(pat: Pattern)
    decreases pat
  {
    match pat
    case Wildcard => false
    case Binding(_) => false
    case PFields(parts) => exists i :: 0 <= i < |parts| && HasPredicate(parts[i].pat)
    case POr(alts) => exists i :: 0 <= i < |alts| && HasPredicate(alts[i])
    case _ => true
  }

  function Tests(pat: Pattern, path: Path, t: Type): seq<Test>
    requires Fits(pat, t)
    decreases pat, 1
  {
    match pat
    case Wildcard => []
    case Binding(_) => []
    case Lit(v) => [Equals(path, v)]
    case StrLit(b) => [EqualsStr(path, b)]
    case PSome(inner) =>
      if IsNullSentinel(t) then [NotEquals(path, 0)] + Tests(inner, path, t.inner)
      else [HasValue(path)] + Tests(inner, PayloadValue(path), t.inner)
    case PNone => if IsNullSentinel(t) then [Equals(path, 0)] else [HasNoValue(path)]
    case POk(inner) => [ErrIsZero(path)] + Tests(inner, PayloadValue(path), t.ok)
    case PErr(inner) => [ErrIsNonzero(path)] + Tests(inner, ErrorCode(path), TInt)
    case PVariant(tag, payload) =>
      [TagIs(path, tag)] +
      (if t.variants[tag].Some? then Tests(payload, UnionMember(path, tag), t.variants[tag].value) else [])
    case PFields(parts) => PartTests(parts, path, t)
    case POr(alts) => if HasPredicate(pat) then [AnyOf(AltTests(alts, path, t))] else []
  }

  function PartTests(parts: seq<Part>, path: Path, t: Type): seq<Test>
    requires t.TFields?
    requires forall i :: 0 <= i < |parts| ==> parts[i].index < |t.fields| && Fits(parts[i].pat, t.fields[parts[i].index])
    decreases parts, 0
  {
    if parts == [] then []
    else
      var first := parts[0];
      assert first.pat < first;
      Tests(first.pat, Field(path, first.index), t.fields[first.index]) + PartTests(parts[1..], path, t)
  }

  function AltTests(alts: seq<Pattern>, path: Path, t: Type): (r: seq<Conj>)
    requires forall i :: 0 <= i < |alts| ==> Fits(alts[i], t)
    ensures |r| == |alts|
    decreases alts, 0
  {
    if alts == [] then [] else [All(Tests(alts[0], path, t))] + AltTests(alts[1..], path, t)
  }

  function Decls(pat: Pattern, path: Path, t: Type): seq<Decl>
    requires Fits(pat, t)
    decreases pat, 1
  {
    match pat
    case Binding(name) => [Decl(name, path)]
    case PSome(inner) => Decls(inner, if IsNullSentinel(t) then path else PayloadValue(path), t.inner)
    case POk(inner) => Decls(inner, PayloadValue(path), t.ok)
    case PErr(inner) => Decls(inner, ErrorCode(path), TInt)
    case PVariant(tag, payload) =>
      if t.variants[tag].Some? then Decls(payload, UnionMember(path, tag), t.variants[tag].value) else []
    case PFields(parts) => PartDecls(parts, path, t)
    case _ => []
  }

  function PartDecls(parts: seq<Part>, path: Path, t: Type): seq<Decl>
    requires t.TFields?
    requires forall i :: 0 <= i < |parts| ==> parts[i].index < |t.fields| && Fits(parts[i].pat, t.fields[parts[i].index])
    decreases parts, 0
  {
    if parts == [] then []
    else
      var first := parts[0];
      assert first.pat < first;
      Decls(first.pat, Field(path, first.index), t.fields[first.index]) + PartDecls(parts[1..], path, t)
  }

  predicate AnyGuard(arms: seq<Arm>) {
    exists i :: 0 <= i < |arms| && arms[i].guard.Some?
  }

  function ArmTrial(arm: Arm, t: Type): Trial
    requires Fits(arm.pat, t)
  {
    Trial(Tests(arm.pat, Subject, t), Decls(arm.pat, Subject, t), arm.guard, arm.body)
  }

  function Trials(arms: seq<Arm>, t: Type): (r: seq<Trial>)
    requires ArmsFit(arms, t)
    ensures |r| == |arms|
  {
    if arms == [] then [] else [ArmTrial(arms[0], t)] + Trials(arms[1..], t)
  }

  /** The last arm tests nothing, and the chain ends at the first arm that tests
      nothing. */
  function Links(arms: seq<Arm>, t: Type): seq<Link>
    requires ArmsFit(arms, t)
    decreases |arms|
  {
    if arms == [] then []
    else
      var tests := if |arms| == 1 then [] else Tests(arms[0].pat, Subject, t);
      var link := Link(tests, Block(Decls(arms[0].pat, Subject, t), arms[0].body));
      if tests == [] then [link] else [link] + Links(arms[1..], t)
  }

  function LowerMatch(arms: seq<Arm>, t: Type): CMatch
    requires ArmsFit(arms, t)
  {
    if AnyGuard(arms) then Flagged(Trials(arms, t)) else Chain(Links(arms, t))
  }
}
