/** The emitter at work: predicates written as text with a flag that says whether
    a separator is due, and arms written by a loop that may stop early. */
module MatchEmitter {
  import opened MatchSource
  import opened MatchTarget
  import opened MatchLowering
  import MatchCorrect

  /** Pieces of a C condition. */
  datatype Token = Simple(t: Test) | And | Or | Open | Close | One

  /** A conjunction; `first` when nothing precedes it. */
  function ConjText(ts: seq<Test>, first: bool): seq<Token>
    decreases ts, 0
  {
    if ts == [] then []
    else (if first then [] else [And]) + TestText(ts[0]) + ConjText(ts[1..], false)
  }

  function TestText(t: Test): seq<Token>
    decreases t, 1
  {
    match t
    case AnyOf(alts) => [Open] + AltsText(alts, true) + [Close]
    case _ => [Simple(t)]
  }

  function AltsText(alts: seq<Conj>, first: bool): seq<Token>
    decreases alts, 0
  {
    if alts == [] then []
    else
      var alt := alts[0];
      AltText(alt.tests, first) + AltsText(alts[1..], false)
  }

  /** One alternative, in parentheses; `1` when it tests nothing. */
  function AltText(ts: seq<Test>, first: bool): seq<Token>
    decreases ts, 1
  {
    (if first then [] else [Or]) + [Open] + (if ts == [] then [One] else ConjText(ts, true)) + [Close]
  }

  lemma {:induction false} ConjTextAppend(a: seq<Test>, b: seq<Test>, first: bool)
    ensures ConjText(a + b, first) == ConjText(a, first) + ConjText(b, first && a == [])
    decreases |a|
  {
    if a == [] {
      assert a + b == b;
    } else {
      assert (a + b)[0] == a[0] && (a + b)[1..] == a[1..] + b;
      ConjTextAppend(a[1..], b, false);
    }
  }

  lemma ConjTextOne(t: Test, rest: seq<Test>, first: bool)
    ensures ConjText([t] + rest, first) == (if first then [] else [And]) + TestText(t) + ConjText(rest, false)
  {
    assert ([t] + rest)[0] == t && ([t] + rest)[1..] == rest;
  }

  predicate PartsFit(parts: seq<Part>, t: Type) {
    t.TFields? && forall i :: 0 <= i < |parts| ==> parts[i].index < |t.fields| && Fits(parts[i].pat, t.fields[parts[i].index])
  }

  lemma NextPart(parts: seq<Part>, i: nat, path: Path, t: Type, first: bool)
    requires PartsFit(parts, t) && i < |parts|
    ensures var part := parts[i];
            var ts := Tests(part.pat, Field(path, part.index), t.fields[part.index]);
            ConjText(PartTests(parts[i..], path, t), first) ==
            ConjText(ts, first) + ConjText(PartTests(parts[i + 1..], path, t), first && ts == [])
  {
    hide Tests, ConjText;
    assert parts[i..][0] == parts[i] && parts[i..][1..] == parts[i + 1..];
    var part := parts[i];
    ConjTextAppend(Tests(part.pat, Field(path, part.index), t.fields[part.index]), PartTests(parts[i + 1..], path, t), first);
  }

  lemma NextAlt(alts: seq<Pattern>, i: nat, path: Path, t: Type, first: bool)
    requires i < |alts| && forall j :: 0 <= j < |alts| ==> Fits(alts[j], t)
    ensures var ts := Tests(alts[i], path, t);
            AltsText(AltTests(alts[i..], path, t), first) ==
            AltText(ts, first) + AltsText(AltTests(alts[i + 1..], path, t), false)
  {
    hide Tests, ConjText;
    assert alts[i..][0] == alts[i] && alts[i..][1..] == alts[i + 1..];
    var all := AltTests(alts[i..], path, t);
    assert all[0] == All(Tests(alts[i], path, t)) && all[1..] == AltTests(alts[i + 1..], path, t);
  }

  class Emitter {
    var out: seq<Token>

    constructor ()
      ensures out == []
    {
      out := [];
    }

    method Separate(first: bool)
      modifies this
      ensures out == old(out) + if first then [] else [And]
    {
      if !first {
        out := out + [And];
      }
    }

    /** One test of its own, before whatever the inner pattern tests. */
    method EmitTest(t: Test, first: bool)
      requires !t.AnyOf?
      modifies this
      ensures out == old(out) + ConjText([t], first)
    {
      Separate(first);
      out := out + [Simple(t)];
      ConjTextOne(t, [], first);
      assert [t] + [] == [t];
    }

    /** Writes a pattern's tests; returns whether anything has been written yet. */
    method EmitPredicate(pat: Pattern, path: Path, t: Type, first: bool) returns (now: bool)
      requires Fits(pat, t)
      modifies this
      ensures out == old(out) + ConjText(Tests(pat, path, t), first)
      ensures now == (first && Tests(pat, path, t) == [])
      decreases pat, 2
    {
      hide ConjText;
      match pat
      case Wildcard => EmptyText(first); now := first;
      case Binding(_) => EmptyText(first); now := first;
      case Lit(v) =>
        EmitTest(Equals(path, v), first);
        now := false;
      case StrLit(b) =>
        EmitTest(EqualsStr(path, b), first);
        now := false;
      case PNone =>
        if IsNullSentinel(t) {
          EmitTest(Equals(path, 0), first);
        } else {
          EmitTest(HasNoValue(path), first);
        }
        now := false;
      case PSome(inner) =>
        if IsNullSentinel(t) {
          now := EmitInner(NotEquals(path, 0), inner, path, t.inner, first);
        } else {
          now := EmitInner(HasValue(path), inner, PayloadValue(path), t.inner, first);
        }
      case POk(inner) => now := EmitInner(ErrIsZero(path), inner, PayloadValue(path), t.ok, first);
      case PErr(inner) => now := EmitInner(ErrIsNonzero(path), inner, ErrorCode(path), TInt, first);
      case PVariant(tag, payload) =>
        if t.variants[tag].Some? {
          now := EmitInner(TagIs(path, tag), payload, UnionMember(path, tag), t.variants[tag].value, first);
        } else {
          EmitTest(TagIs(path, tag), first);
          assert [TagIs(path, tag)] + [] == [TagIs(path, tag)];
          now := false;
        }
      case PFields(parts) => now := EmitParts(parts, path, t, first);
      case POr(alts) =>
        if HasPredicate(pat) {
          EmitAlts(alts, path, t, first);
          now := false;
        } else {
          EmptyText(first);
          now := first;
        }
    }

    method EmitInner(test: Test, inner: Pattern, path: Path, t: Type, first: bool) returns (now: bool)
      requires Fits(inner, t) && !test.AnyOf?
      modifies this
      ensures out == old(out) + ConjText([test] + Tests(inner, path, t), first) && !now
      decreases inner, 3
    {
      hide ConjText;
      EmitTest(test, first);
      now := EmitPredicate(inner, path, t, false);
      ConjTextAppend([test], Tests(inner, path, t), first);
    }

    method EmitParts(parts: seq<Part>, path: Path, t: Type, first: bool) returns (now: bool)
      requires PartsFit(parts, t)
      modifies this
      ensures out == old(out) + ConjText(PartTests(parts, path, t), first)
      ensures now == (first && PartTests(parts, path, t) == [])
      decreases parts, 0
    {
      hide ConjText, Tests;
      now := first;
      ghost var goal := out + ConjText(PartTests(parts, path, t), first);
      ghost var some := PartTests(parts, path, t) == [];
      assert parts[0..] == parts;
      for i := 0 to |parts|
        invariant goal == out + ConjText(PartTests(parts[i..], path, t), now)
        invariant (first && some) == (now && PartTests(parts[i..], path, t) == [])
      {
        NextPart(parts, i, path, t, now);
        PartsNonEmpty(parts, i, path, t);
        var part := parts[i];
        assert part.pat < part;
        now := EmitPredicate(part.pat, Field(path, part.index), t.fields[part.index], now);
      }
      EmptyText(now);
      assert parts[|parts|..] == [];
    }

    method EmitAlts(alts: seq<Pattern>, path: Path, t: Type, first: bool)
      requires forall i :: 0 <= i < |alts| ==> Fits(alts[i], t)
      modifies this
      ensures out == old(out) + ConjText([AnyOf(AltTests(alts, path, t))], first)
      decreases alts, 0
    {
      hide ConjText, Tests, AltsText, TestText, AltText, AltTests, Fits;
      AnyText(AltTests(alts, path, t), first);
      Separate(first);
      out := out + [Open];
      ghost var start := out;
      ghost var text := AltsText(AltTests(alts, path, t), true);
      ghost var goal := start + text;
      assert alts[0..] == alts;
      for i := 0 to |alts|
        invariant goal == out + AltsText(AltTests(alts[i..], path, t), i == 0)
      {
        NextAlt(alts, i, path, t, i == 0);
        EmitAlt(alts[i], path, t, i == 0);
      }
      NoAlts(alts, path, t);
      assert out == goal;
      out := out + [Close];
      assert out == old(out) + ((if first then [] else [And]) + [Open] + text + [Close]);
    }

    method EmitAlt(alt: Pattern, path: Path, t: Type, first: bool)
      requires Fits(alt, t)
      modifies this
      ensures out == old(out) + AltText(Tests(alt, path, t), first)
      decreases alt, 3
    {
      hide ConjText, Tests;
      TestsIffPredicate(alt, path, t);
      if !first {
        out := out + [Or];
      }
      out := out + [Open];
      if HasPredicate(alt) {
        var _ := EmitPredicate(alt, path, t, true);
      } else {
        out := out + [One];
      }
      out := out + [Close];
    }
  }

  lemma AnyText(alts: seq<Conj>, first: bool)
    ensures ConjText([AnyOf(alts)], first) == (if first then [] else [And]) + [Open] + AltsText(alts, true) + [Close]
  {
    hide AltsText;
    ConjTextOne(AnyOf(alts), [], first);
    assert [AnyOf(alts)] + [] == [AnyOf(alts)];
  }

  lemma EmptyText(first: bool)
    ensures ConjText([], first) == []
  {
  }

  lemma NoAlts(alts: seq<Pattern>, path: Path, t: Type)
    ensures alts[|alts|..] == [] && AltsText(AltTests([], path, t), |alts| == 0) == []
  {
  }

  lemma PartsNonEmpty(parts: seq<Part>, i: nat, path: Path, t: Type)
    requires PartsFit(parts, t) && i < |parts|
    ensures var part := parts[i];
            PartTests(parts[i..], path, t) == [] <==>
            Tests(part.pat, Field(path, part.index), t.fields[part.index]) == [] && PartTests(parts[i + 1..], path, t) == []
  {
    hide Tests;
    assert parts[i..][0] == parts[i] && parts[i..][1..] == parts[i + 1..];
  }

  lemma TestsIffPredicate(pat: Pattern, path: Path, t: Type)
    requires Fits(pat, t)
    ensures HasPredicate(pat) <==> Tests(pat, path, t) != []
  {
    MatchCorrect.TestsWhenPredicate(pat, path, t);
  }

  lemma NextTrial(arms: seq<Arm>, i: nat, t: Type)
    requires ArmsFit(arms, t) && i < |arms|
    ensures Trials(arms[i..], t) == [ArmTrial(arms[i], t)] + Trials(arms[i + 1..], t)
  {
    hide Tests, Decls;
    assert arms[i..][0] == arms[i] && arms[i..][1..] == arms[i + 1..];
  }

  method EmitTrials(arms: seq<Arm>, t: Type) returns (trials: seq<Trial>)
    requires ArmsFit(arms, t)
    ensures trials == Trials(arms, t)
  {
    hide Trials, ArmTrial, Fits;
    trials := [];
    assert arms[0..] == arms && [] + Trials(arms, t) == Trials(arms, t);
    for i := 0 to |arms|
      invariant trials + Trials(arms[i..], t) == Trials(arms, t)
    {
      NextTrial(arms, i, t);
      trials := trials + [ArmTrial(arms[i], t)];
    }
    NoLinks(arms, t);
  }

  /** The link of arm `i`. */
  function ArmLink(arms: seq<Arm>, i: nat, t: Type): Link
    requires ArmsFit(arms, t) && i < |arms|
  {
    var tests := if i == |arms| - 1 then [] else Tests(arms[i].pat, Subject, t);
    Link(tests, Block(Decls(arms[i].pat, Subject, t), arms[i].body))
  }

  lemma NextLink(arms: seq<Arm>, i: nat, t: Type)
    requires ArmsFit(arms, t) && i < |arms|
    ensures var link := ArmLink(arms, i, t);
            Links(arms[i..], t) == if link.tests == [] then [link] else [link] + Links(arms[i + 1..], t)
  {
    hide Tests, Decls;
    assert arms[i..][0] == arms[i] && arms[i..][1..] == arms[i + 1..];
  }

  method EmitLinks(arms: seq<Arm>, t: Type) returns (links: seq<Link>)
    requires ArmsFit(arms, t)
    ensures links == Links(arms, t)
  {
    hide Links, ArmLink;
    links := [];
    var i := 0;
    var unconditional := false;
    assert arms[0..] == arms && [] + Links(arms, t) == Links(arms, t);
    while i < |arms| && !unconditional
      invariant i <= |arms|
      invariant links + (if unconditional then [] else Links(arms[i..], t)) == Links(arms, t)
      decreases |arms| - i
    {
      NextLink(arms, i, t);
      var link := ArmLink(arms, i, t);
      links := links + [link];
      unconditional := link.tests == [];
      i := i + 1;
    }
    NoLinks(arms, t);
  }

  lemma NoLinks(arms: seq<Arm>, t: Type)
    ensures arms[|arms|..] == [] && Links([], t) == [] && Trials([], t) == []
  {
  }

  /** The statement of a match: one pass to see whether any arm has a guard, then
      one link or trial per arm, up to the first arm that tests nothing. */
  method EmitMatch(arms: seq<Arm>, t: Type) returns (m: CMatch)
    requires ArmsFit(arms, t)
    ensures m == LowerMatch(arms, t)
    ensures arms != [] ==> IsC(m)
  {
    hide Links, Trials, ArmsFit;
    var guarded := false;
    for i := 0 to |arms|
      invariant !guarded && forall j :: 0 <= j < i ==> arms[j].guard.None?
    {
      if arms[i].guard.Some? {
        guarded := true;
        break;
      }
    }
    if guarded {
      var trials := EmitTrials(arms, t);
      m := Flagged(trials);
    } else {
      var links := EmitLinks(arms, t);
      m := Chain(links);
      if arms != [] {
        MatchCorrect.ChainIsC(arms, t);
      }
    }
  }
}
