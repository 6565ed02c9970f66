/** Conditions of `#if`: tokens, their grammar, and their truth. */
module CondSyntax {

  datatype Option<T> = None | Some(value: T)

  type Text = seq<nat>

  datatype Kind =
    | HashIf | HashElseIf | HashElse | HashEnd | Newline
    | LParen | RParen | Bang | AmpAmp | PipePipe | EqEq | BangEq
    | Ident(name: Text) | StrLit(content: Text) | Other(n: nat)

  datatype Token = Token(kind: Kind, line: nat, col: nat)

  /** A flag, and its value when it was given one. */
  datatype Flag = Flag(name: Text, value: Option<Text>)

  /** The first flag of that name. */
  function Lookup(flags: seq<Flag>, name: Text): Option<Flag> {
    if flags == [] then None
    else if flags[0].name == name then Some(flags[0])
    else Lookup(flags[1..], name)
  }

  datatype Cond =
    | Present(name: Text)
    | Is(name: Text, value: Text)
    | IsNot(name: Text, value: Text)
    | Not(c: Cond)
    | And(l: Cond, r: Cond)
    | Or(l: Cond, r: Cond)

  function Truth(c: Cond, flags: seq<Flag>): bool {
    match c
    case Present(n) => Lookup(flags, n).Some?
    case Is(n, v) => Lookup(flags, n).Some? && Lookup(flags, n).value.value == Some(v)
    case IsNot(n, v) => !(Lookup(flags, n).Some? && Lookup(flags, n).value.value == Some(v))
    case Not(x) => !Truth(x, flags)
    case And(l, r) => Truth(l, flags) && Truth(r, flags)
    case Or(l, r) => Truth(l, flags) || Truth(r, flags)
  }

  // ----- the grammar, as the set of its derivations -----

  /** How tightly a form binds. */
  datatype Level = OrLevel | AndLevel | UnaryLevel

  /** `ks` spells `c` at this level. Parentheses may stand anywhere, `&&` binds
      tighter than `||`, and both associate to the left. */
  ghost predicate Spells(ks: seq<Kind>, c: Cond, level: Level)
    decreases |ks|, match level case OrLevel => 2 case AndLevel => 1 case UnaryLevel => 0
  {
    match level
    case OrLevel =>
      || Spells(ks, c, AndLevel)
      || (c.Or? && exists i ::
            0 < i < |ks| - 1 && ks[i] == PipePipe && Spells(ks[..i], c.l, OrLevel) && Spells(ks[i + 1..], c.r, AndLevel))
    case AndLevel =>
      || Spells(ks, c, UnaryLevel)
      || (c.And? && exists i ::
            0 < i < |ks| - 1 && ks[i] == AmpAmp && Spells(ks[..i], c.l, AndLevel) && Spells(ks[i + 1..], c.r, UnaryLevel))
    case UnaryLevel =>
      || (|ks| > 1 && ks[0] == Bang && c.Not? && Spells(ks[1..], c.c, UnaryLevel))
      || (|ks| > 2 && ks[0] == LParen && ks[|ks| - 1] == RParen && Spells(ks[1..|ks| - 1], c, OrLevel))
      || (|ks| == 1 && ks[0].Ident? && c == Present(ks[0].name))
      || (|ks| == 3 && ks[0].Ident? && ks[1] == EqEq && ks[2].StrLit? && c == Is(ks[0].name, ks[2].content))
      || (|ks| == 3 && ks[0].Ident? && ks[1] == BangEq && ks[2].StrLit? && c == IsNot(ks[0].name, ks[2].content))
  }

  function Kinds(ts: seq<Token>): (r: seq<Kind>)
    ensures |r| == |ts| && forall i :: 0 <= i < |ts| ==> r[i] == ts[i].kind
  {
    seq(|ts|, i requires 0 <= i < |ts| => ts[i].kind)
  }

  lemma KindsOfPart(ts: seq<Token>, a: nat, b: nat, lo: nat, hi: nat)
    requires a <= lo <= hi <= b <= |ts|
    ensures Kinds(ts[a..b])[lo - a..hi - a] == Kinds(ts[lo..hi])
    ensures hi == b ==> Kinds(ts[a..b])[lo - a..] == Kinds(ts[lo..hi])
    ensures lo == a ==> Kinds(ts[a..b])[..hi - a] == Kinds(ts[lo..hi])
  {
    var whole, part := Kinds(ts[a..b]), Kinds(ts[lo..hi]);
    assert forall i :: 0 <= i < hi - lo ==> whole[lo - a + i] == part[i];
  }

  // ----- the recursive-descent parser -----

  predicate AtEnd(ts: seq<Token>, pos: nat) {
    pos >= |ts| || ts[pos].kind.Newline?
  }

  predicate IsAt(ts: seq<Token>, pos: nat, k: Kind) {
    pos < |ts| && ts[pos].kind == k
  }

  /** A condition and the position behind it; none for what is reported as an
      error. */
  type Parsed = Option<(Cond, nat)>

  function ParseOr(ts: seq<Token>, pos: nat): (r: Parsed)
    ensures r.Some? ==> pos < r.value.1 <= |ts|
    decreases |ts| - pos, 3
  {
    match ParseAnd(ts, pos)
    case None => None
    case Some((c, p)) => ParseOrRest(ts, p, c)
  }

  function ParseOrRest(ts: seq<Token>, pos: nat, left: Cond): (r: Parsed)
    requires pos <= |ts|
    ensures r.Some? ==> pos <= r.value.1 <= |ts|
    decreases |ts| - pos, 3
  {
    if !IsAt(ts, pos, PipePipe) then Some((left, pos))
    else
      match ParseAnd(ts, pos + 1)
      case None => None
      case Some((c, p)) => ParseOrRest(ts, p, Or(left, c))
  }

  function ParseAnd(ts: seq<Token>, pos: nat): (r: Parsed)
    ensures r.Some? ==> pos < r.value.1 <= |ts|
    decreases |ts| - pos, 2
  {
    match ParseUnary(ts, pos)
    case None => None
    case Some((c, p)) => ParseAndRest(ts, p, c)
  }

  function ParseAndRest(ts: seq<Token>, pos: nat, left: Cond): (r: Parsed)
    requires pos <= |ts|
    ensures r.Some? ==> pos <= r.value.1 <= |ts|
    decreases |ts| - pos, 2
  {
    if !IsAt(ts, pos, AmpAmp) then Some((left, pos))
    else
      match ParseUnary(ts, pos + 1)
      case None => None
      case Some((c, p)) => ParseAndRest(ts, p, And(left, c))
  }

  function ParseUnary(ts: seq<Token>, pos: nat): (r: Parsed)
    ensures r.Some? ==> pos < r.value.1 <= |ts|
    decreases |ts| - pos, 1
  {
    if IsAt(ts, pos, Bang) then
      (match ParseUnary(ts, pos + 1)
       case None => None
       case Some((c, p)) => Some((Not(c), p)))
    else ParsePrimary(ts, pos)
  }

  function ParsePrimary(ts: seq<Token>, pos: nat): (r: Parsed)
    ensures r.Some? ==> pos < r.value.1 <= |ts|
    decreases |ts| - pos, 0
  {
    if pos >= |ts| then None
    else
      match ts[pos].kind
      case LParen =>
        (match ParseOr(ts, pos + 1)
         case None => None
         case Some((c, p)) => if IsAt(ts, p, RParen) then Some((c, p + 1)) else None)
      case Ident(n) =>
        if IsAt(ts, pos + 1, EqEq) || IsAt(ts, pos + 1, BangEq) then
          if pos + 2 < |ts| && ts[pos + 2].kind.StrLit? then
            var v := ts[pos + 2].kind.content;
            Some((if IsAt(ts, pos + 1, EqEq) then Is(n, v) else IsNot(n, v), pos + 3))
          else None
        else Some((Present(n), pos + 1))
      case _ => None
  }

  /** A whole directive line: the condition must reach its end. */
  function ParseLine(ts: seq<Token>, pos: nat): (r: Parsed)
    ensures r.Some? ==> pos < r.value.1 <= |ts| && AtEnd(ts, r.value.1)
  {
    match ParseOr(ts, pos)
    case None => None
    case Some((c, p)) => if AtEnd(ts, p) then Some((c, p)) else None
  }

  // ----- what is parsed is derivable -----

  lemma SpellsOr(ks: seq<Kind>, i: nat, l: Cond, r: Cond)
    requires 0 < i < |ks| - 1 && ks[i] == PipePipe && Spells(ks[..i], l, OrLevel) && Spells(ks[i + 1..], r, AndLevel)
    ensures Spells(ks, Or(l, r), OrLevel)
  {
  }

  lemma SpellsAnd(ks: seq<Kind>, i: nat, l: Cond, r: Cond)
    requires 0 < i < |ks| - 1 && ks[i] == AmpAmp && Spells(ks[..i], l, AndLevel) && Spells(ks[i + 1..], r, UnaryLevel)
    ensures Spells(ks, And(l, r), AndLevel)
  {
  }

  lemma {:induction false} OrSound(ts: seq<Token>, pos: nat)
    requires ParseOr(ts, pos).Some?
    ensures var (c, p) := ParseOr(ts, pos).value; Spells(Kinds(ts[pos..p]), c, OrLevel)
    decreases |ts| - pos, 3
  {
    AndSound(ts, pos);
    var (c, p) := ParseAnd(ts, pos).value;
    OrRestSound(ts, pos, p, c);
  }

  lemma {:induction false} OrRestSound(ts: seq<Token>, start: nat, pos: nat, left: Cond)
    requires start < pos <= |ts| && Spells(Kinds(ts[start..pos]), left, OrLevel) && ParseOrRest(ts, pos, left).Some?
    ensures var (c, p) := ParseOrRest(ts, pos, left).value; Spells(Kinds(ts[start..p]), c, OrLevel)
    decreases |ts| - pos, 3
  {
    hide Spells, ParseAnd;
    if IsAt(ts, pos, PipePipe) {
      AndSound(ts, pos + 1);
      var (c, p) := ParseAnd(ts, pos + 1).value;
      var ks := Kinds(ts[start..p]);
      var i := pos - start;
      KindsOfPart(ts, start, p, start, pos);
      KindsOfPart(ts, start, p, pos + 1, p);
      SpellsOr(ks, i, left, c);
      OrRestSound(ts, start, p, Or(left, c));
    }
  }

  lemma {:induction false} AndSound(ts: seq<Token>, pos: nat)
    requires ParseAnd(ts, pos).Some?
    ensures var (c, p) := ParseAnd(ts, pos).value; Spells(Kinds(ts[pos..p]), c, AndLevel)
    decreases |ts| - pos, 2
  {
    UnarySound(ts, pos);
    var (c, p) := ParseUnary(ts, pos).value;
    AndRestSound(ts, pos, p, c);
  }

  lemma {:induction false} AndRestSound(ts: seq<Token>, start: nat, pos: nat, left: Cond)
    requires start < pos <= |ts| && Spells(Kinds(ts[start..pos]), left, AndLevel) && ParseAndRest(ts, pos, left).Some?
    ensures var (c, p) := ParseAndRest(ts, pos, left).value; Spells(Kinds(ts[start..p]), c, AndLevel)
    decreases |ts| - pos, 2
  {
    hide Spells, ParseUnary;
    if IsAt(ts, pos, AmpAmp) {
      UnarySound(ts, pos + 1);
      var (c, p) := ParseUnary(ts, pos + 1).value;
      var ks := Kinds(ts[start..p]);
      var i := pos - start;
      KindsOfPart(ts, start, p, start, pos);
      KindsOfPart(ts, start, p, pos + 1, p);
      SpellsAnd(ks, i, left, c);
      AndRestSound(ts, start, p, And(left, c));
    }
  }

  lemma {:induction false} UnarySound(ts: seq<Token>, pos: nat)
    requires ParseUnary(ts, pos).Some?
    ensures var (c, p) := ParseUnary(ts, pos).value; Spells(Kinds(ts[pos..p]), c, UnaryLevel)
    decreases |ts| - pos, 1
  {
    hide Spells, Kinds;
    if IsAt(ts, pos, Bang) {
      UnarySound(ts, pos + 1);
      var (c, p) := ParseUnary(ts, pos + 1).value;
      KindsOfPart(ts, pos, p, pos + 1, p);
      BangSpells(Kinds(ts[pos..p]), c);
    } else if IsAt(ts, pos, LParen) {
      OrSound(ts, pos + 1);
      var (c, p) := ParseOr(ts, pos + 1).value;
      KindsOfPart(ts, pos, p + 1, pos + 1, p);
      ParenSpells(Kinds(ts[pos..p + 1]), c);
    } else {
      WordSpells(ts, pos);
    }
  }

  lemma WordSpells(ts: seq<Token>, pos: nat)
    requires ParsePrimary(ts, pos).Some? && !IsAt(ts, pos, LParen)
    ensures var (c, p) := ParsePrimary(ts, pos).value; Spells(Kinds(ts[pos..p]), c, UnaryLevel)
  {
  }

  lemma BangSpells(ks: seq<Kind>, c: Cond)
    requires |ks| > 1 && ks[0] == Bang && Spells(ks[1..], c, UnaryLevel)
    ensures Spells(ks, Not(c), UnaryLevel)
  {
  }

  lemma ParenSpells(ks: seq<Kind>, c: Cond)
    requires |ks| > 2 && ks[0] == LParen && ks[|ks| - 1] == RParen && Spells(ks[1..|ks| - 1], c, OrLevel)
    ensures Spells(ks, c, UnaryLevel)
  {
  }

  // ----- what is derivable is parsed, and as nothing else -----

  /** The tokens from `pos` to `end` are `ks`. */
  predicate Stands(ts: seq<Token>, pos: nat, end: nat, ks: seq<Kind>) {
    pos <= end <= |ts| && Kinds(ts[pos..end]) == ks
  }

  /** What may follow a condition, or a part of one. */
  predicate Follows(ts: seq<Token>, end: nat) {
    AtEnd(ts, end) || ts[end].kind.RParen? || ts[end].kind.PipePipe? || ts[end].kind.AmpAmp?
  }

  lemma StandsAt(ts: seq<Token>, pos: nat, end: nat, ks: seq<Kind>, i: nat)
    requires Stands(ts, pos, end, ks) && i < |ks|
    ensures |ks| == end - pos && ts[pos + i].kind == ks[i]
    ensures Stands(ts, pos, pos + i, ks[..i]) && Stands(ts, pos + i + 1, end, ks[i + 1..])
  {
    assert Kinds(ts[pos..end])[i] == ts[pos..end][i].kind;
    assert Kinds(ts[pos..pos + i]) == ks[..i];
    assert Kinds(ts[pos + i + 1..end]) == ks[i + 1..];
  }

  lemma {:induction false} OrComplete(ts: seq<Token>, pos: nat, end: nat, ks: seq<Kind>, c: Cond)
    requires Stands(ts, pos, end, ks) && Spells(ks, c, OrLevel) && Follows(ts, end) && !IsAt(ts, end, AmpAmp)
    ensures ParseOr(ts, pos) == ParseOrRest(ts, end, c)
    decreases |ks|, 2
  {
    hide ParseUnary, Stands, Spells;
    var i := OrCases(ks, c);
    if Spells(ks, c, AndLevel) {
      AndComplete(ts, pos, end, ks, c);
    } else {
      StandsAt(ts, pos, end, ks, i);
      OrComplete(ts, pos, pos + i, ks[..i], c.l);
      AndComplete(ts, pos + i + 1, end, ks[i + 1..], c.r);
    }
  }

  lemma {:induction false} AndComplete(ts: seq<Token>, pos: nat, end: nat, ks: seq<Kind>, c: Cond)
    requires Stands(ts, pos, end, ks) && Spells(ks, c, AndLevel) && Follows(ts, end)
    ensures ParseAnd(ts, pos) == ParseAndRest(ts, end, c)
    decreases |ks|, 1
  {
    hide ParseUnary, ParseAndRest, Stands, Spells;
    var i := AndCases(ks, c);
    if Spells(ks, c, UnaryLevel) {
      UnaryComplete(ts, pos, end, ks, c);
    } else {
      StandsAt(ts, pos, end, ks, i);
      AndComplete(ts, pos, pos + i, ks[..i], c.l);
      UnaryComplete(ts, pos + i + 1, end, ks[i + 1..], c.r);
      AndRestStep(ts, pos + i, c.l);
    }
  }

  lemma OrCases(ks: seq<Kind>, c: Cond) returns (i: nat)
    requires Spells(ks, c, OrLevel)
    ensures || Spells(ks, c, AndLevel)
            || (c.Or? && 0 < i < |ks| - 1 && ks[i] == PipePipe
                && Spells(ks[..i], c.l, OrLevel) && Spells(ks[i + 1..], c.r, AndLevel))
  {
    i := 0;
    if !Spells(ks, c, AndLevel) {
      i :| 0 < i < |ks| - 1 && ks[i] == PipePipe && Spells(ks[..i], c.l, OrLevel) && Spells(ks[i + 1..], c.r, AndLevel);
    }
  }

  lemma AndCases(ks: seq<Kind>, c: Cond) returns (i: nat)
    requires Spells(ks, c, AndLevel)
    ensures || Spells(ks, c, UnaryLevel)
            || (c.And? && 0 < i < |ks| - 1 && ks[i] == AmpAmp
                && Spells(ks[..i], c.l, AndLevel) && Spells(ks[i + 1..], c.r, UnaryLevel))
  {
    i := 0;
    if !Spells(ks, c, UnaryLevel) {
      i :| 0 < i < |ks| - 1 && ks[i] == AmpAmp && Spells(ks[..i], c.l, AndLevel) && Spells(ks[i + 1..], c.r, UnaryLevel);
    }
  }

  lemma AndRestStep(ts: seq<Token>, pos: nat, left: Cond)
    requires pos < |ts| && ts[pos].kind == AmpAmp && ParseUnary(ts, pos + 1).Some?
    ensures var (c, p) := ParseUnary(ts, pos + 1).value;
            ParseAndRest(ts, pos, left) == ParseAndRest(ts, p, And(left, c))
  {
  }

  lemma UnaryCases(ks: seq<Kind>, c: Cond)
    requires Spells(ks, c, UnaryLevel)
    ensures |ks| > 0
    ensures ks[0] == Bang ==> |ks| > 1 && c.Not? && Spells(ks[1..], c.c, UnaryLevel)
    ensures ks[0] == LParen ==> |ks| > 2 && ks[|ks| - 1] == RParen && Spells(ks[1..|ks| - 1], c, OrLevel)
    ensures ks[0] != Bang && ks[0] != LParen ==>
              && ks[0].Ident? && (|ks| == 1 || |ks| == 3)
              && (|ks| == 1 ==> c == Present(ks[0].name))
              && (|ks| == 3 ==> ks[2].StrLit? && (ks[1] == EqEq || ks[1] == BangEq)
                                && c == if ks[1] == EqEq then Is(ks[0].name, ks[2].content) else IsNot(ks[0].name, ks[2].content))
  {
    if ks[0] != Bang && ks[0] != LParen {
      assert |ks| == 1 || |ks| == 3;
    }
  }

  lemma BangStep(ts: seq<Token>, pos: nat, c: Cond, end: nat)
    requires pos < |ts| && ts[pos].kind == Bang && ParseUnary(ts, pos + 1) == Some((c, end))
    ensures ParseUnary(ts, pos) == Some((Not(c), end))
  {
  }

  lemma ParenStep(ts: seq<Token>, pos: nat, c: Cond, end: nat)
    requires pos < end < |ts| && ts[pos].kind == LParen && ts[end].kind == RParen
    requires ParseOr(ts, pos + 1) == ParseOrRest(ts, end, c)
    ensures ParseUnary(ts, pos) == Some((c, end + 1))
  {
    assert ParseOrRest(ts, end, c) == Some((c, end));
  }

  lemma {:induction false} UnaryComplete(ts: seq<Token>, pos: nat, end: nat, ks: seq<Kind>, c: Cond)
    requires Stands(ts, pos, end, ks) && Spells(ks, c, UnaryLevel) && Follows(ts, end)
    ensures ParseUnary(ts, pos) == Some((c, end))
    decreases |ks|, 0
  {
    hide Spells, Stands, ParseUnary, ParseOr, ParseOrRest;
    UnaryCases(ks, c);
    StandsAt(ts, pos, end, ks, 0);
    if ks[0] == Bang {
      UnaryComplete(ts, pos + 1, end, ks[1..], c.c);
      BangStep(ts, pos, c.c, end);
    } else if ks[0] == LParen {
      var inner := ks[1..];
      StandsAt(ts, pos + 1, end, inner, |inner| - 1);
      assert inner[..|inner| - 1] == ks[1..|ks| - 1];
      OrComplete(ts, pos + 1, end - 1, ks[1..|ks| - 1], c);
      ParenStep(ts, pos, c, end - 1);
    } else {
      if |ks| == 3 {
        StandsAt(ts, pos, end, ks, 1);
        StandsAt(ts, pos, end, ks, 2);
      }
      LeafStep(ts, pos, end, ks, c);
    }
  }

  lemma LeafStep(ts: seq<Token>, pos: nat, end: nat, ks: seq<Kind>, c: Cond)
    requires pos <= end <= |ts| && |ks| == end - pos && (|ks| == 1 || |ks| == 3) && Follows(ts, end)
    requires forall i :: 0 <= i < |ks| ==> ts[pos + i].kind == ks[i]
    requires ks[0].Ident? && (|ks| == 1 ==> c == Present(ks[0].name))
    requires |ks| == 3 ==> ks[2].StrLit? && (ks[1] == EqEq || ks[1] == BangEq)
    requires |ks| == 3 ==> c == if ks[1] == EqEq then Is(ks[0].name, ks[2].content) else IsNot(ks[0].name, ks[2].content)
    ensures ParseUnary(ts, pos) == Some((c, end))
  {
    assert ts[pos + 0].kind == ks[0];
    if |ks| == 3 {
      assert ts[pos + 1].kind == ks[1] && ts[pos + 2].kind == ks[2];
    }
  }

  /** A directive line is accepted exactly when it spells a condition; that
      condition is unique. */
  lemma LineExact(ts: seq<Token>, pos: nat, end: nat, c: Cond)
    requires pos <= end <= |ts| && AtEnd(ts, end) && forall i :: pos <= i < end ==> !ts[i].kind.Newline?
    ensures ParseLine(ts, pos) == Some((c, end)) <==> Spells(Kinds(ts[pos..end]), c, OrLevel)
  {
    if Spells(Kinds(ts[pos..end]), c, OrLevel) {
      OrComplete(ts, pos, end, Kinds(ts[pos..end]), c);
    }
    if ParseLine(ts, pos) == Some((c, end)) {
      OrSound(ts, pos);
    }
  }

  // ----- printing -----

  function Parens(ks: seq<Kind>): seq<Kind> { [LParen] + ks + [RParen] }

  /** The spelling with parentheses only where they are needed. */
  function Print(c: Cond, level: Level): (ks: seq<Kind>)
    ensures |ks| > 0
    decreases c, match level case OrLevel => 2 case AndLevel => 1 case UnaryLevel => 0
  {
    match c
    case Present(n) => [Ident(n)]
    case Is(n, v) => [Ident(n), EqEq, StrLit(v)]
    case IsNot(n, v) => [Ident(n), BangEq, StrLit(v)]
    case Not(x) => [Bang] + Print(x, UnaryLevel)
    case And(l, r) =>
      var ks := Print(l, AndLevel) + [AmpAmp] + Print(r, UnaryLevel);
      if level.UnaryLevel? then Parens(ks) else ks
    case Or(l, r) =>
      var ks := Print(l, OrLevel) + [PipePipe] + Print(r, AndLevel);
      if level.OrLevel? then ks else Parens(ks)
  }

  lemma {:induction false} PrintSpells(c: Cond, level: Level)
    ensures Spells(Print(c, level), c, level)
    decreases c, 1
  {
    match c
    case Not(x) =>
      PrintSpells(x, UnaryLevel);
      var ks := Print(c, level);
      assert ks[1..] == Print(x, UnaryLevel);
      assert Spells(ks, c, UnaryLevel);
      Weaker(ks, c, level);
    case And(l, r) =>
      PrintSpells(l, AndLevel);
      PrintSpells(r, UnaryLevel);
      var a, b := Print(l, AndLevel), Print(r, UnaryLevel);
      var ks := a + [AmpAmp] + b;
      assert ks[..|a|] == a && ks[|a| + 1..] == b;
      SpellsAnd(ks, |a|, l, r);
      Weaker(ks, c, OrLevel);
      Parenthesized(ks, c);
    case Or(l, r) =>
      PrintSpells(l, OrLevel);
      PrintSpells(r, AndLevel);
      var a, b := Print(l, OrLevel), Print(r, AndLevel);
      var ks := a + [PipePipe] + b;
      assert ks[..|a|] == a && ks[|a| + 1..] == b;
      SpellsOr(ks, |a|, l, r);
      Parenthesized(ks, c);
      Weaker(Parens(ks), c, level);
    case _ =>
      assert Spells(Print(c, level), c, UnaryLevel);
      Weaker(Print(c, level), c, level);
  }

  lemma Weaker(ks: seq<Kind>, c: Cond, level: Level)
    ensures Spells(ks, c, UnaryLevel) ==> Spells(ks, c, level)
    ensures Spells(ks, c, AndLevel) && !level.UnaryLevel? ==> Spells(ks, c, level)
  {
    assert Spells(ks, c, UnaryLevel) ==> Spells(ks, c, AndLevel);
  }

  lemma Parenthesized(ks: seq<Kind>, c: Cond)
    requires |ks| > 0 && Spells(ks, c, OrLevel)
    ensures Spells(Parens(ks), c, UnaryLevel)
  {
    var ps := Parens(ks);
    assert ps[1..|ps| - 1] == ks;
  }
}
