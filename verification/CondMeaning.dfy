/** What a condition says of the flags, how tightly its operators bind, and which branch
    of a conditional is kept. */
module CondMeaning {
  import opened CondSyntax
  import opened CondFilter

  /** A flag is set when some flag has its name; the first of that name gives its value. */
  predicate IsSet(flags: seq<Flag>, name: Text) {
    exists i :: 0 <= i < |flags| && flags[i].name == name
  }

  predicate HasValue(flags: seq<Flag>, name: Text, value: Text) {
    exists i :: 0 <= i < |flags| && flags[i].name == name && flags[i].value == Some(value) && FirstOf(flags, i)
  }

  predicate FirstOf(flags: seq<Flag>, i: nat)
    requires i < |flags|
  {
    forall j :: 0 <= j < i ==> flags[j].name != flags[i].name
  }

  lemma {:induction false} LookupIs(flags: seq<Flag>, name: Text)
    ensures Lookup(flags, name).Some? <==> IsSet(flags, name)
    ensures Lookup(flags, name).Some? ==>
              exists i :: 0 <= i < |flags| && flags[i].name == name && FirstOf(flags, i) && Lookup(flags, name) == Some(flags[i])
    decreases |flags|
  {
    if flags != [] {
      if flags[0].name == name {
        assert FirstOf(flags, 0);
      } else {
        var rest := flags[1..];
        LookupIs(rest, name);
        assert forall i :: 1 <= i < |flags| ==> flags[i] == rest[i - 1];
        if Lookup(rest, name).Some? {
          var i :| 0 <= i < |rest| && rest[i].name == name && FirstOf(rest, i) && Lookup(rest, name) == Some(rest[i]);
          assert flags[i + 1] == rest[i] && FirstOf(flags, i + 1);
        }
        if IsSet(flags, name) {
          var i :| 0 <= i < |flags| && flags[i].name == name;
          assert rest[i - 1].name == name;
        }
      }
    }
  }

  lemma OneFirst(flags: seq<Flag>, i: nat, j: nat)
    requires i < |flags| && j < |flags| && flags[i].name == flags[j].name && FirstOf(flags, i) && FirstOf(flags, j)
    ensures i == j
  {
  }

  /** A name holds when it is set; `==` when it is set to that value, so of a flag that is
      not set or has no value it is false; and `!=` says the opposite of `==`. */
  lemma Means(name: Text, value: Text, l: Cond, r: Cond, flags: seq<Flag>)
    ensures Truth(Cond.Present(name), flags) <==> IsSet(flags, name)
    ensures Truth(Is(name, value), flags) <==> HasValue(flags, name, value)
    ensures Truth(IsNot(name, value), flags) <==> !HasValue(flags, name, value)
    ensures Truth(Not(l), flags) <==> !Truth(l, flags)
    ensures Truth(And(l, r), flags) <==> Truth(l, flags) && Truth(r, flags)
    ensures Truth(Or(l, r), flags) <==> Truth(l, flags) || Truth(r, flags)
  {
    hide Lookup, FirstOf;
    LookupIs(flags, name);
    if Lookup(flags, name).Some? {
      var i :| 0 <= i < |flags| && flags[i].name == name && FirstOf(flags, i) && Lookup(flags, name) == Some(flags[i]);
      if HasValue(flags, name, value) {
        var j :| 0 <= j < |flags| && flags[j].name == name && flags[j].value == Some(value) && FirstOf(flags, j);
        OneFirst(flags, i, j);
      }
    }
  }

  // ----- how operators bind -----

  /** A name, a comparison, a negation, and a condition in parentheses. */
  lemma Tightest(ts: seq<Token>, p: nat, name: Text, value: Text, c: Cond, q: nat)
    requires p < |ts|
    ensures ts[p].kind == Ident(name) && !IsAt(ts, p + 1, EqEq) && !IsAt(ts, p + 1, BangEq) ==>
              ParseUnary(ts, p) == Some((Cond.Present(name), p + 1))
    ensures ts[p].kind == Ident(name) && IsAt(ts, p + 1, EqEq) && IsAt(ts, p + 2, StrLit(value)) ==>
              ParseUnary(ts, p) == Some((Is(name, value), p + 3))
    ensures ts[p].kind == Ident(name) && IsAt(ts, p + 1, BangEq) && IsAt(ts, p + 2, StrLit(value)) ==>
              ParseUnary(ts, p) == Some((IsNot(name, value), p + 3))
    ensures ts[p].kind == Bang && ParseUnary(ts, p + 1) == Some((c, q)) ==> ParseUnary(ts, p) == Some((Not(c), q))
    ensures ts[p].kind == LParen && ParseOr(ts, p + 1) == Some((c, q)) && IsAt(ts, q, RParen) ==>
              ParseUnary(ts, p) == Some((c, q + 1))
  {
    hide ParseOr;
  }

  lemma OneAnd(ts: seq<Token>, p: nat, x: Cond, q: nat)
    requires ParseUnary(ts, p) == Some((x, q)) && !IsAt(ts, q, AmpAmp)
    ensures ParseAnd(ts, p) == Some((x, q))
  {
    hide ParseUnary;
  }

  lemma TwoAnd(ts: seq<Token>, p: nat, x: Cond, q: nat, y: Cond, r: nat)
    requires ParseUnary(ts, p) == Some((x, q)) && IsAt(ts, q, AmpAmp) && ParseUnary(ts, q + 1) == Some((y, r))
    ensures ParseAnd(ts, p) == ParseAndRest(ts, r, And(x, y))
  {
    hide ParseUnary;
  }

  lemma MoreAnd(ts: seq<Token>, left: Cond, r: nat, z: Cond, s: nat)
    requires IsAt(ts, r, AmpAmp) && ParseUnary(ts, r + 1) == Some((z, s)) && !IsAt(ts, s, AmpAmp)
    ensures ParseAndRest(ts, r, left) == Some((And(left, z), s))
  {
    hide ParseUnary;
  }

  lemma MoreOr(ts: seq<Token>, left: Cond, q: nat, y: Cond, r: nat)
    requires IsAt(ts, q, PipePipe) && ParseAnd(ts, q + 1) == Some((y, r))
    ensures r <= |ts| && ParseOrRest(ts, q, left) == ParseOrRest(ts, r, Or(left, y))
  {
    hide ParseAnd;
  }

  lemma NoMoreOr(ts: seq<Token>, left: Cond, r: nat)
    requires r <= |ts| && AtEnd(ts, r)
    ensures ParseOrRest(ts, r, left) == Some((left, r))
  {
  }

  lemma FirstOr(ts: seq<Token>, p: nat, x: Cond, q: nat)
    requires ParseAnd(ts, p) == Some((x, q))
    ensures q <= |ts| && ParseOr(ts, p) == ParseOrRest(ts, q, x)
  {
    hide ParseAnd, ParseOrRest;
  }

  lemma WholeLine(ts: seq<Token>, p: nat, c: Cond, end: nat)
    requires ParseOr(ts, p) == Some((c, end)) && AtEnd(ts, end)
    ensures ParseLine(ts, p) == Some((c, end))
  {
    hide ParseOr;
  }

  lemma OneOr(ts: seq<Token>, p: nat, x: Cond, q: nat)
    requires ParseAnd(ts, p) == Some((x, q)) && AtEnd(ts, q)
    ensures ParseLine(ts, p) == Some((x, q))
  {
    hide ParseAnd, ParseOr, ParseOrRest, ParseLine;
    FirstOr(ts, p, x, q);
    NoMoreOr(ts, x, q);
    WholeLine(ts, p, x, q);
  }

  lemma TwoOr(ts: seq<Token>, p: nat, x: Cond, q: nat, y: Cond, r: nat)
    requires ParseAnd(ts, p) == Some((x, q)) && IsAt(ts, q, PipePipe) && ParseAnd(ts, q + 1) == Some((y, r)) && AtEnd(ts, r)
    ensures ParseLine(ts, p) == Some((Or(x, y), r))
  {
    hide ParseAnd, ParseOr, ParseOrRest, ParseLine;
    FirstOr(ts, p, x, q);
    MoreOr(ts, x, q, y, r);
    NoMoreOr(ts, Or(x, y), r);
    WholeLine(ts, p, Or(x, y), r);
  }

  lemma ThreeOr(ts: seq<Token>, p: nat, x: Cond, q: nat, y: Cond, r: nat, z: Cond, s: nat)
    requires ParseAnd(ts, p) == Some((x, q)) && IsAt(ts, q, PipePipe) && ParseAnd(ts, q + 1) == Some((y, r))
    requires IsAt(ts, r, PipePipe) && ParseAnd(ts, r + 1) == Some((z, s)) && AtEnd(ts, s)
    ensures ParseLine(ts, p) == Some((Or(Or(x, y), z), s))
  {
    hide ParseAnd, ParseOr, ParseOrRest, ParseLine;
    FirstOr(ts, p, x, q);
    MoreOr(ts, x, q, y, r);
    MoreOr(ts, Or(x, y), r, z, s);
    NoMoreOr(ts, Or(Or(x, y), z), s);
    WholeLine(ts, p, Or(Or(x, y), z), s);
  }

  /** Of three operands: `&&` binds tighter than `||`, and each goes to the left. */
  lemma Binding(ts: seq<Token>, p: nat, x: Cond, q: nat, y: Cond, r: nat, z: Cond, s: nat)
    requires ParseUnary(ts, p) == Some((x, q)) && ParseUnary(ts, q + 1) == Some((y, r)) && ParseUnary(ts, r + 1) == Some((z, s))
    requires AtEnd(ts, s)
    ensures IsAt(ts, q, PipePipe) && IsAt(ts, r, AmpAmp) ==> ParseLine(ts, p) == Some((Or(x, And(y, z)), s))
    ensures IsAt(ts, q, AmpAmp) && IsAt(ts, r, PipePipe) ==> ParseLine(ts, p) == Some((Or(And(x, y), z), s))
    ensures IsAt(ts, q, AmpAmp) && IsAt(ts, r, AmpAmp) ==> ParseLine(ts, p) == Some((And(And(x, y), z), s))
    ensures IsAt(ts, q, PipePipe) && IsAt(ts, r, PipePipe) ==> ParseLine(ts, p) == Some((Or(Or(x, y), z), s))
  {
    hide ParseUnary, ParseAnd, ParseLine;
    if IsAt(ts, q, PipePipe) {
      OneAnd(ts, p, x, q);
      if IsAt(ts, r, AmpAmp) {
        TwoAnd(ts, q + 1, y, r, z, s);
        TwoOr(ts, p, x, q, And(y, z), s);
      } else if IsAt(ts, r, PipePipe) {
        OneAnd(ts, q + 1, y, r);
        OneAnd(ts, r + 1, z, s);
        ThreeOr(ts, p, x, q, y, r, z, s);
      }
    } else if IsAt(ts, q, AmpAmp) {
      TwoAnd(ts, p, x, q, y, r);
      if IsAt(ts, r, AmpAmp) {
        MoreAnd(ts, And(x, y), r, z, s);
        OneOr(ts, p, And(And(x, y), z), s);
      } else if IsAt(ts, r, PipePipe) {
        OneAnd(ts, r + 1, z, s);
        TwoOr(ts, p, And(x, y), r, z, s);
      }
    }
  }

  // ----- which branch is kept -----

  /** Of a conditional the first branch whose line holds is kept, or nothing. */
  lemma {:induction false} FirstIsKept(branches: seq<Branch>, end: Directive, flags: seq<Flag>, k: nat)
    requires k <= |branches| && forall i :: 0 <= i < k ==> !Holds(branches[i].head, flags)
    requires k < |branches| ==> Holds(branches[k].head, flags)
    ensures ExpandNode(Conditional(branches, end), flags) == if k < |branches| then Expand(branches[k].body, flags) else []
    decreases k
  {
    hide Holds, Expand;
    SkipFalse(branches, flags, k);
  }

  lemma {:induction false} SkipFalse(branches: seq<Branch>, flags: seq<Flag>, k: nat)
    requires k <= |branches| && forall i :: 0 <= i < k ==> !Holds(branches[i].head, flags)
    requires k < |branches| ==> Holds(branches[k].head, flags)
    ensures ExpandFirst(branches, flags) == if k < |branches| then Expand(branches[k].body, flags) else []
    decreases k
  {
    hide Holds, Expand;
    if k > 0 {
      assert forall i :: 0 <= i < |branches| - 1 ==> branches[1..][i] == branches[i + 1];
      SkipFalse(branches[1..], flags, k - 1);
    }
  }
}
