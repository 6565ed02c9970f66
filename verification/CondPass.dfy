/** The conditional-compilation pass as it runs: an evaluator that moves along a
    directive line, and a filter with fixed arrays for its stack. */
module CondPass {
  import opened CondSyntax
  import opened CondFilter

  method FlagLookup(flags: seq<Flag>, name: Text) returns (f: Option<Flag>)
    ensures f == Lookup(flags, name)
  {
    assert flags[0..] == flags;
    for i := 0 to |flags|
      invariant Lookup(flags, name) == Lookup(flags[i..], name)
    {
      assert flags[i..][0] == flags[i] && flags[i..][1..] == flags[i + 1..];
      if flags[i].name == name { return Some(flags[i]); }
    }
    return None;
  }

  /** The truth of a parsed condition; `None` for an error. */
  function TruthOf(r: Parsed, flags: seq<Flag>): Option<bool> {
    if r.None? then None else Some(Truth(r.value.0, flags))
  }

  class CondEval {
    const tokens: seq<Token>
    const flags: seq<Flag>
    var pos: nat

    constructor (tokens: seq<Token>, flags: seq<Flag>, pos: nat)
      ensures this.tokens == tokens && this.flags == flags && this.pos == pos
    {
      this.tokens, this.flags, this.pos := tokens, flags, pos;
    }

    /** The evaluator agrees with the parse `r`, and stands behind it. */
    ghost predicate After(r: Parsed, v: Option<bool>)
      reads this
    {
      v == TruthOf(r, flags) && (r.Some? ==> pos == r.value.1)
    }

    method EvalPrimary() returns (v: Option<bool>)
      modifies this
      ensures After(ParsePrimary(tokens, old(pos)), v)
      decreases |tokens| - pos, 0
    {
      if AtEnd(tokens, pos) { return None; }
      match tokens[pos].kind
      case LParen =>
        pos := pos + 1;
        v := EvalOr();
        if v.None? { return None; }
        if !IsAt(tokens, pos, RParen) { return None; }
        pos := pos + 1;
      case Ident(name) =>
        pos := pos + 1;
        var f := FlagLookup(flags, name);
        if IsAt(tokens, pos, EqEq) || IsAt(tokens, pos, BangEq) {
          var op := tokens[pos].kind;
          pos := pos + 1;
          if pos >= |tokens| || !tokens[pos].kind.StrLit? { return None; }
          var content := tokens[pos].kind.content;
          pos := pos + 1;
          var eq := false;
          if f.Some? && f.value.value.Some? {
            eq := f.value.value.value == content;
          }
          v := Some(if op == EqEq then eq else !eq);
        } else {
          v := Some(f.Some?);
        }
      case _ => return None;
    }

    method EvalUnary() returns (v: Option<bool>)
      modifies this
      ensures After(ParseUnary(tokens, old(pos)), v)
      decreases |tokens| - pos, 1
    {
      if IsAt(tokens, pos, Bang) {
        pos := pos + 1;
        v := EvalUnary();
        if v.Some? {
          v := Some(!v.value);
        }
      } else {
        v := EvalPrimary();
      }
    }

    method EvalAnd() returns (v: Option<bool>)
      modifies this
      ensures After(ParseAnd(tokens, old(pos)), v)
      decreases |tokens| - pos, 2
    {
      hide ParseUnary;
      v := EvalUnary();
      if v.None? { return; }
      ghost var c := ParseUnary(tokens, old(pos)).value.0;
      while IsAt(tokens, pos, AmpAmp)
        invariant old(pos) < pos <= |tokens| && v == Some(Truth(c, flags))
        invariant ParseAnd(tokens, old(pos)) == ParseAndRest(tokens, pos, c)
        decreases |tokens| - pos
      {
        ghost var right := ParseUnary(tokens, pos + 1);
        pos := pos + 1;
        var r := EvalUnary();
        if r.None? { return None; }
        v := Some(v.value && r.value);
        c := And(c, right.value.0);
      }
    }

    method EvalOr() returns (v: Option<bool>)
      modifies this
      ensures After(ParseOr(tokens, old(pos)), v)
      decreases |tokens| - pos, 3
    {
      hide ParseAnd;
      v := EvalAnd();
      if v.None? { return; }
      ghost var c := ParseAnd(tokens, old(pos)).value.0;
      while IsAt(tokens, pos, PipePipe)
        invariant old(pos) < pos <= |tokens| && v == Some(Truth(c, flags))
        invariant ParseOr(tokens, old(pos)) == ParseOrRest(tokens, pos, c)
        decreases |tokens| - pos
      {
        ghost var right := ParseAnd(tokens, pos + 1);
        pos := pos + 1;
        var r := EvalAnd();
        if r.None? { return None; }
        v := Some(v.value || r.value);
        c := Or(c, right.value.0);
      }
    }
  }

  /** A directive line from `pos`; `next` is the position behind the condition. */
  method EvalCondExpr(tokens: seq<Token>, pos: nat, flags: seq<Flag>) returns (v: Option<bool>, next: nat)
    ensures v == TruthOf(ParseLine(tokens, pos), flags)
    ensures v.Some? ==> next == ParseLine(tokens, pos).value.1
  {
    hide ParseOr;
    var e := new CondEval(tokens, flags, pos);
    v := e.EvalOr();
    next := e.pos;
    if v.Some? && !AtEnd(tokens, next) {
      v := None;
    }
  }

  /** What a directive does to the stack, and where it ends. */
  function DirectiveStep(ts: seq<Token>, i: nat, stack: seq<Frame>, flags: seq<Flag>): Option<(nat, seq<Frame>)>
    requires i < |ts| && IsDirective(ts[i].kind) && |stack| > 0
  {
    var t, top := ts[i], stack[|stack| - 1];
    if t.col != 1 || (!t.kind.HashIf? && |stack| == 1) || (t.kind.HashIf? && |stack| >= MAX_COND_DEPTH) then None
    else if t.kind.HashEnd? then Some((SkipNewline(ts, i + 1), stack[..|stack| - 1]))
    else if t.kind.HashElse? then
      Some((SkipNewline(ts, i + 1), stack[|stack| - 1 := Frame(stack[|stack| - 2].active && !top.done, true)]))
    else
      match ParseLine(ts, i + 1)
      case None => None
      case Some((c, p)) =>
        var cond := Truth(c, flags);
        Some((SkipNewline(ts, p),
              if t.kind.HashIf? then stack + [Frame(top.active && cond, cond)]
              else stack[|stack| - 1 := Frame(stack[|stack| - 2].active && !top.done && cond, top.done || cond)]))
  }

  lemma RunStep(ts: seq<Token>, i: nat, stack: seq<Frame>, flags: seq<Flag>)
    requires i < |ts| && IsDirective(ts[i].kind) && |stack| > 0
    ensures var s := DirectiveStep(ts, i, stack, flags);
            (s.Some? ==> i < s.value.0 <= |ts| && |s.value.1| > 0)
            && Run(ts, i, stack, flags) == if s.None? then None else Run(ts, s.value.0, s.value.1, flags)
  {
  }

  /** The arrays' contents as a stack. */
  function Stack(active: seq<bool>, done: seq<bool>, depth: nat): (s: seq<Frame>)
    requires depth < |active| == |done|
    ensures |s| == depth + 1 && forall i :: 0 <= i <= depth ==> s[i] == Frame(active[i], done[i])
  {
    seq(depth + 1, i requires 0 <= i <= depth => Frame(active[i], done[i]))
  }

  class Filter {
    var active: array<bool>
    var done: array<bool>
    var depth: nat

    ghost predicate Valid()
      reads this, active, done
    {
      active != done && active.Length == done.Length == MAX_COND_DEPTH && depth < MAX_COND_DEPTH && active[0] && done[0]
    }

    constructor ()
      ensures Valid() && depth == 0 && fresh(active) && fresh(done)
    {
      active := new bool[MAX_COND_DEPTH](_ => true);
      done := new bool[MAX_COND_DEPTH](_ => true);
      depth := 0;
    }

    ghost function Frames(): seq<Frame>
      requires Valid()
      reads this, active, done
    {
      Stack(active[..], done[..], depth)
    }

    /** A directive at `i`: updates the stack and returns the next position, or
        rejects the source. */
    method Directive(tokens: seq<Token>, i: nat, flags: seq<Flag>) returns (next: nat, ok: bool)
      requires Valid() && i < |tokens| && IsDirective(tokens[i].kind)
      modifies this`depth, active, done
      ensures ok ==> Valid() && DirectiveStep(tokens, i, old(Frames()), flags) == Some((next, Frames()))
      ensures !ok ==> DirectiveStep(tokens, i, old(Frames()), flags) == None
    {
      hide ParseLine, Truth;
      var t := tokens[i];
      ghost var start := Frames();
      next, ok := i + 1, false;
      if t.col != 1 || (depth == 0 && !t.kind.HashIf?) { return; }
      match t.kind {
      case HashIf =>
        var parentActive := active[depth];
        if depth + 1 >= MAX_COND_DEPTH { return; }
        depth := depth + 1;
        var cond, p := EvalCondExpr(tokens, i + 1, flags);
        if cond.None? { return; }
        SetTop(parentActive && cond.value, cond.value);
        next := SkipNewline(tokens, p);
        assert Frames() == start + [Frame(parentActive && cond.value, cond.value)];
      case HashElseIf =>
        var parentActive := if depth >= 2 then active[depth - 1] else true;
        assert parentActive == start[|start| - 2].active;
        var cond, p := EvalCondExpr(tokens, i + 1, flags);
        if cond.None? { return; }
        SetTop(parentActive && !done[depth] && cond.value, done[depth] || cond.value);
        next := SkipNewline(tokens, p);
      case HashElse =>
        var parentActive := if depth >= 2 then active[depth - 1] else true;
        assert parentActive == start[|start| - 2].active;
        SetTop(parentActive && !done[depth], true);
        next := SkipNewline(tokens, i + 1);
      case HashEnd =>
        depth := depth - 1;
        next := SkipNewline(tokens, i + 1);
        assert Frames() == start[..|start| - 1];
      }
      ok := true;
    }

    /** The innermost `#if` gets a new state. */
    method SetTop(isActive: bool, isDone: bool)
      requires active != done && active.Length == done.Length == MAX_COND_DEPTH && 0 < depth < MAX_COND_DEPTH
      requires active[0] && done[0]
      modifies active, done
      ensures Valid() && active[depth] == isActive && done[depth] == isDone
      ensures forall k :: 0 <= k < MAX_COND_DEPTH && k != depth ==> active[k] == old(active[k]) && done[k] == old(done[k])
      ensures Frames() == old(Stack(active[..], done[..], depth))[depth := Frame(isActive, isDone)]
    {
      active[depth] := isActive;
      done[depth] := isDone;
    }

    /** The kept tokens, or `None` when the source is rejected: as the tree says. */
    method FilterConditionals(tokens: seq<Token>, flags: seq<Flag>) returns (r: Option<seq<Token>>)
      requires Valid() && depth == 0
      modifies this, active, done
      ensures r == Run(tokens, 0, [Frame(true, true)], flags)
      ensures r.Some? <==> exists nodes :: tokens == Render(nodes) && NodesOk(nodes, 0, [])
      ensures forall nodes :: tokens == Render(nodes) && NodesOk(nodes, 0, []) ==> r == Some(Expand(nodes, flags))
    {
      hide Run, DirectiveStep;
      var out: seq<Token> := [];
      var i: nat := 0;
      assert Frames() == [Frame(true, true)];
      PrependTwice([], [], Run(tokens, 0, Frames(), flags));
      while i < |tokens|
        invariant Valid() && i <= |tokens| && active == old(active) && done == old(done)
        invariant Run(tokens, 0, [Frame(true, true)], flags) == Prepend(out, Run(tokens, i, Frames(), flags))
        decreases |tokens| - i
      {
        if IsDirective(tokens[i].kind) {
          RunStep(tokens, i, Frames(), flags);
          var next, ok := Directive(tokens, i, flags);
          if !ok {
            MeaningOf(tokens, flags);
            return None;
          }
          i := next;
        } else {
          PlainStep(tokens, i, Frames(), flags);
          PrependTwice(out, if active[depth] then [tokens[i]] else [], Run(tokens, i + 1, Frames(), flags));
          if active[depth] {
            out := out + [tokens[i]];
          }
          i := i + 1;
        }
      }
      Ended(tokens, Frames(), flags);
      assert out + [] == out;
      MeaningOf(tokens, flags);
      r := if depth == 0 then Some(out) else None;
    }
  }

  lemma Ended(tokens: seq<Token>, stack: seq<Frame>, flags: seq<Flag>)
    requires |stack| > 0
    ensures Run(tokens, |tokens|, stack, flags) == if |stack| == 1 then Some([]) else None
  {
  }

  lemma MeaningOf(tokens: seq<Token>, flags: seq<Flag>)
    ensures var r := Run(tokens, 0, [Frame(true, true)], flags);
            && (r.Some? <==> exists nodes :: tokens == Render(nodes) && NodesOk(nodes, 0, []))
            && forall nodes :: tokens == Render(nodes) && NodesOk(nodes, 0, []) ==> r == Some(Expand(nodes, flags))
  {
    AcceptedIsTree(tokens, flags);
    forall nodes | tokens == Render(nodes) && NodesOk(nodes, 0, [])
      ensures Run(tokens, 0, [Frame(true, true)], flags) == Some(Expand(nodes, flags))
    {
      FilterIsTree(nodes, flags);
    }
  }
}
