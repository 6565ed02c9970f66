/** The filter of `#if` branches: a flat pass with a stack, and the tree it stands
    for. */
module CondFilter {
  import opened CondSyntax

  const MAX_COND_DEPTH: nat := 32

  /** `active`: the current branch is kept. `done`: some branch here was true. */
  datatype Frame = Frame(active: bool, done: bool)

  /** A directive may be followed by the end of its line. */
  function SkipNewline(ts: seq<Token>, i: nat): nat {
    if i < |ts| && ts[i].kind.Newline? then i + 1 else i
  }

  predicate IsDirective(k: Kind) {
    k.HashIf? || k.HashElseIf? || k.HashElse? || k.HashEnd?
  }

  /** The filter from position `i`, the open `#if`s on the stack, innermost last;
      none when the source is rejected. */
  function Run(ts: seq<Token>, i: nat, stack: seq<Frame>, flags: seq<Flag>): Option<seq<Token>>
    requires |stack| > 0
    decreases |ts| - i
  {
    if i >= |ts| then (if |stack| == 1 then Some([]) else None)
    else
      var t, top := ts[i], stack[|stack| - 1];
      if IsDirective(t.kind) && (t.col != 1 || (!t.kind.HashIf? && |stack| == 1)) then None
      else
        match t.kind
        case HashIf =>
          if |stack| >= MAX_COND_DEPTH then None
          else
            (match ParseLine(ts, i + 1)
             case None => None
             case Some((c, p)) =>
               var cond := Truth(c, flags);
               Run(ts, SkipNewline(ts, p), stack + [Frame(top.active && cond, cond)], flags))
        case HashElseIf =>
          (match ParseLine(ts, i + 1)
           case None => None
           case Some((c, p)) =>
             var cond := Truth(c, flags);
             var f := Frame(stack[|stack| - 2].active && !top.done && cond, top.done || cond);
             Run(ts, SkipNewline(ts, p), stack[|stack| - 1 := f], flags))
        case HashElse =>
          var f := Frame(stack[|stack| - 2].active && !top.done, true);
          Run(ts, SkipNewline(ts, i + 1), stack[|stack| - 1 := f], flags)
        case HashEnd => Run(ts, SkipNewline(ts, i + 1), stack[..|stack| - 1], flags)
        case _ =>
          match Run(ts, i + 1, stack, flags)
          case None => None
          case Some(out) => Some(if top.active then [t] + out else out)
  }

  // ----- the tree -----

  /** Source text with its conditionals. */
  datatype Node = Plain(t: Token) | Conditional(branches: seq<Branch>, end: Directive)

  /** The line of a directive; `eol`: a newline follows it. */
  datatype Directive = Directive(t: Token, cond: seq<Token>, eol: seq<Token>)

  datatype Branch = Branch(head: Directive, body: seq<Node>)

  function RenderDirective(d: Directive): seq<Token> {
    [d.t] + d.cond + d.eol
  }

  function Render(nodes: seq<Node>): seq<Token>
    decreases nodes, 0
  {
    if nodes == [] then [] else RenderNode(nodes[0]) + Render(nodes[1..])
  }

  function RenderNode(n: Node): seq<Token>
    decreases n, 0
  {
    match n
    case Plain(t) => [t]
    case Conditional(branches, end) => RenderBranches(branches) + RenderDirective(end)
  }

  function RenderBranches(branches: seq<Branch>): seq<Token>
    decreases branches, 0
  {
    if branches == [] then []
    else
      var b := branches[0];
      RenderDirective(b.head) + Render(b.body) + RenderBranches(branches[1..])
  }

  /** Does this branch's line hold? `#else` always does. */
  ghost predicate Holds(d: Directive, flags: seq<Flag>) {
    d.t.kind.HashElse? || exists c :: Spells(Kinds(d.cond), c, OrLevel) && Truth(c, flags)
  }

  /** The meaning: of each conditional, the first branch that holds. */
  ghost function Expand(nodes: seq<Node>, flags: seq<Flag>): seq<Token>
    decreases nodes, 0
  {
    if nodes == [] then [] else ExpandNode(nodes[0], flags) + Expand(nodes[1..], flags)
  }

  ghost function ExpandNode(n: Node, flags: seq<Flag>): seq<Token>
    decreases n, 0
  {
    match n
    case Plain(t) => [t]
    case Conditional(branches, _) => ExpandFirst(branches, flags)
  }

  ghost function ExpandFirst(branches: seq<Branch>, flags: seq<Flag>): seq<Token>
    decreases branches, 0
  {
    if branches == [] then []
    else
      var b := branches[0];
      if Holds(b.head, flags) then Expand(b.body, flags) else ExpandFirst(branches[1..], flags)
  }

  // ----- the trees that can be written -----

  predicate EndsLine(d: Directive) {
    |d.eol| == 1 && d.eol[0].kind.Newline?
  }

  /** A directive on its own line, or a `#else` or `#end` with more behind it:
      `next` is what comes after. */
  ghost predicate DirectiveOk(d: Directive, next: seq<Token>) {
    d.t.col == 1 &&
    if d.t.kind.HashIf? || d.t.kind.HashElseIf? then
      && (forall i :: 0 <= i < |d.cond| ==> !d.cond[i].kind.Newline?)
      && (exists c :: Spells(Kinds(d.cond), c, OrLevel))
      && (EndsLine(d) || (d.eol == [] && next == []))
    else d.cond == [] && (EndsLine(d) || (d.eol == [] && !(|next| > 0 && next[0].kind.Newline?)))
  }

  /** `depth` conditionals are open around the nodes; `next` follows them. */
  ghost predicate NodesOk(nodes: seq<Node>, depth: nat, next: seq<Token>)
    decreases nodes, 0
  {
    nodes == [] || (NodeOk(nodes[0], depth, Render(nodes[1..]) + next) && NodesOk(nodes[1..], depth, next))
  }

  ghost predicate NodeOk(n: Node, depth: nat, next: seq<Token>)
    decreases n, 0
  {
    match n
    case Plain(t) => !IsDirective(t.kind)
    case Conditional(branches, end) =>
      && depth + 1 < MAX_COND_DEPTH
      && branches != [] && branches[0].head.t.kind.HashIf?
      && BranchesOk(branches, depth + 1, RenderDirective(end) + next)
      && end.t.kind.HashEnd? && DirectiveOk(end, next)
  }

  ghost predicate BranchesOk(branches: seq<Branch>, depth: nat, next: seq<Token>)
    decreases branches, 0
  {
    branches == [] ||
      var b := branches[0];
      var rest := RenderBranches(branches[1..]) + next;
      && (b.head.t.kind.HashIf? || b.head.t.kind.HashElseIf? || b.head.t.kind.HashElse?)
      && (|branches| > 1 ==> !branches[1].head.t.kind.HashIf?)
      && DirectiveOk(b.head, Render(b.body) + rest)
      && NodesOk(b.body, depth, rest)
      && BranchesOk(branches[1..], depth, next)
  }

  // ----- the flat pass computes the tree's meaning -----

  function Prepend(a: seq<Token>, r: Option<seq<Token>>): Option<seq<Token>> {
    if r.None? then None else Some(a + r.value)
  }

  lemma PrependTwice(a: seq<Token>, b: seq<Token>, r: Option<seq<Token>>)
    ensures Prepend(a, Prepend(b, r)) == Prepend(a + b, r) && Prepend([], r) == r
  {
    if r.Some? {
      assert a + (b + r.value) == (a + b) + r.value && [] + r.value == r.value;
    }
  }

  /** `here` stands at `i`, and `rest` behind it is all that is left. */
  predicate From(ts: seq<Token>, i: nat, here: seq<Token>, rest: seq<Token>) {
    i <= |ts| && ts[i..] == here + rest
  }

  lemma FromSplit(ts: seq<Token>, i: nat, a: seq<Token>, b: seq<Token>, rest: seq<Token>)
    requires From(ts, i, a + b, rest)
    ensures From(ts, i, a, b + rest) && i + |a| <= |ts| && From(ts, i + |a|, b, rest)
  {
    assert a + b + rest == a + (b + rest);
    assert ts[i + |a|..] == ts[i..][|a|..];
  }

  /** A directive that stands at `i` is read whole. */
  lemma DirectiveRead(ts: seq<Token>, i: nat, d: Directive, rest: seq<Token>)
    requires From(ts, i, RenderDirective(d), rest) && DirectiveOk(d, rest)
    ensures i < |ts| && ts[i] == d.t && i + |RenderDirective(d)| <= |ts|
    ensures !(d.t.kind.HashIf? || d.t.kind.HashElseIf?) ==> SkipNewline(ts, i + 1) == i + |RenderDirective(d)|
    ensures d.t.kind.HashIf? || d.t.kind.HashElseIf? ==>
              var r := ParseLine(ts, i + 1);
              r.Some? && SkipNewline(ts, r.value.1) == i + |RenderDirective(d)|
              && forall c :: Spells(Kinds(d.cond), c, OrLevel) <==> r.value.0 == c
  {
    hide Spells, ParseLine;
    var ds := RenderDirective(d);
    assert ts[i] == ts[i..][0];
    assert forall k :: 0 <= k < |ds| ==> ts[i + k] == ts[i..][k];
    if i + |ds| < |ts| {
      assert ts[i + |ds|] == ts[i..][|ds|] == rest[0];
    }
    if d.t.kind.HashIf? || d.t.kind.HashElseIf? {
      var end := i + 1 + |d.cond|;
      assert ts[i + 1..end] == d.cond;
      forall c ensures ParseLine(ts, i + 1) == Some((c, end)) <==> Spells(Kinds(d.cond), c, OrLevel) {
        LineExact(ts, i + 1, end, c);
      }
    }
  }

  lemma HoldsIs(d: Directive, c: Cond, flags: seq<Flag>)
    requires !d.t.kind.HashElse? && forall x :: Spells(Kinds(d.cond), x, OrLevel) <==> c == x
    ensures Holds(d, flags) <==> Truth(c, flags)
  {
  }

  lemma {:induction false} NodesRun(ts: seq<Token>, i: nat, nodes: seq<Node>, rest: seq<Token>, stack: seq<Frame>, flags: seq<Flag>)
    requires |stack| > 0 && From(ts, i, Render(nodes), rest) && NodesOk(nodes, |stack| - 1, rest)
    ensures i + |Render(nodes)| <= |ts|
    ensures Run(ts, i, stack, flags) ==
            Prepend(if stack[|stack| - 1].active then Expand(nodes, flags) else [],
                    Run(ts, i + |Render(nodes)|, stack, flags))
    decreases nodes, 0
  {
    hide Run, DirectiveOk, RenderNode, ExpandNode, NodeOk;
    if nodes == [] {
      PrependTwice([], [], Run(ts, i, stack, flags));
    } else {
      var here, more := RenderNode(nodes[0]), Render(nodes[1..]);
      FromSplit(ts, i, here, more, rest);
      NodeRun(ts, i, nodes[0], more + rest, stack, flags);
      NodesRun(ts, i + |here|, nodes[1..], rest, stack, flags);
      var a, b := ExpandNode(nodes[0], flags), Expand(nodes[1..], flags);
      PrependTwice(a, b, Run(ts, i + |here| + |more|, stack, flags));
      PrependTwice([], [], Run(ts, i + |here| + |more|, stack, flags));
    }
  }

  lemma {:induction false} NodeRun(ts: seq<Token>, i: nat, n: Node, rest: seq<Token>, stack: seq<Frame>, flags: seq<Flag>)
    requires |stack| > 0 && From(ts, i, RenderNode(n), rest) && NodeOk(n, |stack| - 1, rest)
    ensures i + |RenderNode(n)| <= |ts|
    ensures Run(ts, i, stack, flags) ==
            Prepend(if stack[|stack| - 1].active then ExpandNode(n, flags) else [],
                    Run(ts, i + |RenderNode(n)|, stack, flags))
    decreases n, 0
  {
    hide Run, Expand, Render, RenderBranches, ExpandFirst, DirectiveOk, BranchesOk;
    match n
    case Plain(t) =>
      assert ts[i] == ts[i..][0] == t;
      PlainStep(ts, i, stack, flags);
    case Conditional(branches, end) => ConditionalRun(ts, i, branches, end, rest, stack, flags);
  }

  lemma PlainStep(ts: seq<Token>, i: nat, stack: seq<Frame>, flags: seq<Flag>)
    requires i < |ts| && |stack| > 0 && !IsDirective(ts[i].kind)
    ensures Run(ts, i, stack, flags) ==
            Prepend(if stack[|stack| - 1].active then [ts[i]] else [], Run(ts, i + 1, stack, flags))
  {
    PrependTwice([], [], Run(ts, i + 1, stack, flags));
  }

  /** Reading `#if`. */
  lemma OpenStep(ts: seq<Token>, i: nat, d: Directive, rest: seq<Token>, stack: seq<Frame>, flags: seq<Flag>)
    requires 0 < |stack| < MAX_COND_DEPTH && d.t.kind.HashIf?
    requires From(ts, i, RenderDirective(d), rest) && DirectiveOk(d, rest)
    ensures var cond := Holds(d, flags);
            Run(ts, i, stack, flags) ==
            Run(ts, i + |RenderDirective(d)|, stack + [Frame(stack[|stack| - 1].active && cond, cond)], flags)
  {
    hide Spells, ParseLine, From;
    DirectiveRead(ts, i, d, rest);
    HoldsIs(d, ParseLine(ts, i + 1).value.0, flags);
  }

  /** Reading `#else if` or `#else`. */
  lemma NextStep(ts: seq<Token>, i: nat, d: Directive, rest: seq<Token>, stack: seq<Frame>, flags: seq<Flag>)
    requires |stack| > 1 && (d.t.kind.HashElseIf? || d.t.kind.HashElse?)
    requires From(ts, i, RenderDirective(d), rest) && DirectiveOk(d, rest)
    ensures var cond, top := Holds(d, flags), stack[|stack| - 1];
            var f := Frame(stack[|stack| - 2].active && !top.done && cond, top.done || cond);
            Run(ts, i, stack, flags) == Run(ts, i + |RenderDirective(d)|, stack[|stack| - 1 := f], flags)
  {
    hide Spells, ParseLine, From;
    DirectiveRead(ts, i, d, rest);
    if d.t.kind.HashElseIf? {
      HoldsIs(d, ParseLine(ts, i + 1).value.0, flags);
    }
  }

  lemma EndStep(ts: seq<Token>, i: nat, d: Directive, rest: seq<Token>, stack: seq<Frame>, flags: seq<Flag>)
    requires |stack| > 1 && d.t.kind.HashEnd? && From(ts, i, RenderDirective(d), rest) && DirectiveOk(d, rest)
    ensures Run(ts, i, stack, flags) == Run(ts, i + |RenderDirective(d)|, stack[..|stack| - 1], flags)
  {
    hide Spells, ParseLine, From;
    DirectiveRead(ts, i, d, rest);
  }

  lemma NodeParts(branches: seq<Branch>, end: Directive, rest: seq<Token>)
    requires branches != []
    ensures var head, body, tail := RenderDirective(branches[0].head), Render(branches[0].body), RenderBranches(branches[1..]) + RenderDirective(end);
            && RenderBranches(branches) + RenderDirective(end) == head + (body + tail)
            && RenderNode(Conditional(branches, end)) == head + (body + tail)
            && RenderBranches(branches[1..]) + (RenderDirective(end) + rest) == tail + rest
            && body + tail + rest == body + (tail + rest)
  {
    hide RenderDirective, Render;
  }

  lemma {:induction false} ConditionalRun(ts: seq<Token>, i: nat, branches: seq<Branch>, end: Directive, rest: seq<Token>,
                                          stack: seq<Frame>, flags: seq<Flag>)
    requires |stack| > 0 && From(ts, i, RenderNode(Conditional(branches, end)), rest)
    requires NodeOk(Conditional(branches, end), |stack| - 1, rest)
    ensures i + |RenderNode(Conditional(branches, end))| <= |ts|
    ensures Run(ts, i, stack, flags) ==
            Prepend(if stack[|stack| - 1].active then ExpandFirst(branches, flags) else [],
                    Run(ts, i + |RenderNode(Conditional(branches, end))|, stack, flags))
    decreases branches, 2
  {
    hide Run, DirectiveOk, Holds, Expand, Render, RenderDirective, From, Prepend, Spells, ParseLine, RenderBranches, RenderNode;
    var b, more := branches[0], branches[1..];
    var head, body, tail := RenderDirective(b.head), Render(b.body), RenderBranches(more) + RenderDirective(end);
    NodeParts(branches, end, rest);
    FromSplit(ts, i, head, body + tail, rest);
    FromSplit(ts, i + |head|, body, tail, rest);
    OpenStep(ts, i, b.head, body + (tail + rest), stack, flags);
    var cond := Holds(b.head, flags);
    var inner := stack + [Frame(stack[|stack| - 1].active && cond, cond)];
    NodesRun(ts, i + |head|, b.body, tail + rest, inner, flags);
    TailRun(ts, i + |head| + |body|, more, end, rest, inner, flags);
    assert inner[..|inner| - 1] == stack;
    var last := Run(ts, i + |head| + |body| + |tail|, stack, flags);
    PrependTwice(Expand(b.body, flags), [], last);
    PrependTwice([], ExpandFirst(more, flags), last);
    PrependTwice([], [], last);
    assert Expand(b.body, flags) + [] == Expand(b.body, flags) && [] + ExpandFirst(more, flags) == ExpandFirst(more, flags);
  }

  lemma NoBranches(end: Directive, rest: seq<Token>)
    ensures RenderBranches([]) + RenderDirective(end) == RenderDirective(end)
    ensures RenderDirective(end) + [] == RenderDirective(end) && [] + rest == rest
  {
    hide RenderDirective;
  }

  /** The branches after the first, and the `#end`. */
  lemma {:induction false} TailRun(ts: seq<Token>, i: nat, branches: seq<Branch>, end: Directive, rest: seq<Token>,
                                   stack: seq<Frame>, flags: seq<Flag>)
    requires |stack| > 1 && From(ts, i, RenderBranches(branches) + RenderDirective(end), rest)
    requires BranchesOk(branches, |stack| - 1, RenderDirective(end) + rest)
    requires branches != [] ==> !branches[0].head.t.kind.HashIf?
    requires end.t.kind.HashEnd? && DirectiveOk(end, rest)
    ensures i + |RenderBranches(branches) + RenderDirective(end)| <= |ts|
    ensures Run(ts, i, stack, flags) ==
            Prepend(if stack[|stack| - 2].active && !stack[|stack| - 1].done then ExpandFirst(branches, flags) else [],
                    Run(ts, i + |RenderBranches(branches) + RenderDirective(end)|, stack[..|stack| - 1], flags))
    decreases branches, 1
  {
    hide Run, DirectiveOk, Holds, Expand, Render, RenderDirective, From, RenderBranches, Prepend;
    if branches == [] {
      NoBranches(end, rest);
      FromSplit(ts, i, RenderDirective(end), [], rest);
      EndStep(ts, i, end, rest, stack, flags);
      PrependTwice([], [], Run(ts, i + |RenderDirective(end)|, stack[..|stack| - 1], flags));
    } else {
      var b, more := branches[0], branches[1..];
      var head, body, tail := RenderDirective(b.head), Render(b.body), RenderBranches(more) + RenderDirective(end);
      NodeParts(branches, end, rest);
      FromSplit(ts, i, head, body + tail, rest);
      FromSplit(ts, i + |head|, body, tail, rest);
      NextStep(ts, i, b.head, body + (tail + rest), stack, flags);
      var cond, top := Holds(b.head, flags), stack[|stack| - 1];
      var f := Frame(stack[|stack| - 2].active && !top.done && cond, top.done || cond);
      var inner := stack[|stack| - 1 := f];
      NodesRun(ts, i + |head|, b.body, tail + rest, inner, flags);
      TailRun(ts, i + |head| + |body|, more, end, rest, inner, flags);
      assert inner[..|inner| - 1] == stack[..|stack| - 1];
      var last := Run(ts, i + |head| + |body| + |tail|, stack[..|stack| - 1], flags);
      PrependTwice(Expand(b.body, flags), [], last);
      PrependTwice([], ExpandFirst(more, flags), last);
      PrependTwice([], [], last);
      assert Expand(b.body, flags) + [] == Expand(b.body, flags) && [] + ExpandFirst(more, flags) == ExpandFirst(more, flags);
    }
  }

  /** For every nesting of conditionals that fits the limit, and every set of flags:
      the filter keeps exactly the first branch that holds, at each level. */
  lemma FilterIsTree(nodes: seq<Node>, flags: seq<Flag>)
    requires NodesOk(nodes, 0, [])
    ensures Run(Render(nodes), 0, [Frame(true, true)], flags) == Some(Expand(nodes, flags))
  {
    var ts := Render(nodes);
    assert ts[0..] == ts + [];
    NodesRun(ts, 0, nodes, [], [Frame(true, true)], flags);
    assert Expand(nodes, flags) + [] == Expand(nodes, flags);
  }

  // ----- and only trees are accepted -----

  lemma {:induction false} NoNewlines(ks: seq<Kind>, c: Cond, level: Level, j: nat)
    requires Spells(ks, c, level) && j < |ks|
    ensures !ks[j].Newline?
    decreases |ks|, match level case OrLevel => 2 case AndLevel => 1 case UnaryLevel => 0
  {
    hide Spells;
    match level
    case OrLevel =>
      var i := OrCases(ks, c);
      if Spells(ks, c, AndLevel) {
        NoNewlines(ks, c, AndLevel, j);
      } else if j < i {
        NoNewlines(ks[..i], c.l, OrLevel, j);
      } else if j > i {
        NoNewlines(ks[i + 1..], c.r, AndLevel, j - i - 1);
      }
    case AndLevel =>
      var i := AndCases(ks, c);
      if Spells(ks, c, UnaryLevel) {
        NoNewlines(ks, c, UnaryLevel, j);
      } else if j < i {
        NoNewlines(ks[..i], c.l, AndLevel, j);
      } else if j > i {
        NoNewlines(ks[i + 1..], c.r, UnaryLevel, j - i - 1);
      }
    case UnaryLevel =>
      UnaryCases(ks, c);
      if ks[0] == Bang {
        if j > 0 {
          NoNewlines(ks[1..], c.c, UnaryLevel, j - 1);
        }
      } else if ks[0] == LParen {
        if 0 < j < |ks| - 1 {
          NoNewlines(ks[1..|ks| - 1], c, OrLevel, j - 1);
        }
      }
  }

  /** The directive at `i`, with its line. */
  lemma ReadDirective(ts: seq<Token>, i: nat) returns (d: Directive, next: nat)
    requires i < |ts| && IsDirective(ts[i].kind) && ts[i].col == 1
    requires ts[i].kind.HashIf? || ts[i].kind.HashElseIf? ==> ParseLine(ts, i + 1).Some?
    ensures d.t == ts[i] && i < next <= |ts| && ts[i..next] == RenderDirective(d) && DirectiveOk(d, ts[next..])
    ensures next == SkipNewline(ts, if ts[i].kind.HashIf? || ts[i].kind.HashElseIf? then ParseLine(ts, i + 1).value.1 else i + 1)
  {
    var p := i + 1;
    if ts[i].kind.HashIf? || ts[i].kind.HashElseIf? {
      p := ParseLine(ts, i + 1).value.1;
    }
    next := SkipNewline(ts, p);
    d := Directive(ts[i], ts[i + 1..p], ts[p..next]);
    LineParts(ts, i, p, next);
    if ts[i].kind.HashIf? || ts[i].kind.HashElseIf? {
      ConditionRead(ts, i + 1, d.cond);
    }
  }

  lemma LineParts(ts: seq<Token>, i: nat, p: nat, next: nat)
    requires i < p <= next <= |ts| && next == SkipNewline(ts, p)
    ensures ts[i..next] == RenderDirective(Directive(ts[i], ts[i + 1..p], ts[p..next]))
    ensures next > p ==> |ts[p..next]| == 1 && ts[p..next][0].kind.Newline?
    ensures next == p ==> ts[p..next] == [] && (|ts[next..]| > 0 ==> !ts[next..][0].kind.Newline?)
  {
    assert ts[i..next] == [ts[i]] + ts[i + 1..p] + ts[p..next];
  }

  /** An accepted condition spells what it was read as, on its line. */
  lemma ConditionRead(ts: seq<Token>, pos: nat, cond: seq<Token>)
    requires ParseLine(ts, pos).Some? && pos <= ParseLine(ts, pos).value.1 <= |ts| && cond == ts[pos..ParseLine(ts, pos).value.1]
    ensures exists c :: Spells(Kinds(cond), c, OrLevel)
    ensures forall k :: 0 <= k < |cond| ==> !cond[k].kind.Newline?
    ensures var p := ParseLine(ts, pos).value.1; SkipNewline(ts, p) == p ==> ts[p..] == []
  {
    hide Spells;
    OrSound(ts, pos);
    var c := ParseLine(ts, pos).value.0;
    assert Spells(Kinds(cond), c, OrLevel);
    forall k | 0 <= k < |cond| ensures !cond[k].kind.Newline? {
      NoNewlines(Kinds(cond), c, OrLevel, k);
    }
  }

  /** The rest of an accepted source is the rest of a tree: nodes, and inside a
      conditional its remaining branches and its end. */
  lemma {:induction false} ToTree(ts: seq<Token>, i: nat, stack: seq<Frame>, flags: seq<Flag>)
      returns (nodes: seq<Node>, branches: seq<Branch>, end: Directive, j: nat)
    requires |stack| > 0 && i <= |ts| && Run(ts, i, stack, flags).Some?
    ensures i <= j <= |ts|
    ensures |stack| == 1 ==> j == |ts| && ts[i..j] == Render(nodes) && NodesOk(nodes, 0, [])
    ensures |stack| > 1 ==>
              var tail := RenderDirective(end) + ts[j..];
              && i < j && ts[i..j] == Render(nodes) + RenderBranches(branches) + RenderDirective(end)
              && NodesOk(nodes, |stack| - 1, RenderBranches(branches) + tail)
              && BranchesOk(branches, |stack| - 1, tail) && (branches != [] ==> !branches[0].head.t.kind.HashIf?)
              && end.t.kind.HashEnd? && DirectiveOk(end, ts[j..])
              && Run(ts, j, stack[..|stack| - 1], flags).Some?
    decreases |ts| - i, 2
  {
    hide DirectiveOk, ParseLine, Spells, Holds, Run, RenderDirective;
    if i < |ts| {
      var _ := Accepted(ts, i, stack, flags);
    } else {
      AtTheEnd(ts, i, stack, flags);
    }
    nodes, branches, end, j := [], [], Directive(Token(Newline, 0, 0), [], []), |ts|;
    if i == |ts| {
    } else if ts[i].kind.HashEnd? {
      end, j := ReadDirective(ts, i);
      assert Render(nodes) + RenderBranches(branches) + RenderDirective(end) == RenderDirective(end);
    } else if ts[i].kind.HashElseIf? || ts[i].kind.HashElse? {
      branches, end, j := ToBranches(ts, i, stack, flags);
    } else if ts[i].kind.HashIf? {
      nodes, branches, end, j := ToConditional(ts, i, stack, flags);
    } else {
      nodes, branches, end, j := ToPlain(ts, i, stack, flags);
    }
  }

  /** A token that is no directive is a node of its own. */
  lemma {:induction false} ToPlain(ts: seq<Token>, i: nat, stack: seq<Frame>, flags: seq<Flag>)
      returns (nodes: seq<Node>, branches: seq<Branch>, end: Directive, j: nat)
    requires |stack| > 0 && i < |ts| && !IsDirective(ts[i].kind) && Run(ts, i, stack, flags).Some?
    ensures i <= j <= |ts|
    ensures |stack| == 1 ==> j == |ts| && ts[i..j] == Render(nodes) && NodesOk(nodes, 0, [])
    ensures |stack| > 1 ==>
              var tail := RenderDirective(end) + ts[j..];
              && i < j && ts[i..j] == Render(nodes) + RenderBranches(branches) + RenderDirective(end)
              && NodesOk(nodes, |stack| - 1, RenderBranches(branches) + tail)
              && BranchesOk(branches, |stack| - 1, tail) && (branches != [] ==> !branches[0].head.t.kind.HashIf?)
              && end.t.kind.HashEnd? && DirectiveOk(end, ts[j..])
              && Run(ts, j, stack[..|stack| - 1], flags).Some?
    decreases |ts| - i, 1
  {
    hide DirectiveOk, ParseLine, Spells, Holds, Run, RenderDirective, RenderBranches, BranchesOk;
    var _ := Accepted(ts, i, stack, flags);
    nodes, branches, end, j := ToTree(ts, i + 1, stack, flags);
    var here := Plain(ts[i]);
    assert ts[i..j] == [ts[i]] + ts[i + 1..j];
    var tail := RenderBranches(branches) + RenderDirective(end);
    ConsRender(here, nodes, tail);
    nodes := [here] + nodes;
  }

  /** What an accepted directive went through. */
  lemma Accepted(ts: seq<Token>, i: nat, stack: seq<Frame>, flags: seq<Flag>) returns (after: seq<Frame>)
    requires |stack| > 0 && i < |ts| && Run(ts, i, stack, flags).Some?
    ensures IsDirective(ts[i].kind) ==> ts[i].col == 1 && (!ts[i].kind.HashIf? ==> |stack| > 1)
    ensures ts[i].kind.HashIf? || ts[i].kind.HashElseIf? ==> ParseLine(ts, i + 1).Some?
    ensures ts[i].kind.HashIf? ==>
              |stack| < MAX_COND_DEPTH && |after| == |stack| + 1 && after[..|after| - 1] == stack
              && Run(ts, SkipNewline(ts, ParseLine(ts, i + 1).value.1), after, flags).Some?
    ensures ts[i].kind.HashElseIf? || ts[i].kind.HashElse? ==>
              |after| == |stack| && after[..|after| - 1] == stack[..|stack| - 1]
              && Run(ts, SkipNewline(ts, if ts[i].kind.HashElse? then i + 1 else ParseLine(ts, i + 1).value.1), after, flags).Some?
    ensures ts[i].kind.HashEnd? ==> Run(ts, SkipNewline(ts, i + 1), stack[..|stack| - 1], flags).Some?
    ensures !IsDirective(ts[i].kind) ==> Run(ts, i + 1, stack, flags).Some?
  {
    var t, top := ts[i], stack[|stack| - 1];
    after := stack;
    if t.kind.HashIf? {
      var cond := Truth(ParseLine(ts, i + 1).value.0, flags);
      after := stack + [Frame(top.active && cond, cond)];
    } else if t.kind.HashElseIf? {
      var cond := Truth(ParseLine(ts, i + 1).value.0, flags);
      after := stack[|stack| - 1 := Frame(stack[|stack| - 2].active && !top.done && cond, top.done || cond)];
    } else if t.kind.HashElse? {
      after := stack[|stack| - 1 := Frame(stack[|stack| - 2].active && !top.done, true)];
    }
  }

  lemma {:induction false} ToBranches(ts: seq<Token>, i: nat, stack: seq<Frame>, flags: seq<Flag>)
      returns (branches: seq<Branch>, end: Directive, j: nat)
    requires |stack| > 0 && i < |ts| && Run(ts, i, stack, flags).Some?
    requires ts[i].kind.HashElseIf? || ts[i].kind.HashElse?
    ensures |stack| > 1 && i < j <= |ts| && ts[i..j] == RenderBranches(branches) + RenderDirective(end)
    ensures branches != [] && !branches[0].head.t.kind.HashIf?
    ensures BranchesOk(branches, |stack| - 1, RenderDirective(end) + ts[j..])
    ensures end.t.kind.HashEnd? && DirectiveOk(end, ts[j..]) && Run(ts, j, stack[..|stack| - 1], flags).Some?
    decreases |ts| - i, 0
  {
    hide DirectiveOk, ParseLine, Spells, Run, Render, NodesOk, RenderDirective;
    var after := Accepted(ts, i, stack, flags);
    var d, next := ReadDirective(ts, i);
    var body, more;
    body, more, end, j := ToTree(ts, next, after, flags);
    branches := [Branch(d, body)] + more;
    assert branches[1..] == more;
    var endText := RenderDirective(end);
    assert ts[i..j] == ts[i..next] + ts[next..j];
    assert ts[next..] == ts[next..j] + ts[j..];
    assert Render(body) + RenderBranches(more) + endText + ts[j..] == Render(body) + (RenderBranches(more) + (endText + ts[j..]));
    assert RenderBranches(branches) + endText == ts[i..next] + (Render(body) + RenderBranches(more) + endText);
  }

  lemma {:induction false} ToConditional(ts: seq<Token>, i: nat, stack: seq<Frame>, flags: seq<Flag>)
      returns (nodes: seq<Node>, branches: seq<Branch>, end: Directive, j: nat)
    requires |stack| > 0 && i < |ts| && Run(ts, i, stack, flags).Some? && ts[i].kind.HashIf?
    ensures i <= j <= |ts|
    ensures |stack| == 1 ==> j == |ts| && ts[i..j] == Render(nodes) && NodesOk(nodes, 0, [])
    ensures |stack| > 1 ==>
              var tail := RenderDirective(end) + ts[j..];
              && i < j && ts[i..j] == Render(nodes) + RenderBranches(branches) + RenderDirective(end)
              && NodesOk(nodes, |stack| - 1, RenderBranches(branches) + tail)
              && BranchesOk(branches, |stack| - 1, tail) && (branches != [] ==> !branches[0].head.t.kind.HashIf?)
              && end.t.kind.HashEnd? && DirectiveOk(end, ts[j..])
              && Run(ts, j, stack[..|stack| - 1], flags).Some?
    decreases |ts| - i, 1
  {
    hide DirectiveOk, ParseLine, Spells, Run, Render, RenderBranches, NodesOk, BranchesOk, NodeOk, RenderNode, RenderDirective;
    var n, k := ReadConditional(ts, i, stack, flags);
    var more;
    more, branches, end, j := ToTree(ts, k, stack, flags);
    nodes := [n] + more;
    assert ts[i..j] == ts[i..k] + ts[k..j] && ts[k..] == ts[k..j] + ts[j..];
    if |stack| == 1 {
      ConsRender(n, more, []);
      assert ts[k..] == Render(more) + [] && ts[j..] == [];
      ConsOk(n, more, 0, []);
    } else {
      var text := RenderBranches(branches) + RenderDirective(end);
      var tail := RenderBranches(branches) + (RenderDirective(end) + ts[j..]);
      ConsRender(n, more, text);
      assert Render(nodes) + RenderBranches(branches) + RenderDirective(end) == Render(nodes) + text;
      assert Render(more) + RenderBranches(branches) + RenderDirective(end) == Render(more) + text;
      assert ts[k..] == Render(more) + tail;
      ConsOk(n, more, |stack| - 1, tail);
    }
  }

  lemma ConsOk(n: Node, nodes: seq<Node>, depth: nat, next: seq<Token>)
    requires NodeOk(n, depth, Render(nodes) + next) && NodesOk(nodes, depth, next)
    ensures NodesOk([n] + nodes, depth, next)
  {
    hide NodeOk, Render;
    assert ([n] + nodes)[1..] == nodes;
  }

  /** A whole conditional. */
  lemma {:induction false} ReadConditional(ts: seq<Token>, i: nat, stack: seq<Frame>, flags: seq<Flag>)
      returns (n: Node, k: nat)
    requires |stack| > 0 && i < |ts| && Run(ts, i, stack, flags).Some? && ts[i].kind.HashIf?
    ensures i < k <= |ts| && ts[i..k] == RenderNode(n) && NodeOk(n, |stack| - 1, ts[k..])
    ensures Run(ts, k, stack, flags).Some?
    decreases |ts| - i, 0
  {
    hide DirectiveOk, ParseLine, Spells, Run, Render, NodesOk, RenderDirective;
    var after := Accepted(ts, i, stack, flags);
    var d, next := ReadDirective(ts, i);
    var body, more, end;
    body, more, end, k := ToTree(ts, next, after, flags);
    var branches := [Branch(d, body)] + more;
    n := Conditional(branches, end);
    assert branches[1..] == more;
    var endText := RenderDirective(end);
    assert ts[i..k] == ts[i..next] + ts[next..k];
    assert ts[next..] == ts[next..k] + ts[k..];
    assert Render(body) + RenderBranches(more) + endText + ts[k..] == Render(body) + (RenderBranches(more) + (endText + ts[k..]));
    assert RenderBranches(branches) + endText == ts[i..next] + (Render(body) + RenderBranches(more) + endText);
    assert BranchesOk(branches, |stack|, endText + ts[k..]);
  }

  lemma ConsRender(n: Node, nodes: seq<Node>, tail: seq<Token>)
    ensures Render([n] + nodes) == RenderNode(n) + Render(nodes)
    ensures Render([n] + nodes) + tail == RenderNode(n) + (Render(nodes) + tail)
  {
    assert ([n] + nodes)[1..] == nodes;
  }

  lemma AtTheEnd(ts: seq<Token>, i: nat, stack: seq<Frame>, flags: seq<Flag>)
    requires |stack| > 0 && i >= |ts| && Run(ts, i, stack, flags).Some?
    ensures |stack| == 1
  {
  }

  /** The filter accepts exactly the sources that are trees within the limits,
      whatever the flags. */
  lemma AcceptedIsTree(ts: seq<Token>, flags: seq<Flag>)
    ensures Run(ts, 0, [Frame(true, true)], flags).Some? <==> exists nodes :: ts == Render(nodes) && NodesOk(nodes, 0, [])
  {
    if Run(ts, 0, [Frame(true, true)], flags).Some? {
      var nodes, _, _, j := ToTree(ts, 0, [Frame(true, true)], flags);
      assert ts[0..j] == ts;
    }
    if nodes :| ts == Render(nodes) && NodesOk(nodes, 0, []) {
      FilterIsTree(nodes, flags);
    }
  }
}
