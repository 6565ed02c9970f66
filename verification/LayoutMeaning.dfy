/** What accepted output says of each line of the program, in terms of the tokens
    themselves: where an INDENT, a NEWLINE or nothing stands. */
module LayoutMeaning {
  import opened LayoutPass

  /** A token of the program. */
  predicate Ours(k: Kind) {
    k.With? || k.BlockFormer? || k.Eq? || k.DeclKeyword? || k.Pipe? || k.Open? || k.Close? || k.Other?
  }

  // ----- brackets -----

  /** Opening brackets less closing ones. */
  function Balance(ts: seq<Token>): int {
    if ts == [] then 0
    else Balance(ts[..|ts| - 1]) + (if ts[|ts| - 1].kind.Open? then 1 else if ts[|ts| - 1].kind.Close? then -1 else 0)
  }

  /** A token is outside brackets exactly when no stretch before it opens more brackets
      than it closes; closing brackets too many do not count. */
  lemma {:induction false} OutsideBrackets(ts: seq<Token>)
    ensures Brackets(ts) == 0 <==> forall i :: 0 <= i <= |ts| ==> Balance(ts[i..]) <= 0
  {
    MostOpen(ts);
    if Brackets(ts) > 0 {
      var i :| 0 <= i <= |ts| && Balance(ts[i..]) == Brackets(ts);
    }
  }

  lemma {:induction false} MostOpen(ts: seq<Token>)
    ensures forall i :: 0 <= i <= |ts| ==> Balance(ts[i..]) <= Brackets(ts)
    ensures exists i :: 0 <= i <= |ts| && Balance(ts[i..]) == Brackets(ts)
    decreases |ts|
  {
    if ts == [] {
      assert ts[0..] == [];
    } else {
      var n := |ts| - 1;
      MostOpen(ts[..n]);
      forall i | 0 <= i <= |ts| ensures Balance(ts[i..]) <= Brackets(ts) {
        BalanceLast(ts, i);
      }
      var i :| 0 <= i <= n && Balance(ts[..n][i..]) == Brackets(ts[..n]);
      BalanceLast(ts, i);
      BalanceLast(ts, |ts|);
    }
  }

  lemma BalanceLast(ts: seq<Token>, i: nat)
    requires ts != [] && i <= |ts|
    ensures i == |ts| ==> Balance(ts[i..]) == 0
    ensures i < |ts| ==> Balance(ts[i..]) == Balance(ts[..|ts| - 1][i..])
                         + (if ts[|ts| - 1].kind.Open? then 1 else if ts[|ts| - 1].kind.Close? then -1 else 0)
  {
    if i < |ts| {
      assert ts[i..][..|ts| - 1 - i] == ts[..|ts| - 1][i..];
    }
  }

  // ----- the program's tokens -----

  /** Accepted output is the program's tokens and nothing but layout between. */
  lemma {:induction false} EraseParts(a: seq<Token>, b: seq<Token>)
    ensures Erase(a + b) == Erase(a) + Erase(b)
    decreases |b|
  {
    if b == [] {
      assert a + b == a;
    } else {
      var n := |b| - 1;
      EraseParts(a, b[..n]);
      assert (a + b)[..|a| + n] == a + b[..n];
    }
  }

  lemma EraseOne(t: Token)
    ensures Erase([t]) == if Ours(t.kind) then [t] else []
  {
    assert [t][..0] == [];
  }

  // ----- the line that ends at a token -----

  /** A declaration keyword stands on the line up to here. */
  predicate Declares(out: seq<Token>) {
    exists d :: 0 <= d < |out| && out[d].kind.DeclKeyword? && SameLineFrom(out, d)
  }

  /** No token after `d` starts a line outside brackets. */
  predicate SameLineFrom(out: seq<Token>, d: nat) {
    forall i :: d < i < |out| && Ours(out[i].kind) ==> !(out[i].first && Brackets(out[..i]) == 0)
  }

  lemma FromSnoc(before: seq<Token>, last: Token, d: nat)
    requires d < |before|
    ensures SameLineFrom(before + [last], d) <==>
            SameLineFrom(before, d) && !(Ours(last.kind) && last.first && Brackets(before) == 0)
  {
    var out := before + [last];
    hide Brackets, Ours;
    assert out[..|before|] == before;
    assert forall i :: d < i < |before| ==> out[i] == before[i] && out[..i] == before[..i];
  }

  lemma DeclaresSnoc(before: seq<Token>, last: Token)
    ensures Declares(before + [last]) <==>
            last.kind.DeclKeyword? || (Declares(before) && !(Ours(last.kind) && last.first && Brackets(before) == 0))
  {
    hide SameLineFrom, Brackets;
    var out, n := before + [last], |before|;
    if Declares(before) {
      var d :| 0 <= d < n && before[d].kind.DeclKeyword? && SameLineFrom(before, d);
      FromSnoc(before, last, d);
      assert out[d] == before[d];
    }
    LastAlone(out);
    if last.kind.DeclKeyword? {
      assert out[n].kind.DeclKeyword? && SameLineFrom(out, n);
    } else if Declares(out) {
      var d :| 0 <= d < |out| && out[d].kind.DeclKeyword? && SameLineFrom(out, d);
      FromSnoc(before, last, d);
      assert out[d] == before[d];
    }
  }

  lemma LastAlone(out: seq<Token>)
    requires out != []
    ensures SameLineFrom(out, |out| - 1)
  {
  }

  lemma {:induction false} DeclaresIs(out: seq<Token>)
    ensures DeclSeen(out) <==> Declares(out)
    decreases |out|
  {
    hide Declares, Brackets;
    if out == [] {
      NothingDeclares();
    } else {
      var n := |out| - 1;
      DeclaresIs(out[..n]);
      DeclaresSnoc(out[..n], out[n]);
      assert out == out[..n] + [out[n]];
    }
  }

  lemma NothingDeclares()
    ensures !Declares([])
  {
  }

  /** The line that ends at `p` asks for a block. */
  predicate AsksForBlock(out: seq<Token>, p: nat)
    requires p < |out|
  {
    out[p].kind.With? || out[p].kind.BlockFormer? || (out[p].kind.Eq? && Declares(out[..p + 1]))
  }

  // ----- from one line to the next -----

  /** `k` starts a line outside brackets, and `p` is the last token of the line before. */
  predicate LineBreak(out: seq<Token>, p: nat, k: nat) {
    && p < k < |out| && Ours(out[p].kind) && Ours(out[k].kind) && (forall i :: p < i < k ==> !Ours(out[i].kind))
    && out[k].first && Brackets(out[..k]) == 0
  }

  lemma {:induction false} OnlyLayout(out: seq<Token>, p: nat, k: nat)
    requires p < k <= |out| && Ours(out[p].kind) && forall i :: p < i < k ==> !Ours(out[i].kind)
    ensures LastKind(out[..k]) == out[p].kind && Bare(out[..k]) == out[..p + 1] && DeclSeen(out[..k]) == DeclSeen(out[..p + 1])
    ensures Opening(out[..k]) <==> AsksForBlock(out, p)
    decreases k
  {
    assert out[..p + 1][..p] == out[..p];
    if k == p + 1 {
      DeclaresIs(out[..p + 1]);
    } else {
      OnlyLayout(out, p, k - 1);
      assert out[..k][..k - 1] == out[..k - 1];
    }
  }

  /** Open blocks stand at columns that never decrease inwards. */
  lemma {:induction false} BlocksRise(out: seq<Token>, n: nat)
    requires WellLaidOut(out) && n <= |out|
    ensures Blocks(out[..n]) != []
    ensures var s := Blocks(out[..n]); forall i, j :: 0 <= i <= j < |s| ==> s[i] <= s[j]
    decreases n
  {
    BlocksOfAll(out, n);
    if n > 0 {
      BlocksRise(out, n - 1);
      assert out[..n][..n - 1] == out[..n - 1];
      if out[n - 1].kind.Indent? {
        IndentAt(out, n - 1);
      }
    }
  }

  lemma BlocksOfAll(out: seq<Token>, n: nat)
    requires WellLaidOut(out) && n <= |out|
    ensures Blocks(out[..n]) != []
  {
    BlocksOfPrefix(out, n);
  }

  /** An INDENT stands between two lines, and nowhere else. */
  lemma IndentAt(out: seq<Token>, j: nat)
    requires WellLaidOut(out) && j < |out| && out[j].kind.Indent?
    ensures 0 < j && j + 1 < |out| && LineBreak(out, j - 1, j + 1)
    ensures out[j].col == out[j + 1].col
    ensures var s := Blocks(out[..j]); s != [] && out[j].col >= s[|s| - 1]
  {
    hide DeclSeen, Opening, Bare;
    assert LineStarts(out, j) && PlacedAt(out, j + 1);
    var t := out[..j + 1];
    assert t[..j] == out[..j] && t[j] == out[j];
    assert Placed(t, out[j + 1]) && EndsInLayout(t) && LastKind(t) == LastKind(out[..j]);
    BlocksOfAll(out, j);
    assert out[j + 1].first && Brackets(t) == 0 && !LastKind(t).Eof? && !EndsInLayout(out[..j]);
    assert j > 0 && Ours(out[j - 1].kind);
  }

  /** How the dedents of a line end leave the blocks. */
  lemma {:induction false} OnlyCloses(out: seq<Token>, p: nat, k: nat)
    requires WellLaidOut(out) && p < k <= |out| && (forall i :: p < i < k ==> !Ours(out[i].kind) && !out[i].kind.Indent?)
    ensures Blocks(out[..k]) != [] && Blocks(out[..k]) <= Blocks(out[..p + 1])
    decreases k
  {
    BlocksOfAll(out, k);
    if k > p + 1 {
      OnlyCloses(out, p, k - 1);
      assert out[..k][..k - 1] == out[..k - 1];
    }
  }

  /** What stands before a token that starts a line: an INDENT exactly when the line
      before asks for a block and the token is deeper, or for the first arm at the level
      of its match; nothing exactly when it continues a line that asks for no block from
      deeper; otherwise a NEWLINE, at the column of a block that is open. */
  lemma LineStart(out: seq<Token>, p: nat, k: nat)
    requires WellLaidOut(out) && LineBreak(out, p, k)
    ensures Blocks(out[..p + 1]) != []
    ensures var s, c := Blocks(out[..p + 1]), out[k].col;
            var top := s[|s| - 1];
            && (out[k - 1].kind.Indent? <==> (AsksForBlock(out, p) && c > top) || (out[p].kind.With? && out[k].kind.Pipe? && c == top))
            && (k - 1 == p <==> c > top && !AsksForBlock(out, p))
            && (out[k - 1].kind.Indent? || k - 1 == p || (out[k - 1].kind.Newline? && c in s))
  {
    hide Placed, Opening, DeclSeen, AsksForBlock, Brackets, Bare, LastKind, Blocks, WellLaidOut;
    BlocksOfAll(out, p + 1);
    if k - 1 == p {
      Continues(out, p, k);
    } else if out[k - 1].kind.Indent? {
      Opens(out, p, k);
    } else {
      Separated(out, p, k);
      NoIndentBetween(out, p, k);
      OnlyCloses(out, p, k);
      BlocksRise(out, p + 1);
    }
  }

  /** The three ways a line can start. */
  lemma Continues(out: seq<Token>, p: nat, k: nat)
    requires WellLaidOut(out) && LineBreak(out, p, k) && k - 1 == p
    ensures var s := Blocks(out[..p + 1]); s != [] && out[k].col > s[|s| - 1] && !AsksForBlock(out, p)
  {
    hide DeclSeen, AsksForBlock, Brackets, Bare, LastKind, Opening;
    assert PlacedAt(out, k);
    OnlyLayout(out, p, k);
  }

  lemma Opens(out: seq<Token>, p: nat, k: nat)
    requires WellLaidOut(out) && LineBreak(out, p, k) && out[k - 1].kind.Indent? && k - 1 > p
    ensures k - 2 == p
    ensures var s := Blocks(out[..p + 1]);
            s != [] && ((AsksForBlock(out, p) && out[k].col > s[|s| - 1])
                        || (out[p].kind.With? && out[k].kind.Pipe? && out[k].col == s[|s| - 1]))
  {
    hide DeclSeen, AsksForBlock, Brackets, Bare, LastKind, Opening;
    IndentAt(out, k - 1);
    assert PlacedAt(out, k);
    OnlyLayout(out, p, k);
    assert out[..k][..k - 1] == out[..k - 1];
  }

  lemma Separated(out: seq<Token>, p: nat, k: nat)
    requires WellLaidOut(out) && LineBreak(out, p, k) && !out[k - 1].kind.Indent? && k - 1 > p
    ensures out[k - 1].kind.Newline?
    ensures var s, top := Blocks(out[..k]), Blocks(out[..p + 1]);
            && s != [] && out[k].col == s[|s| - 1]
            && !(out[p].kind.With? && out[k].kind.Pipe? && top != [] && out[k].col == top[|top| - 1])
  {
    hide DeclSeen, AsksForBlock, Brackets, Bare, LastKind, Opening;
    assert PlacedAt(out, k);
    OnlyLayout(out, p, k);
  }

  lemma NoIndentBetween(out: seq<Token>, p: nat, k: nat)
    requires WellLaidOut(out) && LineBreak(out, p, k) && !out[k - 1].kind.Indent?
    ensures forall i :: p < i < k ==> !out[i].kind.Indent?
  {
    forall i | p < i < k - 1 ensures !out[i].kind.Indent? {
      if out[i].kind.Indent? {
        IndentAt(out, i);
      }
    }
  }

  // ----- which block is open where -----

  /** The block of level `l` around position `n` was opened at `j` and is not closed. */
  predicate OpenedAt(out: seq<Token>, n: nat, l: nat, j: nat) {
    j < n <= |out| && out[j].kind.Indent? && Depth(out[..j + 1]) == l && forall i :: j < i <= n ==> Depth(out[..i]) >= l
  }

  /** The columns of the open blocks are those of the INDENTs that no DEDENT has paired
      off, the file itself standing at column 1. */
  lemma {:induction false} OpenBlocks(out: seq<Token>, n: nat, l: nat)
    requires n <= |out| && Blocks(out[..n]) != [] && l < |Blocks(out[..n])|
    ensures l == 0 ==> Blocks(out[..n])[0] == 1
    ensures l > 0 ==> exists j: nat :: OpenedAt(out, n, l, j) && Blocks(out[..n])[l] == out[j].col
    decreases n
  {
    hide Depth;
    BlocksAreDepth(out[..n]);
    if n > 0 {
      var before := out[..n - 1];
      assert out[..n][..n - 1] == before;
      BlocksAreDepth(before);
      if l < |Blocks(before)| {
        OpenBlocks(out, n - 1, l);
        if l > 0 {
          var j: nat :| OpenedAt(out, n - 1, l, j) && Blocks(before)[l] == out[j].col;
          assert OpenedAt(out, n, l, j);
        }
      } else {
        assert OpenedAt(out, n, l, n - 1);
      }
    }
  }

  /** What the pass takes: any program tokens and line ends, an EOF behind them, and the
      first token of each line but the first marked. */
  lemma AnyTokens(ts: seq<Token>, eof: Token)
    ensures Scanned(ts + [eof]) <==>
            && eof.kind == Eof && (forall t :: t in ts ==> t.kind !in {Eof, Indent, Dedent})
            && forall i :: 0 <= i <= |ts| ==> ((ts + [eof])[i].first <==> i > 0 && ts[i - 1].kind == Newline)
  {
    var raw := ts + [eof];
    assert forall i :: 0 <= i < |ts| ==> raw[i] == ts[i];
    if forall t :: t in ts ==> t.kind !in {Eof, Indent, Dedent} {
      assert forall i :: 0 <= i < |ts| ==> ts[i] in ts;
    }
  }

  /** Why a file is refused: all before some line, which no bracket holds open, is laid
      out, and the line's first token stands left of the innermost block, in no column of
      an open one; or the line before asks for a block, the token is there, and 128 blocks
      are open already. */
  lemma RefusedWhy(raw: seq<Token>, k: nat, out: seq<Token>, r: Result, p: nat)
    requires Scanned(raw) && Refused(raw, k, out, r)
    requires p < |out| && Ours(out[p].kind) && forall i :: p < i < |out| ==> !Ours(out[i].kind)
    ensures 0 < k < |raw| && raw[k - 1].kind == Newline && raw[k].kind != Eof
    ensures Erase(out) == Erase(raw[..k]) && forall i :: 0 <= i <= |out| ==> Balance(out[i..]) <= 0
    ensures !r.Ok? && Blocks(out) != []
    ensures r.TooDeep? ==> |Blocks(out)| == 128 && AsksForBlock(out, p) && raw[k].col >= Blocks(out)[127]
    ensures r.Inconsistent? ==>
              r.line == raw[k].line && r.col == raw[k].col && raw[k].col < Blocks(out)[|Blocks(out)| - 1] && raw[k].col !in Blocks(out)
  {
    OutsideBrackets(out);
    OnlyLayout(out, p, |out|);
    assert out[..|out|] == out;
  }
}
