/** The layout pass: indentation becomes INDENT, DEDENT and NEWLINE tokens. */
module LayoutPass {

  datatype Kind =
    | Newline | Indent | Dedent | Eof
    | With | BlockFormer      // always open a block at the end of a line
    | Eq | DeclKeyword        // `=` does so on a line with let, struct, union, enum, error, module
    | Pipe | Open | Close | Other(n: nat)

  /** `first`: the token starts a line of the file. */
  datatype Token = Token(kind: Kind, text: nat, line: nat, col: nat, first: bool)

  const MAX_INDENT: nat := 128

  predicate IsLayout(k: Kind) {
    k.Newline? || k.Indent? || k.Dedent? || k.Eof?
  }

  predicate OpensBlock(k: Kind) {
    k.With? || k.BlockFormer?
  }

  /** What the scanner delivers: no layout but newlines, and one EOF at the end. */
  predicate Scanned(raw: seq<Token>) {
    && |raw| > 0 && raw[|raw| - 1].kind.Eof?
    && (forall i :: 0 <= i < |raw| - 1 ==> !raw[i].kind.Eof? && !raw[i].kind.Indent? && !raw[i].kind.Dedent?)
    && !raw[0].first && (forall i :: 0 < i < |raw| ==> (raw[i].first <==> raw[i - 1].kind.Newline?))
  }

  // ----- what the output promises -----

  /** The program's own tokens. */
  function Erase(ts: seq<Token>): seq<Token> {
    if ts == [] then []
    else
      var last := ts[|ts| - 1];
      Erase(ts[..|ts| - 1]) + if IsLayout(last.kind) then [] else [last]
  }

  /** Columns of the open blocks, read off the output; empty once a DEDENT closes
      more than was opened. */
  function Blocks(out: seq<Token>): seq<nat> {
    if out == [] then [1]
    else
      var s := Blocks(out[..|out| - 1]);
      var last := out[|out| - 1];
      if s == [] then []
      else if last.kind.Indent? then s + [last.col]
      else if last.kind.Dedent? then (if |s| > 1 then s[..|s| - 1] else [])
      else s
  }

  // The state of a line, read off the tokens so far; layout tokens do not count.

  function Brackets(out: seq<Token>): nat {
    if out == [] then 0
    else
      var n, last := Brackets(out[..|out| - 1]), out[|out| - 1];
      if last.kind.Open? then n + 1 else if last.kind.Close? && n > 0 then n - 1 else n
  }

  /** The last token of the program; Eof when there is none. */
  function LastKind(out: seq<Token>): Kind {
    if out == [] then Eof
    else if IsLayout(out[|out| - 1].kind) then LastKind(out[..|out| - 1])
    else out[|out| - 1].kind
  }

  /** The output up to its last token of the program. */
  function Bare(out: seq<Token>): (r: seq<Token>)
    ensures r <= out && !EndsInLayout(r)
  {
    if EndsInLayout(out) then Bare(out[..|out| - 1]) else out
  }

  /** Has a declaration keyword been seen on this line? */
  function DeclSeen(out: seq<Token>): bool {
    if out == [] then false
    else
      var before, last := out[..|out| - 1], out[|out| - 1];
      if IsLayout(last.kind) then DeclSeen(before)
      else last.kind.DeclKeyword? || (!(last.first && Brackets(before) == 0) && DeclSeen(before))
  }

  /** Does a line that ends here open a block? */
  predicate Opening(out: seq<Token>) {
    OpensBlock(LastKind(out)) || (LastKind(out).Eq? && DeclSeen(out))
  }

  predicate EndsInLayout(out: seq<Token>) {
    |out| > 0 && IsLayout(out[|out| - 1].kind)
  }

  /** The offside rule: what must stand before a token of the program. Inside
      brackets and inside a line, nothing. At the start of a line: a NEWLINE puts it
      at the column of its block; an INDENT opens one for it, when the line before
      asked for that, deeper or for an arm list; and with neither, it continues the
      line before, which asked for no block, from further right. */
  predicate Placed(out: seq<Token>, t: Token) {
    var s := Blocks(out);
    s != [] &&
    if !t.first || Brackets(out) > 0 || LastKind(out).Eof? then !EndsInLayout(out)
    else if !EndsInLayout(out) then t.col > s[|s| - 1] && !Opening(out)
    else
      var last, before := out[|out| - 1].kind, out[..|out| - 1];
      || (last.Newline? && t.col == s[|s| - 1] && !(LastKind(out).With? && t.kind.Pipe? && AtTop(Bare(out), t.col)))
      || (last.Indent? && !EndsInLayout(before) && t.col == s[|s| - 1] && |s| > 1
          && ((Opening(out) && t.col > s[|s| - 2])
              || (LastKind(out).With? && t.kind.Pipe? && t.col == s[|s| - 2])))
  }

  /** The column of the innermost open block. */
  predicate AtTop(out: seq<Token>, col: nat) {
    var s := Blocks(out);
    s != [] && col == s[|s| - 1]
  }

  predicate PlacedAt(out: seq<Token>, k: nat)
    requires k < |out|
  {
    IsLayout(out[k].kind) || Placed(out[..k], out[k])
  }

  /** A layout token that starts a line has that line behind it. */
  predicate LineStarts(out: seq<Token>, k: nat)
    requires k < |out|
  {
    (out[k].kind.Newline? || out[k].kind.Indent?) ==> k + 1 < |out| && !IsLayout(out[k + 1].kind)
  }

  /** Blocks nest and all are closed, no block is empty and no line is blank, and
      every token stands where the offside rule puts it. */
  predicate WellLaidOut(out: seq<Token>) {
    && |out| > 0 && out[|out| - 1].kind.Eof? && Blocks(out) == [1]
    && forall k :: 0 <= k < |out| ==> LineStarts(out, k) && PlacedAt(out, k)
  }

  /** Why a file is refused at its token `k`, which starts a line: everything before it
      is laid out as `out`, and either the token stands left of the innermost block and
      in no column of an open one, or it would open one block too many. */
  ghost predicate Refused(raw: seq<Token>, k: nat, out: seq<Token>, r: Result) {
    && k < |raw| && raw[k].first && !raw[k].kind.Eof?
    && Erase(out) == Erase(raw[..k]) && Brackets(out) == 0
    && (forall i :: 0 <= i < |out| ==> PlacedAt(out, i))
    && var s := Blocks(out);
       s != [] && match r
         case Ok(_) => false
         case Inconsistent(line, col) => (line, col) == (raw[k].line, raw[k].col) && col < s[|s| - 1] && col !in s
         case TooDeep => |s| == MAX_INDENT && Opening(out) && raw[k].col >= s[|s| - 1]
  }

  /** Each block is deeper than the one around it, except an arm list at the level
      of its match. */
  predicate Columns(cols: seq<nat>, isMatch: seq<bool>) {
    && |cols| == |isMatch| && 1 <= |cols| <= MAX_INDENT
    && cols[0] == 1 && !isMatch[0]
    && forall k :: 0 < k < |cols| ==> if isMatch[k] then cols[k] == cols[k - 1] else cols[k] > cols[k - 1]
  }

  datatype Result = Ok(out: seq<Token>) | TooDeep | Inconsistent(line: nat, col: nat)

  // ----- appending one token -----

  lemma EraseSnoc(ts: seq<Token>, t: Token)
    ensures Erase(ts + [t]) == Erase(ts) + if IsLayout(t.kind) then [] else [t]
  {
    assert (ts + [t])[..|ts|] == ts;
  }

  lemma BlocksSnoc(out: seq<Token>, t: Token)
    ensures Blocks(out + [t]) ==
            var s := Blocks(out);
            if s == [] then []
            else if t.kind.Indent? then s + [t.col]
            else if t.kind.Dedent? then (if |s| > 1 then s[..|s| - 1] else [])
            else s
  {
    assert (out + [t])[..|out|] == out;
  }

  /** A line start is still owed: the next token must be there to fill it. */
  predicate Owes(out: seq<Token>) {
    |out| > 0 && (out[|out| - 1].kind.Newline? || out[|out| - 1].kind.Indent?)
  }

  /** All that WellLaidOut asks, but for a line start that is still owed. */
  predicate Started(out: seq<Token>) {
    && (forall k :: 0 <= k < |out| && (k < |out| - 1 || !Owes(out)) ==> LineStarts(out, k))
    && (forall k :: 0 <= k < |out| ==> PlacedAt(out, k))
  }

  lemma StartedSnoc(out: seq<Token>, t: Token)
    requires Started(out)
    requires if IsLayout(t.kind) then !Owes(out) else Placed(out, t)
    ensures Started(out + [t])
  {
    hide Placed;
    var next := out + [t];
    forall k | 0 <= k < |next| ensures PlacedAt(next, k) {
      if k < |out| {
        assert next[..k] == out[..k];
        assert PlacedAt(out, k);
      } else {
        assert next[..k] == out;
      }
    }
    forall k | 0 <= k < |next| && (k < |next| - 1 || !Owes(next)) ensures LineStarts(next, k) {
      if k < |out| - 1 || (k < |out| && !Owes(out)) {
        assert LineStarts(out, k);
      }
    }
  }

  lemma LineSnoc(out: seq<Token>, t: Token)
    ensures var next := out + [t];
            if IsLayout(t.kind) then
              && Brackets(next) == Brackets(out) && LastKind(next) == LastKind(out) && DeclSeen(next) == DeclSeen(out)
              && Bare(next) == Bare(out)
            else
              && Brackets(next) == (if t.kind.Open? then Brackets(out) + 1
                                    else if t.kind.Close? && Brackets(out) > 0 then Brackets(out) - 1
                                    else Brackets(out))
              && LastKind(next) == t.kind
              && DeclSeen(next) == (t.kind.DeclKeyword? || (!(t.first && Brackets(out) == 0) && DeclSeen(out)))
  {
    assert (out + [t])[..|out|] == out;
  }

  /** `t` starts a line of the file outside brackets, and not the first. */
  predicate Starts(out: seq<Token>, t: Token) {
    t.first && Brackets(out) == 0 && !LastKind(out).Eof?
  }

  /** An arm at the level of the match on the line before. */
  predicate ArmsAt(out: seq<Token>, t: Token) {
    LastKind(out).With? && t.kind.Pipe? && AtTop(Bare(out), t.col)
  }

  lemma ContinuationPlaced(out: seq<Token>, t: Token)
    requires Blocks(out) != [] && !EndsInLayout(out) && t.col > Blocks(out)[|Blocks(out)| - 1] && !Opening(out)
    ensures Placed(out, t)
  {
  }

  lemma IndentPlaced(out: seq<Token>, indent: Token, t: Token, sameLevel: bool)
    requires Blocks(out) != [] && !EndsInLayout(out) && Starts(out, t) && indent.kind.Indent? && indent.col == t.col
    requires var top := Blocks(out)[|Blocks(out)| - 1]; if sameLevel then t.col == top else t.col > top
    requires if sameLevel then LastKind(out).With? && t.kind.Pipe? else Opening(out)
    ensures Placed(out + [indent], t)
  {
    BlocksSnoc(out, indent);
    LineSnoc(out, indent);
    assert (out + [indent])[..|out|] == out;
  }

  /** Nothing stands before the first token. */
  lemma NothingBefore(t: Token)
    ensures Placed([], t) && LastKind([]).Eof?
  {
  }

  /** The same line, with more layout behind it. */
  predicate SameLine(a: seq<Token>, b: seq<Token>) {
    Brackets(a) == Brackets(b) && LastKind(a) == LastKind(b) && DeclSeen(a) == DeclSeen(b) && Bare(a) == Bare(b)
  }

  lemma {:induction false} Deeper(cols: seq<nat>, isMatch: seq<bool>, i: nat, j: nat)
    requires Columns(cols, isMatch) && i <= j < |cols|
    ensures cols[i] <= cols[j]
    decreases j
  {
    if i < j {
      Deeper(cols, isMatch, i, j - 1);
    }
  }

  class Layout {
    var out: seq<Token>
    var cols: seq<nat>
    var isMatch: seq<bool>
    var sawDecl: bool
    var lastKind: Kind
    var brackets: nat

    ghost predicate Valid()
      reads this
    {
      Columns(cols, isMatch) && Blocks(out) == cols && Started(out)
    }

    constructor ()
      ensures Valid() && Tracks(false) && out == [] && brackets == 0 && cols == [1]
    {
      out, cols, isMatch := [], [1], [false];
      sawDecl, lastKind, brackets := false, Eof, 0;
    }

    function Top(): nat
      requires |cols| > 0
      reads this
    {
      cols[|cols| - 1]
    }

    method Append(t: Token)
      requires Valid() && !t.kind.Indent? && !t.kind.Dedent?
      requires if IsLayout(t.kind) then !Owes(out) else Placed(out, t)
      modifies this`out
      ensures Valid() && out == old(out) + [t]
    {
      StartedSnoc(out, t);
      BlocksSnoc(out, t);
      out := out + [t];
    }

    /** Closes the innermost block. */
    method CloseBlock(line: nat, col: nat)
      requires Valid() && |cols| > 1 && !Owes(out)
      modifies this`out, this`cols, this`isMatch
      ensures Valid() && cols == old(cols)[..|old(cols)| - 1] && !Owes(out)
      ensures |out| == |old(out)| + 1 && out[|out| - 1].kind.Dedent? && Erase(out) == Erase(old(out))
      ensures SameLine(old(out), out)
    {
      var t := Token(Dedent, 0, line, col, false);
      LineSnoc(out, t);
      StartedSnoc(out, t);
      BlocksSnoc(out, t);
      EraseSnoc(out, t);
      out := out + [t];
      cols := cols[..|cols| - 1];
      isMatch := isMatch[..|isMatch| - 1];
    }

    /** Opens a block at the column of `next`; false when there are too many. */
    method OpenBlock(next: Token, sameLevel: bool) returns (ok: bool)
      requires Valid() && !Owes(out) && !IsLayout(next.kind)
      requires if sameLevel then next.col == Top() else next.col > Top()
      modifies this`out, this`cols, this`isMatch
      ensures ok == (|old(cols)| < MAX_INDENT)
      ensures ok ==> Valid() && cols == old(cols) + [next.col] && Owes(out) && Erase(out) == Erase(old(out))
      ensures ok ==> SameLine(old(out), out) && |out| > 0 && out[|out| - 1].kind.Indent?
      ensures ok && Starts(old(out), next) && !EndsInLayout(old(out)) && (if sameLevel then LastKind(old(out)).With? && next.kind.Pipe? else Opening(old(out))) ==>
                Placed(out, next)
      ensures !ok ==> out == old(out)
    {
      hide Placed, Started, Erase, LineStarts, Brackets, LastKind, DeclSeen, Bare;
      if |cols| >= MAX_INDENT { return false; }
      var t := Token(Indent, 0, next.line, next.col, false);
      LineSnoc(out, t);
      StartedSnoc(out, t);
      BlocksSnoc(out, t);
      EraseSnoc(out, t);
      if Starts(out, next) && !EndsInLayout(out) && (if sameLevel then LastKind(out).With? && next.kind.Pipe? else Opening(out)) {
        IndentPlaced(out, t, next, sameLevel);
      }
      out := out + [t];
      cols := cols + [next.col];
      isMatch := isMatch + [sameLevel];
      return true;
    }

    /** Arm lists at the level of their match end at the first line that is not an
        arm. */
    method CloseMatchBlocks(t: Token, next: Token)
      requires Valid() && !Owes(out)
      modifies this`out, this`cols, this`isMatch
      ensures Valid() && !Owes(out) && Erase(out) == Erase(old(out)) && |out| >= |old(out)| && cols <= old(cols)
      ensures |cols| == |old(cols)| ==> out == old(out)
      ensures |out| == |old(out)| ==> out == old(out)
      ensures |out| > |old(out)| ==> out[|out| - 1].kind.Dedent? && next.col <= Top()
      ensures SameLine(old(out), out)
      ensures !(isMatch[|cols| - 1] && next.col <= Top()) || (next.col == Top() && next.kind.Pipe?)
      ensures |out| > |old(out)| ==> !(next.col == Top() && next.kind.Pipe?)
      ensures Top() == old(Top()) && (next.col in old(cols) <==> next.col in cols)
    {
      hide Blocks, Started, Erase, LineStarts, Brackets, LastKind, DeclSeen, Bare;
      while |cols| > 1 && isMatch[|cols| - 1] && next.col <= Top()
        invariant Valid() && !Owes(out) && Erase(out) == Erase(old(out)) && |out| >= |old(out)| && cols <= old(cols)
        invariant |cols| == |old(cols)| ==> out == old(out)
        invariant |out| == |old(out)| ==> out == old(out)
        invariant |out| > |old(out)| ==> out[|out| - 1].kind.Dedent? && next.col <= Top()
        invariant SameLine(old(out), out)
        invariant Top() == old(Top()) && (next.col in old(cols) <==> next.col in cols)
        invariant |out| > |old(out)| ==> !(next.col == Top() && next.kind.Pipe?)
        decreases |cols|
      {
        if next.col == Top() && next.kind.Pipe? { break; }
        ghost var was := cols;
        CloseBlock(t.line, t.col);
        assert was == cols + [was[|was| - 1]] && was[|was| - 1] == Top();
      }
    }

    /** All blocks deeper than `next` end. */
    method CloseDeeper(t: Token, next: Token)
      requires Valid() && !Owes(out)
      modifies this`out, this`cols, this`isMatch
      ensures Valid() && !Owes(out) && Erase(out) == Erase(old(out)) && cols <= old(cols)
      ensures |cols| == 1 || next.col >= Top()
      ensures next.col in old(cols) <==> next.col in cols
      ensures SameLine(old(out), out) && (next.col < old(Top()) && |old(cols)| > 1 ==> EndsInLayout(out))
    {
      while |cols| > 1 && next.col < Top()
        invariant Valid() && !Owes(out) && Erase(out) == Erase(old(out)) && cols <= old(cols)
        invariant next.col in old(cols) <==> next.col in cols
        invariant SameLine(old(out), out) && (cols != old(cols) ==> EndsInLayout(out))
        decreases |cols|
      {
        ghost var was := cols;
        CloseBlock(t.line, t.col);
        assert was == cols + [was[|was| - 1]];
      }
    }

    lemma TopIsDeepest(c: nat)
      requires Valid() && c in cols
      ensures c <= Top()
    {
      var i :| 0 <= i < |cols| && cols[i] == c;
      Deeper(cols, isMatch, i, |cols| - 1);
    }

    /** A line left of the current block: it must be a line of a block around it. */
    method DedentTo(t: Token, next: Token) returns (r: Result)
      requires Valid() && !Owes(out) && next.col < Top() && AtTop(Bare(out), Top())
      modifies this`out, this`cols, this`isMatch
      ensures r.Ok? ==> Valid() && Erase(out) == Erase(old(out)) && SameLine(old(out), out)
      ensures r.Ok? && Starts(old(out), next) ==> Placed(out, next)
      ensures if next.col in old(cols) then r.Ok? else r == Inconsistent(next.line, next.col)
    {
      hide Blocks, Started, Erase, LineStarts, Brackets, LastKind, DeclSeen, Bare;
      CloseDeeper(t, next);
      CloseMatchBlocks(t, next);
      if next.col in cols {
        TopIsDeepest(next.col);
      }
      if next.col != Top() {
        return Inconsistent(next.line, next.col);
      }
      Separate(t, next);
      return Ok([]);
    }

    /** Lines of one block are separated. */
    method Separate(t: Token, next: Token)
      requires Valid() && !Owes(out)
      modifies this`out
      ensures Valid() && Erase(out) == Erase(old(out)) && SameLine(old(out), out)
      ensures out == [] <==> old(out) == []
      ensures out != [] && Starts(old(out), next) && next.col == Top() && !ArmsAt(old(out), next) ==> Placed(out, next)
    {
      if |out| > 0 && !out[|out| - 1].kind.Indent? && !out[|out| - 1].kind.Newline? {
        var nl := Token(Newline, 0, t.line, t.col, false);
        EraseSnoc(out, nl);
        LineSnoc(out, nl);
        Append(nl);
        assert out[..|out| - 1] == old(out);
      }
    }

    /** The fields are the state of the current line; `fresh`: a new one begins. */
    ghost predicate Tracks(begins: bool)
      reads this
    {
      brackets == Brackets(out) && lastKind == LastKind(out) && sawDecl == (!begins && DeclSeen(out))
    }

    lemma NoTokens()
      requires Valid() && LastKind(out).Eof? && !EndsInLayout(out)
      ensures out == [] && cols == [1] && Brackets(out) == 0 && LastKind([]).Eof?
    {
    }

    /** What comes before `next`, once arm lists are closed. */
    method Arrange(t: Token, next: Token, blockFormer: bool) returns (r: Result)
      requires Valid() && !Owes(out) && !IsLayout(next.kind)
      requires blockFormer == Opening(out) && lastKind == LastKind(out)
      requires Starts(out, next) || (out == [] && cols == [1] && LastKind(out).Eof?)
      requires AtTop(Bare(out), Top())
      requires EndsInLayout(out) ==> next.col <= Top() && !(next.col == Top() && next.kind.Pipe?)
      modifies this`out, this`cols, this`isMatch
      ensures r.Ok? ==> Valid() && SameLine(old(out), out) && Placed(out, next) && Erase(out) == Erase(old(out))
      ensures r.Inconsistent? <==> next.col < old(Top()) && next.col !in old(cols)
      ensures r.Inconsistent? ==> r == Inconsistent(next.line, next.col)
      ensures r.TooDeep? ==> |old(cols)| == MAX_INDENT && next.col >= old(Top()) && Opening(old(out))
    {
      hide Placed, Blocks, Started, Erase, LineStarts, Brackets, LastKind, DeclSeen, Bare;
      NothingBefore(next);
      if blockFormer && next.col > Top() {
        var ok := OpenBlock(next, false);
        r := if ok then Ok([]) else TooDeep;
      } else if lastKind.With? && next.col == Top() && next.kind.Pipe? {
        var ok := OpenBlock(next, true);
        r := if ok then Ok([]) else TooDeep;
      } else if next.col == Top() {
        TopIsOpen();
        Separate(t, next);
        r := Ok([]);
      } else if next.col < Top() {
        r := DedentTo(t, next);
      } else {
        ContinuationPlaced(out, next);   // a continuation line
        r := Ok([]);
      }
    }

    lemma LineIsBare()
      requires Valid() && !EndsInLayout(out)
      ensures Bare(out) == out && AtTop(Bare(out), Top())
    {
    }

    lemma TopIsOpen()
      requires Valid()
      ensures Top() in cols
    {
    }

    /** The end of a line outside brackets, at newline `t`, and the token that starts
        the next one. */
    method NewLine(t: Token, next: Token) returns (r: Result)
      requires Valid() && Tracks(false) && brackets == 0 && !EndsInLayout(out) && !IsLayout(next.kind) && next.first
      modifies this
      ensures r.Ok? ==> Valid() && Tracks(true) && brackets == 0 && Placed(out, next) && Erase(out) == Erase(old(out))
      ensures r.Inconsistent? <==> next.col < old(Top()) && next.col !in old(cols)
      ensures r.Inconsistent? ==> r == Inconsistent(next.line, next.col)
      ensures r.TooDeep? ==> |old(cols)| == MAX_INDENT && next.col >= old(Top()) && Opening(old(out))
    {
      hide Placed, Blocks, Started, Erase, LineStarts, Brackets, LastKind, DeclSeen, Bare;
      if LastKind(out).Eof? {
        NoTokens();
      }
      var blockFormer := OpensBlock(lastKind) || (lastKind.Eq? && sawDecl);
      sawDecl := false;
      LineIsBare();
      CloseMatchBlocks(t, next);
      r := Arrange(t, next, blockFormer);
    }

    /** A token of the program. */
    method Emit(t: Token)
      requires Valid() && !IsLayout(t.kind) && Placed(out, t) && Tracks(t.first && brackets == 0)
      modifies this
      ensures Valid() && Tracks(false) && out == old(out) + [t] && Erase(out) == Erase(old(out)) + [t]
    {
      hide Blocks, Started, Erase, LineStarts, Brackets, LastKind, DeclSeen, Bare;
      if t.kind.Open? {
        brackets := brackets + 1;
      } else if t.kind.Close? {
        if brackets > 0 {
          brackets := brackets - 1;
        }
      }
      EraseSnoc(out, t);
      LineSnoc(out, t);
      Append(t);
      lastKind := t.kind;
      if t.kind.DeclKeyword? {
        sawDecl := true;
      }
    }

    /** Closes what is open and ends the output. */
    method Finish(eof: Token)
      requires Valid() && !Owes(out)
      modifies this
      ensures WellLaidOut(out) && Erase(out) == Erase(old(out))
    {
      while |cols| > 1
        invariant Valid() && !Owes(out) && Erase(out) == Erase(old(out))
        decreases |cols|
      {
        CloseBlock(eof.line, eof.col);
      }
      EraseSnoc(out, Token(Eof, 0, eof.line, eof.col, false));
      Append(Token(Eof, 0, eof.line, eof.col, false));
    }
  }

  lemma EraseNewlines(raw: seq<Token>, i: nat, j: nat)
    requires i <= j <= |raw| && forall k :: i <= k < j ==> IsLayout(raw[k].kind)
    ensures Erase(raw[..j]) == Erase(raw[..i])
    decreases j
  {
    if i < j {
      EraseNewlines(raw, i, j - 1);
      assert raw[..j] == raw[..j - 1] + [raw[j - 1]];
      EraseSnoc(raw[..j - 1], raw[j - 1]);
    }
  }

  /** The layout pass on a scanned file. Accepted output nests, puts every line of a
      block at the block's column, and is the input's tokens in order. */
  method Tokenize(raw: seq<Token>) returns (r: Result)
    requires Scanned(raw)
    ensures r.Ok? ==> WellLaidOut(r.out) && Erase(r.out) == Erase(raw)
    ensures !r.Ok? ==> exists k, out :: Refused(raw, k, out, r)
  {
    hide Blocks, Started, Erase, LineStarts, Brackets, LastKind, DeclSeen, Bare;
    var l := new Layout();
    var i: nat := 0;
    assert !raw[0].first;
    FirstPlaced(raw[0]);
    while i < |raw|
      invariant i <= |raw| && l.Valid() && Erase(l.out) == Erase(raw[..i])
      invariant i < |raw| && !raw[i].kind.Eof? ==> l.Tracks(raw[i].first && l.brackets == 0)
      invariant i < |raw| && !IsLayout(raw[i].kind) ==> Placed(l.out, raw[i])
      invariant i < |raw| && raw[i].kind.Newline? ==> !raw[i].first
      invariant i == |raw| || IsLayout(raw[i].kind) ==> !EndsInLayout(l.out)
    {
      var t := raw[i];
      assert raw[..i + 1] == raw[..i] + [t];
      EraseSnoc(raw[..i], t);
      if t.kind.Newline? {
        var j: nat := i + 1;
        while j < |raw| && raw[j].kind.Newline?
          invariant i < j <= |raw| && forall k :: i <= k < j ==> raw[k].kind.Newline?
        {
          j := j + 1;
        }
        EraseNewlines(raw, i, j);
        assert raw[j - 1].kind.Newline?;
        if l.brackets == 0 && j < |raw| && !raw[j].kind.Eof? {
          ghost var before := l.out;
          AllPlaced(before);
          var done := l.NewLine(t, raw[j]);
          if !done.Ok? {
            assert Refused(raw, j, before, done);
            return done;
          }
        } else if l.brackets > 0 && j < |raw| {
          BracketPlaced(l.out, raw[j]);
        }
        i := j;
      } else if t.kind.Eof? {
        i := i + 1;
      } else {
        l.Emit(t);
        if i + 1 < |raw| && !IsLayout(raw[i + 1].kind) {
          SameLinePlaced(l.out, raw[i + 1]);
        }
        i := i + 1;
      }
    }
    assert raw[..|raw|] == raw;
    l.Finish(raw[|raw| - 1]);
    return Ok(l.out);
  }

  lemma AllPlaced(out: seq<Token>)
    ensures Started(out) ==> forall i :: 0 <= i < |out| ==> PlacedAt(out, i)
  {
  }

  lemma FirstPlaced(t: Token)
    ensures Erase([]) == [] && (!t.first ==> Placed([], t))
  {
  }

  lemma BracketPlaced(out: seq<Token>, t: Token)
    requires Blocks(out) != [] && Brackets(out) > 0 && !EndsInLayout(out)
    ensures Placed(out, t)
  {
  }

  lemma SameLinePlaced(out: seq<Token>, t: Token)
    requires Blocks(out) != [] && !t.first && !EndsInLayout(out)
    ensures Placed(out, t)
  {
  }

  // ----- what a well-laid-out stream looks like -----

  /** How many blocks are open. */
  function Depth(out: seq<Token>): int {
    if out == [] then 0
    else
      var last := out[|out| - 1];
      Depth(out[..|out| - 1]) + if last.kind.Indent? then 1 else if last.kind.Dedent? then -1 else 0
  }

  lemma {:induction false} BlocksAreDepth(out: seq<Token>)
    requires Blocks(out) != []
    ensures |Blocks(out)| == 1 + Depth(out)
    decreases |out|
  {
    if out != [] {
      BlocksAreDepth(out[..|out| - 1]);
    }
  }

  lemma {:induction false} BlocksOfPrefix(out: seq<Token>, k: nat)
    requires Blocks(out) != [] && k <= |out|
    ensures Blocks(out[..k]) != []
    decreases |out| - k
  {
    if k == |out| {
      assert out[..k] == out;
    } else {
      BlocksOfPrefix(out, k + 1);
      assert out[..k + 1][..k] == out[..k];
    }
  }

  /** INDENT and DEDENT pair up like brackets, no block is empty, and no newline
      meets another or a DEDENT. */
  lemma WellLaidOutNests(out: seq<Token>, k: nat)
    requires WellLaidOut(out) && k < |out|
    ensures Depth(out) == 0 && Depth(out[..k]) >= 0
    ensures out[k].kind.Newline? || out[k].kind.Indent? ==> k + 1 < |out| && !IsLayout(out[k + 1].kind)
  {
    BlocksAreDepth(out);
    BlocksOfPrefix(out, k);
    BlocksAreDepth(out[..k]);
    assert LineStarts(out, k);
  }
}
