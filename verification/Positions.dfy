/** Editor positions and compiler positions: a 0-based line and UTF-16 column on one
    side, a 1-based line and byte column on the other. A document is a sequence of
    Unicode characters; its text is their UTF-8 bytes. */
module Positions {

  type Byte = x: int | 0 <= x < 256
  type Char = x: int | 0 <= x < 0x11_0000 witness 0

  const LF := 10

  // ----- characters, in both encodings -----

  function Utf8(c: Char): (bytes: seq<Byte>)
    ensures 1 <= |bytes| <= 4
  {
    if c < 0x80 then [c]
    else if c < 0x800 then [0xC0 + c / 64, 0x80 + c % 64]
    else if c < 0x1_0000 then [0xE0 + c / 4096, 0x80 + c / 64 % 64, 0x80 + c % 64]
    else [0xF0 + c / 26_2144, 0x80 + c / 4096 % 64, 0x80 + c / 64 % 64, 0x80 + c % 64]
  }

  function Utf16Units(c: Char): nat {
    if c < 0x1_0000 then 1 else 2
  }

  function Text(doc: seq<Char>): seq<Byte> {
    if doc == [] then [] else Text(doc[..|doc| - 1]) + Utf8(doc[|doc| - 1])
  }

  function Units(doc: seq<Char>): nat {
    if doc == [] then 0 else Units(doc[..|doc| - 1]) + Utf16Units(doc[|doc| - 1])
  }

  /** Lines before the end, and where the last of them starts. */
  function LineOf(doc: seq<Char>): nat {
    if doc == [] then 0 else LineOf(doc[..|doc| - 1]) + if doc[|doc| - 1] == LF then 1 else 0
  }

  function LineStart(doc: seq<Char>): (s: nat)
    ensures s <= |doc|
  {
    if doc == [] then 0
    else if doc[|doc| - 1] == LF then |doc|
    else LineStart(doc[..|doc| - 1])
  }

  // ----- the line index -----

  function LineStarts(text: seq<Byte>): (starts: seq<nat>)
    ensures starts != []
  {
    if text == [] then [0]
    else LineStarts(text[..|text| - 1]) + if text[|text| - 1] == LF then [|text|] else []
  }

  datatype LineIndex = LineIndex(starts: seq<nat>, len: nat, ascii: bool)

  ghost predicate Ascii(text: seq<Byte>) {
    forall i :: 0 <= i < |text| ==> text[i] < 0x80
  }

  ghost predicate Indexes(idx: LineIndex, text: seq<Byte>) {
    idx.starts == LineStarts(text) && idx.len == |text| && (idx.ascii <==> Ascii(text))
  }

  method BuildIndex(text: seq<Byte>) returns (idx: LineIndex)
    ensures Indexes(idx, text)
  {
    var lines, ascii := CountLines(text);
    var starts := FindStarts(text, lines);
    idx := LineIndex(starts[..], |text|, ascii);
  }

  method CountLines(text: seq<Byte>) returns (lines: nat, ascii: bool)
    ensures lines == |LineStarts(text)| && (ascii <==> Ascii(text))
  {
    ascii, lines := true, 1;
    for i := 0 to |text|
      invariant ascii <==> forall j :: 0 <= j < i ==> text[j] < 0x80
      invariant lines == |LineStarts(text[..i])|
    {
      assert text[..i + 1][..i] == text[..i];
      if text[i] >= 0x80 { ascii := false; }
      if text[i] == LF { lines := lines + 1; }
    }
    assert text[..|text|] == text;
  }

  method FindStarts(text: seq<Byte>, lines: nat) returns (starts: array<nat>)
    requires lines == |LineStarts(text)|
    ensures fresh(starts) && starts[..] == LineStarts(text)
  {
    starts := new nat[lines];
    starts[0] := 0;
    var li := 1;
    for i := 0 to |text|
      invariant li == |LineStarts(text[..i])| <= lines == starts.Length
      invariant starts[..li] == LineStarts(text[..i])
    {
      StartsStep(text, i);
      if text[i] == LF {
        starts[li] := i + 1;
        li := li + 1;
      }
    }
    assert text[..|text|] == text;
  }

  lemma StartsStep(text: seq<Byte>, i: nat)
    requires i < |text|
    ensures LineStarts(text[..i + 1]) == LineStarts(text[..i]) + if text[i] == LF then [i + 1] else []
    ensures |LineStarts(text[..i + 1])| <= |LineStarts(text)|
  {
    assert text[..i + 1][..i] == text[..i];
    StartsGrow(text[..i + 1], text[i + 1..]);
    assert text[..i + 1] + text[i + 1..] == text;
  }

  lemma {:induction false} StartsGrow(text: seq<Byte>, more: seq<Byte>)
    ensures LineStarts(text) <= LineStarts(text + more)
    ensures forall i :: |LineStarts(text)| <= i < |LineStarts(text + more)| ==> LineStarts(text + more)[i] > |text|
    decreases |more|
  {
    if more == [] {
      assert text + more == text;
    } else {
      var n := |more| - 1;
      StartsGrow(text, more[..n]);
      assert (text + more)[..|text| + n] == text + more[..n];
    }
  }

  lemma {:induction false} StartsInside(text: seq<Byte>)
    ensures forall i :: 0 <= i < |LineStarts(text)| ==> LineStarts(text)[i] <= |text|
  {
    if text != [] {
      StartsInside(text[..|text| - 1]);
    }
  }

  // ----- the two conversions -----

  function ClampLine(idx: LineIndex, line0: int): (l: nat)
    requires idx.starts != []
    ensures l < |idx.starts|
  {
    if line0 >= |idx.starts| then |idx.starts| - 1 else if line0 < 0 then 0 else line0
  }

  /** How many bytes the sequence that starts with this byte has. */
  function SeqLen(b: Byte): (n: nat)
    ensures 1 <= n <= 4
  {
    if b < 0x80 then 1
    else if b / 32 == 0x6 then 2
    else if b / 16 == 0xE then 3
    else if b / 8 == 0x1E then 4
    else 1
  }

  function SeqUnits(n: nat): nat {
    if n == 4 then 2 else 1
  }

  /** The byte a scan from `at` reaches when it has passed `units`, or `end`. */
  function ScanUnits(text: seq<Byte>, at: nat, end: nat, units: int): nat
    requires end <= |text|
    decreases if at < end then end - at else 0
  {
    if at < end && 0 < units
    then ScanUnits(text, at + SeqLen(text[at]), end, units - SeqUnits(SeqLen(text[at])))
    else at
  }

  /** The units a scan of `bytes` bytes from `at` passes. */
  function ScanBytes(text: seq<Byte>, at: nat, bytes: int): nat
    decreases if at < |text| then |text| - at else 0
  {
    if 0 < bytes && at < |text|
    then SeqUnits(SeqLen(text[at])) + ScanBytes(text, at + SeqLen(text[at]), bytes - SeqLen(text[at]))
    else 0
  }

  function LineEnd(idx: LineIndex, line: nat): nat {
    if line + 1 < |idx.starts| then idx.starts[line + 1] else idx.len
  }

  function Max0(n: int): nat {
    if n < 0 then 0 else n
  }

  /** From the editor: the character's byte, whichever way it is found. */
  method ToCompiler(idx: LineIndex, text: seq<Byte>, line0: int, char0: int) returns (line1: nat, col1: int)
    requires Indexes(idx, text)
    ensures var l := ClampLine(idx, line0);
            && line1 == l + 1
            && LineEnd(idx, l) <= |text|
            && col1 == ScanUnits(text, idx.starts[l], LineEnd(idx, l), char0) - idx.starts[l] + 1
  {
    StartsInside(text);
    var l := ClampLine(idx, line0);
    var ls, le := idx.starts[l], LineEnd(idx, l);
    line1 := l + 1;
    if idx.ascii {
      var col := Max0(char0);
      StartsOrdered(text, l);
      if ls + col > le { col := le - ls; }
      AsciiUnits(text, ls, le, char0);
      return line1, col + 1;
    }
    var byte, u16 := ls, 0;
    while byte < le && u16 < Max0(char0)
      invariant ScanUnits(text, byte, le, Max0(char0) - u16) == ScanUnits(text, ls, le, Max0(char0))
      decreases le - byte
    {
      var nb := SeqLen(text[byte]);
      byte, u16 := byte + nb, u16 + SeqUnits(nb);
    }
    col1 := byte - ls + 1;
  }

  /** From the compiler. A pure ASCII text is not scanned, so a column past its end
      is passed on. */
  method ToEditor(idx: LineIndex, text: seq<Byte>, line1: int, col1: int) returns (line0: nat, char0: nat)
    requires Indexes(idx, text)
    ensures line0 == ClampLine(idx, line1 - 1)
    ensures char0 == if Ascii(text) then Max0(col1 - 1) else ScanBytes(text, idx.starts[line0], col1 - 1)
  {
    line0 := ClampLine(idx, line1 - 1);
    var col := Max0(col1 - 1);
    if idx.ascii {
      return line0, col;
    }
    var ls := idx.starts[line0];
    var b, u16 := 0, 0;
    while b < col && ls + b < idx.len
      invariant u16 + ScanBytes(text, ls + b, col - b) == ScanBytes(text, ls, col)
      decreases idx.len - b
    {
      var nb := SeqLen(text[ls + b]);
      b, u16 := b + nb, u16 + SeqUnits(nb);
    }
    char0 := u16;
  }

  // ----- the fast path -----

  lemma {:induction false} StartsOrdered(text: seq<Byte>, l: nat)
    requires l < |LineStarts(text)|
    ensures l + 1 < |LineStarts(text)| ==> LineStarts(text)[l] < LineStarts(text)[l + 1]
  {
    if text != [] {
      var n := |text| - 1;
      StartsInside(text[..n]);
      if l < |LineStarts(text[..n])| {
        StartsOrdered(text[..n], l);
      }
    }
  }

  lemma {:induction false} AsciiUnits(text: seq<Byte>, at: nat, end: nat, units: int)
    requires Ascii(text) && at <= end <= |text|
    ensures ScanUnits(text, at, end, units) == if at + Max0(units) > end then end else at + Max0(units)
    decreases end - at
  {
    if at < end && 0 < units {
      AsciiUnits(text, at + 1, end, units - 1);
    }
  }

  lemma {:induction false} AsciiBytes(text: seq<Byte>, at: nat, bytes: int)
    requires Ascii(text) && at <= |text|
    ensures ScanBytes(text, at, bytes) == if at + Max0(bytes) > |text| then |text| - at else Max0(bytes)
    decreases |text| - at
  {
    if at < |text| && 0 < bytes {
      AsciiBytes(text, at + 1, bytes - 1);
    }
  }

  /** Skipping the scan gives what the scan gives exactly when the column is not past
      the end of the text. */
  lemma FastPathAgrees(text: seq<Byte>, ls: nat, col1: int)
    requires Ascii(text) && ls <= |text|
    ensures Max0(col1 - 1) == ScanBytes(text, ls, col1 - 1) <==> ls + Max0(col1 - 1) <= |text|
  {
    AsciiBytes(text, ls, col1 - 1);
  }

  /** One `a`: for the compiler's column 9 of its line the server names the editor's
      column 8, where a scan of the text passes one character. */
  method FastPathOverruns() returns (line0: nat, char0: nat)
    ensures line0 == 0 && char0 == 8 && ScanBytes([97], 0, 9 - 1) == 1
  {
    var text: seq<Byte> := [97];
    var idx := BuildIndex(text);
    line0, char0 := ToEditor(idx, text, 1, 9);
    AsciiBytes(text, 0, 8);
  }

  // ----- the mapping is the characters' -----

  lemma {:induction false} Prefixes(doc: seq<Char>, more: seq<Char>)
    ensures Text(doc) <= Text(doc + more)
    decreases |more|
  {
    if more == [] {
      assert doc + more == doc;
    } else {
      var n := |more| - 1;
      Prefixes(doc, more[..n]);
      assert (doc + more)[..|doc| + n] == doc + more[..n];
    }
  }

  /** A character's bytes stand at its offset, and the first of them tells how many. */
  lemma CharAt(doc: seq<Char>, k: nat)
    requires k < |doc|
    ensures |Text(doc[..k + 1])| == |Text(doc[..k])| + |Utf8(doc[k])| <= |Text(doc)|
    ensures Text(doc)[|Text(doc[..k])|] == Utf8(doc[k])[0]
    ensures SeqLen(Utf8(doc[k])[0]) == |Utf8(doc[k])| && SeqUnits(|Utf8(doc[k])|) == Utf16Units(doc[k])
  {
    assert doc[..k + 1][..k] == doc[..k];
    assert Text(doc[..k + 1]) == Text(doc[..k]) + Utf8(doc[k]);
    Prefixes(doc[..k + 1], doc[k + 1..]);
    assert doc[..k + 1] + doc[k + 1..] == doc;
    FirstByte(doc[k]);
  }

  lemma FirstByte(c: Char)
    ensures SeqLen(Utf8(c)[0]) == |Utf8(c)|
  {
    if c >= 0x1_0000 {
      assert Utf8(c)[0] / 8 == 0x1E;
    } else if c >= 0x800 {
      assert Utf8(c)[0] / 16 == 0xE;
    } else if c >= 0x80 {
      assert Utf8(c)[0] / 32 == 0x6;
    }
  }

  lemma {:induction false} UnitsReach(doc: seq<Char>, s: nat, k: nat, end: nat)
    requires s <= k <= |doc| && |Text(doc[..k])| <= end <= |Text(doc)|
    ensures ScanUnits(Text(doc), |Text(doc[..s])|, end, Units(doc[s..k])) == |Text(doc[..k])|
    decreases k - s
  {
    hide Text, Units, ScanUnits, Utf8, SeqLen, SeqUnits, Utf16Units;
    if s < k {
      CharAt(doc, s);
      UnitsSplit(doc[s..k]);
      assert doc[s..k][1..] == doc[s + 1..k];
      TextGrows(doc, s + 1, k);
      UnitsStep(Text(doc), |Text(doc[..s])|, end, Units(doc[s..k]));
      UnitsReach(doc, s + 1, k, end);
    } else {
      assert doc[s..k] == [];
      UnitsDone(Text(doc), |Text(doc[..s])|, end);
    }
  }

  /** More units than there are up to `k` reach `k` when the scan ends there. */
  lemma {:induction false} UnitsBeyond(doc: seq<Char>, s: nat, k: nat, units: int)
    requires s <= k <= |doc| && units >= Units(doc[s..k])
    ensures |Text(doc[..k])| <= |Text(doc)|
    ensures ScanUnits(Text(doc), |Text(doc[..s])|, |Text(doc[..k])|, units) == |Text(doc[..k])|
    decreases k - s
  {
    hide Text, Units, ScanUnits, Utf8, SeqLen, SeqUnits, Utf16Units;
    TextGrows(doc, s, k);
    if s < k {
      CharAt(doc, s);
      UnitsSplit(doc[s..k]);
      assert doc[s..k][1..] == doc[s + 1..k];
      TextGrows(doc, s + 1, k);
      UnitsStep(Text(doc), |Text(doc[..s])|, |Text(doc[..k])|, units);
      UnitsBeyond(doc, s + 1, k, units - Utf16Units(doc[s]));
    } else {
      AtTheEnd(Text(doc), |Text(doc[..s])|, units);
    }
  }

  /** No more units than there are up to `k` do not pass `k`. */
  lemma {:induction false} UnitsWithin(doc: seq<Char>, s: nat, k: nat, end: nat, units: int)
    requires s <= k <= |doc| && units <= Units(doc[s..k]) && |Text(doc[..k])| <= end <= |Text(doc)|
    ensures ScanUnits(Text(doc), |Text(doc[..s])|, end, units) <= |Text(doc[..k])|
    decreases k - s
  {
    hide Text, Units, ScanUnits, Utf8, SeqLen, SeqUnits, Utf16Units;
    TextGrows(doc, s, k);
    if units <= 0 {
      NoUnits(Text(doc), |Text(doc[..s])|, end, units);
    } else if s < k {
      CharAt(doc, s);
      UnitsSplit(doc[s..k]);
      assert doc[s..k][1..] == doc[s + 1..k];
      TextGrows(doc, s + 1, k);
      UnitsStep(Text(doc), |Text(doc[..s])|, end, units);
      UnitsWithin(doc, s + 1, k, end, units - Utf16Units(doc[s]));
    } else {
      assert doc[s..k] == [];
      UnitsDone(Text(doc), |Text(doc[..s])|, end);
    }
  }

  lemma NoUnits(text: seq<Byte>, at: nat, end: nat, units: int)
    requires end <= |text| && units <= 0
    ensures ScanUnits(text, at, end, units) == at
  {
  }

  /** The line that ends with the line feed at `e`. */
  lemma LineBounds(doc: seq<Char>, e: nat, idx: LineIndex)
    requires e < |doc| && doc[e] == LF && Indexes(idx, Text(doc))
    ensures var l := LineOf(doc[..e]);
            && l < |idx.starts| && idx.starts[l] == |Text(doc[..LineStart(doc[..e])])|
            && LineEnd(idx, l) == |Text(doc[..e + 1])| == |Text(doc[..e])| + 1 <= |Text(doc)|
  {
    hide LineStarts, Text;
    Placed(doc, e, idx);
    Placed(doc, e + 1, idx);
    NextLine(doc, e);
  }

  lemma NextLine(doc: seq<Char>, e: nat)
    requires e < |doc| && doc[e] == LF
    ensures LineOf(doc[..e + 1]) == LineOf(doc[..e]) + 1 && LineStart(doc[..e + 1]) == e + 1
    ensures |Text(doc[..e + 1])| == |Text(doc[..e])| + 1 && doc[..e + 1][..e + 1] == doc[..e + 1]
  {
    assert doc[..e + 1][..e] == doc[..e];
    assert Utf8(LF) == [LF];
  }

  /** More units than there are up to `k` pass `k`. */
  lemma {:induction false} UnitsPast(doc: seq<Char>, s: nat, k: nat, end: nat, units: int)
    requires s <= k < |doc| && units > Units(doc[s..k]) && |Text(doc[..k + 1])| <= end <= |Text(doc)|
    ensures ScanUnits(Text(doc), |Text(doc[..s])|, end, units) > |Text(doc[..k])|
    decreases k - s
  {
    hide Text, Units, ScanUnits, Utf8, SeqLen, SeqUnits, Utf16Units;
    TextGrows(doc, s, k);
    TextGrows(doc, s + 1, k + 1);
    CharAt(doc, s);
    UnitsStep(Text(doc), |Text(doc[..s])|, end, units);
    if s < k {
      UnitsSplit(doc[s..k]);
      assert doc[s..k][1..] == doc[s + 1..k];
      UnitsPast(doc, s + 1, k, end, units - Utf16Units(doc[s]));
    } else {
      ScanForward(Text(doc), |Text(doc[..s + 1])|, end, units - Utf16Units(doc[s]));
    }
  }

  lemma {:induction false} ScanForward(text: seq<Byte>, at: nat, end: nat, units: int)
    requires end <= |text|
    ensures ScanUnits(text, at, end, units) >= at
    decreases if at < end then end - at else 0
  {
    if at < end && 0 < units {
      ScanForward(text, at + SeqLen(text[at]), end, units - SeqUnits(SeqLen(text[at])));
    }
  }

  lemma {:induction false} StartKeeps(doc: seq<Char>, k: nat, e: nat)
    requires k <= e <= |doc| && LineStart(doc[..e]) <= k
    ensures LineStart(doc[..k]) == LineStart(doc[..e])
    decreases e
  {
    if k < e {
      assert doc[..e][..e - 1] == doc[..e - 1];
      StartKeeps(doc, k, e - 1);
    }
  }

  /** On a line that ends with the line feed at `e`, the result is at or before its
      character `k` if and only if the editor's column is: take `e` for the text before
      the line feed, or the CR in front of it, which LSP does not count to the line. Past
      the line feed the result is the column behind it, where LSP has the line's length. */
  lemma ColumnOnLine(doc: seq<Char>, e: nat, k: nat, idx: LineIndex, char0: int)
    requires e < |doc| && doc[e] == LF && Indexes(idx, Text(doc)) && LineStart(doc[..e]) <= k <= e
    ensures var l, s := LineOf(doc[..e]), LineStart(doc[..e]);
            && l < |idx.starts| && LineEnd(idx, l) <= |Text(doc)|
            && var col1 := ScanUnits(Text(doc), idx.starts[l], LineEnd(idx, l), char0) - idx.starts[l] + 1;
               && (col1 <= ByteColumn(doc, k) <==> char0 <= Units(doc[s..k]))
               && (char0 > Units(doc[s..e]) ==> col1 == ByteColumn(doc, e) + 1)
  {
    hide ScanUnits, Text, Units, LineStarts, LineStart, LineOf;
    var s := LineStart(doc[..e]);
    LineBounds(doc, e, idx);
    var end := LineEnd(idx, LineOf(doc[..e]));
    StartKeeps(doc, k, e);
    assert doc[..e][..s] == doc[..s] && doc[..k][..s] == doc[..s];
    TextGrows(doc, k, e);
    if char0 <= Units(doc[s..k]) {
      UnitsWithin(doc, s, k, end, char0);
    } else {
      TextGrows(doc, k + 1, e + 1);
      UnitsPast(doc, s, k, end, char0);
    }
    if char0 > Units(doc[s..e]) {
      LineFeedUnit(doc, s, e);
      UnitsBeyond(doc, s, e + 1, char0);
    }
  }

  lemma LineFeedUnit(doc: seq<Char>, s: nat, e: nat)
    requires s <= e < |doc| && doc[e] == LF
    ensures Units(doc[s..e + 1]) == Units(doc[s..e]) + 1
  {
    assert doc[s..e + 1][..e - s] == doc[s..e];
  }

  /** "a", a line feed: asked for the column after two characters of the first line, the
      server names one that is on no line. */
  method PastTheLine() returns (line1: nat, col1: int)
    ensures line1 == 1 && col1 == 3 && ByteColumn([97, LF], 1) == 2
  {
    hide ScanUnits, Text, Units, LineStarts, LineStart, LineOf, ByteColumn;
    var doc := [97, LF];
    var idx := BuildIndex(Text(doc));
    ShortLine();
    ColumnOnLine(doc, 1, 1, idx, 2);
    line1, col1 := ToCompiler(idx, Text(doc), 0, 2);
  }

  lemma ShortLine()
    ensures var doc := [97, LF];
            && LineOf(doc[..1]) == 0 && LineStart(doc[..1]) == 0 && Units(doc[0..1]) == 1 && ByteColumn(doc, 1) == 2
  {
    var doc := [97, LF];
    assert doc[..1] == [97] && doc[0..1] == [97] && [97][..0] == [] && doc[..0] == [];
    assert Text([97]) == Text([]) + Utf8(97);
    assert Units([97]) == Units([]) + 1;
    assert LineStart([97]) == LineStart([]);
  }

  lemma AtTheEnd(text: seq<Byte>, at: nat, units: int)
    requires at <= |text|
    ensures ScanUnits(text, at, at, units) == at
  {
  }

  lemma UnitsStep(text: seq<Byte>, at: nat, end: nat, units: int)
    requires at < end <= |text| && 0 < units
    ensures ScanUnits(text, at, end, units) == ScanUnits(text, at + SeqLen(text[at]), end, units - SeqUnits(SeqLen(text[at])))
  {
  }

  lemma UnitsDone(text: seq<Byte>, at: nat, end: nat)
    requires end <= |text|
    ensures Units([]) == 0 && ScanUnits(text, at, end, 0) == at
  {
  }

  lemma BytesStep(text: seq<Byte>, at: nat, bytes: int)
    requires at < |text| && 0 < bytes
    ensures ScanBytes(text, at, bytes) == SeqUnits(SeqLen(text[at])) + ScanBytes(text, at + SeqLen(text[at]), bytes - SeqLen(text[at]))
  {
  }

  lemma BytesDone(text: seq<Byte>, at: nat)
    ensures Units([]) == 0 && ScanBytes(text, at, 0) == 0
  {
  }

  lemma {:induction false} BytesReach(doc: seq<Char>, s: nat, k: nat)
    requires s <= k <= |doc|
    ensures |Text(doc[..s])| <= |Text(doc[..k])|
    ensures ScanBytes(Text(doc), |Text(doc[..s])|, |Text(doc[..k])| - |Text(doc[..s])|) == Units(doc[s..k])
    decreases k - s
  {
    hide Text, Units, ScanBytes, Utf8, SeqLen, SeqUnits, Utf16Units;
    if s < k {
      CharAt(doc, s);
      UnitsSplit(doc[s..k]);
      assert doc[s..k][1..] == doc[s + 1..k];
      TextGrows(doc, s + 1, k);
      BytesStep(Text(doc), |Text(doc[..s])|, |Text(doc[..k])| - |Text(doc[..s])|);
      BytesReach(doc, s + 1, k);
    } else {
      assert doc[s..k] == [];
      BytesDone(Text(doc), |Text(doc[..s])|);
    }
  }

  lemma TextGrows(doc: seq<Char>, s: nat, k: nat)
    requires s <= k <= |doc|
    ensures |Text(doc[..s])| <= |Text(doc[..k])| <= |Text(doc)|
  {
    hide Text;
    Prefixes(doc[..s], doc[s..k]);
    assert doc[..s] + doc[s..k] == doc[..k];
    Prefixes(doc[..k], doc[k..]);
    assert doc[..k] + doc[k..] == doc;
  }

  lemma {:induction false} UnitsSplit(cs: seq<Char>)
    requires cs != []
    ensures Units(cs) == Utf16Units(cs[0]) + Units(cs[1..]) && Utf16Units(cs[0]) > 0
  {
    if |cs| > 1 {
      UnitsSplit(cs[..|cs| - 1]);
      assert cs[..|cs| - 1][1..] == cs[1..][..|cs| - 2];
    } else {
      assert cs[..0] == [] && cs[1..] == [];
    }
  }

  /** The index finds each character's line. */
  lemma {:induction false} LineFound(doc: seq<Char>)
    ensures var starts := LineStarts(Text(doc));
            |starts| == LineOf(doc) + 1 && starts[LineOf(doc)] == |Text(doc[..LineStart(doc)])|
  {
    hide Utf8, LineStarts;
    if doc != [] {
      var n := |doc| - 1;
      LineFound(doc[..n]);
      OnlyLineFeeds(Text(doc[..n]), doc[n]);
      HighBytes(doc[n]);
      if doc[n] == LF {
        assert doc[..|doc|] == doc;
      } else {
        assert doc[..n][..LineStart(doc[..n])] == doc[..LineStart(doc)];
      }
    } else {
      assert doc[..0] == doc;
      NoStarts();
    }
  }

  lemma NoStarts()
    ensures LineStarts([]) == [0]
  {
  }

  /** No byte of a longer character is a line feed. */
  lemma OnlyLineFeeds(text: seq<Byte>, c: Char)
    ensures LineStarts(text + Utf8(c)) == LineStarts(text) + if c == LF then [|text| + 1] else []
  {
    hide LineStarts, Utf8;
    HighBytes(c);
    if c < 0x80 {
      OneByte(text, c);
    } else {
      NoLineFeed(text, Utf8(c));
    }
  }

  lemma HighBytes(c: Char)
    ensures if c < 0x80 then Utf8(c) == [c] else forall b :: b in Utf8(c) ==> b >= 0x80
  {
  }

  lemma OneByte(text: seq<Byte>, b: Byte)
    ensures LineStarts(text + [b]) == LineStarts(text) + if b == LF then [|text| + 1] else []
  {
    assert (text + [b])[..|text|] == text;
  }

  lemma {:induction false} NoLineFeed(text: seq<Byte>, more: seq<Byte>)
    requires forall b :: b in more ==> b >= 0x80
    ensures LineStarts(text + more) == LineStarts(text)
    decreases |more|
  {
    if more == [] {
      assert text + more == text;
    } else {
      var n := |more| - 1;
      assert more[n] in more && forall b :: b in more[..n] ==> b in more;
      NoLineFeed(text, more[..n]);
      assert (text + more)[..|text| + n] == text + more[..n];
    }
  }

  function ByteColumn(doc: seq<Char>, k: nat): int
    requires k <= |doc|
  {
    |Text(doc[..k])| - |Text(doc[..LineStart(doc[..k])])| + 1
  }

  function UnitColumn(doc: seq<Char>, k: nat): nat
    requires k <= |doc|
  {
    Units(doc[LineStart(doc[..k])..k])
  }

  lemma Placed(doc: seq<Char>, k: nat, idx: LineIndex)
    requires k <= |doc| && Indexes(idx, Text(doc))
    ensures var l, s := LineOf(doc[..k]), LineStart(doc[..k]);
            l < |idx.starts| && idx.starts[l] == |Text(doc[..s])| && |Text(doc[..k])| <= LineEnd(idx, l) <= |Text(doc)|
  {
    hide LineStarts, LineStart, LineOf, Text;
    LineFound(doc[..k]);
    assert doc[..k][..LineStart(doc[..k])] == doc[..LineStart(doc[..k])];
    Prefixes(doc[..k], doc[k..]);
    assert doc[..k] + doc[k..] == doc;
    var t := Text(doc);
    var n := |Text(doc[..k])|;
    assert t == Text(doc[..k]) + t[n..];
    StartsGrow(Text(doc[..k]), t[n..]);
    StartsInside(t);
  }

  lemma {:induction false} AsciiColumns(doc: seq<Char>, s: nat, k: nat)
    requires s <= k <= |doc| && Ascii(Text(doc))
    ensures Units(doc[s..k]) == |Text(doc[..k])| - |Text(doc[..s])|
  {
    hide Text, Units, ScanBytes, Utf8;
    TextGrows(doc, s, k);
    BytesReach(doc, s, k);
    AsciiBytes(Text(doc), |Text(doc[..s])|, |Text(doc[..k])| - |Text(doc[..s])|);
  }

  /** Every character of every document: its byte position goes to its UTF-16 position
      and back. */
  method ThereAndBack(doc: seq<Char>, k: nat)
    returns (line0: nat, char0: nat, line1: nat, col1: int)
    requires k <= |doc|
    ensures line0 == LineOf(doc[..k]) && char0 == UnitColumn(doc, k)
    ensures line1 == LineOf(doc[..k]) + 1 && col1 == ByteColumn(doc, k)
  {
    var idx := BuildIndex(Text(doc));
    Placed(doc, k, idx);
    ghost var s := LineStart(doc[..k]);
    TextGrows(doc, s, k);
    BytesReach(doc, s, k);
    if Ascii(Text(doc)) {
      AsciiColumns(doc, s, k);
    }
    line0, char0 := ToEditor(idx, Text(doc), LineOf(doc[..k]) + 1, ByteColumn(doc, k));
    UnitsReach(doc, s, k, LineEnd(idx, line0));
    line1, col1 := ToCompiler(idx, Text(doc), line0, char0);
  }
}
