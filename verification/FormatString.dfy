/** The format string of an interpolation: literal bytes, type names and conversions,
    written as one C literal and its arguments. */
module FormatString {
  import opened StringLiteral
  import opened Trigraphs

  const STAR: Byte := 42

  /** How a value is passed: under a cast to `long long`, to `unsigned long long` by way
      of its own width, to `int` or to a pointer; or as a str's length, within a written
      precision if there is one, and its pointer. */
  datatype Passing = AsLong | AsUnsigned(bits: nat) | AsInt | AsPointer | AsStr(limit: int)

  /** A run of literal bytes, a type's name, or a conversion: its flags, width,
      precision and length modifiers, then its letter. */
  datatype Piece = Lit(bytes: seq<Byte>) | Name(text: seq<Byte>) | Conv(mods: seq<Byte>, letter: Byte, pass: Passing)

  predicate Modifier(b: Byte) {
    b == 45 || b == 43 || b == 32 || b == 35 || 48 <= b <= 57 || b == 46 || b == STAR || b == 108
  }

  predicate Printable(b: Byte) {
    b != BACKSLASH && b != QUOTE && b != LF && b != PERCENT && b != NUL
  }

  predicate WellFormed(p: Piece) {
    match p
    case Lit(_) => true
    case Name(text) => forall i :: 0 <= i < |text| ==> Printable(text[i])
    case Conv(mods, letter, pass) =>
      (forall i :: 0 <= i < |mods| ==> Modifier(mods[i])) && Printable(letter) && !Modifier(letter) && (STAR in mods <==> pass.AsStr?)
  }

  predicate AllWellFormed(ps: seq<Piece>) {
    forall i :: 0 <= i < |ps| ==> WellFormed(ps[i])
  }

  // ----- what is emitted -----

  function FormatByte(b: Byte): seq<Byte> {
    if b == NUL then [PERCENT, LETTER_C] else CByte(b, true)
  }

  function FormatBytes(bytes: seq<Byte>): seq<Byte> {
    if bytes == [] then [] else FormatByte(bytes[0]) + FormatBytes(bytes[1..])
  }

  function Format(p: Piece): seq<Byte> {
    match p
    case Lit(bytes) => FormatBytes(bytes)
    case Name(text) => text
    case Conv(mods, letter, _) => [PERCENT] + mods + [letter]
  }

  function Formats(ps: seq<Piece>): seq<Byte> {
    if ps == [] then [] else Format(ps[0]) + Formats(ps[1..])
  }

  /** An argument: the 0 of a NUL byte, or what is passed of a temporary. */
  datatype Arg = Zero | Cast(pass: Passing, temp: nat) | Length(limit: int, temp: nat) | Bytes(temp: nat)

  function ByteArgs(bytes: seq<Byte>): seq<Arg> {
    if bytes == [] then [] else (if bytes[0] == NUL then [Zero] else []) + ByteArgs(bytes[1..])
  }

  function PieceArgs(p: Piece, k: nat): seq<Arg> {
    match p
    case Lit(bytes) => ByteArgs(bytes)
    case Name(_) => []
    case Conv(_, _, pass) => if pass.AsStr? then [Length(pass.limit, k), Bytes(k)] else [Cast(pass, k)]
  }

  /** The temporaries so far once this piece is passed. */
  function Next(p: Piece, k: nat): nat {
    if p.Conv? then k + 1 else k
  }

  function Args(ps: seq<Piece>, k: nat): seq<Arg> {
    if ps == [] then [] else PieceArgs(ps[0], k) + Args(ps[1..], Next(ps[0], k))
  }

  // ----- C's reading of it (C11 7.21.6.1) -----

  datatype Item = Byte(b: Byte) | Directive(mods: seq<Byte>, letter: Byte)

  function ModRun(s: seq<Byte>): (n: nat)
    ensures n <= |s| && (n < |s| ==> !Modifier(s[n]))
  {
    if s == [] || !Modifier(s[0]) then 0 else 1 + ModRun(s[1..])
  }

  function Parse(s: seq<Byte>): Option<seq<Item>>
    decreases |s|
  {
    if s == [] then Some([])
    else if s[0] != PERCENT then Then([Byte(s[0])], Parse(s[1..]))
    else if |s| > 1 && s[1] == PERCENT then Then([Byte(PERCENT)], Parse(s[2..]))
    else
      var n := ModRun(s[1..]);
      if n + 1 == |s| then None else Then([Directive(s[1..n + 1], s[n + 1])], Parse(s[n + 2..]))
  }

  function Then(items: seq<Item>, rest: Option<seq<Item>>): Option<seq<Item>> {
    if rest.Some? then Some(items + rest.value) else None
  }

  /** What a directive makes of its arguments, where C says. */
  type Show = (seq<Byte>, Byte, seq<Arg>) -> Option<seq<Byte>>

  function Joined(a: Option<seq<Byte>>, b: Option<seq<Byte>>): Option<seq<Byte>> {
    if a.Some? then Before(a.value, b) else None
  }

  /** `.*` takes the precision from an argument of its own. */
  function Takes(mods: seq<Byte>): nat {
    if STAR in mods then 2 else 1
  }

  /** The output, when every directive has its arguments and none is left over. */
  function Printed(items: seq<Item>, args: seq<Arg>, show: Show): Option<seq<Byte>> {
    if items == [] then if args == [] then Some([]) else None
    else match items[0]
      case Byte(b) => Before([b], Printed(items[1..], args, show))
      case Directive(mods, letter) =>
        var n := Takes(mods);
        if |args| < n then None else Joined(show(mods, letter, args[..n]), Printed(items[1..], args[n..], show))
  }

  // ----- what is meant -----

  function Output(p: Piece, k: nat, show: Show): Option<seq<Byte>> {
    match p
    case Lit(bytes) => Some(bytes)
    case Name(text) => Some(text)
    case Conv(mods, letter, _) => show(mods, letter, PieceArgs(p, k))
  }

  function Outputs(ps: seq<Piece>, k: nat, show: Show): Option<seq<Byte>> {
    if ps == [] then Some([]) else Joined(Output(ps[0], k, show), Outputs(ps[1..], Next(ps[0], k), show))
  }

  // ----- the literal's value -----

  function ByteText(b: Byte): seq<Byte> {
    if b == NUL then [PERCENT, LETTER_C] else Kept(b, true)
  }

  function BytesText(bytes: seq<Byte>): seq<Byte> {
    if bytes == [] then [] else ByteText(bytes[0]) + BytesText(bytes[1..])
  }

  function PieceText(p: Piece): seq<Byte> {
    if p.Lit? then BytesText(p.bytes) else Format(p)
  }

  function Texts(ps: seq<Piece>): seq<Byte> {
    if ps == [] then [] else PieceText(ps[0]) + Texts(ps[1..])
  }

  // ----- as units -----

  function ByteUnits(b: Byte): seq<Unit> {
    if b == NUL then [Bare(PERCENT), Bare(LETTER_C)]
    else if b == PERCENT then [Bare(PERCENT), Bare(PERCENT)]
    else if |CByte(b, false)| > 1 then [Coded(b)]
    else [Bare(b)]
  }

  function BytesUnits(bytes: seq<Byte>): seq<Unit> {
    if bytes == [] then [] else ByteUnits(bytes[0]) + BytesUnits(bytes[1..])
  }

  function Bares(s: seq<Byte>): (us: seq<Unit>)
    ensures |us| == |s| && forall i :: 0 <= i < |s| ==> us[i] == Bare(s[i])
  {
    seq(|s|, i requires 0 <= i < |s| => Bare(s[i]))
  }

  function PieceUnits(p: Piece): seq<Unit> {
    if p.Lit? then BytesUnits(p.bytes) else Bares(Format(p))
  }

  function UnitsOf(ps: seq<Piece>): seq<Unit> {
    if ps == [] then [] else PieceUnits(ps[0]) + UnitsOf(ps[1..])
  }

  lemma {:induction false} EmitsBoth(us: seq<Unit>, vs: seq<Unit>)
    ensures Emits(us + vs) == Emits(us) + Emits(vs) && Values(us + vs) == Values(us) + Values(vs)
  {
    hide Emit, Emits, Values;
    NoUnits();
    if us == [] {
      assert us + vs == vs && [] + Emits(vs) == Emits(vs) && [] + Values(vs) == Values(vs);
    } else {
      EmitsBoth(us[1..], vs);
      assert (us + vs)[1..] == us[1..] + vs;
      OneUnit(us);
      OneUnit(us + vs);
      assert Emit(us[0]) + (Emits(us[1..]) + Emits(vs)) == (Emit(us[0]) + Emits(us[1..])) + Emits(vs);
      assert [us[0].b] + (Values(us[1..]) + Values(vs)) == ([us[0].b] + Values(us[1..])) + Values(vs);
    }
  }

  lemma {:induction false} EmitsBares(s: seq<Byte>)
    ensures Emits(Bares(s)) == s && Values(Bares(s)) == s
  {
    if s != [] {
      EmitsBares(s[1..]);
      assert Bares(s)[1..] == Bares(s[1..]);
      assert s == [s[0]] + s[1..];
    }
  }

  lemma ByteUnitsAre(b: Byte)
    ensures AllProper(ByteUnits(b)) && Emits(ByteUnits(b)) == FormatByte(b) && Values(ByteUnits(b)) == ByteText(b)
  {
    var us := ByteUnits(b);
    OneUnit(us);
    if |us| == 1 {
      assert us[1..] == [] && Emit(us[0]) + [] == Emit(us[0]);
    } else {
      OneUnit(us[1..]);
      assert us[1..] == [us[1]] && us[1..][1..] == [];
    }
  }

  lemma {:induction false} BytesUnitsAre(bytes: seq<Byte>)
    ensures AllProper(BytesUnits(bytes)) && Emits(BytesUnits(bytes)) == FormatBytes(bytes) && Values(BytesUnits(bytes)) == BytesText(bytes)
  {
    hide ByteUnits, FormatByte, ByteText, Emits, Values;
    if bytes == [] {
      NoUnits();
    } else {
      BytesUnitsAre(bytes[1..]);
      ByteUnitsAre(bytes[0]);
      EmitsBoth(ByteUnits(bytes[0]), BytesUnits(bytes[1..]));
    }
  }

  lemma NoUnits()
    ensures Emits([]) == [] && Values([]) == []
  {
  }

  /** The emitted text is that of the units, and means their bytes. */
  lemma {:induction false} UnitsAre(ps: seq<Piece>)
    requires AllWellFormed(ps)
    ensures AllProper(UnitsOf(ps)) && Emits(UnitsOf(ps)) == Formats(ps) && Values(UnitsOf(ps)) == Texts(ps)
  {
    hide Emits, Values, BytesUnits, BytesText, FormatBytes;
    if ps == [] {
      NoUnits();
    } else {
      UnitsAre(ps[1..]);
      assert WellFormed(ps[0]);
      if ps[0].Lit? {
        BytesUnitsAre(ps[0].bytes);
      } else {
        EmitsBares(Format(ps[0]));
      }
      EmitsBoth(PieceUnits(ps[0]), UnitsOf(ps[1..]));
    }
  }

  // ----- the directives -----

  function ByteItem(b: Byte): Item {
    if b == NUL then Directive([], LETTER_C) else Byte(b)
  }

  function ByteItems(bytes: seq<Byte>): seq<Item> {
    if bytes == [] then [] else [ByteItem(bytes[0])] + ByteItems(bytes[1..])
  }

  function PieceItems(p: Piece): seq<Item> {
    match p
    case Lit(bytes) => ByteItems(bytes)
    case Name(text) => ByteItems(text)
    case Conv(mods, letter, _) => [Directive(mods, letter)]
  }

  function Items(ps: seq<Piece>): seq<Item> {
    if ps == [] then [] else PieceItems(ps[0]) + Items(ps[1..])
  }

  lemma ByteParses(b: Byte, rest: seq<Byte>)
    ensures Parse(ByteText(b) + rest) == Then([ByteItem(b)], Parse(rest))
  {
    var s := ByteText(b) + rest;
    assert s[|ByteText(b)|..] == rest;
    if b == NUL {
      assert s[1..][0] == LETTER_C && !Modifier(LETTER_C);
      assert ModRun(s[1..]) == 0;
      assert s[1..1] == [];
    }
  }

  lemma ThenThen(a: seq<Item>, b: seq<Item>, rest: Option<seq<Item>>)
    ensures Then(a, Then(b, rest)) == Then(a + b, rest) && Then([], rest) == rest
  {
    if rest.Some? {
      assert a + (b + rest.value) == (a + b) + rest.value;
      assert [] + rest.value == rest.value;
    }
  }

  lemma {:induction false} BytesParse(bytes: seq<Byte>, rest: seq<Byte>)
    ensures Parse(BytesText(bytes) + rest) == Then(ByteItems(bytes), Parse(rest))
  {
    hide Parse, ByteText, ByteItem;
    if bytes == [] {
      assert [] + rest == rest;
      ThenThen([], [], Parse(rest));
    } else {
      BytesParse(bytes[1..], rest);
      ByteParses(bytes[0], BytesText(bytes[1..]) + rest);
      assert BytesText(bytes) + rest == ByteText(bytes[0]) + (BytesText(bytes[1..]) + rest);
      ThenThen([ByteItem(bytes[0])], ByteItems(bytes[1..]), Parse(rest));
    }
  }

  lemma {:induction false} NameText(text: seq<Byte>)
    requires forall i :: 0 <= i < |text| ==> Printable(text[i])
    ensures BytesText(text) == text
  {
    if text != [] {
      NameText(text[1..]);
      assert text == [text[0]] + text[1..];
    }
  }

  lemma {:induction false} ModRunIs(mods: seq<Byte>, letter: Byte, rest: seq<Byte>)
    requires (forall i :: 0 <= i < |mods| ==> Modifier(mods[i])) && !Modifier(letter)
    ensures ModRun(mods + [letter] + rest) == |mods|
  {
    var s := mods + [letter] + rest;
    if mods != [] {
      ModRunIs(mods[1..], letter, rest);
      assert s[1..] == mods[1..] + [letter] + rest;
    }
  }

  lemma ConvParses(mods: seq<Byte>, letter: Byte, rest: seq<Byte>)
    requires (forall i :: 0 <= i < |mods| ==> Modifier(mods[i])) && Printable(letter) && !Modifier(letter)
    ensures Parse([PERCENT] + mods + [letter] + rest) == Then([Directive(mods, letter)], Parse(rest))
  {
    var s := [PERCENT] + mods + [letter] + rest;
    var n := |mods|;
    ModRunIs(mods, letter, rest);
    assert s[1..] == mods + [letter] + rest;
    assert s[1..n + 1] == mods && s[n + 1] == letter && s[n + 2..] == rest;
    assert s[1] == if n == 0 then letter else mods[0];
  }

  lemma {:induction false} TextsParse(ps: seq<Piece>)
    requires AllWellFormed(ps)
    ensures Parse(Texts(ps)) == Some(Items(ps))
  {
    hide Parse;
    if ps == [] {
      NothingParsed();
    } else {
      TextsParse(ps[1..]);
      assert WellFormed(ps[0]);
      match ps[0] {
        case Lit(bytes) => BytesParse(bytes, Texts(ps[1..]));
        case Name(text) =>
          NameText(text);
          BytesParse(text, Texts(ps[1..]));
        case Conv(mods, letter, _) => ConvParses(mods, letter, Texts(ps[1..]));
      }
    }
  }

  lemma NothingParsed()
    ensures Parse([]) == Some([])
  {
  }

  // ----- the output -----

  lemma BeforeNothing(rest: Option<seq<Byte>>)
    ensures Before([], rest) == rest
  {
    if rest.Some? {
      assert [] + rest.value == rest.value;
    }
  }

  lemma {:induction false} BytesPrint(bytes: seq<Byte>, items: seq<Item>, args: seq<Arg>, show: Show)
    requires show([], LETTER_C, [Zero]) == Some([NUL])
    ensures Printed(ByteItems(bytes) + items, ByteArgs(bytes) + args, show) == Before(bytes, Printed(items, args, show))
  {
    if bytes == [] {
      assert ByteItems(bytes) + items == items && ByteArgs(bytes) + args == args;
      BeforeNothing(Printed(items, args, show));
    } else {
      BytesPrint(bytes[1..], items, args, show);
      var rest, left := ByteItems(bytes[1..]) + items, ByteArgs(bytes[1..]) + args;
      assert ByteItems(bytes) + items == [ByteItem(bytes[0])] + rest;
      if bytes[0] == NUL {
        assert ByteArgs(bytes) + args == [Zero] + left;
        PrintDirective([], LETTER_C, rest, [Zero], left, show);
      } else {
        assert ByteArgs(bytes) + args == left;
        PrintByte(bytes[0], rest, left, show);
      }
      BeforeBefore([bytes[0]], bytes[1..], Printed(items, args, show));
      assert [bytes[0]] + bytes[1..] == bytes;
    }
  }

  lemma PrintByte(b: Byte, items: seq<Item>, args: seq<Arg>, show: Show)
    ensures Printed([Byte(b)] + items, args, show) == Before([b], Printed(items, args, show))
  {
    assert ([Byte(b)] + items)[1..] == items;
  }

  lemma PrintDirective(mods: seq<Byte>, letter: Byte, items: seq<Item>, args: seq<Arg>, more: seq<Arg>, show: Show)
    requires |args| == Takes(mods)
    ensures Printed([Directive(mods, letter)] + items, args + more, show) == Joined(show(mods, letter, args), Printed(items, more, show))
  {
    assert ([Directive(mods, letter)] + items)[1..] == items;
    assert (args + more)[..|args|] == args && (args + more)[|args|..] == more;
  }

  lemma {:induction false} ItemsPrint(ps: seq<Piece>, k: nat, show: Show)
    requires AllWellFormed(ps) && show([], LETTER_C, [Zero]) == Some([NUL])
    ensures Printed(Items(ps), Args(ps, k), show) == Outputs(ps, k, show)
  {
    hide Printed;
    if ps == [] {
      NothingPrinted(show);
    } else {
      ItemsPrint(ps[1..], Next(ps[0], k), show);
      var items, args := Items(ps[1..]), Args(ps[1..], Next(ps[0], k));
      assert WellFormed(ps[0]);
      match ps[0] {
        case Lit(bytes) => BytesPrint(bytes, items, args, show);
        case Name(text) =>
          NoZeros(text);
          BytesPrint(text, items, args, show);
        case Conv(mods, letter, _) => PrintDirective(mods, letter, items, PieceArgs(ps[0], k), args, show);
      }
    }
  }

  lemma NothingPrinted(show: Show)
    ensures Printed([], [], show) == Some([])
  {
  }

  lemma {:induction false} NoZeros(text: seq<Byte>)
    requires forall i :: 0 <= i < |text| ==> Printable(text[i])
    ensures ByteArgs(text) == []
  {
    if text != [] {
      NoZeros(text[1..]);
    }
  }

  ghost predicate HasTrigraph(s: seq<Byte>) {
    exists i :: 0 <= i < |s| && TrigraphAt(s, i)
  }

  /** The literal is read as the format that is meant, and expanding that with the
      emitted arguments prints each literal byte, each name and each conversion, in
      order. */
  predicate Works(ps: seq<Piece>, show: Show) {
    var text := Read(Phase1(Formats(ps)));
    && text == Some(Texts(ps)) && Parse(text.value).Some?
    && Printed(Parse(text.value).value, Args(ps, 0), show) == Outputs(ps, 0, show)
  }

  /** Whatever the pieces, NUL bytes, percent signs and digits after an escape included:
      the emitted format works if and only if no trigraph stands in it. */
  lemma FormatMeans(ps: seq<Piece>, show: Show)
    requires AllWellFormed(ps) && show([], LETTER_C, [Zero]) == Some([NUL])
    ensures Works(ps, show) <==> !HasTrigraph(Formats(ps))
  {
    UnitsAre(ps);
    UnitsExact(UnitsOf(ps));
    TextsParse(ps);
    ItemsPrint(ps, 0, show);
  }

  predicate NoQuestion(p: Piece) {
    p.Lit? || QUESTION !in Format(p)
  }

  lemma FormatByteGuarded(b: Byte)
    ensures Guarded(FormatByte(b))
  {
  }

  lemma {:induction false} FormatBytesGuarded(bytes: seq<Byte>)
    ensures Guarded(FormatBytes(bytes))
  {
    if bytes != [] {
      FormatByteGuarded(bytes[0]);
      FormatBytesGuarded(bytes[1..]);
      GuardedTogether(FormatByte(bytes[0]), FormatBytes(bytes[1..]));
    }
  }

  lemma GuardedTogether(s: seq<Byte>, t: seq<Byte>)
    requires Guarded(s) && Guarded(t)
    ensures Guarded(s + t)
  {
    forall i | 0 <= i < |s + t| && (s + t)[i] == QUESTION ensures i > 0 && (s + t)[i - 1] == BACKSLASH {
      if i >= |s| {
        assert t[i - |s|] == QUESTION;
      }
    }
  }

  /** A literal's own question marks never make one; only names can. */
  lemma {:induction false} OnlyNamesMakeTrigraphs(ps: seq<Piece>)
    requires forall i :: 0 <= i < |ps| ==> NoQuestion(ps[i])
    ensures Guarded(Formats(ps)) && !HasTrigraph(Formats(ps))
  {
    if ps != [] {
      OnlyNamesMakeTrigraphs(ps[1..]);
      assert NoQuestion(ps[0]);
      if ps[0].Lit? {
        FormatBytesGuarded(ps[0].bytes);
      }
      GuardedTogether(Format(ps[0]), Formats(ps[1..]));
    }
  }
}
