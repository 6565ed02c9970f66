/** When a literal made of raw bytes and escapes is read back although some question
    marks in it are raw. */
module Trigraphs {
  import opened StringLiteral

  /** A byte written as itself, or as an escape. */
  datatype Unit = Bare(b: Byte) | Coded(b: Byte)

  predicate Proper(u: Unit) {
    if u.Bare? then u.b != BACKSLASH && u.b != QUOTE && u.b != LF else |CByte(u.b, false)| > 1
  }

  predicate AllProper(us: seq<Unit>) {
    forall i :: 0 <= i < |us| ==> Proper(us[i])
  }

  function Emit(u: Unit): (s: seq<Byte>)
    ensures |s| >= 1
  {
    if u.Bare? then [u.b] else CByte(u.b, false)
  }

  function Emits(us: seq<Unit>): seq<Byte> {
    if us == [] then [] else Emit(us[0]) + Emits(us[1..])
  }

  function Values(us: seq<Unit>): (s: seq<Byte>)
    ensures |s| == |us| && forall i :: 0 <= i < |us| ==> s[i] == us[i].b
  {
    if us == [] then [] else [us[0].b] + Values(us[1..])
  }

  lemma UnitReads(u: Unit, rest: seq<Byte>)
    requires Proper(u)
    ensures Read(Emit(u) + rest) == Before([u.b], Read(rest))
  {
    hide Read;
    if u.Bare? {
      PlainReads([u.b], rest);
    } else {
      ByteReads(u.b, false, rest);
    }
  }

  lemma {:induction false} UnitsRead(us: seq<Unit>)
    requires AllProper(us)
    ensures Read(Emits(us)) == Some(Values(us))
  {
    if us != [] {
      UnitsRead(us[1..]);
      UnitReads(us[0], Emits(us[1..]));
    }
  }

  // ----- trigraphs among the units -----

  /** The first unit starts a trigraph with its last byte. */
  predicate HeadTrigraph(us: seq<Unit>) {
    |us| >= 3 && us[0].b == QUESTION && us[1] == Bare(QUESTION) && us[2].Bare? && Trigraph(us[2].b).Some?
  }

  predicate AnyTrigraph(us: seq<Unit>) {
    us != [] && (HeadTrigraph(us) || AnyTrigraph(us[1..]))
  }

  function Rest(us: seq<Unit>): seq<Byte> {
    Phase1(Emits(us))
  }

  lemma Phase1Char(c: Byte, s: seq<Byte>)
    requires c != QUESTION || !TrigraphAt([c] + s, 0)
    ensures Phase1([c] + s) == [c] + Phase1(s)
  {
    assert ([c] + s)[1..] == s;
  }

  lemma Phase1Three(c: Byte, s: seq<Byte>)
    requires Trigraph(c).Some?
    ensures Phase1([QUESTION, QUESTION, c] + s) == [Trigraph(c).value] + Phase1(s)
  {
    assert ([QUESTION, QUESTION, c] + s)[3..] == s;
  }

  lemma HeadQuestion(us: seq<Unit>)
    requires AllProper(us) && us != [] && us[0].b == QUESTION
    ensures TrigraphAt([QUESTION] + Emits(us[1..]), 0) <==> HeadTrigraph(us)
  {
    var s := Emits(us[1..]);
    if |us| > 1 {
      assert s == Emit(us[1]) + Emits(us[1..][1..]);
      assert us[1..][1..] == us[2..];
      if us[1] == Bare(QUESTION) && |us| > 2 {
        assert Emits(us[2..]) == Emit(us[2]) + Emits(us[2..][1..]);
        assert ([QUESTION] + s)[2] == Emit(us[2])[0];
      }
    }
  }

  /** Phase 1, unit by unit. */
  lemma PhaseStep(us: seq<Unit>)
    requires AllProper(us) && us != []
    ensures Rest(us) == if HeadTrigraph(us) then (if us[0].Coded? then [BACKSLASH] else []) + [Trigraph(us[2].b).value] + Rest(us[3..])
                        else Emit(us[0]) + Rest(us[1..])
  {
    hide Phase1, CByte, TrigraphAt;
    if us[0].b == QUESTION {
      QuestionStep(us);
    } else {
      NoQuestionIn(us[0]);
      if us[0].Bare? || |Emit(us[0])| == 2 {
        ShortStep(Emit(us[0]), Emits(us[1..]));
      } else {
        LongStep(us[0].b, Emits(us[1..]));
      }
    }
  }

  lemma NoQuestionIn(u: Unit)
    requires Proper(u) && u.b != QUESTION
    ensures QUESTION !in Emit(u) && (u.Coded? ==> |Emit(u)| == 2 || |Emit(u)| == 4)
  {
  }

  lemma QuestionStep(us: seq<Unit>)
    requires AllProper(us) && us != [] && us[0].b == QUESTION
    ensures Rest(us) == if HeadTrigraph(us) then (if us[0].Coded? then [BACKSLASH] else []) + [Trigraph(us[2].b).value] + Rest(us[3..])
                        else Emit(us[0]) + Rest(us[1..])
  {
    hide Phase1, TrigraphAt, Emits, Emit, CByte;
    var s := Emits(us[1..]);
    HeadQuestion(us);
    QuestionEmits(us);
    if us[0].Coded? {
      Phase1Char(BACKSLASH, [QUESTION] + s);
    }
    if HeadTrigraph(us) {
      Phase1Three(us[2].b, Emits(us[3..]));
      var v := [Trigraph(us[2].b).value];
      assert [BACKSLASH] + (v + Rest(us[3..])) == [BACKSLASH] + v + Rest(us[3..]) && [] + v == v;
    } else {
      Phase1Char(QUESTION, s);
      assert [BACKSLASH] + ([QUESTION] + Phase1(s)) == [BACKSLASH, QUESTION] + Phase1(s);
    }
  }

  lemma QuestionEmits(us: seq<Unit>)
    requires us != [] && us[0].b == QUESTION
    ensures Emit(us[0]) == (if us[0].Coded? then [BACKSLASH, QUESTION] else [QUESTION])
    ensures Emits(us) == if us[0].Coded? then [BACKSLASH] + ([QUESTION] + Emits(us[1..])) else [QUESTION] + Emits(us[1..])
    ensures HeadTrigraph(us) ==> [QUESTION] + Emits(us[1..]) == [QUESTION, QUESTION, us[2].b] + Emits(us[3..])
  {
    hide Emits, CByte;
    OneUnit(us);
    QuestionEmit(us[0]);
    if us[0].Coded? {
      assert [BACKSLASH, QUESTION] + Emits(us[1..]) == [BACKSLASH] + ([QUESTION] + Emits(us[1..]));
    }
    if HeadTrigraph(us) {
      OneUnit(us[1..]);
      OneUnit(us[2..]);
      assert us[1..][1..] == us[2..] && us[2..][1..] == us[3..];
      assert [QUESTION] + ([QUESTION] + ([us[2].b] + Emits(us[3..]))) == [QUESTION, QUESTION, us[2].b] + Emits(us[3..]);
    }
  }

  lemma QuestionEmit(u: Unit)
    requires u.b == QUESTION
    ensures Emit(u) == if u.Coded? then [BACKSLASH, QUESTION] else [QUESTION]
  {
  }

  lemma ShortStep(e: seq<Byte>, s: seq<Byte>)
    requires 1 <= |e| <= 2 && QUESTION !in e
    ensures Phase1(e + s) == e + Phase1(s)
  {
    hide Phase1;
    if |e| == 1 {
      assert e == [e[0]];
      Phase1Char(e[0], s);
    } else {
      assert e == [e[0], e[1]] && e + s == [e[0]] + ([e[1]] + s);
      Phase1Char(e[1], s);
      Phase1Char(e[0], [e[1]] + s);
    }
  }

  lemma LongStep(b: Byte, s: seq<Byte>)
    requires |CByte(b, false)| == 4
    ensures Phase1(CByte(b, false) + s) == CByte(b, false) + Phase1(s)
  {
    hide Phase1;
    var e := CByte(b, false);
    assert e == e[..2] + e[2..];
    ShortStep(e[2..], s);
    ShortStep(e[..2], e[2..] + s);
    assert e + s == e[..2] + (e[2..] + s);
  }

  lemma OneUnit(us: seq<Unit>)
    requires us != []
    ensures Emits(us) == Emit(us[0]) + Emits(us[1..]) && Values(us) == [us[0].b] + Values(us[1..])
  {
  }

  lemma HeadEmits(us: seq<Unit>)
    requires HeadTrigraph(us)
    ensures Emits(us) == Emit(us[0]) + [QUESTION, us[2].b] + Emits(us[3..])
  {
    hide CByte, Emits;
    OneUnit(us);
    OneUnit(us[1..]);
    OneUnit(us[2..]);
    assert us[1..][1..] == us[2..] && us[2..][1..] == us[3..];
  }

  lemma {:induction false} UnitTrigraphs(us: seq<Unit>)
    requires AllProper(us)
    ensures Rest(us) == Emits(us) <==> !AnyTrigraph(us)
    ensures |Rest(us)| <= |Emits(us)|
  {
    hide Phase1, CByte;
    if us == [] {
      assert Rest([]) == [] by { NoTrigraphs([]); }
    } else {
      NoTrigraphs(Emits(us));
      PhaseStep(us);
      if HeadTrigraph(us) {
        NoTrigraphs(Emits(us[3..]));
        HeadEmits(us);
      } else {
        UnitTrigraphs(us[1..]);
        var e := Emit(us[0]);
        assert (e + Rest(us[1..]))[|e|..] == Rest(us[1..]) && (e + Emits(us[1..]))[|e|..] == Emits(us[1..]);
      }
    }
  }

  // ----- a trigraph is always noticed -----

  /** A digit that is left after phase 1 was a raw one. */
  lemma Peel(us: seq<Unit>)
    requires AllProper(us)
    ensures Rest(us) != [] && HexDigit(Rest(us)[0]).Some? ==> us != [] && Rest(us)[1..] == Rest(us[1..])
  {
    hide Phase1;
    if us == [] {
      NoTrigraphs([]);
    } else {
      PhaseStep(us);
    }
  }

  lemma {:induction false} PeelOctal(us: seq<Unit>, most: nat)
    requires AllProper(us)
    ensures var n := OctalRun(Rest(us), most); n <= |us| && Rest(us)[n..] == Rest(us[n..])
    decreases most
  {
    hide Rest;
    var n := OctalRun(Rest(us), most);
    if n > 0 {
      Peel(us);
      PeelOctal(us[1..], most - 1);
      assert us[1..][n - 1..] == us[n..];
      assert Rest(us)[1..][n - 1..] == Rest(us)[n..];
    }
  }

  lemma {:induction false} PeelHex(us: seq<Unit>)
    requires AllProper(us)
    ensures var n := HexRun(Rest(us)); n <= |us| && Rest(us)[n..] == Rest(us[n..])
  {
    hide Rest;
    var n := HexRun(Rest(us));
    if n > 0 {
      Peel(us);
      PeelHex(us[1..]);
      assert us[1..][n - 1..] == us[n..];
      assert Rest(us)[1..][n - 1..] == Rest(us)[n..];
    }
  }

  /** At most so many bytes are read, unless none are. */
  predicate AtMost(r: Option<seq<Byte>>, n: int) {
    r.Some? ==> |r.value| <= n
  }

  lemma ReadRaw(c: Byte, s: seq<Byte>)
    requires c != BACKSLASH
    ensures Read([c] + s) == if c == QUOTE || c == LF then None else Before([c], Read(s))
  {
    assert ([c] + s)[1..] == s;
  }

  /** What a backslash makes of the bytes behind it. */
  lemma ReadEscape(s: seq<Byte>)
    ensures Read([BACKSLASH] + s) ==
            if s == [] then None
            else if CSimple(s[0]).Some? then Before([CSimple(s[0]).value], Read(s[1..]))
            else if Octal(s[0]) then
              var n := OctalRun(s, 3);
              var v := OctalValue(s[..n]);
              if v < 256 && n > 0 then Before([v], Read(s[n..])) else None
            else if s[0] == LETTER_X then
              var n := HexRun(s[1..]);
              var v := HexValue(s[1..][..n]);
              if v < 256 && n > 0 then Before([v], Read(s[1..][n..])) else None
            else None
  {
    hide OctalRun, OctalValue, HexRun, HexValue, CSimple;
    var t := [BACKSLASH] + s;
    assert t[1..] == s;
    if s != [] {
      assert t[2..] == s[1..];
      assert forall n :: 0 <= n <= |s| ==> t[1 + n..] == s[n..];
      assert forall n :: 0 <= n <= |s| - 1 ==> t[2 + n..] == s[1..][n..];
    }
  }

  /** The characters a trigraph stands for start no escape but the backslash's own. */
  lemma TrigraphValues(c: Byte)
    requires Trigraph(c).Some? && Trigraph(c).value != BACKSLASH
    ensures var v := Trigraph(c).value;
            CSimple(v).None? && !Octal(v) && v != LETTER_X && v != QUOTE && v != LF && v != QUESTION
  {
  }

  /** Reading what phase 1 leaves gives no more bytes than there are units, and no more
      than three beyond that behind a backslash that a trigraph left over; a `?` comes
      first there only at the price of those three. */
  lemma {:induction false} ReadBounded(us: seq<Unit>)
    requires AllProper(us)
    ensures AtMost(Read(Rest(us)), |us|)
    ensures AtMost(Read([BACKSLASH] + Rest(us)), |us| + 3)
    ensures var r := Read([BACKSLASH] + Rest(us)); r.Some? && r.value[..1] == [QUESTION] ==> |r.value| <= |us|
    decreases |us|
  {
    hide Rest, Read, CByte;
    if us == [] {
      Nothing();
    } else {
      PhaseStep(us);
      if HeadTrigraph(us) {
        ReadBounded(us[3..]);
        TrigraphBounded(us);
      } else if us[0].Coded? {
        ReadBounded(us[1..]);
        UnitReads(us[0], Rest(us[1..]));
        CodedBounded(us[0].b, Rest(us[1..]), |us| - 1);
      } else {
        forall k | 0 < k <= |us| ensures AtMost(Read(Rest(us[k..])), |us| - k) {
          ReadBounded(us[k..]);
        }
        UnitReads(us[0], Rest(us[1..]));
        RawBounded(us);
      }
    }
  }

  lemma Nothing()
    ensures Rest([]) == [] && Read([]) == Some([]) && Read([BACKSLASH] + []) == None
  {
  }

  lemma TrigraphBounded(us: seq<Unit>)
    requires AllProper(us) && HeadTrigraph(us)
    requires AtMost(Read(Rest(us[3..])), |us| - 3) && AtMost(Read([BACKSLASH] + Rest(us[3..])), |us|)
    ensures AtMost(Read(Rest(us)), |us|)
    ensures var r := Read([BACKSLASH] + Rest(us)); AtMost(r, |us| + 3) && (r.Some? ==> r.value[..1] != [QUESTION])
  {
    hide Rest, Read, Emit, CByte;
    PhaseStep(us);
    var v, z := Trigraph(us[2].b).value, Rest(us[3..]);
    ReadEscape([v] + z);
    assert ([v] + z)[1..] == z;
    if v != BACKSLASH {
      TrigraphValues(us[2].b);
      ReadRaw(v, z);
    }
    if us[0].Coded? {
      assert Rest(us) == [BACKSLASH] + ([v] + z);
      ReadEscape([BACKSLASH] + ([v] + z));
      assert ([BACKSLASH] + ([v] + z))[1..] == [v] + z;
    } else {
      assert Rest(us) == [v] + z;
    }
  }

  /** An escape behind a stray backslash: its own backslash is taken, and the rest of
      it is raw. */
  lemma CodedBounded(b: Byte, z: seq<Byte>, n: nat)
    requires |CByte(b, false)| > 1 && AtMost(Read(z), n) && AtMost(Read([BACKSLASH] + z), n + 3)
    ensures var r := Read([BACKSLASH] + (CByte(b, false) + z)); AtMost(r, n + 4) && (r.Some? ==> r.value[..1] == [BACKSLASH])
  {
    hide Read;
    var e := CByte(b, false);
    var tail := e[1..];
    assert e + z == [BACKSLASH] + (tail + z);
    ReadEscape(e + z);
    assert (e + z)[1..] == tail + z;
    if |e| == 2 {
      assert tail == [e[1]];
      if e[1] != BACKSLASH {
        ReadRaw(e[1], z);
      }
    } else {
      assert tail + z == [e[1]] + ([e[2]] + ([e[3]] + z));
      ReadRaw(e[1], [e[2]] + ([e[3]] + z));
      ReadRaw(e[2], [e[3]] + z);
      ReadRaw(e[3], z);
    }
  }

  lemma RawBounded(us: seq<Unit>)
    requires AllProper(us) && us != [] && us[0].Bare? && !HeadTrigraph(us)
    requires forall k :: 0 < k <= |us| ==> AtMost(Read(Rest(us[k..])), |us| - k)
    ensures AtMost(Read([BACKSLASH] + Rest(us)), |us|)
  {
    hide Rest, Read, OctalRun, OctalValue, HexRun, HexValue, CSimple, HexDigit;
    PhaseStep(us);
    var b, z := us[0].b, Rest(us[1..]);
    ReadEscape([b] + z);
    assert Rest(us) == [b] + z && ([b] + z)[1..] == z;
    if CSimple(b).Some? {
    } else if Octal(b) {
      PeelOctal(us, 3);
      var n := OctalRun(Rest(us), 3);
    } else if b == LETTER_X {
      PeelHex(us[1..]);
      var n := HexRun(z);
      assert us[1..][n..] == us[1 + n..];
    }
  }

  lemma {:induction false} Noticed(us: seq<Unit>)
    requires AllProper(us) && AnyTrigraph(us)
    ensures Read(Rest(us)) != Some(Values(us))
  {
    hide Rest, Read, CByte;
    PhaseStep(us);
    if HeadTrigraph(us) {
      NoticedHere(us);
    } else {
      Noticed(us[1..]);
      UnitReads(us[0], Rest(us[1..]));
      assert Values(us)[1..] == Values(us[1..]);
    }
  }

  lemma NoticedHere(us: seq<Unit>)
    requires AllProper(us) && HeadTrigraph(us)
    ensures Read(Rest(us)) != Some(Values(us))
  {
    hide Rest, Read, CByte;
    PhaseStep(us);
    var v, z := Trigraph(us[2].b).value, Rest(us[3..]);
    ReadBounded(us[3..]);
    if v != BACKSLASH {
      TrigraphValues(us[2].b);
      ReadRaw(v, z);
    }
    ReadEscape([v] + z);
    assert ([v] + z)[1..] == z;
    if us[0].Coded? {
      assert Rest(us) == [BACKSLASH] + ([v] + z);
    } else {
      assert Rest(us) == [v] + z;
    }
    assert Values(us)[..1] == [QUESTION];
  }

  /** Whatever the units: a C compiler reads the literal as their bytes if and only if
      no trigraph stands in it. */
  lemma UnitsExact(us: seq<Unit>)
    requires AllProper(us)
    ensures Read(Phase1(Emits(us))) == Some(Values(us)) <==> !exists i :: 0 <= i < |Emits(us)| && TrigraphAt(Emits(us), i)
  {
    hide Read, Phase1, Emits;
    NoTrigraphs(Emits(us));
    UnitTrigraphs(us);
    UnitsRead(us);
    if AnyTrigraph(us) {
      Noticed(us);
    }
  }
}
