/** What positions are made of, told without the functions that compute them: the two
    encodings of a character, the lines of a text and the width of a byte sequence. */
module PositionMeaning {
  import opened Positions

  // ----- characters -----

  /** RFC 3629: the shortest form, a byte that tells the length, and six bits in each
      byte behind it. */
  predicate Encodes(s: seq<Byte>, c: Char) {
    match |s|
    case 1 => c <= 0x7F && s[0] == c
    case 2 => 0x80 <= c <= 0x7FF && 192 <= s[0] <= 223 && Tail(s[1]) && (s[0] as int - 192) * 64 + (s[1] as int - 128) == c
    case 3 =>
      && 0x800 <= c <= 0xFFFF && 224 <= s[0] <= 239 && Tail(s[1]) && Tail(s[2])
      && (s[0] as int - 224) * 4096 + (s[1] as int - 128) * 64 + (s[2] as int - 128) == c
    case 4 =>
      && 0x1_0000 <= c && 240 <= s[0] <= 244 && Tail(s[1]) && Tail(s[2]) && Tail(s[3])
      && (s[0] as int - 240) * 26_2144 + (s[1] as int - 128) * 4096 + (s[2] as int - 128) * 64 + (s[3] as int - 128) == c
    case _ => false
  }

  predicate Tail(b: Byte) {
    128 <= b <= 191
  }

  lemma Utf8Encodes(c: Char)
    ensures Encodes(Utf8(c), c)
  {
    SixBits(c);
    SixBits(c / 64);
    SixBits(c / 4096);
    assert c / 64 / 64 == c / 4096 && c / 4096 / 64 == c / 26_2144;
  }

  lemma SixBits(n: nat)
    ensures n == n / 64 * 64 + n % 64 && 0 <= n % 64 < 64
  {
  }

  /** UTF-16, section 2.1 of RFC 2781: one unit, or a surrogate pair. */
  predicate Encodes16(units: seq<nat>, c: Char) {
    match |units|
    case 1 => c < 0x1_0000 && units[0] == c
    case 2 => 0xD800 <= units[0] <= 0xDBFF && 0xDC00 <= units[1] <= 0xDFFF && c == 0x1_0000 + (units[0] - 0xD800) * 1024 + (units[1] - 0xDC00)
    case _ => false
  }

  lemma UnitsCount(c: Char)
    ensures exists units: seq<nat> :: Encodes16(units, c)
    ensures forall units: seq<nat> :: Encodes16(units, c) ==> Utf16Units(c) == |units|
  {
    if c < 0x1_0000 {
      assert Encodes16([c], c);
    } else {
      var high: nat := 0xD800 + (c - 0x1_0000) / 1024;
      var low: nat := 0xDC00 + (c - 0x1_0000) % 1024;
      assert Encodes16([high, low], c);
    }
  }

  /** The first byte of a sequence tells its length; any other byte is taken alone. */
  lemma LengthsAre(b: Byte)
    ensures SeqLen(b) == if 192 <= b <= 223 then 2 else if 224 <= b <= 239 then 3 else if 240 <= b <= 247 then 4 else 1
    ensures forall c: Char, s: seq<Byte> :: Encodes(s, c) && s[0] == b ==> SeqLen(b) == |s| && SeqUnits(|s|) == Utf16Units(c)
  {
    assert b / 32 == 6 <==> 192 <= b <= 223;
    assert b / 16 == 14 <==> 224 <= b <= 239;
    assert b / 8 == 30 <==> 240 <= b <= 247;
  }

  // ----- texts -----

  lemma {:induction false} TextOf(a: seq<Char>, b: seq<Char>, c: Char)
    ensures Text([]) == [] && Text([c]) == Utf8(c) && Text(a + b) == Text(a) + Text(b)
    ensures Units([]) == 0 && Units([c]) == Utf16Units(c) && Units(a + b) == Units(a) + Units(b)
    decreases |b|
  {
    hide Utf8, Utf16Units;
    One(c);
    if b == [] {
      assert a + b == a;
    } else {
      var n := |b| - 1;
      TextOf(a, b[..n], c);
      assert (a + b)[..|a + b| - 1] == a + b[..n];
      assert Text(a + b) == Text(a + b[..n]) + Utf8(b[n]);
      assert Text(a) + Text(b[..n]) + Utf8(b[n]) == Text(a) + (Text(b[..n]) + Utf8(b[n]));
    }
  }

  lemma One(c: Char)
    ensures Text([c]) == Utf8(c) && Units([c]) == Utf16Units(c)
  {
    hide Utf8, Utf16Units;
    assert [c][..0] == [];
    assert Text([]) + Utf8(c) == Utf8(c);
  }

  // ----- lines -----

  /** Where a line starts: at the start of the text, and behind each line feed. */
  predicate Starts(doc: seq<int>, at: int) {
    at == 0 || (0 < at <= |doc| && doc[at - 1] == 10)
  }

  /** The line that holds the end of the text starts at the last such place. */
  lemma {:induction false} LineStartIs(doc: seq<Char>)
    ensures Starts(doc, LineStart(doc)) && forall at :: LineStart(doc) < at <= |doc| ==> !Starts(doc, at)
    decreases |doc|
  {
    if doc != [] {
      var n := |doc| - 1;
      LineStartIs(doc[..n]);
      StartsBefore(doc, n);
    }
  }

  function Feeds(doc: seq<Char>, n: nat): set<int>
    requires n <= |doc|
  {
    set i | 0 <= i < n && doc[i] == 10
  }

  /** Its number, from 0, is how many line feeds are before. */
  lemma {:induction false} LineIs(doc: seq<Char>, n: nat)
    requires n <= |doc|
    ensures LineOf(doc[..n]) == |Feeds(doc, n)|
    decreases n
  {
    if n > 0 {
      var less: nat := n - 1;
      LineIs(doc, less);
      assert doc[..n][..less] == doc[..less];
      assert Feeds(doc, n) == if doc[less] == 10 then Feeds(doc, less) + {less} else Feeds(doc, less);
    } else {
      assert Feeds(doc, 0) == {};
    }
  }

  lemma StartsBefore(doc: seq<int>, n: nat)
    requires n <= |doc|
    ensures forall at :: at <= n ==> (Starts(doc, at) <==> Starts(doc[..n], at))
  {
  }

  /** The index lists the places where lines start, in order and each once. */
  lemma {:induction false} IndexIs(text: seq<Byte>)
    ensures forall at :: at in LineStarts(text) <==> Starts(text, at)
    ensures forall i, j :: 0 <= i < j < |LineStarts(text)| ==> LineStarts(text)[i] < LineStarts(text)[j]
    decreases |text|
  {
    if text != [] {
      var n := |text| - 1;
      IndexIs(text[..n]);
      StartsBefore(text, n);
      var before, last := LineStarts(text[..n]), if text[n] == 10 then [|text|] else [];
      assert LineStarts(text) == before + last;
      forall at ensures at in before + last <==> Starts(text, at) {
        assert at in before + last <==> at in before || at in last;
        assert at in before <==> Starts(text[..n], at);
      }
      assert forall i :: 0 <= i < |before| ==> before[i] in before && Starts(text[..n], before[i]);
    } else {
      assert LineStarts(text) == [0] && 0 in [0];
    }
  }

  /** The flag that skips the scans: no byte of the text is outside ASCII, which is so
      when no character is. */
  lemma {:induction false} AsciiIs(doc: seq<Char>)
    ensures Ascii(Text(doc)) <==> forall i :: 0 <= i < |doc| ==> doc[i] <= 127
    decreases |doc|
  {
    if doc != [] {
      var n := |doc| - 1;
      AsciiIs(doc[..n]);
      Utf8Encodes(doc[n]);
      assert forall i :: 0 <= i < n ==> doc[..n][i] == doc[i];
      AsciiParts(Text(doc[..n]), Utf8(doc[n]));
      assert doc[n] <= 127 <==> Ascii(Utf8(doc[n]));
    }
  }

  lemma AsciiParts(a: seq<Byte>, b: seq<Byte>)
    ensures Ascii(a + b) <==> Ascii(a) && Ascii(b)
  {
    if Ascii(a + b) {
      assert forall i :: 0 <= i < |a| ==> (a + b)[i] == a[i];
      assert forall i :: 0 <= i < |b| ==> (a + b)[|a| + i] == b[i];
    }
  }

  /** A line that does not exist is taken for the nearest one that does. */
  lemma NearestLine(idx: LineIndex, line0: int, l: nat)
    requires l < |idx.starts|
    ensures var d, e := ClampLine(idx, line0) - line0, l - line0; d * d <= e * e
  {
    var c := ClampLine(idx, line0);
    if line0 < 0 {
      assert (-line0) * (-line0) <= (l - line0) * (l - line0) by {
        Squares(-line0, l - line0);
      }
    } else if line0 >= |idx.starts| {
      Squares(line0 - c, line0 - l);
    } else {
      Squares(0, if l < line0 then line0 - l else l - line0);
    }
  }

  lemma Squares(a: nat, b: nat)
    requires a <= b
    ensures a * a <= b * b
  {
    assert a * a <= a * b && a * b <= b * b;
  }
}
