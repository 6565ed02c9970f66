/** JSON values, their text, and the parser as a function. */
module JsonText {

  newtype Byte = x: int | 0 <= x < 256

  type Bytes = seq<Byte>

  datatype Option<T> = None | Some(value: T)

  /** A number is an integer, or text that only the C library turns into one. */
  datatype Json =
    | Null
    | Bool(b: bool)
    | Int(i: int)
    | Float(text: Bytes)
    | Str(s: Bytes)
    | Arr(items: seq<Json>)
    | Obj(members: seq<Member>)

  datatype Member = Member(key: Bytes, value: Json)

  // ----- characters -----

  const QUOTE: Byte := 34
  const BACKSLASH: Byte := 92
  const COMMA: Byte := 44
  const COLON: Byte := 58
  const LBRACKET: Byte := 91
  const RBRACKET: Byte := 93
  const LBRACE: Byte := 123
  const RBRACE: Byte := 125
  const MINUS: Byte := 45
  const PLUS: Byte := 43
  const LOWER_U: Byte := 117
  const TRUE: Bytes := [116, 114, 117, 101]
  const FALSE: Bytes := [102, 97, 108, 115, 101]
  const NULL: Bytes := [110, 117, 108, 108]

  /** 2^53: integers up to it are exact as doubles. */
  const EXACT: int := 0x20_0000_0000_0000

  predicate IsSpace(c: Byte) { c == 32 || c == 9 || c == 10 || c == 13 }

  predicate IsDigit(c: Byte) { 48 <= c <= 57 }

  predicate IsNumberChar(c: Byte) {
    IsDigit(c) || c == 46 || c == 101 || c == 69 || c == PLUS || c == MINUS
  }

  // ----- text of a value -----

  function Hex(d: int): Byte
    requires 0 <= d < 16
  {
    if d < 10 then (48 + d) as Byte else (87 + d) as Byte
  }

  function EscapeByte(c: Byte): Bytes {
    if c == QUOTE then [BACKSLASH, QUOTE]
    else if c == BACKSLASH then [BACKSLASH, BACKSLASH]
    else if c == 8 then [BACKSLASH, 98]
    else if c == 12 then [BACKSLASH, 102]
    else if c == 10 then [BACKSLASH, 110]
    else if c == 13 then [BACKSLASH, 114]
    else if c == 9 then [BACKSLASH, 116]
    else if c < 32 then [BACKSLASH, LOWER_U, 48, 48, Hex(c as int / 16), Hex(c as int % 16)]
    else [c]
  }

  function EscapeAll(s: Bytes): Bytes {
    if s == [] then [] else EscapeByte(s[0]) + EscapeAll(s[1..])
  }

  function StringText(s: Bytes): Bytes {
    [QUOTE] + EscapeAll(s) + [QUOTE]
  }

  function Digits(n: nat): (r: Bytes)
    ensures |r| > 0 && forall i :: 0 <= i < |r| ==> IsDigit(r[i])
  {
    if n < 10 then [(48 + n) as Byte] else Digits(n / 10) + [(48 + n % 10) as Byte]
  }

  function IntText(i: int): Bytes {
    if i < 0 then [MINUS] + Digits(-i) else Digits(i)
  }

  /** A key is a C string: it ends at its first NUL. */
  function UpToNul(s: Bytes): Bytes {
    if s == [] || s[0] == 0 then [] else [s[0]] + UpToNul(s[1..])
  }

  function Text(v: Json): Bytes
    decreases v, 1
  {
    match v
    case Null => NULL
    case Bool(b) => if b then TRUE else FALSE
    case Int(i) => IntText(i)
    case Float(text) => text
    case Str(s) => StringText(s)
    case Arr(items) => [LBRACKET] + ItemsText(items) + [RBRACKET]
    case Obj(members) => [LBRACE] + MembersText(members) + [RBRACE]
  }

  function ItemsText(items: seq<Json>): Bytes
    decreases items, 0
  {
    if items == [] then []
    else if |items| == 1 then Text(items[0])
    else Text(items[0]) + [COMMA] + ItemsText(items[1..])
  }

  function MembersText(members: seq<Member>): Bytes
    decreases members, 0
  {
    if members == [] then []
    else
      var m := members[0];
      assert m.value < m;
      var first := StringText(UpToNul(m.key)) + [COLON] + Text(m.value);
      if |members| == 1 then first else first + [COMMA] + MembersText(members[1..])
  }

  // ----- the parser -----

  type Parsed<T> = Option<(T, nat)>

  function SkipSpace(t: Bytes, p: nat): (q: nat)
    ensures p <= q && (p <= |t| ==> q <= |t|)
    decreases |t| - p
  {
    if p < |t| && IsSpace(t[p]) then SkipSpace(t, p + 1) else p
  }

  /** UTF-8 (RFC 3629 section 3). */
  function Utf8(cp: nat): (r: Bytes)
    requires cp < 0x110000
    ensures 1 <= |r| <= 4 && (cp <= 0xFFFF ==> |r| <= 3)
  {
    if cp <= 0x7F then [cp as Byte]
    else if cp <= 0x7FF then [(0xC0 + cp / 64) as Byte, (0x80 + cp % 64) as Byte]
    else if cp <= 0xFFFF then
      [(0xE0 + cp / 4096) as Byte, (0x80 + cp / 64 % 64) as Byte, (0x80 + cp % 64) as Byte]
    else
      [(0xF0 + cp / 0x40000) as Byte, (0x80 + cp / 4096 % 64) as Byte, (0x80 + cp / 64 % 64) as Byte,
       (0x80 + cp % 64) as Byte]
  }

  function HexValue(c: Byte): (r: Option<nat>)
    ensures r.Some? ==> r.value < 16
  {
    if IsDigit(c) then Some(c as int - 48)
    else if 97 <= c <= 102 then Some(c as int - 87)
    else if 65 <= c <= 70 then Some(c as int - 55)
    else None
  }

  function Hex4(t: Bytes, p: nat): (r: Option<nat>)
    ensures r.Some? ==> p + 4 <= |t| && r.value < 0x10000
  {
    if p + 4 > |t| then None
    else
      var a, b, c, d := HexValue(t[p]), HexValue(t[p + 1]), HexValue(t[p + 2]), HexValue(t[p + 3]);
      if a.None? || b.None? || c.None? || d.None? then None
      else Some(((a.value * 16 + b.value) * 16 + c.value) * 16 + d.value)
  }

  /** The escape whose letter is at `p`: what it stands for, and where it ends. */
  function ParseEscape(t: Bytes, p: nat): (r: Parsed<Bytes>)
    ensures r.Some? ==> p < r.value.1 <= |t| && |r.value.0| <= r.value.1 - p
  {
    if p >= |t| then None
    else
      var e := t[p];
      if e == QUOTE || e == BACKSLASH || e == 47 then Some(([e], p + 1))
      else if e == 98 then Some(([8], p + 1))
      else if e == 102 then Some(([12], p + 1))
      else if e == 110 then Some(([10], p + 1))
      else if e == 114 then Some(([13], p + 1))
      else if e == 116 then Some(([9], p + 1))
      else if e == LOWER_U then
        match Hex4(t, p + 1)
        case None => None
        case Some(hi) =>
          var q := p + 5;
          if 0xD800 <= hi <= 0xDBFF && q + 2 <= |t| && t[q] == BACKSLASH && t[q + 1] == LOWER_U then
            match Hex4(t, q + 2)
            case None => None
            case Some(lo) =>
              var cp := if 0xDC00 <= lo <= 0xDFFF then 0x10000 + (hi - 0xD800) * 1024 + (lo - 0xDC00) else hi;
              Some((Utf8(cp), q + 6))
          else Some((Utf8(hi), q))
      else None
  }

  /** The string whose opening quote is just before `p`. Decoding never outgrows its
      source. */
  function ParseString(t: Bytes, p: nat): (r: Parsed<Bytes>)
    ensures r.Some? ==> p < r.value.1 <= |t| && |r.value.0| <= r.value.1 - p - 1
    decreases |t| - p
  {
    if p >= |t| then None
    else if t[p] == QUOTE then Some(([], p + 1))
    else if t[p] == BACKSLASH then
      match ParseEscape(t, p + 1)
      case None => None
      case Some((bytes, q)) =>
        (match ParseString(t, q)
         case None => None
         case Some((rest, end)) => Some((bytes + rest, end)))
    else
      match ParseString(t, p + 1)
      case None => None
      case Some((rest, end)) => Some(([t[p]] + rest, end))
  }

  function NumberEnd(t: Bytes, p: nat): (q: nat)
    ensures p <= q && (p <= |t| ==> q <= |t|)
    decreases |t| - p
  {
    if p < |t| && IsNumberChar(t[p]) then NumberEnd(t, p + 1) else p
  }

  predicate AllDigits(s: Bytes) {
    |s| > 0 && forall i :: 0 <= i < |s| ==> IsDigit(s[i])
  }

  function DigitsValue(s: Bytes): nat
    requires forall i :: 0 <= i < |s| ==> IsDigit(s[i])
  {
    if s == [] then 0
    else
      assert IsDigit(s[|s| - 1]);
      DigitsValue(s[..|s| - 1]) * 10 + (s[|s| - 1] as int - 48)
  }

  /** The double the C library makes of the text: an exact integer, or whatever. */
  function NumberOf(s: Bytes): Json {
    var neg := |s| > 0 && s[0] == MINUS;
    var body := if |s| > 0 && (s[0] == MINUS || s[0] == PLUS) then s[1..] else s;
    if AllDigits(body) && DigitsValue(body) <= EXACT then
      var n: int := DigitsValue(body);
      Int(if neg then -n else n)
    else Float(s)
  }

  function ParseNumber(t: Bytes, p: nat): (r: Parsed<Json>)
    requires p < |t|
    ensures r.Some? ==> p < r.value.1 <= |t|
  {
    var start := if t[p] == MINUS || t[p] == PLUS then p + 1 else p;
    var end := NumberEnd(t, start);
    if end - p <= 0 || end - p >= 64 then None else Some((NumberOf(t[p..end]), end))
  }

  predicate Begins(t: Bytes, p: nat, word: Bytes) {
    p + |word| <= |t| && t[p..p + |word|] == word
  }

  function ParseValue(t: Bytes, from: nat): (r: Parsed<Json>)
    ensures r.Some? ==> from < r.value.1 <= |t|
    decreases |t| - from, 1
  {
    var p := SkipSpace(t, from);
    if p >= |t| then None
    else if t[p] == LBRACE then
      (match ParseObject(t, p + 1)
       case None => None
       case Some((ms, q)) => Some((Obj(ms), q)))
    else if t[p] == LBRACKET then
      (match ParseArray(t, p + 1)
       case None => None
       case Some((items, q)) => Some((Arr(items), q)))
    else if t[p] == QUOTE then
      (match ParseString(t, p + 1)
       case None => None
       case Some((s, q)) => Some((Str(s), q)))
    else if t[p] == 116 then (if Begins(t, p, TRUE) then Some((Bool(true), p + 4)) else None)
    else if t[p] == 102 then (if Begins(t, p, FALSE) then Some((Bool(false), p + 5)) else None)
    else if t[p] == 110 then (if Begins(t, p, NULL) then Some((Null, p + 4)) else None)
    else if t[p] == MINUS || t[p] == PLUS || IsDigit(t[p]) then ParseNumber(t, p)
    else None
  }

  function ParseArray(t: Bytes, from: nat): (r: Parsed<seq<Json>>)
    ensures r.Some? ==> from < r.value.1 <= |t|
    decreases |t| - from, 3
  {
    var p := SkipSpace(t, from);
    if p < |t| && t[p] == RBRACKET then Some(([], p + 1)) else ParseItems(t, p)
  }

  /** One or more items, and the closing bracket. */
  function ParseItems(t: Bytes, p: nat): (r: Parsed<seq<Json>>)
    ensures r.Some? ==> p < r.value.1 <= |t|
    decreases |t| - p, 2
  {
    match ParseValue(t, p)
    case None => None
    case Some((v, q0)) =>
      var q := SkipSpace(t, q0);
      if q >= |t| then None
      else if t[q] == RBRACKET then Some(([v], q + 1))
      else if t[q] != COMMA then None
      else
        match ParseItems(t, SkipSpace(t, q + 1))
        case None => None
        case Some((rest, end)) => Some(([v] + rest, end))
  }

  function ParseObject(t: Bytes, from: nat): (r: Parsed<seq<Member>>)
    ensures r.Some? ==> from < r.value.1 <= |t|
    decreases |t| - from, 4
  {
    var p := SkipSpace(t, from);
    if p < |t| && t[p] == RBRACE then Some(([], p + 1)) else ParseMembers(t, p)
  }

  function ParseMember(t: Bytes, from: nat): (r: Parsed<Member>)
    ensures r.Some? ==> from < r.value.1 <= |t|
    decreases |t| - from, 2
  {
    var p := SkipSpace(t, from);
    if p >= |t| || t[p] != QUOTE then None
    else
      match ParseString(t, p + 1)
      case None => None
      case Some((key, q0)) =>
        var q := SkipSpace(t, q0);
        if q >= |t| || t[q] != COLON then None
        else
          match ParseValue(t, q + 1)
          case None => None
          case Some((v, end)) => Some((Member(key, v), end))
  }

  function ParseMembers(t: Bytes, p: nat): (r: Parsed<seq<Member>>)
    ensures r.Some? ==> p < r.value.1 <= |t|
    decreases |t| - p, 3
  {
    match ParseMember(t, p)
    case None => None
    case Some((m, q0)) =>
      var q := SkipSpace(t, q0);
      if q >= |t| then None
      else if t[q] == RBRACE then Some(([m], q + 1))
      else if t[q] != COMMA then None
      else
        match ParseMembers(t, q + 1)
        case None => None
        case Some((rest, end)) => Some(([m] + rest, end))
  }
}
