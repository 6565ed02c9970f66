/** The buffer an interpolation is printed into: each segment's budget, and why the
    text always fits. */
module FormatBudget {
  import opened FormatSpec
  import opened StringLiteral

  // ----- one integer -----

  /** The most digits the argument has, sign apart. */
  function DigitCap(conv: char, t: IntType): nat {
    if !IsUnsigned(conv, t) && t.bits == 64 then 19 else MostDigits(conv, t.bits)
  }

  lemma CapHolds(conv: char, t: IntType, v: int)
    requires Integral(conv) && Exists(t) && InRange(t, v)
    ensures var passed := Passed(conv, t, v);
            var mag := if passed < 0 then -passed else passed;
            |Digits(mag, Base(conv), conv == 'X')| <= DigitCap(conv, t)
  {
    hide Digits;
    var passed := Passed(conv, t, v);
    var mag := if passed < 0 then -passed else passed;
    Powers(conv, t.bits);
    SignedPower();
    FewDigits(mag, Base(conv), conv == 'X', DigitCap(conv, t));
  }

  lemma SignedPower()
    ensures Half(64) < Pow(10, 19)
  {
    assert Pow(10, 5) == 100000 && Pow(10, 10) == 10000000000 && Pow(10, 15) == 1000000000000000;
    assert Pow(10, 19) == 10000000000000000000;
  }

  /** A field is its sign, prefix and digits, widened to the width. */
  lemma PrintedLength(sp: Spec, t: IntType, v: int)
    requires Integral(sp.conversion) && Exists(t) && InRange(t, v)
    ensures var passed := Passed(sp.conversion, t, v);
            var mag := if passed < 0 then -passed else passed;
            var body := |Sign(sp, t, v)| + |Prefix(sp, mag)| + |Numeral(sp, mag)|;
            |Printed(sp, t, v)| == if sp.width > body then sp.width else body
  {
    hide Numeral, Sign, Prefix;
  }

  lemma NumeralLength(sp: Spec, mag: nat, cap: nat)
    requires |Digits(mag, Base(sp.conversion), sp.conversion == 'X')| <= cap
    ensures |Numeral(sp, mag)| <= (if sp.precision > cap then sp.precision else cap) + if sp.hash && sp.conversion == 'o' then 1 else 0
  {
    hide Digits;
  }

  function Larger(a: int, b: int): int {
    if a > b then a else b
  }

  /** The field a type needs, with a minus sign where it may have one. */
  function TypeBound(conv: char, t: IntType): nat {
    if Base(conv) != 10 && !t.named then MostDigits(conv, t.bits)
    else if Base(conv) != 10 then MostDigits(conv, 64)
    else if t.named || t.bits == 64 then 20
    else MostDigits(conv, t.bits) + if t.signed then 1 else 0
  }

  function NumericBound(t: IntType, sp: Spec): nat {
    var typed := if sp.conversion == 'c' then 1 else TypeBound(sp.conversion, t);
    var need := if sp.conversion == 'c' || sp.precision <= 0 then 0
                else sp.precision + if IsUnsigned(sp.conversion, t) then 0 else 1;
    var flags := (if sp.plus then 1 else 0) + (if sp.space then 1 else 0) + (if sp.hash then 2 else 0);
    Larger(Larger(typed, need) + flags, sp.width)
  }

  method TypeField(conv: char, t: IntType) returns (bound: nat)
    requires Integral(conv) && Exists(t)
    ensures bound == TypeBound(conv, t)
  {
    match conv {
      case 'x' | 'X' =>
        if t.named { bound := 16; }
        else if t.bits == 8 { bound := 2; }
        else if t.bits == 16 { bound := 4; }
        else if t.bits == 32 { bound := 8; }
        else { bound := 16; }
      case 'o' =>
        if t.named { bound := 22; }
        else if t.bits == 8 { bound := 3; }
        else if t.bits == 16 { bound := 6; }
        else if t.bits == 32 { bound := 11; }
        else { bound := 22; }
      case _ =>
        if t.named { bound := 20; }
        else if t.bits == 8 { bound := if t.signed then 4 else 3; }
        else if t.bits == 16 { bound := if t.signed then 6 else 5; }
        else if t.bits == 32 { bound := if t.signed then 11 else 10; }
        else { bound := 20; }
    }
  }

  /** The bytes one integer or character can take: enough for every value. */
  method InterpNumericBound(t: IntType, sp: Spec) returns (bound: nat)
    requires Integral(sp.conversion) || sp.conversion == 'c'
    requires Integral(sp.conversion) ==> Exists(t)
    ensures bound == NumericBound(t, sp)
    ensures Integral(sp.conversion) ==> forall v :: InRange(t, v) ==> |Printed(sp, t, v)| <= bound
    ensures sp.conversion == 'c' ==> 1 <= bound && sp.width <= bound
  {
    hide Printed, InRange, TypeBound, IsUnsigned;
    if sp.conversion == 'c' {
      bound := 1;
    } else {
      bound := TypeField(sp.conversion, t);
    }
    if Integral(sp.conversion) && sp.precision > 0 {
      var need := sp.precision + if IsUnsigned(sp.conversion, t) then 0 else 1;
      if need > bound { bound := need; }
    }
    if sp.plus { bound := bound + 1; }
    if sp.space { bound := bound + 1; }
    if sp.hash { bound := bound + 2; }
    if sp.width > bound { bound := sp.width; }
    if Integral(sp.conversion) {
      forall v | InRange(t, v) ensures |Printed(sp, t, v)| <= bound {
        BoundHolds(t, sp, v);
      }
    }
  }

  lemma BoundHolds(t: IntType, sp: Spec, v: int)
    requires Integral(sp.conversion) && Exists(t) && InRange(t, v)
    ensures |Printed(sp, t, v)| <= NumericBound(t, sp)
  {
    hide Printed;
    Fits(sp, t, v, TypeBound(sp.conversion, t), NumericBound(t, sp));
  }

  lemma Fits(sp: Spec, t: IntType, v: int, typed: nat, bound: nat)
    requires Integral(sp.conversion) && Exists(t) && InRange(t, v)
    requires typed >= DigitCap(sp.conversion, t) + if IsUnsigned(sp.conversion, t) then 0 else 1
    requires bound >= sp.width
    requires bound >= typed + (if sp.plus then 1 else 0) + (if sp.space then 1 else 0) + (if sp.hash then 2 else 0)
    requires sp.precision > 0 ==> bound >= sp.precision + (if IsUnsigned(sp.conversion, t) then 0 else 1)
                                           + (if sp.plus then 1 else 0) + (if sp.space then 1 else 0) + (if sp.hash then 2 else 0)
    ensures |Printed(sp, t, v)| <= bound
  {
    hide Printed, Digits, Numeral, DigitCap;
    var passed := Passed(sp.conversion, t, v);
    var mag := if passed < 0 then -passed else passed;
    CapHolds(sp.conversion, t, v);
    PrintedLength(sp, t, v);
    NumeralLength(sp, mag, DigitCap(sp.conversion, t));
  }

  // ----- the segments -----

  /** `Str`: a str, or a cstr, which has no NUL byte before its end. */
  datatype Segment =
    | Literal(bytes: seq<Byte>)
    | TypeName(text: seq<Byte>)
    | Int(spec: Spec, t: IntType)
    | Char(spec: Spec)
    | Str(spec: Spec, terminated: bool)

  datatype Value = IntValue(v: int) | CharValue(c: Byte) | StrValue(bytes: seq<Byte>)

  predicate Checked(seg: Segment) {
    match seg
    case Int(sp, t) => Integral(sp.conversion) && Exists(t)
    case Char(sp) => sp.conversion == 'c'
    case Str(sp, _) => sp.conversion == 's'
    case _ => true
  }

  predicate Suits(seg: Segment, v: Value) {
    match seg
    case Int(_, t) => v.IntValue? && InRange(t, v.v)
    case Char(_) => v.CharValue?
    case Str(_, terminated) => v.StrValue? && (terminated ==> 0 !in v.bytes)
    case _ => false
  }

  predicate HasValue(seg: Segment) {
    !seg.Literal? && !seg.TypeName?
  }

  /** One value for each segment that has one, in order: the emitted temporaries. */
  predicate AllSuit(segs: seq<Segment>, vals: seq<Value>)
    decreases |segs|
  {
    if segs == [] then vals == []
    else if HasValue(segs[0]) then vals != [] && Suits(segs[0], vals[0]) && AllSuit(segs[1..], vals[1..])
    else AllSuit(segs[1..], vals)
  }

  predicate AllChecked(segs: seq<Segment>) {
    forall i :: 0 <= i < |segs| ==> Checked(segs[i])
  }

  // ----- what is printed -----

  function Padded(s: seq<Byte>, sp: Spec): (r: seq<Byte>)
    ensures |r| == if sp.width > |s| then sp.width else |s|
  {
    if sp.width <= |s| then s
    else if sp.minus then s + seq(sp.width - |s|, _ => 32)
    else seq(sp.width - |s|, _ => 32) + s
  }

  /** `%.*s` stops at the precision or at a NUL byte. */
  function UpToNul(s: seq<Byte>): (r: seq<Byte>)
    ensures r <= s && 0 !in r
    ensures r == s <==> 0 !in s
  {
    if s == [] || s[0] == 0 then []
    else
      var rest := UpToNul(s[1..]);
      assert s == [s[0]] + s[1..];
      [s[0]] + rest
  }

  function Clipped(s: seq<Byte>, precision: int): (r: seq<Byte>)
    ensures |r| <= |s|
  {
    if 0 <= precision < |s| then s[..precision] else s
  }

  function Bytes(s: string): seq<Byte> {
    seq(|s|, i requires 0 <= i < |s| => s[i] as int % 256)
  }

  function Shown(seg: Segment, v: Value): seq<Byte>
    requires HasValue(seg) && Suits(seg, v)
  {
    match seg
    case Int(sp, t) => Bytes(Printed(sp, t, v.v))
    case Char(sp) => Padded([v.c], sp)
    case Str(sp, _) => Padded(UpToNul(Clipped(v.bytes, sp.precision)), sp)
  }

  function Output(segs: seq<Segment>, vals: seq<Value>): seq<Byte>
    requires AllSuit(segs, vals)
    decreases |segs|
  {
    if segs == [] then []
    else match segs[0]
      case Literal(bytes) => bytes + Output(segs[1..], vals)
      case TypeName(text) => text + Output(segs[1..], vals)
      case _ => Shown(segs[0], vals[0]) + Output(segs[1..], vals[1..])
  }

  // ----- the budget -----

  /** A segment's share, plus at run time the string's length when `runtime`. */
  datatype Budget = Budget(runtime: bool, bytes: nat)

  function SegBudget(seg: Segment): Budget {
    match seg
    case Literal(bytes) => Budget(false, |bytes|)
    case TypeName(text) => Budget(false, |text|)
    case Int(sp, t) => Budget(false, NumericBound(t, sp))
    case Char(sp) => Budget(false, NumericBound(IntType(false, 8, false), sp))
    case Str(sp, _) => if sp.precision >= 0 then Budget(false, Larger(sp.precision, sp.width)) else Budget(true, sp.width)
  }

  method InterpSegBudget(seg: Segment) returns (b: Budget)
    requires Checked(seg)
    ensures b == SegBudget(seg)
  {
    match seg {
      case Literal(bytes) => b := Budget(false, |bytes|);
      case TypeName(text) => b := Budget(false, |text|);
      case Int(sp, t) =>
        var n := InterpNumericBound(t, sp);
        b := Budget(false, n);
      case Char(sp) =>
        var n := InterpNumericBound(IntType(false, 8, false), sp);
        b := Budget(false, n);
      case Str(sp, _) =>
        if sp.precision >= 0 {
          b := Budget(false, if sp.precision > sp.width then sp.precision else sp.width);
        } else {
          b := Budget(true, sp.width);
        }
    }
  }

  lemma BudgetHolds(seg: Segment, v: Value)
    requires Checked(seg) && HasValue(seg) && Suits(seg, v)
    ensures |Shown(seg, v)| <= Share(SegBudget(seg), v)
  {
    hide Printed, NumericBound;
    match seg {
      case Int(sp, t) => BoundHolds(t, sp, v.v);
      case Char(sp) => CharHolds(sp);
      case Str(sp, _) =>
    }
  }

  lemma CharHolds(sp: Spec)
    requires sp.conversion == 'c'
    ensures NumericBound(IntType(false, 8, false), sp) >= Larger(1, sp.width)
  {
  }

  function Share(b: Budget, v: Value): nat {
    if b.runtime && v.StrValue? && |v.bytes| > b.bytes then |v.bytes| else b.bytes
  }

  // ----- the emitted size -----

  /** A term of the emitted sum; `at` is the temporary it reads. */
  datatype Term = Constant(bytes: nat) | LengthOf(least: nat, at: nat)

  function TermValue(term: Term, vals: seq<Value>): nat {
    match term
    case Constant(n) => n
    case LengthOf(least, at) => if at < |vals| then Share(Budget(true, least), vals[at]) else 0
  }

  function Sum(terms: seq<Term>, vals: seq<Value>): nat {
    if terms == [] then 0 else Sum(terms[..|terms| - 1], vals) + TermValue(terms[|terms| - 1], vals)
  }

  predicate RuntimeSized(segs: seq<Segment>) {
    exists i :: 0 <= i < |segs| && segs[i].Str? && segs[i].spec.precision < 0
  }

  function ValueCount(segs: seq<Segment>): nat {
    if segs == [] then 0 else ValueCount(segs[..|segs| - 1]) + if HasValue(segs[|segs| - 1]) then 1 else 0
  }

  /** The text of the first segments. */
  ghost predicate Covers(terms: seq<Term>, segs: seq<Segment>) {
    forall vals :: AllSuit(segs, vals) ==> |Output(segs, vals)| <= Sum(terms, vals)
  }

  lemma {:induction false} SuitCount(segs: seq<Segment>, vals: seq<Value>)
    requires AllSuit(segs, vals)
    ensures |vals| == ValueCount(segs)
    decreases |segs|
  {
    if segs != [] {
      CountFront(segs);
      if HasValue(segs[0]) {
        SuitCount(segs[1..], vals[1..]);
      } else {
        SuitCount(segs[1..], vals);
      }
    }
  }

  lemma {:induction false} CountFront(segs: seq<Segment>)
    requires segs != []
    ensures ValueCount(segs) == (if HasValue(segs[0]) then 1 else 0) + ValueCount(segs[1..])
  {
    if |segs| > 1 {
      CountFront(segs[..|segs| - 1]);
      assert segs[..|segs| - 1][1..] == segs[1..][..|segs| - 2];
    } else {
      assert segs[..0] == [] && segs[1..] == [];
    }
  }

  lemma OnlyOne(seg: Segment, vals: seq<Value>)
    requires AllSuit([seg], vals)
    ensures HasValue(seg) ==> |vals| == 1 && Suits(seg, vals[0]) && AllSuit([], vals[..0])
                               && Output([seg], vals) == Output([], vals[..0]) + Shown(seg, vals[0])
    ensures !HasValue(seg) ==> AllSuit([], vals) && Output([seg], vals) == Output([], vals) + (if seg.Literal? then seg.bytes else seg.text)
  {
    hide Shown, Suits;
    assert [seg][1..] == [];
    if HasValue(seg) {
      assert vals[1..] == [] && vals[..0] == [];
    }
  }

  /** Taking off the last segment takes off the last value, if it has one. */
  lemma {:induction false} LastOff(segs: seq<Segment>, seg: Segment, vals: seq<Value>)
    requires AllSuit(segs + [seg], vals)
    ensures HasValue(seg) ==> vals != [] && Suits(seg, vals[|vals| - 1]) && AllSuit(segs, vals[..|vals| - 1])
                               && Output(segs + [seg], vals) == Output(segs, vals[..|vals| - 1]) + Shown(seg, vals[|vals| - 1])
    ensures !HasValue(seg) ==> AllSuit(segs, vals)
                               && Output(segs + [seg], vals) == Output(segs, vals) + (if seg.Literal? then seg.bytes else seg.text)
    decreases |segs|
  {
    hide Shown, Suits;
    var all := segs + [seg];
    if segs == [] {
      assert all == [seg];
      OnlyOne(seg, vals);
    } else {
      assert all[1..] == segs[1..] + [seg];
      if HasValue(segs[0]) {
        LastOff(segs[1..], seg, vals[1..]);
        if HasValue(seg) {
          assert vals[1..][..|vals| - 2] == vals[..|vals| - 1][1..];
        }
      } else {
        LastOff(segs[1..], seg, vals);
      }
    }
  }

  /** Terms that read the first temporaries only. */
  predicate Reads(terms: seq<Term>, n: nat) {
    forall i :: 0 <= i < |terms| && terms[i].LengthOf? ==> terms[i].at < n
  }

  lemma {:induction false} MoreValues(terms: seq<Term>, vals: seq<Value>, n: nat)
    requires Reads(terms, n) && n <= |vals|
    ensures Sum(terms, vals[..n]) == Sum(terms, vals)
  {
    if terms != [] {
      MoreValues(terms[..|terms| - 1], vals, n);
    }
  }

  lemma CoversMore(terms: seq<Term>, segs: seq<Segment>, seg: Segment, more: seq<Term>)
    requires Covers(terms, segs) && Reads(terms, ValueCount(segs))
    requires more == [] || (more == [more[0]] && (more[0].LengthOf? ==> more[0].at == ValueCount(segs)))
    requires !HasValue(seg) ==> more == [] || more[0].Constant?
    requires !HasValue(seg) ==> (if more == [] then 0 else more[0].bytes) == if seg.Literal? then |seg.bytes| else |seg.text|
    requires HasValue(seg) ==> more != [] && forall v :: Suits(seg, v) ==>
               |Shown(seg, v)| <= if more[0].Constant? then more[0].bytes else Share(Budget(true, more[0].least), v)
    ensures Covers(terms + more, segs + [seg]) && Reads(terms + more, ValueCount(segs + [seg]))
  {
    hide Shown;
    assert (segs + [seg])[..|segs|] == segs;
    forall vals | AllSuit(segs + [seg], vals) ensures |Output(segs + [seg], vals)| <= Sum(terms + more, vals) {
      LastOff(segs, seg, vals);
      SuitCount(segs + [seg], vals);
      if more == [] {
        assert terms + more == terms;
      } else {
        assert (terms + more)[..|terms|] == terms;
      }
      if HasValue(seg) {
        var n := |vals| - 1;
        MoreValues(terms, vals, n);
        assert |Output(segs, vals[..n])| <= Sum(terms, vals[..n]);
      } else {
        assert |Output(segs, vals)| <= Sum(terms, vals);
      }
    }
  }

  function Total(segs: seq<Segment>): nat {
    if segs == [] then 0 else Total(segs[..|segs| - 1]) + SegBudget(segs[|segs| - 1]).bytes
  }

  function SegTerms(seg: Segment, k: nat): seq<Term> {
    var b := SegBudget(seg);
    if seg.Literal? && b.bytes == 0 then [] else [if b.runtime then LengthOf(b.bytes, k) else Constant(b.bytes)]
  }

  function Terms(segs: seq<Segment>): seq<Term> {
    if segs == [] then []
    else Terms(segs[..|segs| - 1]) + SegTerms(segs[|segs| - 1], ValueCount(segs[..|segs| - 1]))
  }

  /** No value of any temporary makes the text longer than the run-time sum. */
  lemma {:induction false} TermsCover(segs: seq<Segment>)
    requires AllChecked(segs)
    ensures Covers(Terms(segs), segs) && Reads(Terms(segs), ValueCount(segs))
  {
    hide NumericBound, Shown, Covers, Reads;
    if segs == [] {
      Nothing();
    } else {
      var n := |segs| - 1;
      TermsCover(segs[..n]);
      assert Checked(segs[n]);
      if HasValue(segs[n]) {
        forall v | Suits(segs[n], v) ensures |Shown(segs[n], v)| <= Share(SegBudget(segs[n]), v) {
          BudgetHolds(segs[n], v);
        }
      }
      CoversMore(Terms(segs[..n]), segs[..n], segs[n], SegTerms(segs[n], ValueCount(segs[..n])));
      assert segs[..n] + [segs[n]] == segs;
    }
  }

  lemma Nothing()
    ensures Covers([], []) && Reads([], 0)
  {
  }

  lemma FrontSized(segs: seq<Segment>, n: nat)
    requires n <= |segs|
    ensures RuntimeSized(segs[..n]) ==> RuntimeSized(segs)
  {
    if RuntimeSized(segs[..n]) {
      var i :| 0 <= i < n && segs[..n][i].Str? && segs[..n][i].spec.precision < 0;
      assert segs[i] == segs[..n][i];
    }
  }

  /** The hoisted constant is the run-time sum. */
  lemma {:induction false} ConstantIsSum(segs: seq<Segment>, vals: seq<Value>)
    requires !RuntimeSized(segs)
    ensures Sum(Terms(segs), vals) == Total(segs)
  {
    hide NumericBound, Sum, SegBudget, SegTerms, RuntimeSized;
    if segs == [] {
      NoTerms(vals);
    } else {
      var n := |segs| - 1;
      FrontSized(segs, n);
      ConstantIsSum(segs[..n], vals);
      var more := SegTerms(segs[n], ValueCount(segs[..n]));
      ConstantTerm(segs, n, ValueCount(segs[..n]));
      SumMore(Terms(segs[..n]), more, vals);
    }
  }

  lemma NoTerms(vals: seq<Value>)
    ensures Sum([], vals) == 0
  {
  }

  /** What one more segment adds to the sum. */
  lemma SumMore(terms: seq<Term>, more: seq<Term>, vals: seq<Value>)
    requires |more| <= 1
    ensures Sum(terms + more, vals) == Sum(terms, vals) + if more == [] then 0 else TermValue(more[0], vals)
  {
    if more == [] {
      assert terms + more == terms;
    } else {
      assert (terms + more)[..|terms|] == terms;
    }
  }

  lemma ConstantTerm(segs: seq<Segment>, n: nat, k: nat)
    requires !RuntimeSized(segs) && n < |segs|
    ensures var more := SegTerms(segs[n], k);
            if SegBudget(segs[n]).bytes == 0 && more == [] then true else more == [Constant(SegBudget(segs[n]).bytes)]
    ensures SegTerms(segs[n], k) == [] ==> SegBudget(segs[n]).bytes == 0
  {
    hide NumericBound;
  }

  method EmitLength(segs: seq<Segment>) returns (terms: seq<Term>)
    requires AllChecked(segs)
    ensures terms == Terms(segs)
  {
    hide SegBudget;
    terms := [];
    var k := 0;
    for i := 0 to |segs|
      invariant k == ValueCount(segs[..i]) && terms == Terms(segs[..i])
    {
      assert segs[..i + 1][..i] == segs[..i];
      assert Checked(segs[i]);
      var b := InterpSegBudget(segs[i]);
      if !(segs[i].Literal? && b.bytes == 0) {
        terms := terms + [if b.runtime then LengthOf(b.bytes, k) else Constant(b.bytes)];
      }
      if HasValue(segs[i]) {
        k := k + 1;
      }
    }
    assert segs[..|segs|] == segs;
  }

  /** The size of the array hoisted to the function's entry, when no string's length
      has a part in it. */
  method InterpConstBufferSize(segs: seq<Segment>) returns (ok: bool, size: nat)
    requires AllChecked(segs)
    ensures ok <==> !RuntimeSized(segs)
    ensures ok ==> forall vals :: Sum(Terms(segs), vals) == size
    ensures ok ==> forall vals :: AllSuit(segs, vals) ==> |Output(segs, vals)| <= size
  {
    hide NumericBound, Output, Terms;
    size := 0;
    for i := 0 to |segs|
      invariant size == Total(segs[..i])
      invariant forall j :: 0 <= j < i ==> !(segs[j].Str? && segs[j].spec.precision < 0)
    {
      assert segs[..i + 1][..i] == segs[..i];
      assert Checked(segs[i]);
      var b := InterpSegBudget(segs[i]);
      if b.runtime {
        return false, size;
      }
      size := size + b.bytes;
    }
    assert segs[..|segs|] == segs;
    ok := true;
    TermsCover(segs);
    forall vals ensures Sum(Terms(segs), vals) == size {
      ConstantIsSum(segs, vals);
    }
  }

  // ----- the stored result -----

  /** The largest stored length. */
  function LenMax(repr: nat): nat {
    if repr == 16 then 0x7FFF else if repr == 32 then 0x7FFF_FFFF else 0x7FFF_FFFF_FFFF_FFFF
  }

  /** What running an interpolation comes to. `Undefined`: the sum of the budgets
      overflows. A buffer of `None` has unspecified contents. */
  datatype Outcome = Undefined | Aborted | Stored(buffer: Option<seq<Byte>>, len: nat)

  /** `fc_to_int` of a str's length, which is what `.*` takes unless a precision is
      written and not longer. */
  predicate ArgAborts(seg: Segment, v: Value, intMax: nat) {
    && seg.Str? && !seg.terminated && v.StrValue?
    && (seg.spec.precision < 0 || |v.bytes| < seg.spec.precision) && |v.bytes| > intMax
  }

  predicate AnyAborts(segs: seq<Segment>, vals: seq<Value>, intMax: nat)
    decreases |segs|
  {
    segs != [] &&
    if HasValue(segs[0]) then vals != [] && (ArgAborts(segs[0], vals[0], intMax) || AnyAborts(segs[1..], vals[1..], intMax))
    else AnyAborts(segs[1..], vals, intMax)
  }

  /** C11 7.21.6.5: at most `size - 1` bytes are written; the result counts what all of
      them would be. It is negative when an `int` cannot, and says nothing then about
      the buffer. */
  function Snprintf(text: seq<Byte>, size: nat, intMax: nat): (Option<seq<Byte>>, int) {
    if |text| > intMax then (None, -1)
    else (Some(if size > 0 && |text| > size - 1 then text[..size - 1] else text), |text|)
  }

  /** The cap on the sum comes before the buffer, the arguments' aborts before the call. */
  function Interpolate(segs: seq<Segment>, vals: seq<Value>, intMax: nat, repr: nat): Outcome
    requires AllSuit(segs, vals)
  {
    var flen := Sum(Terms(segs), vals);
    if flen > LenMax(64) then Undefined
    else if repr < 64 && flen > LenMax(repr) then Aborted
    else if AnyAborts(segs, vals, intMax) then Aborted
    else
      var (buffer, written) := Snprintf(Output(segs, vals), flen + 1, intMax);
      Stored(buffer, if 0 <= written <= flen then written else flen)
  }

  /** An interpolation aborts exactly when its budget exceeds the largest length, or an
      unclipped str is longer than an `int` counts. Otherwise its length is in range,
      and its text and length are exact if and only if an `int` counts the text; the
      budget being that small is enough. */
  lemma InterpolationExact(segs: seq<Segment>, vals: seq<Value>, intMax: nat, repr: nat)
    requires AllChecked(segs) && AllSuit(segs, vals)
    ensures var text, flen, r := Output(segs, vals), Sum(Terms(segs), vals), Interpolate(segs, vals, intMax, repr);
            && (r.Undefined? <==> flen > LenMax(64))
            && (r.Aborted? <==> flen <= LenMax(64) && (flen > LenMax(repr) || AnyAborts(segs, vals, intMax)))
            && (r.Stored? ==> r.len <= LenMax(repr))
            && (r.Stored? ==> (r == Stored(Some(text), |text|) <==> |text| <= intMax))
            && (r.Stored? ==> (r.len == |text| <==> |text| <= intMax || |text| == flen))
            && (r.Stored? && flen <= intMax ==> r == Stored(Some(text), |text|))
  {
    hide Output, Terms, Sum, AnyAborts;
    TermsCover(segs);
  }

  const S_SPEC := Spec(false, false, false, false, false, 0, -1, 's')
  const D_SPEC := Spec(false, false, false, false, false, 0, -1, 'd')

  /** Two strings of 20000 bytes and a number, where `int` has 16 bits: each string
      passes, the text does not, and the length stored is the budget's 40011 for 40001
      bytes. */
  lemma TooLongForInt(s: seq<Byte>)
    requires |s| == 20000 && 0 !in s
    ensures var segs := [Str(S_SPEC, false), Str(S_SPEC, false), Int(D_SPEC, IntType(true, 32, false))];
            var vals := [StrValue(s), StrValue(s), IntValue(1)];
            && AllChecked(segs) && AllSuit(segs, vals)
            && |Output(segs, vals)| == 40001 && Interpolate(segs, vals, 0x7FFF, 32) == Stored(None, 40011)
  {
    hide Shown, Sum, Terms, AllSuit, Output, AnyAborts;
    var a, c := Str(S_SPEC, false), Int(D_SPEC, IntType(true, 32, false));
    OneNumber(c);
    OneStr(a, [c], s, [IntValue(1)]);
    assert [a] + [c] == [a, c] && [StrValue(s)] + [IntValue(1)] == [StrValue(s), IntValue(1)];
    OneStr(a, [a, c], s, [StrValue(s), IntValue(1)]);
    assert [a] + [a, c] == [a, a, c] && [StrValue(s)] + [StrValue(s), IntValue(1)] == [StrValue(s), StrValue(s), IntValue(1)];
    BudgetOf40011(a, c, s);
  }

  lemma OneNumber(c: Segment)
    requires c == Int(D_SPEC, IntType(true, 32, false))
    ensures AllSuit([c], [IntValue(1)]) && |Output([c], [IntValue(1)])| == 1 && !AnyAborts([c], [IntValue(1)], 0x7FFF)
  {
    hide Printed;
    OneDigit();
    assert [c][1..] == [] && [IntValue(1)][1..] == [];
  }

  lemma OneStr(a: Segment, segs: seq<Segment>, s: seq<Byte>, vals: seq<Value>)
    requires a == Str(S_SPEC, false) && |s| == 20000 && 0 !in s && AllSuit(segs, vals) && !AnyAborts(segs, vals, 0x7FFF)
    ensures AllSuit([a] + segs, [StrValue(s)] + vals) && !AnyAborts([a] + segs, [StrValue(s)] + vals, 0x7FFF)
    ensures |Output([a] + segs, [StrValue(s)] + vals)| == 20000 + |Output(segs, vals)|
  {
    hide Printed;
    assert ([a] + segs)[1..] == segs && ([StrValue(s)] + vals)[1..] == vals;
    assert Shown(a, StrValue(s)) == s;
  }

  lemma OneDigit()
    ensures |Printed(D_SPEC, IntType(true, 32, false), 1)| == 1
  {
  }

  lemma BudgetOf40011(a: Segment, c: Segment, s: seq<Byte>)
    requires a == Str(S_SPEC, false) && c == Int(D_SPEC, IntType(true, 32, false)) && |s| == 20000
    ensures Sum(Terms([a, a, c]), [StrValue(s), StrValue(s), IntValue(1)]) == 40011
  {
    hide Terms, Sum, SegTerms, ValueCount;
    var vals := [StrValue(s), StrValue(s), IntValue(1)];
    NoTerms(vals);
    OneMoreTerm([], a, vals);
    OneMoreTerm([a], a, vals);
    OneMoreTerm([a, a], c, vals);
    assert [] + [a] == [a] && [a] + [a] == [a, a] && [a, a] + [c] == [a, a, c];
    TermsOfThree(a, c);
    Counted(a);
  }

  lemma OneMoreTerm(segs: seq<Segment>, seg: Segment, vals: seq<Value>)
    ensures Terms([]) == [] && |SegTerms(seg, ValueCount(segs))| <= 1
    ensures var more := SegTerms(seg, ValueCount(segs));
            Sum(Terms(segs + [seg]), vals) == Sum(Terms(segs), vals) + if more == [] then 0 else TermValue(more[0], vals)
  {
    hide Sum, SegBudget;
    assert (segs + [seg])[..|segs|] == segs;
    SumMore(Terms(segs), SegTerms(seg, ValueCount(segs)), vals);
  }

  lemma Counted(a: Segment)
    requires HasValue(a)
    ensures ValueCount([]) == 0 && ValueCount([a]) == 1 && ValueCount([a, a]) == 2
  {
    assert [a, a][..1] == [a] && [a][..0] == [];
  }

  lemma TermsOfThree(a: Segment, c: Segment)
    requires a == Str(S_SPEC, false) && c == Int(D_SPEC, IntType(true, 32, false))
    ensures forall k: nat :: SegTerms(a, k) == [LengthOf(0, k)] && SegTerms(c, k) == [Constant(11)]
  {
  }

  /** A string is printed whole, up to its precision, exactly when that much of it has
      no NUL byte. */
  lemma StringWhole(seg: Segment, v: Value)
    requires seg.Str? && Suits(seg, v)
    ensures Shown(seg, v) == Padded(Clipped(v.bytes, seg.spec.precision), seg.spec) <==> 0 !in Clipped(v.bytes, seg.spec.precision)
  {
    var s := Clipped(v.bytes, seg.spec.precision);
    if 0 in s {
      PaddingKeeps(s, seg.spec);
      PaddingKeeps(UpToNul(s), seg.spec);
    }
  }

  /** `A`, a NUL byte, `B` under `%s`: only the `A` is printed. */
  lemma StringCut()
    ensures var seg, v := Str(S_SPEC, false), StrValue([65, 0, 66]);
            Suits(seg, v) && Shown(seg, v) == [65] && Shown(seg, v) != v.bytes
  {
    var s: seq<Byte> := [65, 0, 66];
    assert UpToNul(s[1..]) == [];
  }

  lemma PaddingKeeps(s: seq<Byte>, sp: Spec)
    ensures 0 in Padded(s, sp) <==> 0 in s
  {
    var r := Padded(s, sp);
    if sp.width > |s| {
      var fill := sp.width - |s|;
      if sp.minus {
        assert r[..|s|] == s && forall i :: |s| <= i < |r| ==> r[i] == 32;
        assert forall i :: 0 <= i < |s| ==> r[i] == s[i];
      } else {
        assert r[fill..] == s && forall i :: 0 <= i < fill ==> r[i] == 32;
        assert forall i :: 0 <= i < |s| ==> r[fill + i] == s[i];
      }
    }
  }
}
