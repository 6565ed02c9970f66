/** The C of a match: how values are laid out, what a path may read, and the
    statements of an if-chain. */
module MatchTarget {
  import opened MatchSource

  /** A C object. `Junk` is storage that holds no value of its type: the `.value`
      of an empty option or failed result. */
  datatype CVal =
    | CScalar(v: int)
    | CStr(bytes: seq<int>)
    | COpt(has: bool, value: CVal)
    | CRes(err: int, value: CVal)
    | CUnion(tag: nat, active: CVal)   // the payload of variant `tag`
    | CFields(fields: seq<CVal>)
    | Junk

  function Repr(v: Value, t: Type): CVal
    requires HasType(v, t)
    decreases v
  {
    match t
    case TInt => CScalar(v.v)
    case TStr => CStr(v.bytes)
    case TPtr => CScalar(v.addr)
    case TOption(inner) =>
      if IsNullSentinel(t) then (if v.Absent? then CScalar(0) else CScalar(v.inner.addr))
      else if v.Absent? then COpt(false, Junk)
      else COpt(true, Repr(v.inner, inner))
    case TResult(inner) => if v.Success? then CRes(0, Repr(v.ok, inner)) else CRes(v.code, Junk)
    case TUnion(vs) => CUnion(v.tag, if v.payload.Some? then Repr(v.payload.value, vs[v.tag].value) else Junk)
    case TFields(ts) => CFields(seq(|ts|, i requires 0 <= i < |ts| => Repr(v.fields[i], ts[i])))
  }

  /** Member accesses below the subject temporary. */
  datatype Path =
    | Subject
    | Field(base: Path, index: nat)
    | PayloadValue(base: Path)              // .value
    | ErrorCode(base: Path)                 // .err
    | UnionMember(base: Path, tag: nat)     // .u.variant

  /** What a path reads; `Junk` when it reads through or into storage that holds no
      such value. */
  function Read(p: Path, subject: CVal): CVal {
    match p
    case Subject => subject
    case Field(b, i) =>
      (var o := Read(b, subject); if o.CFields? && i < |o.fields| then o.fields[i] else Junk)
    case PayloadValue(b) =>
      (var o := Read(b, subject);
       if o.COpt? then o.value else if o.CRes? then o.value else Junk)
    case ErrorCode(b) => (var o := Read(b, subject); if o.CRes? then CScalar(o.err) else Junk)
    case UnionMember(b, tag) =>
      (var o := Read(b, subject); if o.CUnion? && o.tag == tag then o.active else Junk)
  }

  datatype Test =
    | Equals(p: Path, v: int)
    | NotEquals(p: Path, v: int)
    | EqualsStr(p: Path, bytes: seq<int>)
    | HasValue(p: Path)
    | HasNoValue(p: Path)
    | ErrIsZero(p: Path)
    | ErrIsNonzero(p: Path)
    | TagIs(p: Path, tag: nat)
    | AnyOf(alts: seq<Conj>)     // (.. && ..) || (.. && ..); an empty one is `1`

  datatype Conj = All(tests: seq<Test>)

  /** `Bad`: storage was read that holds no value of its type. */
  datatype Truth = Yes | No | Bad

  function Of(b: bool): Truth { if b then Yes else No }

  function Check(t: Test, s: CVal): Truth
    decreases t, 1
  {
    match t
    case Equals(p, v) => (var o := Read(p, s); if o.CScalar? then Of(o.v == v) else Bad)
    case NotEquals(p, v) => (var o := Read(p, s); if o.CScalar? then Of(o.v != v) else Bad)
    case EqualsStr(p, b) => (var o := Read(p, s); if o.CStr? then Of(o.bytes == b) else Bad)
    case HasValue(p) => (var o := Read(p, s); if o.COpt? then Of(o.has) else Bad)
    case HasNoValue(p) => (var o := Read(p, s); if o.COpt? then Of(!o.has) else Bad)
    case ErrIsZero(p) => (var o := Read(p, s); if o.CRes? then Of(o.err == 0) else Bad)
    case ErrIsNonzero(p) => (var o := Read(p, s); if o.CRes? then Of(o.err != 0) else Bad)
    case TagIs(p, tag) => (var o := Read(p, s); if o.CUnion? then Of(o.tag == tag) else Bad)
    case AnyOf(alts) => CheckAny(alts, s)
  }

  /** `&&` stops at the first test that fails. */
  function CheckAll(ts: seq<Test>, s: CVal): Truth
    decreases ts, 0
  {
    if ts == [] then Yes
    else
      var r := Check(ts[0], s);
      if r.Yes? then CheckAll(ts[1..], s) else r
  }

  /** `||` stops at the first alternative that holds. */
  function CheckAny(alts: seq<Conj>, s: CVal): Truth
    decreases alts, 0
  {
    if alts == [] then No
    else
      var first := alts[0];
      var r := CheckAll(first.tests, s);
      if r.No? then CheckAny(alts[1..], s) else r
  }

  // ----- statements -----

  /** A declaration `T name = path;`. */
  datatype Decl = Decl(name: nat, path: Path)

  datatype Block = Block(decls: seq<Decl>, body: nat)

  /** One link of `if (c) {..} else if (c) {..} else {..}`; no tests: a bare block. */
  datatype Link = Link(tests: seq<Test>, block: Block)

  /** `if (!done) { if (c) { decls; if (guard) { body; done = 1; } } }`. */
  datatype Trial = Trial(tests: seq<Test>, decls: seq<Decl>, guard: Option<nat>, body: nat)

  datatype CMatch = Chain(links: seq<Link>) | Flagged(trials: seq<Trial>)

  /** An `else` may only follow an `if`. */
  predicate IsC(m: CMatch) {
    m.Chain? ==> |m.links| > 0 && forall i :: 0 <= i < |m.links| - 1 ==> m.links[i].tests != []
  }

  datatype CWorld = CWorld(
    guard: (nat, seq<(nat, CVal)>, seq<CEvent>) -> bool,
    leaves: (nat, seq<(nat, CVal)>, seq<CEvent>) -> bool,
    result: (nat, seq<(nat, CVal)>, seq<CEvent>) -> int)

  datatype CEvent = CEvent(id: nat, values: seq<(nat, CVal)>)

  /** `Fault`: a bad read. `Fell`: no arm ran, so the result is uninitialized. */
  datatype COutcome = CResult(v: int) | CLeft | Aborted | Fault | Fell

  function Declare(ds: seq<Decl>, s: CVal): Option<seq<(nat, CVal)>> {
    if ds == [] then Some([])
    else
      var o := Read(ds[0].path, s);
      var rest := Declare(ds[1..], s);
      if o.Junk? || rest.None? then None else Some([(ds[0].name, o)] + rest.value)
  }

  function RunCBody(w: CWorld, body: nat, bs: seq<(nat, CVal)>, tr: seq<CEvent>): (COutcome, seq<CEvent>) {
    (if w.leaves(body, bs, tr) then CLeft else CResult(w.result(body, bs, tr)), tr + [CEvent(body, bs)])
  }

  function RunChain(w: CWorld, links: seq<Link>, s: CVal, tr: seq<CEvent>): (COutcome, seq<CEvent>)
    decreases |links|
  {
    if links == [] then (Fell, tr)
    else
      match CheckAll(links[0].tests, s)
      case Bad => (Fault, tr)
      case No => RunChain(w, links[1..], s, tr)
      case Yes =>
        match Declare(links[0].block.decls, s)
        case None => (Fault, tr)
        case Some(bs) => RunCBody(w, links[0].block.body, bs, tr)
  }

  /** The flag is what `RunTrials` threads; a body that leaves never sets it. */
  function RunTrials(w: CWorld, ts: seq<Trial>, s: CVal, done: Option<int>, tr: seq<CEvent>): (COutcome, seq<CEvent>)
    decreases |ts|
  {
    if ts == [] then (if done.Some? then CResult(done.value) else Aborted, tr)
    else if done.Some? then RunTrials(w, ts[1..], s, done, tr)
    else
      match CheckAll(ts[0].tests, s)
      case Bad => (Fault, tr)
      case No => RunTrials(w, ts[1..], s, done, tr)
      case Yes =>
        match Declare(ts[0].decls, s)
        case None => (Fault, tr)
        case Some(bs) =>
          var tr1 := if ts[0].guard.Some? then tr + [CEvent(ts[0].guard.value, bs)] else tr;
          if ts[0].guard.Some? && !w.guard(ts[0].guard.value, bs, tr) then RunTrials(w, ts[1..], s, done, tr1)
          else
            var (o, tr2) := RunCBody(w, ts[0].body, bs, tr1);
            if o.CResult? then RunTrials(w, ts[1..], s, Some(o.v), tr2) else (o, tr2)
  }

  function RunC(w: CWorld, m: CMatch, s: CVal, tr: seq<CEvent>): (COutcome, seq<CEvent>) {
    match m
    case Chain(links) => RunChain(w, links, s, tr)
    case Flagged(trials) => RunTrials(w, trials, s, None, tr)
  }
}
