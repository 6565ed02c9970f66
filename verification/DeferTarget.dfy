/** The fragment of GNU C the emitter writes for blocks: statement expressions,
    numbered temporaries, the loop-result variable and plain control flow. It
    has no defer. */
module DeferTarget {
  import opened DeferSource

  datatype CArm = CArm(body: seq<CStmt>)

  datatype CExpr =
    | CAct(id: nat, args: seq<CExpr>, ty: Ty)
    | CTemp(t: nat)
    | CLoopRes
    | CCond(c: CExpr, a: CExpr, b: CExpr)
    | CVoid(e: CExpr)
    | CFails(e: CExpr)
    | CPayload(e: CExpr)
    | CFailure(e: CExpr)
    | CStmtExpr(body: seq<CStmt>, declaresLoopRes: bool)

  datatype CStmt =
    | CDo(e: CExpr)
    | CDecl(t: nat)
    | CSet(t: nat, e: CExpr)
    | CSetLoop(e: CExpr)
    | CIf(c: CExpr, thn: seq<CStmt>, els: seq<CStmt>)
    | CChain(c: CExpr, arms: seq<CArm>)
    | CWhile(body: seq<CStmt>)
    | CFor(t: nat, elem: nat, body: seq<CStmt>)
    | CBreak
    | CContinue
    | CReturn(rv: Option<CExpr>)

  /** `CStuck` is the reading of a variable that holds no value. */
  datatype COut =
    | CNorm(v: Value)
    | CBrk
    | CCont
    | CRet(rv: Option<Value>)
    | CStop(aborted: bool)
    | CStuck

  datatype CState = CState(trace: seq<Event>, fuel: nat, env: map<nat, Value>, loopRes: Option<Value>)

  datatype CArgs = CVals(vs: seq<Value>) | CEsc(o: COut)

  function OfOutcome(o: Outcome): COut {
    match o
    case Norm(v) => CNorm(v)
    case Brk(_) => CBrk
    case Cont => CCont
    case Ret(r) => CRet(r)
    case Stop(a) => CStop(a)
  }

  function CEval(w: World, e: CExpr, st: CState): (r: (COut, CState))
    ensures r.1.fuel <= st.fuel
    decreases st.fuel, e, 1
  {
    match e
    case CAct(id, args, ty) =>
      (var (ar, s1) := CEvalArgs(w, args, st);
       match ar
       case CEsc(o) => (o, s1)
       case CVals(vs) =>
         var (o, tr) := Act(w, id, vs, ty, s1.trace);
         (OfOutcome(o), s1.(trace := tr)))
    case CTemp(t) => (if t in st.env then CNorm(st.env[t]) else CStuck, st)
    case CLoopRes => (if st.loopRes.Some? then CNorm(st.loopRes.value) else CStuck, st)
    case CCond(c, a, b) =>
      (var (o, s1) := CEval(w, c, st);
       if !o.CNorm? then (o, s1)
       else if Truth(o.v) then CEval(w, a, s1) else CEval(w, b, s1))
    case CVoid(x) =>
      (var (o, s1) := CEval(w, x, st);
       (if o.CNorm? then CNorm(Unit) else o, s1))
    case CFails(x) =>
      (var (o, s1) := CEval(w, x, st);
       (if o.CNorm? then CNorm(Int(if w.fails(o.v) then 1 else 0)) else o, s1))
    case CPayload(x) =>
      (var (o, s1) := CEval(w, x, st);
       (if o.CNorm? then CNorm(w.payload(o.v)) else o, s1))
    case CFailure(x) =>
      (var (o, s1) := CEval(w, x, st);
       (if o.CNorm? then CNorm(w.failure(o.v)) else o, s1))
    case CStmtExpr(body, declares) =>
      // an inner loop result shadows the outer one for the extent of its block
      (var (o, s1) := CExec(w, body, if declares then st.(loopRes := None) else st);
       (o, if declares then s1.(loopRes := st.loopRes) else s1))
  }

  function CEvalArgs(w: World, es: seq<CExpr>, st: CState): (r: (CArgs, CState))
    ensures r.1.fuel <= st.fuel
    decreases st.fuel, es, 0
  {
    if es == [] then (CVals([]), st)
    else
      var (o, s1) := CEval(w, es[0], st);
      if !o.CNorm? then (CEsc(o), s1)
      else
        var (ar, s2) := CEvalArgs(w, es[1..], s1);
        match ar
        case CEsc(_) => (ar, s2)
        case CVals(vs) => (CVals([o.v] + vs), s2)
  }

  /** A statement list; its value is its last statement's. */
  function CExec(w: World, ss: seq<CStmt>, st: CState): (r: (COut, CState))
    ensures r.1.fuel <= st.fuel
    decreases st.fuel, ss, 0
  {
    if ss == [] then (CNorm(Unit), st)
    else
      var (o, s1) := CStep(w, ss[0], st);
      if !o.CNorm? || |ss| == 1 then (o, s1) else CExec(w, ss[1..], s1)
  }

  function CStep(w: World, s: CStmt, st: CState): (r: (COut, CState))
    ensures r.1.fuel <= st.fuel
    decreases st.fuel, s, 1
  {
    match s
    case CDo(e) => CEval(w, e, st)
    case CDecl(t) => (CNorm(Unit), st.(env := st.env - {t}))
    case CSet(t, e) =>
      (var (o, s1) := CEval(w, e, st);
       if o.CNorm? then (CNorm(Unit), s1.(env := s1.env[t := o.v])) else (o, s1))
    case CSetLoop(e) =>
      (var (o, s1) := CEval(w, e, st);
       if o.CNorm? then (CNorm(Unit), s1.(loopRes := Some(o.v))) else (o, s1))
    case CIf(c, a, b) =>
      (var (o, s1) := CEval(w, c, st);
       if !o.CNorm? then (o, s1)
       else
         var (o2, s2) := if Truth(o.v) then CExec(w, a, s1) else CExec(w, b, s1);
         (if o2.CNorm? then CNorm(Unit) else o2, s2))
    case CChain(c, arms) =>
      (var (o, s1) := CEval(w, c, st);
       if !o.CNorm? then (o, s1)
       else if arms == [] then (CStop(true), s1)
       else
         var (o2, s2) := CExec(w, arms[ArmOf(o.v, |arms|)].body, s1);
         (if o2.CNorm? then CNorm(Unit) else o2, s2))
    case CWhile(body) => CRunWhile(w, body, st)
    case CFor(t, elem, body) => CRunFor(w, t, 0, elem, body, st)
    case CBreak => (CBrk, st)
    case CContinue => (CCont, st)
    case CReturn(v) =>
      (match v
       case None => (CRet(None), st)
       case Some(x) =>
         var (o, s1) := CEval(w, x, st);
         (if o.CNorm? then CRet(Some(o.v)) else o, s1))
  }

  function CRunWhile(w: World, body: seq<CStmt>, st: CState): (r: (COut, CState))
    ensures r.1.fuel <= st.fuel
    decreases st.fuel, body, 2
  {
    if st.fuel == 0 then (CStop(false), st)
    else
      var (o, s1) := CExec(w, body, st.(fuel := st.fuel - 1));
      match o
      case CBrk => (CNorm(Unit), s1)
      case CNorm(_) => CRunWhile(w, body, s1)
      case CCont => CRunWhile(w, body, s1)
      case CRet(_) => (o, s1)
      case CStop(_) => (o, s1)
      case CStuck => (o, s1)
  }

  /** `for (i = 0; i < _t.len; i++)`: the bound is read from the temporary at
      every test. */
  function CRunFor(w: World, t: nat, i: nat, elem: nat, body: seq<CStmt>, st: CState): (r: (COut, CState))
    ensures r.1.fuel <= st.fuel
    decreases st.fuel, body, 2
  {
    if t !in st.env then (CStuck, st)
    else if i >= w.count(st.env[t]) then (CNorm(Unit), st)
    else if st.fuel == 0 then (CStop(false), st)
    else
      var (a, tr) := Act(w, elem, [st.env[t], Int(i)], Void, st.trace);
      if !a.Norm? then (OfOutcome(a), st.(trace := tr))
      else
        var (o, s1) := CExec(w, body, st.(trace := tr, fuel := st.fuel - 1));
        match o
        case CBrk => (CNorm(Unit), s1)
        case CNorm(_) => CRunFor(w, t, i + 1, elem, body, s1)
        case CCont => CRunFor(w, t, i + 1, elem, body, s1)
        case CRet(_) => (o, s1)
        case CStop(_) => (o, s1)
        case CStuck => (o, s1)
  }

  /** What a call of the emitted function does. */
  function CRunFunction(w: World, body: seq<CStmt>, fuel: nat): (FnResult, seq<Event>) {
    var (o, s) := CExec(w, body, CState([], fuel, map[], None));
    (match o
     case CNorm(_) => Done(None)
     case CRet(r) => Done(r)
     case CStop(a) => Stopped(a)
     case CBrk => Stray
     case CCont => Stray
     case CStuck => Stray,
     s.trace)
  }
}
