/** The lowering of blocks with defers to C without them: the specification
    function of the emitter. A compile-time stack of scopes holds the defers
    recorded so far, and every exit gets its own copy of the pending ones. */
module DeferLowering {
  import opened DeferSource
  import opened DeferTarget

  /** The scope stack at a point of emission. `FnBase` is the bottom inside a
      function body. `DeferBase` is the bottom while a deferred expression is
      emitted at an exit: the scopes below it are out of its reach, except that
      they do hold pending defers. */
  datatype Scopes =
    | FnBase
    | DeferBase
    | Push(isLoop: bool, defers: seq<Expr>, parent: Scopes)

  /** Where the value of a block's last statement goes. */
  datatype Tail = TailValue | TailDiscard | TailReturn | TailAssign(target: nat)

  function ScSize(sc: Scopes): nat {
    match sc
    case Push(_, ds, p) => SizeAll(ds) + ScSize(p)
    case FnBase => 0
    case DeferBase => 0
  }

  predicate HasPending(sc: Scopes) {
    match sc
    case FnBase => false
    case DeferBase => true
    case Push(_, ds, p) => ds != [] || HasPending(p)
  }

  predicate Valueless(t: Ty) {
    t != Val
  }

  predicate IsTransfer(e: Expr) {
    e.Return? || e.Break? || e.Continue?
  }

  /** A deferred expression whose C form is a statement. */
  predicate EmitsStatement(e: Expr) {
    e.For? || ((e.Loop? || e.If?) && Valueless(TypeOf(e)))
  }

  /** One deferred expression, its value dropped. */
  function LowerDeferred(d: Expr, c: nat): (r: (seq<CStmt>, nat))
    ensures r.1 >= c
    ensures |r.0| > 0
    decreases Size(d), 3
  {
    if EmitsStatement(d) then LowerStmtForm(d, DeferBase, c)
    else
      var (x, c1) := LowerExpr(d, DeferBase, c);
      ([CDo(CVoid(x))], c1)
  }

  /** The defers of one scope, last recorded first. */
  function LowerDefers(ds: seq<Expr>, c: nat): (r: (seq<CStmt>, nat))
    ensures r.1 >= c
    ensures ds != [] ==> |r.0| > 0
    decreases SizeAll(ds), 0
  {
    if ds == [] then ([], c)
    else
      SizeLast(ds);
      var (code, c1) := LowerDeferred(ds[|ds| - 1], c);
      var (rest, c2) := LowerDefers(ds[..|ds| - 1], c1);
      (code + rest, c2)
  }

  /** The defers from the current scope out to and including the loop's. */
  function LowerToLoop(sc: Scopes, c: nat): (r: (seq<CStmt>, nat))
    ensures r.1 >= c
    decreases ScSize(sc), 1, sc
  {
    match sc
    case Push(isLoop, ds, p) =>
      (var (code, c1) := LowerDefers(ds, c);
       if isLoop then (code, c1)
       else
         var (rest, c2) := LowerToLoop(p, c1);
         (code + rest, c2))
    case FnBase => ([], c)
    case DeferBase => ([], c)
  }

  /** The defers of every scope. */
  function LowerToFunc(sc: Scopes, c: nat): (r: (seq<CStmt>, nat))
    ensures r.1 >= c
    decreases ScSize(sc), 1, sc
  {
    match sc
    case Push(_, ds, p) =>
      (var (code, c1) := LowerDefers(ds, c);
       var (rest, c2) := LowerToFunc(p, c1);
       (code + rest, c2))
    case FnBase => ([], c)
    case DeferBase => ([], c)
  }

  function LowerArgs(es: seq<Expr>, sc: Scopes, c: nat): (r: (seq<CExpr>, nat))
    ensures r.1 >= c
    decreases ScSize(sc) + SizeAll(es), 0
  {
    if es == [] then ([], c)
    else
      var (x, c1) := LowerExpr(es[0], sc, c);
      var (xs, c2) := LowerArgs(es[1..], sc, c1);
      ([x] + xs, c2)
  }

  function LowerArms(arms: seq<Arm>, sc: Scopes, tail: Tail, c: nat): (r: (seq<CArm>, nat))
    ensures r.1 >= c
    ensures |r.0| == |arms|
    decreases ScSize(sc) + SizeArms(arms), 0
  {
    if arms == [] then ([], c)
    else
      var (x, c1) := LowerStmts(arms[0].body, Push(false, [], sc), tail, c);
      var (xs, c2) := LowerArms(arms[1..], sc, tail, c1);
      ([CArm(x)] + xs, c2)
  }

  function LowerBranch(branch: Expr, sc: Scopes, c: nat): (r: (seq<CStmt>, nat))
    ensures r.1 >= c
    decreases ScSize(sc) + Size(branch) + 1, 6
  {
    LowerStmts(BranchStmts(branch), Push(false, [], sc), TailDiscard, c)
  }

  /** A branch of a valued `if`: an exit, or an assignment of its value. */
  function LowerBranchInto(branch: Expr, res: nat, sc: Scopes, c: nat): (r: (seq<CStmt>, nat))
    ensures r.1 >= c
    decreases ScSize(sc) + Size(branch) + 1, 7
  {
    if TypeOf(branch) == Never then LowerBranch(branch, sc, c)
    else
      var (x, c1) := LowerExpr(branch, sc, c);
      ([CSet(res, x)], c1)
  }

  /** A void or diverging `if`, a `for`, and a void `loop` as statements. */
  function LowerStmtForm(e: Expr, sc: Scopes, c: nat): (r: (seq<CStmt>, nat))
    requires EmitsStatement(e)
    ensures r.1 >= c
    ensures |r.0| > 0
    decreases ScSize(sc) + Size(e), 1
  {
    match e
    case If(cond, t, f, _) =>
      (var (x, c1) := LowerExpr(cond, sc, c);
       var (a, c2) := LowerBranch(t, sc, c1);
       match f
       case None => ([CIf(x, a, [])], c2)
       case Some(fe) =>
         if fe.If? && Valueless(TypeOf(fe)) then
           var (b, c3) := LowerStmtForm(fe, sc, c2);  // else if
           ([CIf(x, a, b)], c3)
         else
           var (b, c3) := LowerBranch(fe, sc, c2);
           ([CIf(x, a, b)], c3))
    case Loop(body, _) =>
      (var (b, c1) := LowerStmts(body, Push(true, [], sc), TailDiscard, c);
       ([CWhile(b)], c1))
    case For(it, elem, body) =>
      (var (x, c1) := LowerExpr(it, sc, c + 1);
       var (b, c2) := LowerStmts(body, Push(true, [], sc), TailDiscard, c1);
       ([CSet(c, x), CFor(c, elem, b)], c2))
  }

  function LowerExpr(e: Expr, sc: Scopes, c: nat): (r: (CExpr, nat))
    ensures r.1 >= c
    decreases ScSize(sc) + Size(e), 2
  {
    match e
    case Atom(id, args, t) =>
      (var (xs, c1) := LowerArgs(args, sc, c);
       (CAct(id, xs, t), c1))
    case If(cond, t, f, ty) =>
      if Valueless(ty) || f.None? then
        NotAnOperand(c)
      else if TypeOf(t) != Never && TypeOf(f.value) != Never then
        var (x, c1) := LowerExpr(cond, sc, c);
        var (a, c2) := LowerExpr(t, sc, c1);
        var (b, c3) := LowerExpr(f.value, sc, c2);
        (CCond(x, a, b), c3)
      else
        var (x, c1) := LowerExpr(cond, sc, c + 1);
        var (a, c2) := LowerBranchInto(t, c, sc, c1);
        var (b, c3) := LowerBranchInto(f.value, c, sc, c2);
        (CStmtExpr([CDecl(c), CIf(x, a, b), CDo(CTemp(c))], false), c3)
    case Match(s, arms, ty) =>
      (var (x, c1) := LowerExpr(s, sc, c + 1);
       if Valueless(ty) then
         var (xs, c2) := LowerArms(arms, sc, TailDiscard, c1);
         (CStmtExpr([CSet(c, x), CChain(CTemp(c), xs)], false), c2)
       else
         var (xs, c2) := LowerArms(arms, sc, TailAssign(c1), c1 + 1);
         (CStmtExpr([CSet(c, x), CDecl(c1), CChain(CTemp(c), xs), CDo(CTemp(c1))], false), c2))
    case Loop(body, ty) =>
      if Valueless(ty) then NotAnOperand(c)
      else
        var (b, c1) := LowerStmts(body, Push(true, [], sc), TailDiscard, c);
        (CStmtExpr([CWhile(b), CDo(CLoopRes)], true), c1)
    case Block(stmts, _) =>
      (var (b, c1) := LowerStmts(stmts, Push(false, [], sc), TailValue, c);
       (CStmtExpr(b, false), c1))
    case Try(x, ty) =>
      (var (a, c1) := LowerExpr(x, sc, c + 1);
       var (ds, c2) := LowerToFunc(sc, c1);
       var check := CIf(CFails(CTemp(c)), ds + [CReturn(Some(CFailure(CTemp(c))))], []);
       (CStmtExpr([CSet(c, a), check] + if ty == Val then [CDo(CPayload(CTemp(c)))] else [], false), c2))
    case For(_, _, _) => NotAnOperand(c)
    case Break(_) => NotAnOperand(c)
    case Continue => NotAnOperand(c)
    case Return(_) => NotAnOperand(c)
    case Defer(_) => NotAnOperand(c)
  }

  /** A statement form reached as an operand: an internal error of the emitter. */
  function NotAnOperand(c: nat): (CExpr, nat) {
    (CLoopRes, c)
  }

  /** Control transfers, with the defers they unwind. */
  function LowerTransfer(s: Expr, sc: Scopes, c: nat): (r: (seq<CStmt>, nat))
    requires IsTransfer(s)
    ensures r.1 >= c
    ensures |r.0| > 0
    decreases ScSize(sc) + Size(s), 3
  {
    match s
    case Return(Some(v)) =>
      if HasPending(sc) then LowerReturnThrough(v, sc, c)
      else
        var (x, c1) := LowerExpr(v, sc, c);
        ([CReturn(Some(x))], c1)
    case Return(None) =>
      (var (ds, c1) := LowerToFunc(sc, c);
       (ds + [CReturn(None)], c1))
    case Break(Some(v)) =>
      if HasPending(sc) then
        var (x, c1) := LowerExpr(v, sc, c + 1);
        var (ds, c2) := LowerToLoop(sc, c1);
        ([CSet(c, x)] + ds + [CSetLoop(CTemp(c)), CBreak], c2)
      else
        var (x, c1) := LowerExpr(v, sc, c);
        ([CSetLoop(x), CBreak], c1)
    case Break(None) =>
      (var (ds, c1) := LowerToLoop(sc, c);
       (ds + [CBreak], c1))
    case Continue =>
      (var (ds, c1) := LowerToLoop(sc, c);
       (ds + [CContinue], c1))
  }

  /** `return v` with pending defers: the value first, then the defers. */
  function LowerReturnThrough(v: Expr, sc: Scopes, c: nat): (r: (seq<CStmt>, nat))
    ensures r.1 >= c
    ensures |r.0| > 0
    decreases ScSize(sc) + Size(v), 3
  {
    var (x, c1) := LowerExpr(v, sc, c + 1);
    var (ds, c2) := LowerToFunc(sc, c1);
    ([CSet(c, x)] + ds + [CReturn(Some(CTemp(c)))], c2)
  }

  /** A statement that is not its block's last. */
  function LowerInner(s: Expr, sc: Scopes, c: nat): (r: (seq<CStmt>, nat))
    ensures r.1 >= c
    ensures |r.0| > 0
    decreases ScSize(sc) + Size(s), 4
  {
    if IsTransfer(s) then LowerTransfer(s, sc, c)
    else if EmitsStatement(s) then LowerStmtForm(s, sc, c)
    else
      var (x, c1) := LowerExpr(s, sc, c);
      ([CDo(if TypeOf(s) != Void then CVoid(x) else x)], c1)
  }

  /** How a value saved in `c` is delivered. */
  function DeliverStmt(c: nat, tail: Tail, t: Ty): CStmt {
    if tail.TailAssign? && t == Val then CSet(tail.target, CTemp(c))
    else CDo(if tail == TailValue then CTemp(c) else CVoid(CTemp(c)))
  }

  /** The last statement of a block and the defers of the fall-through exit. */
  function LowerLast(s: Expr, sc: Scopes, tail: Tail, c: nat): (r: (seq<CStmt>, nat))
    requires sc.Push?
    ensures r.1 >= c
    ensures |r.0| > 0
    decreases ScSize(sc) + Size(s), 5
  {
    if IsTransfer(s) then
      var (code, c1) := LowerTransfer(s, sc, c);
      if s.Return? && tail == TailReturn then
        var (dead, c2) := LowerDefers(sc.defers, c1);  // unreachable
        (code + dead, c2)
      else (code, c1)
    else if EmitsStatement(s) then
      var (code, c1) := LowerStmtForm(s, sc, c);
      if TypeOf(s) == Never then (code, c1)
      else
        var (ds, c2) := LowerDefers(sc.defers, c1);
        (code + ds, c2)
    else if tail.TailAssign? && TypeOf(s) == Val then
      if sc.defers != [] then
        var (x, c1) := LowerExpr(s, sc, c + 1);
        var (ds, c2) := LowerDefers(sc.defers, c1);
        ([CSet(c, x)] + ds + [DeliverStmt(c, tail, Val)], c2)
      else
        var (x, c1) := LowerExpr(s, sc, c);
        ([CSet(tail.target, x)], c1)
    else if tail == TailReturn && TypeOf(s) == Val then
      if HasPending(sc) then LowerReturnThrough(s, sc, c)
      else
        var (x, c1) := LowerExpr(s, sc, c);
        ([CReturn(Some(x))], c1)
    else if tail != TailReturn && TypeOf(s) != Void && sc.defers != [] then
      var (x, c1) := LowerExpr(s, sc, c + 1);
      var (ds, c2) := LowerDefers(sc.defers, c1);
      ([CSet(c, x)] + ds + [DeliverStmt(c, tail, TypeOf(s))], c2)
    else
      var (x, c1) := LowerExpr(s, sc, c);
      var code := [CDo(if TypeOf(s) != Void && tail != TailValue then CVoid(x) else x)];
      if TypeOf(s) != Void then (code, c1)
      else
        var (ds, c2) := LowerDefers(sc.defers, c1);
        (code + ds, c2)
  }

  /** The statements of a block from the current one on. */
  function LowerStmts(stmts: seq<Expr>, sc: Scopes, tail: Tail, c: nat): (r: (seq<CStmt>, nat))
    requires sc.Push?
    ensures r.1 >= c
    ensures stmts != [] || sc.defers != [] ==> |r.0| > 0
    decreases ScSize(sc) + SizeAll(stmts), 5
  {
    if stmts == [] then LowerDefers(sc.defers, c)
    else
      var s := stmts[0];
      if s.Defer? then
        SizePush(sc.defers, s.deferred);
        var inner := Push(sc.isLoop, sc.defers + [s.deferred], sc.parent);
        assert ScSize(inner) == ScSize(sc) + Size(s);
        LowerStmts(stmts[1..], inner, tail, c)
      else if |stmts| == 1 then LowerLast(s, sc, tail, c)
      else
        var (code, c1) := LowerInner(s, sc, c);
        var (rest, c2) := LowerStmts(stmts[1..], sc, tail, c1);
        (code + rest, c2)
  }

  /** A whole function body, its temporaries numbered from `c`. */
  function LowerFunction(body: seq<Expr>, c: nat): (seq<CStmt>, nat) {
    LowerStmts(body, Push(false, [], FnBase), TailReturn, c)
  }
}
