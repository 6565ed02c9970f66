# Verified model of the FC compiler

FC is a small systems language; its compiler `fcc` turns FC into C11. This project
models the parts of `fcc` whose correctness is hardest to see from the code, and
proves what they are for. Emitted text is replaced by small target languages with
the semantics C gives them, so a theorem about an emitter says what the C does.

| area | files | main results |
|---|---|---|
| `defer` | `Defer*.dfy` | the defers copied in at each exit behave as a run-time stack of defers; exactly which bodies come out as C |
| operand order | `Order*.dfy` | every operand order C allows gives FC's left-to-right result, exactly under the stated condition |
| integers | `Int*.dfy` | no undefined behaviour, and FC's modular or trapping result; exact bounds checks |
| `match` | `Match*.dfy` | first match wins, and no payload is read before its tag |
| type definitions | `TypeOrder*.dfy` | each body once, after everything it holds by value |
| generic instances | `Mono*.dfy` | discovery ends, with all that is needed; what the depth cap bounds |
| layout, `#if` | `LayoutPass.dfy`, `Cond*.dfy` | the offside rule; the flat filter is the tree's meaning |
| language server | `Lsp*.dfy`, `Positions.dfy` | whose live text each analysis is of; what the editor shows; positions round trip |
| JSON | `Json*.dfy` | parsing a value's text gives the value back |
| strings | `StringLiteral.dfy`, `Trigraphs.dfy`, `TypeNames.dfy`, `Format*.dfy` | a C compiler reads back FC's bytes; an interpolation prints what it means into a buffer that holds it |
| interning | `InternTable.dfy` | one handle per string |

What both sides of a theorem share, the meaning of a source form, a range of values, the
condition under which something holds, is pinned down in the `*Meaning.dfy` files: their
lemmas say of each such definition what it means in terms of characters, places, literal
tables or histories, without the function that the other proofs use.

Code that computes a result from its input is a function here; code that changes
state step by step is a class or a method with loops, proved against such a
function. `dafny verify dfyconfig.toml` checks everything.

## What the proofs found

Some statements that the code's comments make, or that a protocol asks of it, are false
of the code. Each is kept as the code has it, with an input and the exact condition
under which it holds:

- A body that type checks need not come out as C: where a block with a defer, a loop's
  say, ends in a `match` all of whose arms leave, and where a void call is returned while
  a defer is pending, the emitter declares a variable of type `void`
  (`DeferAccepted.AcceptedExactly`, with inputs in `DeferAccepted.Refused`).
- The order of operands is not FC's in five places. A top-level function *variable*
  counts as an atom and stays in place, so a later operand that assigns it changes what
  the call receives. A plain pointer's index, `p[h()]`, an atomic store of `h()` through
  `p`, and a raw slice of `p` and a length `h()` that needs no check are emitted without
  sequencing their two parts. A `for` over `h()..n` evaluates `n` first. Among
  the modelled expressions, without branches, there is no other:
  `OrderExact.OrderExactly`, with inputs in `OrderExact.Gaps`.
- "The depth cap alone guarantees termination" is false of tuples, which the cap does
  not see: `f` called with `{x, 1}` in its own body stays at depth 1 and runs until the
  instance count stops it (`MonoGrowth.GrowingRun`). The cap bounds what is built
  without tuples and without `'n + k`, and nothing else (`MonoGrowth.DepthCapExact`).
- A unit's other open documents are *not* always merged live: of two unsaved files in
  one directory only the first is read (`LspWitness.UnsavedNeighbour`), and a unit does
  not look again when a file it lists, missing so far, is opened
  (`LspWitness.ListedLater`). What is read is exact: `LspModel.MissedExactly` for a
  fresh analysis, `LspModel.ReadExactly` for any.
- A standard-library file open in the editor is analyzed, by units that take it from
  the feed, with the text it had when the server started
  (`LspModel.StaleExactlyWhenShadowed`).
- The ASCII fast path of the position mapping does not stop at the end of the text
  (`Positions.FastPathAgrees`, `Positions.FastPathOverruns`). A column past a line's
  end, which LSP takes for the line's length, lands behind the line feed, or behind the
  CR in front of it (`Positions.ColumnOnLine`, `Positions.PastTheLine`).
- `%T` writes a type's name without escaping, so `(i32??) -> i32` holds a trigraph
  under `-std=c11` (`TypeNames.TypeNameMisread`); which names do is
  `TypeNames.NameReadsBack`, which formats do is `FormatString.FormatMeans`.
- A `%s` of a string with a NUL byte stops there (`FormatBudget.StringWhole`,
  `FormatBudget.StringCut`), and an interpolation longer than an `int` can count is
  given its budget as its length, its buffer unspecified
  (`FormatBudget.InterpolationExact`, `FormatBudget.TooLongForInt`).

## Assumptions

- Earlier phases deliver well-typed programs: exhaustive matches, acyclic by-value
  types, injective mangled names, no escape out of deferred code.
- `size_t` is at least as wide as `int`; conversions to signed types wrap and `>>` of
  a negative value is arithmetic, as GCC and Clang define them. `int` has 16 or 32
  bits.
- The language server sees stable canonical paths and one spelling, hence one URI, per
  file; the feed has one entry per file. What the file system, `lsp.rsp` and the
  compiler say may change between any two messages.
- The hash function is arbitrary.

## Model

| member | source | states |
|---|---|---|
| DeferCorrect.LoweringPreservesMeaning | src/codegen.c:1995-2201 | For every body that type checks, every environment and every step budget, the emitted defer-free C returns what the source returns under a run-time last-in-first-out defer stack, stops when it stops, and leaves the same history; no control strays out of a function. |
| DeferCorrect.DefersOk | src/codegen.c:418-433 | The defers of one scope, copied in at an exit, act as the run-time stack of that scope and keep the pending outcome. |
| DeferCorrect.ToLoopOk | src/codegen.c:435-442 | At `break` and `continue` the copied defers are those the run-time stack unwinds, out to the loop. |
| DeferCorrect.ToFuncOk | src/codegen.c:444-450 | At `return` and a failing `x?` they are those of every enclosing scope. |
| DeferCorrect.StmtsOk | src/codegen.c:2016-2185 | A block's statements, in each of the four tail modes, deliver the source's value or escape with the defers run. |
| DeferCorrect.LastSavedOk | src/codegen.c:2101-2150 | A block's value is computed before its defers run and delivered after them. |
| DeferCorrect.ReturnThroughOk | src/codegen.c:1995-2006 | A returned value is computed before the defers run. |
| DeferCorrect.BreakValueOk | src/codegen.c:2069-2091 | A `break` value is computed before the defers out to its loop run. |
| DeferCorrect.TryOk | src/codegen.c:3932-3979 | A failing `x?` runs all pending defers and returns; a successful one yields the payload. |
| DeferCorrect.LoopOk | src/codegen.c:4921-4955 | Loops, with every way out of them, keep their meaning. |
| DeferCorrect.MatchOk | src/codegen.c:3292-3437 | A `match` runs the selected arm in a scope of its own, valued or not. |
| DeferTyping.OutcomesAllowed | src/codegen.c:2016-2185 | Evaluation ends only in outcomes the type and context allow: what has type `never` does not complete, and nothing escapes from deferred code. |
| DeferEmitter.Emitter.EmitBlockStmts | src/codegen.c:2016-2185 | The emitter over its scope stack emits the proved lowering and leaves the stack as it found it. |
| DeferEmitter.Emitter.EmitDefersToLoop | src/codegen.c:435-442 | Walking the scope stack emits the defers of every scope out to the nearest loop. |
| DeferEmitter.Emitter.EmitDefersToFunc | src/codegen.c:444-450 | Walking the scope stack emits the defers of every scope. |
| DeferEmitter.Emitter.HasPendingDefers | src/codegen.c:452-458 | Decides whether any scope of the chain holds a defer. |
| DeferEmitter.Emitter.EmitFunction | src/codegen.c:2187-2201 | What is emitted for a whole function behaves as the source does, and asks C for a value where there is none exactly under the condition of `DeferAccepted.AcceptedExactly`. |
| DeferAccepted.AcceptedExactly | src/codegen.c:2069-2150 | What is emitted for a body that type checks asks C for no value where there is none if and only if no block with a defer, the function's own apart, ends in a `match`, block or call that never completes, nothing without a value is returned where a defer is pending, and nothing without a value is broken out with; the code of a defer that no exit runs does not count. |
| DeferAccepted.Refused | src/codegen.c:2133-2150 | A loop whose body has a defer and ends in a `match` of a `break` and a `continue`, and the `return` of a void call after a defer, type check and do not come out as C. |
| DeferAnywhere.DeferredAnywhere | src/codegen.c:418-433 | A deferred expression is emitted the same under every scope stack with a pending defer: it reaches none of the scopes below it. |
| DeferMeaning.ActionReceives | src/codegen.c:3655-3669 | An action of FC receives the values of its operands, in order and after all that happened before it; it stops the program exactly when the world says so, and otherwise yields the world's value if it has one. |
| DeferMeaning.CallReceives | src/codegen.c:3655-3669 | So does the emitted C call. |
| DeferMeaning.OperandsInTurn | src/codegen.c:1462-1483 | Operands are evaluated one after the other, and the first that does not complete is the outcome of all. |
| DeferMeaning.DeferredRunsLast | src/codegen.c:2016-2185 | However a block is left, the actions it deferred, any number of them and none stopping the program, happen then, each once and the last one first, and the outcome stays what it was. |
| DeferMeaning.ReturnRunsAll | src/codegen.c:1995-2006 | A `return` computes its value, then runs the inner block's deferred actions backwards, then the outer one's. |
| DeferMeaning.ArmRuns | src/codegen.c:3292-3437 | A `match` runs the arm its subject selects, and no other. |
| DeferMeaning.LoopTurns | src/codegen.c:4921-4955 | A loop's turn is its body as a block: what it breaks out with ends the loop, what returns or stops leaves it, anything else is followed by the next turn. |
| DeferMeaning.TryLeaves | src/codegen.c:3932-3979 | `x?` leaves the function with the failure when its value has failed, and is the payload otherwise. |
| OrderCorrect.EveryOrderIsLeftToRight | src/codegen.c:1258-1540 | For every admitted expression and every schedule of the emitted C, a finished run has FC's left-to-right value and history, an unfinished one can go on, and runs are no longer than the expression. |
| OrderCorrect.ScheduleIrrelevant | src/codegen.c:1258-1268 | In a well-sequenced C expression no step of any schedule changes the left-to-right result, and only values are stuck. |
| OrderCorrect.LowerMeaning | src/codegen.c:1435-1483 | Hoisting keeps the left-to-right meaning. |
| OrderCorrect.LowerSequenced | src/codegen.c:1351-1455 | After hoisting no two unsequenced operands can affect one another. |
| OrderCorrect.AnalysisSound | src/codegen.c:1269-1316 | What the side-effect analysis calls pure performs no call once emitted. |
| OrderExact.OrderExactly | src/codegen.c:1318-1483 | For every expression without branches, the emitted C has FC's value and history in every schedule if and only if, at every place in it, no operand that names a function variable stands before one with effects, and no pointer index, atomic store, unchecked raw slice or range loop has an effect in one part and no constant for the other. |
| OrderExact.Misled | src/codegen.c:1318-1483 | Elsewhere there is a schedule that ends with another value or history, through whatever surrounds the fault. |
| OrderExact.Gaps | src/codegen.c:4649-4655 | `f(g, h())` with a function variable `g`, `p[h()]`, the atomic store of `h()` through `p`, the raw slice of `p` and an unsigned `h()`, and `for` over `h()..n` are such expressions. |
| OrderMeaning.AdmittedPairs | src/codegen.c:2871-2880 | The condition, form by form: a division, a checked slice, an assignment and a checked raw slice are right whenever their two parts are; a plain pointer's index, an atomic store and a range loop when, besides, one part has no effect or the other is a constant; an unchecked raw slice also when both have effects. |
| OrderMeaning.AdmittedLists | src/codegen.c:1435-1483 | A call's and an operation's operands are right when each is and none that names a function variable stands before one with effects. |
| OrderMeaning.EffectsAreSeen | src/codegen.c:1269-1316 | Without branches, an expression has effects exactly when evaluating it adds to the history. |
| OrderMeaning.AppliedPairs | src/codegen.c:4078-4098 | FC evaluates the part that is written first before the other, whatever the form; a store and a loop are events after both. |
| OrderMeaning.OnlyWhereNeeded | src/codegen.c:1462-1483 | Temporaries are made for a call's or an operation's operands only where there are two at least and one has an effect; a first operand that is no atom then gets one. |
| OrderMeaning.EitherFirst | src/codegen.c:1258-1268 | C may evaluate either of two calls that are operands of a third first, so both histories occur. |
| OrderCorrect.BothMeaning | src/codegen.c:4803-4877 | Two parts, stored in turn, left to C or stored in the other order, keep the left-to-right meaning under that condition. |
| OrderEmitter.Emitter.EmitBoth | src/codegen.c:4078-4098 | The emitter of two-part expressions writes the proved lowering. |
| OrderExact.SafeIndependent | src/codegen.c:1318-1357 | Every admitted expression has one result in all schedules. |
| OrderEmitter.Emitter.SeqHoist | src/codegen.c:1435-1455 | Rewriting the slots in place evaluates all operands but the last into temporaries in source order, atoms excepted, and saves the originals. |
| OrderEmitter.Emitter.SeqRestore | src/codegen.c:1457-1460 | Puts every hoisted slot back. |
| OrderEmitter.Emitter.EmitOperands | src/codegen.c:1462-1483 | Emits the proved lowering of a node's operands and leaves its slots as they were. |
| OrderEmitter.Emitter.EmitWhole | src/codegen.c:3005-3024 | Whatever is emitted for an admitted expression has FC's value and history in every schedule. |
| IntCorrect.LoweringCorrect | src/codegen.c:2748-2914 | For both widths of `int` and every expression and operand values, the emitted C has no undefined behaviour, yields FC's value, and aborts exactly where FC does. |
| IntCorrect.ArithCorrect | src/codegen.c:2748-2811 | `+ - *` wrap modulo the type's width, or under `checked` abort exactly when the mathematical result does not fit. |
| IntCorrect.ShlCorrect | src/codegen.c:2813-2846 | A left shift by a masked count is FC's for every count. |
| IntCorrect.ShrCorrect | src/codegen.c:2813-2846 | So is a right shift, rounding down for negative values. |
| IntCorrect.NegCorrect | src/codegen.c:4336-4377 | Negation wraps, or under `checked` aborts exactly at the minimum. |
| IntCorrect.BitNotCorrect | src/codegen.c:4336-4377 | Complement is `-x - 1` in the type, despite promotion. |
| IntCorrect.DivBodyCorrect | src/codegen.c:2848-2914 | Division truncates; the minimum by -1 wraps, or aborts under `checked`. |
| IntCorrect.RemBodyCorrect | src/codegen.c:2848-2914 | The remainder is FC's for every non-zero divisor, -1 included. |
| IntCorrect.NarrowedCorrect | src/codegen.c:2650-2680 | The emitted test is true exactly when the source value is outside the target type, with C's mixed-sign comparisons. |
| IntCorrect.CastCorrect | src/codegen.c:4044-4049 | A cast wraps, or under `checked` aborts exactly when the value does not fit. |
| IntModular.WrapUnique | src/codegen.c:2257-2290 | The wrapped result is the only value of the type congruent to the mathematical one. |
| IntMeaning.Ranges | src/codegen.c:1047-1063 | On every platform each of the ten types has exactly the values from its lowest to its highest, -128 to 127 for `i8` and so on, `isize` and `usize` by the pointer width, in FC and in the C type that is emitted; and wraps around after as many as there are. |
| IntMeaning.Operations | src/codegen.c:2748-2811 | What FC's operators yield for two values: the mathematical result wrapped, or under `checked` an abort exactly when it does not fit. |
| IntMeaning.Divisions | src/codegen.c:2848-2914 | `/` and `%` abort on a zero divisor, unless `unguarded`; otherwise `/` is the quotient, wrapped or, under `checked`, aborting where it does not fit, and `%` the remainder. |
| IntMeaning.Truncates | src/codegen.c:2848-2914 | These are the only numbers with `x == q * y + r`, the remainder smaller than the divisor and of the dividend's sign. |
| IntMeaning.Shifts | src/codegen.c:2813-2846 | A shift multiplies by the power of two and wraps, or divides and rounds down, by the count modulo the width. |
| IntMeaning.SignedOverflow | src/codegen.c:2748-2811 | The C that would do without the casts is undefined exactly when the mathematical result does not fit. |
| IntBounds.IndexCheckExact | src/codegen.c:4620-4648 | The single truncated unsigned compare accepts an index of any type and value exactly when it is in range, at every length width. |
| IntBounds.SubsliceCheckExact | src/codegen.c:4659-4711 | A pair of bounds is accepted exactly when `0 <= lo <= hi <= len`. |
| IntBounds.SubsliceLenExact | src/codegen.c:4659-4711 | An accepted subslice stores the number of its elements. |
| IntBounds.RawLengthExact | src/codegen.c:4803-4858 | A slice from raw parts stores a length in range, or aborts exactly when it is out of range. |
| IntBounds.AccessInside | src/codegen.c:695-713 | Through any chain of subslices, an access that happens lies in the first slice's memory. |
| MatchCorrect.MatchPreservesMeaning | src/codegen.c:3290-3437 | For every exhaustive match and every value, the emitted statement is C and runs exactly the guards and the body FC runs, in order, with FC's bindings. |
| MatchCorrect.TestsDecide | src/codegen.c:1732-1872 | A pattern's tests hold exactly when it matches, and read no storage that holds no value. |
| MatchCorrect.TestsWhenPredicate | src/codegen.c:1704-1727 | The predicate analysis is true exactly when a pattern writes a test. |
| MatchCorrect.DeclsBind | src/codegen.c:1893-1972 | After a match the declarations read exactly the bindings, from storage that holds a value. |
| MatchCorrect.TrialsAgree | src/codegen.c:3347-3427 | Flag-guarded trials run every guard and body FC runs, and no other. |
| MatchCorrect.LinksAgree | src/codegen.c:3368-3417 | The `if` chain with its last test dropped runs the arm FC picks. |
| MatchCorrect.CoveredRuns | src/codegen.c:3419-3427 | A covered match always picks an arm. |
| MatchCorrect.ReprInjective | src/codegen.c:1732-1872 | A C object represents one value of its type. |
| MatchMeaning.OnlyItself | src/codegen.c:1732-1872 | Every value of every type has a pattern, written like it, that fits the type and takes it, and, where the type holds no pointer, takes nothing else. |
| MatchMeaning.FirstTaken | src/codegen.c:3290-3437 | The body that runs is that of the first arm whose pattern takes the value and whose guard holds; before it exactly the guards of the earlier arms that match were tried, in order, each seeing its bindings and all that was done before. |
| MatchMeaning.PartsBind | src/codegen.c:1893-1972 | A struct's or tuple's bindings are those of the listed parts, one part after the other. |
| MatchEmitter.Emitter.EmitPredicate | src/codegen.c:1732-1872 | The text written is the conjunction of the pattern's tests, and the flag tells whether anything was written. |
| MatchEmitter.EmitMatch | src/codegen.c:3290-3437 | The one-pass emitter produces the proved lowering. |
| TypeOrderEmitter.EmitTypes | src/codegen.c:7167-7233 | For every program whose types hold each other without a cycle: every body is emitted once, after all it holds by value is complete, and none is missing. |
| TypeOrderEmitter.Sorter.Visit | src/codegen.c:6423-6441 | Depth-first visiting extends a valid order up to the given definition and leaves those in progress alone. |
| TypeOrderEmitter.Sorter.Sort | src/codegen.c:6398-6441 | Every definition is in the order, after what it holds. |
| TypeOrderEmitter.WrapEmit.EmitWrapperBodies | src/codegen.c:6312-6346 | The fixpoint over option and result wrappers ends with no emittable wrapper left. |
| TypeOrderEmitter.WrapEmit.SettledComplete | src/codegen.c:6266-6346 | Then every type whose aggregate is defined is complete, however deeply wrapped. |
| TypeOrderEmitter.WrapEmit.EmitAll | src/codegen.c:7167-7233 | Definitions interleaved with the fixpoint give an ordered, covering output. |
| TypeOrderSpec.OrderedMeansAcyclic | src/codegen.c:6398-6441 | Only acyclic programs have such an output. |
| TypeOrderSpec.HeldBefore | src/codegen.c:6361-6377 | The aggregate a complete type holds, however deep, was defined before. |
| TypeOrderMeaning.HeldIsThere | src/codegen.c:7167-7233 | In such an output, when a body is written, every type reached from its fields through arrays, options and results, at any depth, has its body before, unless a header has it. |
| TypeOrderMeaning.DependsIs | src/codegen.c:6361-6377 | One definition depends on another exactly when it is written here and the other is reached from one of its fields in that way. |
| MonoTable.Discover | src/monomorph.c:620-726 | Discovery ends on every program. Without an error the table has no duplicate, is closed, holds the seeds and leaves nothing dangling; always, every entry is reached from the seeds and within the caps (the depth cap is not for tuples); an error names a refused instance that was reached. |
| MonoMeaning.NeededIsThere | src/monomorph.c:338-392 | For every program whose declarations and seeds bind each parameter, constants by constants: a closed table that came from the seeds has every instance that any chain of needs reaches. That no variable is left in an instance is a consequence. |
| MonoMeaning.NamedInBodyIsThere | src/monomorph.c:318-336 | An instance that a body names at any place, under any pointers, slices, options, results, function types or tuples, is in the closed table with the function's arguments put in for its parameters. |
| MonoMeaning.SubstReplaces | src/types.c:1518-1697 | Substitution puts the argument for every parameter, at every place of a term, adds the step to a constant, and keeps everything else where it is. |
| MonoMeaning.SubstKinded | src/types.c:1518-1697 | Where all parameters are bound, constants to constants, no variable is left. |
| MonoMeaning.NothingPassedOver | src/monomorph.c:325-336 | In such a program no field and no part of a body is passed over for a variable left in it. |
| MonoMeaning.NeedsAre | src/monomorph.c:449-555 | The C of a type needs exactly the instances that stand at some place of it outside the arguments of another. |
| MonoMeaning.RefusedWhen | src/monomorph.c:77-135 | A new instance is refused exactly when a check rejects it, an argument nests more than 128 deep, 200000 instances are there, or it has a constant argument and its template has 2048; of a tuple only the number of instances counts. |
| MonoMeaning.DepthIs | src/types.c:1926-1968 | A type's depth is the number of nodes on the longest way down through its type arguments, not through a tuple. |
| MonoTable.RequiresByKey | src/monomorph.c:40-66 | What an instance needs depends on its mangled name only, so one entry per name suffices. |
| MonoTable.Table.Register | src/monomorph.c:40-206 | Adds at most one entry; afterwards the name is there or an error is reported, exactly when a cap or check refuses it, the count of instances being the only one that refuses a tuple; after an error the table is frozen. |
| MonoTable.Table.DiscoverNested | src/monomorph.c:449-555 | Registers every instance a concrete type names. |
| MonoTable.Table.DiscoverTransitive | src/monomorph.c:703-726 | All bodies, those found on the way included, have their calls instantiated. |
| MonoTable.Table.FinalizeTypes | src/monomorph.c:620-688 | All fields of type instances have their types instantiated, so the backstop finds nothing. |
| MonoTable.Table.CheckDangling | src/monomorph.c:557-618 | Reports exactly the concrete types that carry an instance absent from the table. |
| MonoGrowth.DepthCapExact | src/monomorph.c:15-36 | Over finitely many names, with something to call and to pair among them, the depth cap leaves every program finitely many instances if and only if types are built without tuples and without steps of a constant. |
| MonoGrowth.PairsUnbounded | src/types.c:1926-1968 | `f<'a>` calling itself with `{'a, x}` makes unboundedly many instances, none too deep. |
| MonoGrowth.GrowingRun | src/monomorph.c:397-411 | Discovery of that program fills the table to the instance count and then reports an error; no entry is too deep. |
| MonoGrowth.DeepTupleAccepted | src/monomorph.c:499-522 | A tuple of an element nested past the cap is registered, though a function of that element is refused. |
| LayoutPass.Tokenize | src/lexer.c:927-1095 | Accepted output nests, obeys the offside rule at every token, and is the input's tokens in order; a refused file has a line in no open column, or opens one block too many. |
| LayoutPass.Layout.NewLine | src/lexer.c:962-1055 | One line end puts the next line where the offside rule wants it, and refuses exactly the columns left of the block that no open block has. |
| LayoutPass.Layout.DedentTo | src/lexer.c:1020-1046 | Closing blocks succeeds exactly when the column is that of an open block. |
| LayoutPass.WellLaidOutNests | src/lexer.c:927-1095 | Such output has balanced INDENT and DEDENT, no empty block, and no two adjacent NEWLINEs. |
| LayoutMeaning.LineStart | src/lexer.c:962-1055 | In accepted output, outside brackets: an INDENT stands before the first token of a line exactly when the line before ends in `with`, another block former, or `=` on a line with a declaring keyword, and the token is deeper than its block, or for the first arm at the level of its match; nothing stands there exactly when it is deeper and the line before asks for no block; otherwise a NEWLINE does, and the token is at the column of an open block. |
| LayoutMeaning.IndentAt | src/lexer.c:992-1001 | An INDENT stands between two lines, at the column of the token behind it, and nowhere else. |
| LayoutMeaning.OpenBlocks | src/lexer.c:1020-1046 | The columns of the open blocks are those of the INDENTs that no DEDENT has closed. |
| LayoutMeaning.RefusedWhy | src/lexer.c:962-1055 | A file is refused at the first token of a line that no bracket holds open, all before it being laid out: because it stands left of the innermost block and in no column of an open one, or because the line before asks for a block and 128 are open. |
| CondFilter.FilterIsTree | src/lexer.c:812-910 | For every nesting of conditionals within the limit and all flags, the filter keeps exactly the first branch that holds at each level. |
| CondFilter.AcceptedIsTree | src/lexer.c:812-910 | It accepts exactly the sources that are such trees, whatever the flags. |
| CondMeaning.Means | src/lexer.c:728-755 | A name holds when it is set, a comparison when it is set to that value, `!=` exactly when `==` does not, an unset name included; negation, conjunction and disjunction are those of logic. |
| CondMeaning.Binding | src/lexer.c:714-785 | Of three operands the conjunction binds tighter than the disjunction, and each groups to the left. |
| CondMeaning.FirstIsKept | src/lexer.c:812-910 | Of a conditional the body of the first branch whose condition holds is kept, and of the others nothing. |
| CondSyntax.LineExact | src/lexer.c:704-810 | A directive line is accepted exactly when it spells a condition, to its end, and that condition is unique. |
| CondSyntax.OrSound | src/lexer.c:714-785 | What the recursive descent accepts spells the condition it returns. |
| CondSyntax.OrComplete | src/lexer.c:714-785 | What spells a condition is accepted. |
| CondSyntax.PrintSpells | src/lexer.c:714-785 | Every condition has a spelling at every precedence level. |
| CondPass.EvalCondExpr | src/lexer.c:787-810 | The evaluator with its moving cursor returns the condition's truth value and the position behind it. |
| CondPass.Filter.FilterConditionals | src/lexer.c:812-910 | The branch stack in arrays yields the tree's tokens, or rejects exactly the sources that are no tree. |
| JsonRoundTrip.RoundTrip | src/json.c:277-303 | Parsing the text of a value, followed by the end or any delimiter, gives the value and stops right behind it. |
| JsonRoundTrip.TextInjective | src/json.c:347-390 | Different values have different texts. |
| JsonMeaning.BlanksDoNotMatter | src/json.c:114-121 | Spaces, tabs, line feeds and carriage returns before a value and between any of its tokens change nothing of what is parsed. |
| JsonMeaning.NumberIsWhole | src/json.c:208-223 | A run of number characters is read whole, up to 63 of them; a longer one is refused. |
| JsonMeaning.UnicodeEscapes | src/json.c:140-196 | `\uXXXX` is decoded as that character, and a pair of surrogates as the one character that UTF-16 writes so. |
| JsonMeaning.Utf8Encodes | src/json.c:126-138 | Every character is written in the shortest form of UTF-8. |
| JsonParser.JsonParse | src/json.c:277-303 | The parser returns the written value for every text that starts with one. |
| JsonParser.Parser.String | src/json.c:155-206 | A string is decoded within a buffer no longer than the rest of the source. |
| JsonParser.Writer.Serialize | src/json.c:347-390 | Appends exactly the value's text to a buffer that grows as needed. |
| JsonParser.Writer.Put | src/json.c:309-316 | Appending keeps what is there, across growth. |
| InternTable.InternAll | src/common.c:303-364 | Over any run of calls, two handles are equal exactly when their strings are. |
| InternTable.Table.Intern | src/common.c:340-364 | A known string keeps its handle; a new one gets a new handle and changes no other. |
| InternTable.Table.Search | src/common.c:340-364 | Probing ends, at the string or at the gap where it belongs. |
| InternTable.Table.Grow | src/common.c:321-338 | Rehashing keeps exactly the stored strings and leaves the table less than half full. |
| InternTable.NotThere | src/common.c:340-364 | An empty slot on a string's probe means the string is nowhere. |
| InternTable.PutSound | src/common.c:340-364 | Filling that slot keeps every string reachable. |
| LspServer.Serve | src/lsp.c:1744-1803 | Over every sequence of open, change, close and idle messages, with the world changing in between: at the end the server holds the editor's buffers; every analysis is of the live text of exactly those open documents that its unit wanted and, unless they are its own, has on record, feed files apart; exactly the analyses in use are live, and the editor shows exactly their diagnostics. |
| LspServer.Server.FlushDirty | src/lsp.c:1724-1803 | After a flush nothing is pending, each unit of an edited document is the compiler's answer to the present sources, every other unit is unchanged or equally fresh, a unit with no changed document and no changed file on record is left alone, and the invariant holds. |
| LspServer.Server.AnalyzeUnit | src/lsp.c:1491-1581 | Re-running a unit replaces its result by a current one and keeps one owner for each live analysis. |
| LspServer.Server.Retire | src/lsp.c:1565-1577 | The last good analysis is kept while the new one does not type-check; everything else is freed once. |
| LspServer.Server.FreeUnit | src/lsp.c:182-189 | Frees both analyses of a unit, once when they are the same. |
| LspServer.Server.UnitPrune | src/lsp.c:1315-1328 | Exactly the units with an open document remain, and nothing else stays live. |
| LspServer.Server.Publish | src/lsp.c:1583-1706 | Whatever the editor showed, it now shows for every file exactly the collected diagnostics, and nothing for a file that is closed and gone. |
| LspServer.Server.DidClose | src/lsp.c:1869-1905 | Closing makes saved text count again for every unit; closing the last document frees all analyses and clears the editor. |
| LspServer.Server.GatherSources | src/lsp.c:1360-1474 | The sources are exactly the listed files that exist, live text before saved text, and the feed's files that are missing by path and by content. |
| LspServer.Server.QueryResult | src/lsp.c:164-180 | Queries are answered by a live analysis that type-checked, the fresh one when it did. |
| LspServer.Settled | src/lsp.c:1768-1800 | After re-running the units of changed documents and those with a changed file on record, every unit's reading of every open document is accounted for, and all units not concerned are as they were. |
| LspModel.ReadExactly | src/lsp.c:1781-1790 | Any analysis has a document's live text if and only if its unit wanted the file when it ran and is the document's own or has the file on record, or the feed's text is the same. |
| LspModel.MissedExactly | src/lsp.c:1360-1474 | A current analysis has an open document's live text if and only if its unit lists the file or is run on it, or the feed supplies the same text: being of the unit is not enough. |
| LspModel.StaleExactlyWhenShadowed | src/lsp.c:1424-1469 | A current analysis has another text of an open file if and only if the feed supplies the file, the unit does not list it, and the feed's text differs. |
| LspWitness.UnsavedNeighbour | src/lsp.c:1708-1716 | Of two unsaved files of one directory, both of its unit, one is not analyzed. |
| LspWitness.ListedLater | src/lsp.c:1781-1800 | A file that a unit lists and that is opened before it is saved is not read by that unit. |
| LspModel.FeedCanShadow | src/lsp.c:1424-1469 | That happens: a library file opened beside a project. |
| LspModel.AggregateContents | src/lsp.c:1595-1640 | The collected diagnostics are those of all units, hidden and unopened feed files apart. |
| LspMeaning.EditorShows | src/lsp.c:1583-1706 | A truthful editor shows for a file, if it is open or on disk, exactly the diagnostics that some unit's analysis has of it and does not hide, each once; for a library file that is not open none. |
| LspMeaning.CurrentReadsAsked | src/lsp.c:1360-1423 | Of a file that its unit lists, a current analysis has the open document's buffer, and the saved text if it is not open; its diagnostics are the compiler's for just its texts. |
| LspMeaning.CurrentReadsLibrary | src/lsp.c:1424-1469 | Of any other file it has the library's text or none: the library's exactly when the unit takes the library and none of its files has the same text. |
| Positions.ThereAndBack | src/lsp.c:313-396 | For every character of every document, the byte position becomes the UTF-16 position and back. |
| Positions.ToCompiler | src/lsp.c:355-377 | The ASCII fast path and the scan give the same column, for any line and column. |
| Positions.FastPathAgrees | src/lsp.c:379-396 | In the other direction they agree if and only if the column is not past the end of the text. |
| Positions.FastPathOverruns | src/lsp.c:379-396 | Run on a text of one character, the conversion makes column 9 the editor's column 8. |
| Positions.ColumnOnLine | src/lsp.c:355-377 | On a line that ends with a line feed the column is at or before any character of it, the line feed or a CR in front of it included, if and only if the editor's is; past the line feed it is the one behind it. |
| Positions.PastTheLine | src/lsp.c:355-377 | In `a` and a line feed, the editor's column 2 becomes column 3, where the line has two. |
| Positions.BuildIndex | src/lsp.c:313-329 | The index has every line's start and knows whether the text is ASCII. |
| Positions.LineFound | src/lsp.c:313-329 | The index places each character in its line, since no byte of a longer character is a line feed. |
| PositionMeaning.LengthsAre | src/lsp.c:347-353 | A first byte of UTF-8 tells its sequence's length and how many UTF-16 units its character takes; any other byte is taken alone. |
| PositionMeaning.IndexIs | src/lsp.c:313-329 | The index lists the places behind a line feed and the start of the text, in order and each once. |
| StringLiteral.LiteralReadsBack | src/codegen.c:276-306 | For every FC literal, a C compiler reads the emitted body, trigraphs replaced, as exactly the bytes the literal means. |
| StringLiteral.EmitStrLitBody | src/codegen.c:298-306 | For any source text the emitted body reads back as the decoded bytes. |
| StringLiteral.ByteReads | src/codegen.c:276-296 | Whatever follows an emitted byte, a digit included, it is read as itself. |
| StringLiteral.DecodeMeans | src/common.c:98-126 | Decoding the spelling of a literal gives its meaning. |
| StringLiteral.DecodeStrLit | src/common.c:98-126 | The sizing pass and the filling pass count the same bytes. |
| LiteralMeaning.FcEscapes | src/common.c:98-126 | FC's escapes are the letters n, t, r, the digit 0, the backslash and the two quotes, with the bytes they are for, and no others. |
| LiteralMeaning.RawBytes | src/codegen.c:276-296 | A byte is emitted as itself exactly when it is printable or above ASCII and no quote, question mark or backslash; every other one is escaped, and a percent sign is doubled in a format. |
| StringLiteral.RawExact | src/codegen.c:2431-2432 | Text written raw reads back if and only if no `??` in it stands before a trigraph's third character. |
| Trigraphs.UnitsExact | src/codegen.c:276-296 | A literal body of raw bytes and escapes in any mixture reads back, trigraphs replaced, as its bytes if and only if no trigraph stands in it. |
| TypeNames.NameReadsBack | src/types.c:567-681 | `%T` of a type prints its name if and only if no option of an option stands last in a parameter list, last among type arguments, under a result, or in the parentheses of a `const` element. |
| TypeNames.TypeNameMisread | src/types.c:567-681 | The names of `(i32??) -> i32` and of `(const str??) -> i32` do not read back. |
| FormatMeaning.NamesAre | src/types.c:567-681 | How the name of a type is made from its parts', an element whose name starts with `const ` going into parentheses before a suffix. |
| FormatString.FormatMeans | src/codegen.c:2414-2540 | The format literal and its arguments print every literal byte, name and conversion in order, NUL bytes, percent signs and question marks included, if and only if no trigraph stands in the literal. |
| FormatString.OnlyNamesMakeTrigraphs | src/codegen.c:276-296 | No literal byte and no conversion makes one: only a type's name can. |
| FormatEmit.EmitInterpString | src/codegen.c:2296-2565 | For every interpolation that type checks: what C makes of the emitted sum, literal and arguments, for all values and both widths of `int`, is what the interpolation means, if the literal has no trigraph. |
| FormatEmit.SnprintfPrintsOutput | src/codegen.c:2409-2540 | Every directive has arguments of its own number and type, no string is read past its memory, and C prints the text that the buffer was sized for, if and only if no trigraph stands in the literal. |
| FormatEmit.AbortsAgree | src/codegen.c:2498-2504 | An emitted argument aborts exactly when a string without a shorter precision is longer than an `int` counts. |
| FormatEmit.Directive | src/codegen.c:2433-2466 | A directive is composed from its spec's text: `.*s` for a str, `ll` before an integer's letter, `%d` of an unsigned value as `%u`. |
| FormatEmit.DirectiveReads | src/codegen.c:2433-2466 | C reads every composed directive as the flags, width, precision and letter that were written. |
| FormatEmit.Widened | src/codegen.c:2506-2528 | Cast at its own width and printed as `long long` or `unsigned long long`, every integer prints as its own type would. |
| FormatEmit.EmitFormat | src/codegen.c:2414-2469 | The emitting loop writes the literal of the proved pieces. |
| FormatEmit.EmitArgs | src/codegen.c:2471-2540 | The argument loop passes a zero per NUL byte, a length and a pointer per str, and one value per other conversion, each from its own temporary. |
| FormatSpec.InterpSpecScan | src/common.c:66-96 | A written spec is read as its parts, wherever it stands, and nothing else is accepted. |
| FormatSpec.ScanField | src/common.c:56-64 | A digit run's value, saturating one past the largest field. |
| FormatBudget.InterpolationExact | src/codegen.c:2385-2396 | An interpolation aborts exactly when the sum exceeds the largest length or an unclipped string is longer than an `int` counts; otherwise its stored length is in range, and text and length are exact if and only if an `int` counts the text. |
| FormatBudget.TooLongForInt | src/codegen.c:2546-2565 | With a 16-bit `int`, two strings of 20000 bytes and a number store a length of 40011 for 40001 bytes. |
| FormatBudget.InterpNumericBound | src/facts.c:163-249 | The bound is at least the printed length of every value of the type, for all flags, widths and precisions. |
| FormatBudget.TermsCover | src/codegen.c:2349-2384 | The emitted run-time sum covers the text of all segments, whatever the values. |
| FormatBudget.InterpConstBufferSize | src/facts.c:270-287 | The hoisted constant exists exactly when no string is open-ended, equals the run-time sum, and covers the text. |
| FormatBudget.StringWhole | src/codegen.c:2488-2505 | A string is printed whole, up to its precision, if and only if that much of it has no NUL byte. |
| SpecMeaning.StringIs | src/codegen.c:2488-2505 | What `%s` prints ends before a NUL byte, at the precision or at the end, whichever comes first, and is filled with blanks up to the width. |
| SpecMeaning.BudgetIs | src/facts.c:163-249 | A number's budget is its type's widest field, four bits or three a digit, or the precision and a sign if that is more, with a byte for `+`, one for a blank and two for `#`; or the width, if that is more still. |
| FormatBudget.StringCut | src/codegen.c:2488-2505 | `A`, a NUL byte and `B` under `%s` print `A`. |

## Left out

- DeferCorrect.LoweringPreservesMeaning: the bounds of a range `for`, the `checked`/`unguarded` markers at an exit, the `return` or `break` of an `if`, `for` or loop that has no value, and a loop broken out of with a call that never completes are not modelled.
- DeferAccepted.AcceptedExactly: of C's rules, those about values and `void`; that no temporary is read before it is set is part of `DeferCorrect.LoweringPreservesMeaning`.
- DeferEmitter.Emitter.EmitDeferred: emits under an empty scope chain, which `DeferAnywhere.DeferredAnywhere` shows makes no difference.
- DeferCorrect.MatchOk: which arm is taken is an arbitrary function of the subject here; patterns have their own model.
- OrderCorrect.EveryOrderIsLeftToRight: holds for the expressions `OrderSafe` admits; outside them `OrderExact.OrderExactly` covers code without branches, since a fault in a branch never taken does no harm. Aborts, subslices, array literals and interpolations are not modelled, and a range loop's run is one event.
- IntCorrect.LoweringCorrect: bitwise `& | ^`, comparisons and literals are not modelled; an `unguarded` division by zero is undefined in FC too.
- MatchCorrect.MatchPreservesMeaning: floating-point literal patterns are not modelled; tuple and struct patterns share one form.
- MonoTable.Discover: mangled names are canonical terms; evaluating const-generic expressions is one step, `'n + k`.
- MonoTable.Table.CheckDangling: the text and position of the report are not modelled.
- LayoutPass.Tokenize: scanning, and the phases published to the editor, are not modelled.
- CondFilter.AcceptedIsTree: which of the error messages is given is not modelled.
- JsonRoundTrip.RoundTrip: integers up to 2^53 in size, strings of any bytes, keys without NUL; other numbers are kept as their text, since floating point is not modelled.
- InternTable.Table.Intern: the arena the strings are copied to is not modelled.
- LspServer.Serve: hover, completion, the JSON-RPC framing, the lex cache, the notes about an unlisted file or a broken `lsp.rsp`, and allocation other than analyses are not modelled.
- LspModel.StaleExactlyWhenShadowed: holds of a unit at its analysis; what the file system says later is seen at the unit's next one.
- Positions.ThereAndBack: for valid UTF-8; on other bytes the scans are modelled but nothing is claimed.
- FormatBudget.InterpNumericBound: floating-point and pointer conversions are not modelled.
- FormatBudget.InterpolationExact: the `checked` abort on a clipped string, and a heap buffer that could not be allocated, are not modelled.
- TypeNames.NameReadsBack: functions with type parameters of their own, variadic ones, and array sizes that are constant expressions are not modelled.
- The parser, type checking, floats, C spelling and indentation, header selection, runtime helpers, externs, trampolines and lambdas.
- Response files and the file-name wildcard matcher: independent of the rest, and they would add only easy members.
