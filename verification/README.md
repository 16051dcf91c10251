# Verified model of the two JSONata engines

The repository holds two engines for the JSONata query language, one in Go and one in JavaScript. This
project models the parts of them whose correctness rests on an argument rather than on reading the code,
and proves that argument with Dafny. `dafny verify dfyconfig.toml` checks everything.

| file | what it models |
|---|---|
| `TailCalls.dfy`, `JsLaws.dfy`, `TailFailures.dfy`, `TailFilters.dfy`, `AstRewrite.dfy` | JavaScript function calls: the parser's tail-call rewriting (as a function on expressions, and in place on nodes), the evaluator construct by construct, its trampoline, and what the rewriting does to values and to failures |
| `GoCalls.dfy`, `GoLaws.dfy` | Go function calls: the evaluator construct by construct, the depth counter, the trampoline's iteration limit, the marking of tail calls |
| `WorkerPool.dfy`, `PoolLaws.dfy` | the Node worker pool, as a state machine over events and as a class whose handlers are its steps; why tasks end and why workers are retired |
| `Powers.dfy`, `Decimals.dfy`, `Quotients.dfy` | assigned decimals: comparing, formatting, flooring and indexing JSON number tokens; division, square root and integer powers |
| `Wtf8.dfy`, `Collation.dfy`, `JsonStrings.dfy`, `Kmp.dfy` | UTF-16 strings kept in byte strings: conversion, concatenation, order, JSON escapes, literal search |
| `Numerals.dfy`, `Words.dfy`, `JsWords.dfy`, `EnglishNumbers.dfy` | letter, Roman and English-word integer pictures: printers and the parsers that invert them, in both engines |
| `Calendar.dfy` | the proleptic Gregorian calendar and the week components of dates in both engines |
| `Distinct.dfy` | structural equality and `$distinct`: hashed in Go, quadratic in JavaScript |
| `PlanCache.dfy`, `Streams.dfy` | the ring-buffer plan cache with published snapshots, and the streaming evaluator over it |
| `CompileCache.dfy` | the bounded caches of compiled expressions and regexes, under every interleaving of their callers |
| `Options.dfy`, `Parameters.dfy` | a value that may be missing, for all of them; the binding of arguments to parameters, for both evaluators |

Code that changes state is modelled by classes and methods with loops, each proved against a function;
the lemmas are about those functions. Operations of libraries (correctly rounded division and roots, the
JSON escaper for scalars, calendar arithmetic within 400 years, regex compilation) are parameters or
functions that satisfy their published contract.

## What the proofs found

- Tail-call rewriting in JavaScript enters a block or condition that a predicate follows, and the predicate
  is then applied to the thunk instead of the call's value: `function() { (function() { true }())[$] }()`,
  whose parentheses are a block, yields true as it stands and nothing when rewritten
  (`TailFilters.ValuesDiffer`). A predicate meets a thunk if and only if some lambda body has, in tail position,
  a predicate after a block or condition that ends in a call
  (`TailFilters.ThunksAreFilteredExactlyOutsideSource`).
- For all other programs the rewriting preserves values and stores, in both directions
  (`TailCalls.RewritingPreservesMeaning`), but not every failure code: the trampoline writes a position onto
  the procedure of a tail call before it looks at it. Calling a number in tail position is `T1006` before
  rewriting and a host `TypeError` after it (`TailFailures.FailureCodesDiffer`). A failing plain program keeps
  its code if and only if that code is the host's error already or the run reaches no tail call whose procedure
  is no function (`TailFailures.FaultsAgree`); programs whose tail calls call lambda literals always keep it
  (`TailFailures.GuardedProgramsKeepFaults`).
- For the same reason the rewritten program can fail where the plain one never ends, because the trampoline
  does not evaluate the arguments of such a call (`TailFailures.RewrittenFailsAlone`). A failing rewritten
  program has a failing plain one if and only if those arguments end (`TailFailures.FailuresReflect`).
- The Go parser also marks a call that is the right-hand side of a binding in tail position. The sentinel
  is then bound to the variable, and a closure can observe it: a program that should yield undefined runs
  into `U1001` (`GoCalls.MarkingBelowABindingLeaks`). The parser's walk puts every mark where its sentinel goes
  straight back to the trampoline if and only if no lambda body ends in such a binding
  (`GoCalls.WalkIsCleanExactlyIfTame`), and then no run of the parsed program lets a sentinel out
  (`GoCalls.MarkedProgramsContainTheSentinel`).
- The engines limit the numbers that words may spell differently: Go counts all digits, JavaScript the
  significant ones and the exponent (`JsWords.LimitsDiffer`). For each the printed words read back exactly when
  the number is within its own limit (`Words.WordsReadBack`, `JsWords.HostReadsBack`).
- The Roman decoders of the engines differ on numerals such as `IIX`, which no printer writes; the exact
  condition is `Numerals.ReadingsAgree`.

## Model

| member | source | states |
|---|---|---|
| `TailCalls.RewritingPreservesMeaning` | javascript/src/parser.js:897-921 | unless a lambda body applies a predicate to a tail call, the rewritten program delivers a value if and only if the plain one does, and then value and store agree up to rewritten closures and host wrappers |
| `TailCalls.RewritingIsExact` | javascript/src/jsonata.js:1499-1519 | the rewritten run is finished if and only if the plain run is that fails at once on a tail call of what is no function, and the two have the same value and store or the same failure code |
| `TailCalls.OutcomesAgree` | javascript/src/parser.js:1265-1274 | whatever nesting the rewritten run and that checked plain run each finished within, they have the same value and store or the same failure code |
| `TailCalls.PreservedEval` | javascript/src/jsonata.js:1499-1519 | any finished checked evaluation of a plain expression, in any frame of any equivalent store, has an equivalent rewritten evaluation of no greater nesting, failure codes included |
| `TailCalls.PreservedTail` | javascript/src/jsonata.js:1590-1607 | a body whose tail calls became thunks, once its thunks are run by the trampoline, ends as the checked plain body ends, values and failure codes |
| `TailCalls.ReflectedEval` | javascript/src/jsonata.js:1499-1519 | every finished evaluation of the rewritten expression has an equivalent checked plain one |
| `TailCalls.ReflectedTail` | javascript/src/jsonata.js:1590-1607 | a finished trampolined body has a finished checked plain body |
| `TailCalls.PreservedArgs` | javascript/src/jsonata.js:1433-1488 | argument lists keep their values in order, functions among them behind host wrappers |
| `TailCalls.PreservedApply` | javascript/src/jsonata.js:1529-1581 | applying equivalent functions, wrapped or not, to equivalent arguments is equivalent, failure codes included |
| `TailCalls.MoreFuelEval` | javascript/src/jsonata.js:1499-1519 | a finished evaluation does not depend on how much nesting was allowed |
| `TailCalls.SiteFails` | javascript/src/jsonata.js:1433-1488 | a plain run that reaches a tail call of what is no function ends only by failing, and only if the arguments of that call end |
| `TailCalls.NoThunkEscapesTheLoop` | javascript/src/jsonata.js:1499-1519 | the loop of `apply` hands out no thunk |
| `TailCalls.NoThunkEscapes` | javascript/src/jsonata.js:1499-1519 | a rewritten program leaves no thunk in its value, in any frame, or behind a closure |
| `TailCalls.ThunkFreeMeans` | javascript/src/jsonata.js:1590-1607 | thunk-free means that neither the value nor any context or function it captured is a thunk |
| `TailFailures.FaultsAgree` | javascript/src/jsonata.js:1499-1519 | for every failing plain run the rewritten one fails within the same nesting, with the host error if a tail call of what is no function was reached and with the plain code otherwise; the codes agree if and only if the plain code is the host error or no such call is reached |
| `TailFailures.FailuresReflect` | javascript/src/jsonata.js:1499-1519 | a failing rewritten run has a failing plain run if and only if the arguments of every such call that is reached end |
| `TailFailures.GuardedProgramsKeepFaults` | javascript/src/parser.js:897-921 | where all tail procedures are lambda literals, rewriting keeps values, stores, failure codes and whether the run ends |
| `TailFailures.FailureCodesDiffer` | javascript/src/jsonata.js:1499-1519 | a concrete program whose failure code the rewriting changes |
| `TailFailures.RewrittenFailsAlone` | javascript/src/jsonata.js:1499-1519 | a concrete program that fails when rewritten and never ends otherwise |
| `TailFilters.ThunksAreFilteredExactlyOutsideSource` | javascript/src/parser.js:897-921 | the rewritten program applies a predicate to what may be a thunk if and only if some lambda body has in tail position a predicate after a block or condition that ends in a call; the theorems above hold for all other programs |
| `TailFilters.ValuesDiffer` | javascript/src/jsonata.js:129-133 | a concrete program of that kind whose value the rewriting changes |
| `TailFilters.RewritingYields` | javascript/src/parser.js:897-921 | an expression may end in a thunk after the rewriting exactly if it ends in a call or could before |
| `TailFilters.ProcessingOnlyBuildsThunks` | javascript/src/parser.js:897-921 | without its thunks a processed program is the program |
| `TailCalls.ApplyLoop` | javascript/src/jsonata.js:1499-1519 | the loop that reassigns its result computes exactly the recursive application |
| `JsLaws.AtomsAreImmediate` | javascript/src/jsonata.js:590-597 | literals, the context and lambda expressions yield their values at once; a closure keeps its context and frame |
| `JsLaws.VariablesAreLexical` | javascript/src/jsonata.js:1877-1885 | a variable has the value of the innermost enclosing binding, and none without one |
| `JsLaws.BindingsAreLocal` | javascript/src/jsonata.js:1077-1083 | a binding yields its value, is seen in its frame afterwards and changes no other name or frame |
| `JsLaws.ConditionsChoose` | javascript/src/functions.js:1357-1398 | true, nonzero numbers and nonempty texts choose the first branch; false, null, zero, empty text, functions and nothing choose the second, or yield nothing without one |
| `JsLaws.PredicatesFilter` | javascript/src/jsonata.js:400-445 | a predicate is evaluated with the item as context and keeps it if the outcome is the index of the single item, floored and counted from either end, or is true |
| `JsLaws.BlocksRun` | javascript/src/jsonata.js:1110-1122 | the expressions of a block run in turn, each in the store the one before left, in one new frame; the last gives the value |
| `JsLaws.ArgumentsRun` | javascript/src/jsonata.js:1455-1468 | arguments are evaluated from left to right, and functions among them are wrapped at direct calls |
| `JsLaws.CallsRunBodies` | javascript/src/jsonata.js:1679-1692 | a call evaluates procedure, arguments and then the body of the closure, with the closure's context, in a new frame inside the closure's own, where each parameter has the argument of its position |
| `JsLaws.CallsPassArguments` | javascript/src/jsonata.js:1679-1692 | a function that returns its i-th parameter returns the i-th argument, or nothing when there is none |
| `JsLaws.WrappersAreTransparent` | javascript/src/jsonata.js:1457-1464 | calling a function through the wrapper it was passed in is calling the function |
| `JsLaws.OnlyFunctionsAreCalled` | javascript/src/jsonata.js:1529-1581 | null and exact-number objects end in a host error and other values that are no functions in `T1006`, after the arguments were evaluated |
| `JsLaws.FailuresSpread` | javascript/src/jsonata.js:1425-1488 | the failure of the first part of a binding, condition, predicate or call is the failure of the whole |
| `JsLaws.BlocksFail` | javascript/src/jsonata.js:1110-1122 | a block fails with its first failing expression |
| `JsLaws.CallsFail` | javascript/src/jsonata.js:1455-1468 | a call fails with its first failing argument |
| `AstRewrite.TailCallOptimizeInPlace` | javascript/src/parser.js:897-921 | overwriting branches and last expressions where they stand leaves a well-formed tree, the rewriting of the old one, in which a call that a predicate follows is kept, and touches no node outside it |
| `AstRewrite.OptimizedSpells` | javascript/src/parser.js:897-921 | what the tree then spells, predicates included, is the rewriting of the expression it spelled |
| `AstRewrite.OptimizeLast` | javascript/src/parser.js:911-917 | of a block only the last expression changes |
| `GoCalls.Machine.Invoke` | go/internal/engine/internal/evaluator/eval_function.go:161-249 | the trampoline ends, restores the depth counter on every exit, and computes the specified outcome, store and cost |
| `GoCalls.Machine.Evaluate` | go/internal/engine/internal/evaluator/eval_function.go:11-101 | every evaluation ends without fuel: maximum depth less depth, then node size, then iterations left decreases |
| `GoCalls.Machine.EvaluateBlock` | go/internal/engine/internal/evaluator/eval_chain.go:81-115 | a block runs in its own scope, stops at the first error and yields its last value |
| `GoCalls.Machine.EvaluateArgs` | go/internal/engine/internal/evaluator/eval_function.go:11-79 | arguments are evaluated left to right up to the first error |
| `GoCalls.ProgramsAreBounded` | go/internal/engine/internal/evaluator/env.go:14-22 | any program, however it recurses, takes at most a number of evaluations fixed by its size and the limits |
| `GoCalls.InvokeResults` | go/internal/engine/internal/evaluator/eval_function.go:170-248 | a call never returns the tail-call sentinel, and at the depth limit no body starts |
| `GoCalls.MarkingIsCleanUnlessABindingEndsInACall` | go/internal/engine/internal/parser/tailcall.go:13-32 | marking puts every mark where its sentinel goes straight back to the trampoline, if and only if no binding in tail position ends in a call |
| `GoCalls.WalkIsCleanExactlyIfTame` | go/internal/engine/internal/parser/process.go:228-236 | the parser's walk, which marks every lambda body innermost first, leaves all marks where the trampoline sees them if and only if no lambda body ends in a binding of a call |
| `GoCalls.MarkedProgramsContainTheSentinel` | go/internal/engine/internal/parser/process.go:228-236 | then no run of the parsed program, from the empty environment, lets a sentinel into a frame, a closure or the result |
| `GoCalls.SentinelStaysInside` | go/internal/engine/internal/evaluator/eval_function.go:11-79 | with such marks no sentinel reaches a frame, an argument, a condition or a result outside the trampoline |
| `GoCalls.SentinelStaysInsideInvoke` | go/internal/engine/internal/evaluator/eval_function.go:161-249 | and a call in such a program leaves none behind |
| `GoCalls.MarkingBelowABindingLeaks` | go/internal/engine/internal/parser/tailcall.go:13-32 | a program outside that condition: the walk turns it from one that yields undefined into one that exhausts the limits |
| `GoLaws.VariablesAreLexical` | go/internal/engine/internal/evaluator/env.go:115-128 | a variable has the value of the innermost enclosing binding, and none without one |
| `GoLaws.BindingsAreLocal` | go/internal/engine/internal/evaluator/eval_chain.go:108-115 | a binding yields its value, is seen in its frame afterwards and changes no other name or frame; an error passes through |
| `GoLaws.ConditionsChoose` | go/internal/engine/internal/evaluator/value.go:136-165 | true, nonzero numbers and nonempty texts choose the first branch; false, null, zero, empty text, functions and nothing choose the second, or yield nothing without one |
| `GoLaws.ConditionsFail` | go/internal/engine/internal/evaluator/eval_chain.go:94-98 | the error of the test is the error of the condition |
| `GoLaws.BlocksRun` | go/internal/engine/internal/evaluator/eval_chain.go:81-92 | the expressions of a block run in turn in one new frame; the last gives the value |
| `GoLaws.BlocksFail` | go/internal/engine/internal/evaluator/eval_chain.go:81-92 | a block fails with its first failing expression |
| `GoLaws.ArgumentsRun` | go/internal/engine/internal/evaluator/eval_function.go:38-49 | arguments are evaluated from left to right |
| `GoLaws.CallsApply` | go/internal/engine/internal/evaluator/eval_function.go:64-79 | a call evaluates procedure and arguments; a marked call of a lambda hands both back and any other is applied |
| `GoLaws.CallsFail` | go/internal/engine/internal/evaluator/eval_function.go:11-50 | a call fails with its procedure or its first failing argument |
| `GoLaws.RoundsRunBodies` | go/internal/engine/internal/evaluator/eval_function.go:202-240 | a round of the trampoline runs the body one level deeper, in a new frame inside the closure's own, where each parameter has the argument of its position; a sentinel is called in the next round, up to ten thousand for each level |
| `GoLaws.CallsAreRefused` | go/internal/engine/internal/evaluator/eval_function.go:213-247 | at the depth limit no body runs, and what is no lambda is not called |
| `GoLaws.CallsPassArguments` | go/internal/engine/internal/evaluator/eval_function.go:219-227 | a function that returns its i-th parameter returns the i-th argument, or nothing when there is none |
| `GoLaws.CallsNest` | go/internal/engine/internal/evaluator/eval_function.go:213-217 | calls nested k deep end exactly if the limit allows k levels |
| `GoLaws.TailCallsLoop` | go/internal/engine/internal/evaluator/eval_function.go:178-240 | k marked calls in a row need one level, and end exactly if k is at most ten thousand times the limit |
| `GoLaws.StraightProgramsCountNodes` | go/internal/engine/internal/evaluator/env.go:149-160 | without calls, functions and choices each node is evaluated exactly once |
| `GoLaws.CallCostGrows` | go/internal/engine/internal/evaluator/eval_function.go:178-240 | the bound on one call: ten thousand rounds, and one, for each level of the limit, each of one body |
| `GoLaws.MarkingReachesEveryEnd` | go/internal/engine/internal/parser/tailcall.go:13-32 | marking marks every call at an end of the body and leaves the other ends as they are |
| `GoLaws.WalkOnlyMarks` | go/internal/engine/internal/parser/process.go:228-236 | apart from marks the walk changes nothing |
| `WorkerPool.StepKeepsInv` | javascript/src/node-executor.js:25-116 | every event keeps the pool's invariant: slots, queue and pending tasks agree, budgets hold, no work waits while a worker could take it |
| `WorkerPool.Conservation` | javascript/src/node-executor.js:96-116 | after any sequence of events each accepted task is queued, or held by exactly one slot, or settled, and no two of these; both budgets hold; dispatch is in order of acceptance; closed and empty means nothing owed |
| `WorkerPool.DrainConserves` | javascript/src/node-executor.js:82-95 | `drain` ends, even when workers fail to start, and then a waiting task means all workers exist and are busy or retiring |
| `WorkerPool.WhatSettles` | javascript/src/node-executor.js:25-80 | outcomes never change, and each new one has its only possible cause: the message of the slot that runs the task, the exit of its worker, a failed start, a cancellation in the queue, or closing |
| `WorkerPool.CancelledStep` | javascript/src/node-executor.js:38-60 | a dispatched task that is cancelled stays with its worker until that worker is gone, and fails with the given reason exactly then |
| `WorkerPool.CancelledFate` | javascript/src/node-executor.js:38-60 | over any later run such a task ends with that reason if it ends |
| `WorkerPool.OutcomesStand` | javascript/src/node-executor.js:25-33 | a settled promise keeps its outcome over every later run |
| `PoolLaws.WhatRetires` | javascript/src/node-executor.js:38-95 | after any event a worker is retiring only if it was before, or for its own fault, the cancellation of its task, closing, or a job that could not be posted |
| `PoolLaws.HandedTasksRun` | javascript/src/node-executor.js:82-95 | a task that an event hands out runs on a worker that is not retiring, unless its job could not be posted |
| `PoolLaws.MessagesDeliver` | javascript/src/node-executor.js:68-75 | the message of the worker that runs a task settles it with that result and frees the worker |
| `PoolLaws.FaultsRetire` | javascript/src/node-executor.js:76-79 | a fault retires the worker it names, for the first reason given, and changes nothing else |
| `PoolLaws.CancellingActs` | javascript/src/node-executor.js:57-60 | a waiting task fails at once with the given reason; a running one stays unsettled and its worker is retired for it |
| `PoolLaws.ClosingRetiresAll` | javascript/src/node-executor.js:111-115 | closing fails the whole queue and puts every worker on its way out, for its old reason if it had one |
| `PoolLaws.EvaluationsEnter` | javascript/src/node-executor.js:97-110 | a refused evaluation changes nothing; an admitted one takes the next number and waits, runs, or failed because no worker could be started |
| `PoolLaws.StrayEventsAreIgnored` | javascript/src/node-executor.js:68-79 | messages that do not come from the running worker of the task, and events of workers that are gone, change nothing |
| `PoolLaws.WorkersStartWhenNeeded` | javascript/src/node-executor.js:84-89 | a worker is started only when every earlier one is at work or retiring |
| `PoolLaws.BudgetsStand` | javascript/src/node-executor.js:82-110 | no run changes the budgets |
| `WorkerPool.ClosedShrinks` | javascript/src/node-executor.js:111-116 | a closed pool stays closed, accepts nothing and only loses workers |
| `WorkerPool.ClosedPoolSettlesAll` | javascript/src/node-executor.js:111-116 | after `close`, once the remaining workers have exited, every task ever accepted is settled |
| `WorkerPool.Pool.DrainQueue` | javascript/src/node-executor.js:82-95 | the loop that creates slots and posts tasks reaches the specified drained state |
| `WorkerPool.Pool.Evaluate` | javascript/src/node-executor.js:97-110 | admission refuses closed, aborted, full and oversized cases and otherwise enqueues under a fresh id and drains |
| `WorkerPool.Pool.OnMessage` | javascript/src/node-executor.js:68-75 | a message counts only from the slot that holds that task, not done and not retiring |
| `WorkerPool.Pool.OnFault` | javascript/src/node-executor.js:76-79 | an error or exit event starts the retirement of its worker, once |
| `WorkerPool.Pool.OnGone` | javascript/src/node-executor.js:38-52 | a confirmed exit removes the slot, fails its task with the stored reason and drains |
| `WorkerPool.Pool.CancelTask` | javascript/src/node-executor.js:57-60 | queued work is settled at once; running work only starts its worker's retirement |
| `WorkerPool.Pool.OnClose` | javascript/src/node-executor.js:111-116 | closing fails the queue and retires every slot once |
| `Decimals.CompareTextIsExact` | go/internal/engine/internal/numeric/value.go:74-118 | comparing two number tokens gives the sign of the difference of the rationals they denote, whatever their exponents |
| `Decimals.CompareText` | go/internal/engine/internal/numeric/value.go:74-118 | the digit loop computes that comparison |
| `Decimals.PartsOfTheGrammar` | javascript/src/numeric.js:16-22 | which signs, digits, points and exponents make a castable number |
| `Decimals.JsonNumbersLook` | javascript/src/numeric.js:16-22 | JSON numbers begin and end with a digit, after a minus sign at most, and have no zero before another digit in front |
| `Decimals.LowerCase` | javascript/src/numeric.js:42-51 | lower-casing changes the capitals from A to Z only |
| `Decimals.PartsKeepValue` | go/internal/engine/internal/numeric/value.go:50-70 | sign, digits and exponent have the token's value and are in normal form |
| `Decimals.PartsOfSpelling` | javascript/src/numeric.js:42-51 | cutting the text finds the token's own parts |
| `Decimals.NormalFormIsUnique` | go/internal/engine/internal/numeric/value.go:50-70 | two normal forms have the same value only when they are equal |
| `Decimals.FormatIsCanonical` | go/internal/engine/internal/numeric/value.go:152-180 | formatting yields a valid JSON number with the same parts, and two tokens format alike exactly when they compare equal |
| `Decimals.FormatKeepsParts` | javascript/src/numeric.js:131-143 | both notations read back as the parts they were made from |
| `Decimals.NotationByMagnitude` | javascript/src/numeric.js:131-143 | numbers from a millionth up to 10^21 are written out and the others with an exponent; only negatives have a sign |
| `Decimals.ScientificShape` | javascript/src/numeric.js:131-143 | one digit, the others after a point, and a signed exponent |
| `Decimals.PointsMarkFractions` | javascript/src/numeric.js:131-143 | a number written out has a point exactly if it is no integer |
| `Decimals.IsIntegerIsExact` | go/internal/engine/internal/numeric/value.go:141-148 | the digit test holds exactly for tokens whose value is an integer |
| `Decimals.FloorInt64IsExact` | go/internal/engine/internal/numeric/control.go:13-97 | flooring to 64 bits is the mathematical floor and fails exactly when that does not fit |
| `Decimals.FloorOrder` | go/internal/engine/internal/numeric/control.go:13-97 | a value is below an integer exactly if its floor is |
| `Decimals.IndexIsFloor` | javascript/src/numeric.js:94-108 | indexing by any token floors its exact value and counts negatives from the end, the same in both engines |
| `Decimals.PositionsCountFromBothEnds` | javascript/src/numeric.js:94-108 | positions i and i - length name one element, and positions outside name none |
| `Quotients.CorrectRounding` | go/internal/engine/internal/numeric/arithmetic.go:84-109 | the rounded quotient is the only answer with the right scale that is nearest, ties to even |
| `Quotients.ReducedDigits` | go/internal/engine/internal/numeric/arithmetic.go:84-109 | a quotient that is a finite decimal, stripped of zeros, has at most digits(n) + 3 digits(d) digits |
| `Quotients.ProbeDecides` | go/internal/engine/internal/numeric/arithmetic.go:84-109 | at the probe precision the division is exact if and only if the quotient is a finite decimal |
| `Quotients.QuotientIsExactOrRounded` | go/internal/engine/internal/numeric/arithmetic.go:84-109 | a finite quotient is chosen exactly, every other at 34 digits, for all operands |
| `Quotients.SignificantDivideIsQuotient` | javascript/src/numeric.js:200-208 | the digit-position trick of the JavaScript division is division at that precision |
| `Quotients.EnginesDivideAlike` | javascript/src/numeric.js:215-221 | both engines deliver the same quotient or the same error; finite quotients times the divisor give the dividend back |
| `Quotients.RootIsExactOrRounded` | go/internal/engine/internal/numeric/arithmetic.go:157-179 | if the operand is the square of a finite decimal the probe finds that root; otherwise 34 digits are given and no exact root exists |
| `Quotients.SquareRootIsExactOrRounded` | go/internal/engine/internal/numeric/arithmetic.go:157-179 | with its domain error, probe budget and final check: a delivered root is the exact one when there is one and the 34-digit one otherwise, and only negatives are refused as such |
| `Quotients.RaiseTo` | go/internal/engine/internal/numeric/arithmetic.go:180-223 | repeated squaring yields exactly the power, or refuses exactly when the power leaves the limits |
| `Quotients.RaiseToInteger` | javascript/src/numeric.js:313-349 | negative exponents divide one by the power, within the same limits |
| `Quotients.LimitsShrink` | go/internal/engine/internal/numeric/arithmetic.go:44-56 | a power within the limits has all smaller powers within them, so checking along the way refuses nothing that would fit |
| `Quotients.PowersAreExact` | go/internal/engine/internal/numeric/arithmetic.go:180-223 | a delivered power is exact; a negative one is exact when its quotient is a finite decimal and otherwise correctly rounded to 34 digits |
| `Quotients.DivisionRefuses` | go/internal/engine/internal/numeric/arithmetic.go:84-109 | division is refused when its probe needs more digits than allowed, by the exact count, and otherwise only for its reduced result |
| `Quotients.PowersRefuse` | go/internal/engine/internal/numeric/arithmetic.go:180-223 | a power is refused for an exponent above the digit limit or for leaving the limits, a negative one also as division refuses it |
| `Quotients.LimitsMean` | go/internal/engine/internal/numeric/arithmetic.go:44-56 | the limits bound the coefficient below a power of ten and the magnitude between two |
| `Quotients.LimitsDecide` | go/internal/engine/internal/numeric/arithmetic.go:44-56 | a result is delivered, reduced, exactly if it is within the limits when reduced, and refused otherwise |
| `Quotients.ReducedForm` | go/internal/engine/internal/numeric/arithmetic.go:84-109 | results have no trailing zeros and one form of zero, and keep their value |
| `Quotients.ProductsMultiply` | go/internal/engine/internal/numeric/arithmetic.go:157-179 | the product of decimals is the product of their values in any units |
| `Wtf8.UnitsSurvive` | go/internal/engine/internal/jstring/string.go:13-48 | every sequence of UTF-16 units converts to a canonical byte string and back unchanged |
| `Wtf8.BytesSurvive` | go/internal/engine/internal/jstring/string.go:13-48 | every canonical byte string converts to units and back unchanged |
| `Wtf8.Units` | go/internal/engine/internal/jstring/string.go:13-33 | the scan yields the units of the decoded codes, malformed bytes read as replacements |
| `Wtf8.FromUnits` | go/internal/engine/internal/jstring/string.go:36-48 | the scan pairs adjacent halves and encodes everything else alone |
| `Wtf8.EncodedNext` | go/internal/engine/internal/jstring/string.go:174-179 | any bytes the scans accept as one code are that code's only encoding |
| `Wtf8.NextOfEncoded` | go/internal/engine/internal/jstring/string.go:167-179 | the encoding of a code, before any other bytes, is read as that code and is no surrogate unless the code is |
| `Wtf8.Valid` | go/internal/engine/internal/jstring/string.go:196-217 | the check accepts exactly the encodings of code sequences without a high surrogate right before a low one |
| `Wtf8.ConcatJoinsUnits` | go/internal/engine/internal/jstring/string.go:183-192 | concatenating canonical strings stays canonical and concatenates their units, halves meeting at the seam re-paired |
| `Wtf8.LastSurrogate` | go/internal/engine/internal/jstring/string.go:82-91 | the last three bytes look like a surrogate exactly when the last code is one |
| `Wtf8.EncodingIsUtf8` | go/internal/engine/internal/jstring/string.go:167-179 | a code is encoded in the shortest form, six bits in each byte after the first, as RFC 3629 says |
| `Wtf8.HalvesAreUtf16` | go/internal/engine/internal/jstring/string.go:13-33 | a code above the basic plane is a high and a low half of ten bits each |
| `Wtf8.ScansAreExact` | go/internal/engine/internal/jstring/string.go:13-33 | each step of a scan reads the code whose encoding comes next, and a byte that starts none as U+FFFD |
| `Wtf8.Join` | go/internal/engine/internal/jstring/string.go:71-91 | joining canonical parts joins their units with the separator's units between them |
| `Wtf8.SeparatorsStandBetween` | go/internal/engine/internal/jstring/string.go:71-91 | the separator stands between any two parts and nowhere else |
| `Collation.EncodingKeepsOrder` | go/internal/engine/internal/evaluator/eval_helpers.go:112-116 | the byte order of encodings is the order of the code sequences |
| `Collation.CompareStrings` | javascript/src/utils.js:222-231 | the code point loop gives the sign of that order, although it ends by comparing lengths in units: negative exactly if the first string is a proper prefix or smaller at the first difference |
| `Collation.EnginesOrderAlike` | go/internal/engine/internal/evaluator/eval_helpers.go:112-116 | on canonical strings both engines order alike, lone surrogates and astral characters included; equal only when the units are |
| `Collation.LexIsTotal` | javascript/src/utils.js:222-231 | the order is antisymmetric and zero only on equal sequences |
| `Collation.LexIsTransitive` | javascript/src/utils.js:222-231 | the order is transitive |
| `Collation.LexMeans` | javascript/src/utils.js:222-231 | a sequence is smaller exactly if it is a proper prefix of the other or has the smaller element where they first differ |
| `Collation.UnitsOrderDiffers` | javascript/src/utils.js:222-231 | comparing plain units instead would order U+FFFD after U+10000 |
| `JsonStrings.Unquote` | go/internal/engine/internal/jstring/json.go:14-47 | reading succeeds exactly on valid literals and yields the canonical string with exactly the units the literal spells |
| `JsonStrings.ReadUnit` | go/internal/engine/internal/jstring/json.go:20-34 | an escaped half that is not followed by an escaped other half stands alone, whatever literal bytes follow |
| `JsonStrings.Quote` | go/internal/engine/internal/jstring/json.go:51-82 | writing succeeds exactly on canonical strings, and spells them code by code, lone surrogates as escapes |
| `JsonStrings.EscapesReadBack` | go/internal/engine/internal/jstring/json.go:51-82 | with any escaper the grammar allows, what is written is valid and spells the string's units |
| `JsonStrings.QuoteRoundTrip` | go/internal/engine/internal/jstring/json.go:14-82 | what is quoted reads back unchanged |
| `JsonStrings.HostEscapes` | go/internal/engine/internal/jstring/json.go:60-66 | the host's escaper, short forms and HTML-sensitive characters included, is one the grammar allows |
| `JsonStrings.ShortEscapesMean` | go/internal/engine/internal/jstring/json.go:36-38 | each of the eight letters after a backslash reads as its character of section 7 of RFC 8259, and no other letter but u is allowed there |
| `JsonStrings.UnicodeEscapesMean` | go/internal/engine/internal/jstring/json.go:20-34 | four hexadecimal digits in either case read as the unit they write, which is written in lower case |
| `JsonStrings.UnicodeEscapesNeedDigits` | go/internal/engine/internal/jstring/json.go:20-34 | with anything but hexadecimal digits among the four there is no escape |
| `JsonStrings.ScalarsStandForThemselves` | go/internal/engine/internal/jstring/json.go:14-47 | a scalar alone is allowed unless it is a control, a quote or a backslash, and reads as itself |
| `JsonStrings.ControlsAreRefused` | go/internal/engine/internal/jstring/json.go:14-47 | no control character stands in a literal |
| `JsonStrings.HostEscapesMean` | go/internal/engine/internal/jstring/json.go:60-66 | the host spells quotes, backslashes and five controls short and escapes other controls, HTML-sensitive characters and line separators |
| `Kmp.IndexUnits` | go/internal/engine/internal/jstring/string.go:119-164 | the least occurrence at or after the start, or -1 exactly when there is none; the context is asked at the start and at every 1024th position, and the first refusal ends the search; at most \|s\| + \|pattern\| fall-backs in all |
| `Kmp.FillTable` | go/internal/engine/internal/jstring/string.go:132-146 | the table holds the longest proper border of every prefix, filled with fewer fall-backs than the pattern is long |
| `Kmp.FallBack` | go/internal/engine/internal/jstring/string.go:139-141 | falling back along the table skips no candidate match |
| `Numerals.LettersReadBack` | go/internal/engine/functions/string_format_integer.go:707-718 | every natural number's letters read back as the number |
| `Numerals.LettersSpellBack` | go/internal/engine/functions/string_format_integer.go:552-565 | every lower-case string is the spelling of its value, so the coding is a bijection |
| `Numerals.LettersAscend` | go/internal/engine/functions/string_format_integer.go:707-718 | greater numbers have longer letters or later ones in the alphabet |
| `Numerals.LettersBegin` | go/internal/engine/functions/string_format_integer.go:707-718 | the letters begin a to z, aa |
| `Numerals.BigIntToAlphabetic` | javascript/src/datetime.js:200-208 | collecting digits backwards and reversing them gives that spelling |
| `Numerals.ParseLetters` | go/internal/engine/functions/string_format_integer.go:552-565 | of the lower-cased text: the value, or the budget error exactly when the whole value has too many digits, or an error on other characters |
| `Numerals.ParseAlphabetic` | go/internal/engine/functions/datetime_parse.go:708-727 | the longest run of letters of either case, with overflow reported exactly when its value exceeds the machine's integers |
| `Numerals.PrintedNumeralsAgree` | go/internal/engine/functions/string_format_integer.go:494-512 | a printed Roman numeral reads back as its number left to right and right to left, to its last letter |
| `Numerals.NumeralByDigits` | go/internal/engine/functions/string_format_integer.go:494-512 | a numeral is its thousands and then each decimal digit in its own letters, four and nine by subtraction |
| `Numerals.NumeralsInAnyCase` | go/internal/engine/functions/datetime_parse.go:678-684 | a numeral in any mixture of cases is read to its end as the numeral |
| `Numerals.RomanDigits` | go/internal/engine/functions/string_format_integer.go:687-705 | the seven letters and their worth |
| `Numerals.PairsOfLetters` | go/internal/engine/functions/string_format_integer.go:687-705 | of two letters the first is taken from the second exactly if it is worth less |
| `Numerals.ToRoman` | go/internal/engine/functions/string_format_integer.go:494-512 | repeated subtraction writes the greedy numeral |
| `Numerals.DecimalToRoman` | javascript/src/datetime.js:160-171 | division and repetition write the same numeral |
| `Numerals.FromRoman` | go/internal/engine/functions/string_format_integer.go:687-705 | the left-to-right reading, or an error exactly when some letter is not Roman |
| `Numerals.RomanToDecimal` | javascript/src/datetime.js:178-192 | the right-to-left reading, or NaN exactly when some letter is no Roman digit |
| `Numerals.ParseRoman` | go/internal/engine/functions/datetime_parse.go:678-706 | the right-to-left reading of the longest run of Roman letters of either case |
| `Numerals.ReadingsAgree` | go/internal/engine/functions/string_format_integer.go:687-705 | the two readings of a numeral agree if and only if no digit that the next one does not exceed is exceeded by a later one; otherwise left to right reads more |
| `Numerals.ReadingsDiffer` | javascript/src/datetime.js:178-192 | `IIX` is 10 in one reading and 8 in the other |
| `Words.WordsReadBack` | go/internal/engine/functions/string_format_integer.go:639-748 | the words of any natural number, stacked trillions and ordinal form included, read back as the number exactly when its digits fit the budget |
| `Words.RunText` | go/internal/engine/functions/string_format_integer.go:639-685 | read over any greater magnitudes already on the stack, the words of n leave segments and accumulator that sum to n, and nothing below is touched |
| `Words.PopsPhrase` | go/internal/engine/functions/string_format_integer.go:666-679 | a magnitude takes up everything its phrase left and nothing below |
| `Words.WordsToBigInt` | go/internal/engine/functions/string_format_integer.go:639-685 | the parser's stack loop computes the specified reading and its two errors |
| `Words.WordsAreInjective` | go/internal/engine/functions/string_format_integer.go:720-748 | different numbers have different words |
| `Words.OrdinalOf` | go/internal/engine/functions/string_format_integer.go:341-377 | making a printed number ordinal changes its last word alone, zero included |
| `Words.CardinalOf` | go/internal/engine/functions/string_format_integer.go:600-637 | undoing the ordinal restores the cardinal text and leaves cardinal text alone |
| `Words.EnglishIsProper` | go/internal/engine/functions/string_format_integer.go:600-655 | the 66 English words are distinct words of letters, as the theorems require |
| `JsWords.EnginesWriteAlike` | javascript/src/datetime.js:36-80 | the JavaScript recursion writes the same cardinal as Go, and its ordinal is the cardinal with the last word made ordinal |
| `JsWords.MagnitudesAgree` | javascript/src/datetime.js:61-66 | the magnitude chosen by the decimal exponent is the greatest one that the number reaches |
| `JsWords.NumberReads` | javascript/src/datetime.js:109-111 | the separator pattern cuts a printed number, before anything that does not continue a word, into exactly its words |
| `JsWords.WordsToNumber` | javascript/src/datetime.js:109-134 | the stack loop computes the specified reading, its unknown-word error and its limit error |
| `JsWords.JsReadsBack` | javascript/src/datetime.js:36-134 | for any limit, a printed number, cardinal or ordinal, reads back if and only if the limit admits the number and the values on the stack on the way; otherwise the limit is reported |
| `JsWords.HostReadsBack` | javascript/src/numeric.js:180-193 | for the host's limit on significant digits and exponent, if and only if the number itself is within the limit |
| `JsWords.HostLimitMeans` | javascript/src/numeric.js:180-193 | the host's limit admits the numbers below a power of ten that are so many digits followed by zeros |
| `JsWords.NumberSums` | javascript/src/datetime.js:112-130 | what reading a number's words leaves on the stack, over any greater magnitudes and under any limit |
| `JsWords.LimitsDiffer` | javascript/src/numeric.js:180-193 | one thousand in words is over Go's limit of one digit and within JavaScript's |
| `JsWords.EnglishIsRegular` | javascript/src/datetime.js:22-27 | the English words have the endings the recursion relies on |
| `EnglishNumbers.SmallNumbers` | go/internal/engine/functions/string_format_integer.go:379-448 | the words of zero to nineteen |
| `EnglishNumbers.Tens` | go/internal/engine/functions/string_format_integer.go:379-448 | the tens, and tens and units with a hyphen |
| `EnglishNumbers.Hundreds` | go/internal/engine/functions/string_format_integer.go:379-448 | hundreds, joined to the rest by "and" |
| `EnglishNumbers.Scales` | go/internal/engine/functions/string_format_integer.go:415-448 | multiples of thousands, millions, billions and any number of trillions, joined to the rest by "and" below a hundred and by a comma above |
| `EnglishNumbers.SmallOrdinals` | go/internal/engine/functions/string_format_integer.go:341-377 | first to nineteenth |
| `EnglishNumbers.TensOrdinals` | go/internal/engine/functions/string_format_integer.go:341-377 | twentieth to ninetieth |
| `EnglishNumbers.LastWordIsOrdinal` | go/internal/engine/functions/string_format_integer.go:341-377 | after a space or hyphen the last word alone becomes ordinal |
| `EnglishNumbers.OtherWordsBecomeOrdinal` | go/internal/engine/functions/string_format_integer.go:370-377 | words outside the table take "th", or "ieth" for a final y |
| `EnglishNumbers.SeparatorsAre` | go/internal/engine/functions/string_format_integer.go:653-656 | words are separated by the white space of Unicode, hyphens and commas, and by nothing else |
| `EnglishNumbers.FieldsStandBetween` | go/internal/engine/functions/string_format_integer.go:653-656 | the words of a text are what stands between its separators |
| `EnglishNumbers.FieldOfWord` | go/internal/engine/functions/string_format_integer.go:653-656 | a text without separators is one word, or none when it is empty |
| `EnglishNumbers.CutsAre` | javascript/src/datetime.js:109-111 | the JavaScript pattern cuts at a comma and a blank, at "and" between blanks, and at single blanks, hyphens and backslashes |
| `EnglishNumbers.BlanksAre` | javascript/src/datetime.js:109-111 | the blanks of the JavaScript pattern are the white space of the host, the byte order mark included |
| `EnglishNumbers.WordsAct` | go/internal/engine/functions/string_format_integer.go:655-685 | what each word does to the stack: numbers add, "hundred" multiplies, scales close a segment within the budget, unknown words fail |
| `EnglishNumbers.ValuesOfWords` | javascript/src/datetime.js:83-102 | the JavaScript table knows cardinals and ordinals alike, one irregular word more, and no other |
| `EnglishNumbers.ValuesAct` | javascript/src/datetime.js:115-129 | what each value does to the JavaScript stack, with the limit asked of each product |
| `EnglishNumbers.PopsTheTop` | go/internal/engine/functions/string_format_integer.go:666-679 | a scale takes up exactly the segments on top that are not above it |
| `Calendar.CountIsTrue` | javascript/src/temporal.js:16-26 | the day count is 0 at the epoch and grows by one each calendar day, leap years included |
| `Calendar.MonthsAreGregorian` | javascript/src/temporal.js:16-26 | the lengths of the months, with a leap day every four years but in three of four centuries |
| `Calendar.DateOfCounts` | javascript/src/temporal.js:16-26 | every day number has a date |
| `Calendar.DaysAreDistinct` | javascript/src/temporal.js:16-26 | no two dates share a day number |
| `Calendar.UtcMillisIsTrue` | javascript/src/temporal.js:16-26 | the shift by 400-year cycles gives the true instant in every integer year, months and days that run over included, from a host calendar trusted for 400 years only |
| `Calendar.UtcMillisOfDate` | javascript/src/temporal.js:16-26 | in particular a date's instant is its day number's |
| `Calendar.ClockRunsOver` | javascript/src/temporal.js:16-26 | 24 hours are a day, sixty minutes an hour, sixty seconds a minute, a thousand milliseconds a second |
| `Calendar.YearWeeksAgree` | javascript/src/datetime.js:787-805 | the JavaScript week of the year is the ISO 8601 week of the date's Thursday, for every date |
| `Calendar.WeekYearsAgree` | javascript/src/datetime.js:825-842 | the week year is the year of that Thursday, at every time of day |
| `Calendar.MonthWeeksAgree` | go/internal/engine/functions/datetime_format.go:89-98 | the JavaScript first-week arithmetic gives the Go Thursday rule for the week of the month |
| `Calendar.WeekMonthsAgree` | javascript/src/datetime.js:843-861 | the week month is the Thursday's month, at every time of day |
| `Calendar.FirstWeekByThursday` | javascript/src/datetime.js:723-735 | a day lies before the first week exactly when its Thursday lies before the period |
| `Calendar.WeekdaysCycle` | javascript/src/datetime.js:723-735 | the epoch is a Thursday, the days of the week follow one another, and each Monday starts a week with one Thursday |
| `Calendar.TurnOfTheYear` | javascript/src/datetime.js:787-805 | the last day of 2023 is a Sunday of week 52 and the first of 2024 a Monday of week 1 |
| `Distinct.DeepEqualIsSameMeaning` | go/internal/engine/internal/evaluator/value.go:169-263 | two values are equal exactly when they mean the same: numbers by canonical spelling, objects as maps |
| `Distinct.DeepEqualIsEquivalence` | go/internal/engine/internal/evaluator/value.go:169-263 | equality is reflexive, symmetric and transitive on trees of any depth |
| `Distinct.KindsDiffer` | go/internal/engine/internal/evaluator/value.go:169-263 | values of different kinds are never equal |
| `Distinct.EnginesCompareAlike` | javascript/src/utils.js:140-187 | sorting both key lists and comparing them position by position first decides the same equality, for function-free values or functions compared by identity |
| `Distinct.SortDecides` | javascript/src/utils.js:166-177 | sorted key lists agree position by position exactly when the same keys occur equally often |
| `Distinct.KeysDecide` | go/internal/engine/functions/array_funcs.go:225-258 | two simple values share a hash key exactly when they are equal, and no simple value equals an array, object or function |
| `Distinct.FnDistinct` | go/internal/engine/functions/array_funcs.go:225-271 | hashing simple values and comparing the others returns the same elements in the same order as the quadratic definition, keeps the kind of the collection, and refuses exactly when one of several values is an invalid number |
| `Distinct.DistinctByPairs` | javascript/src/functions.js:1977-2004 | the nested loops compute the quadratic definition under their own equality, functions included |
| `Distinct.EnginesRemoveAlike` | javascript/src/functions.js:1977-2004 | so both engines keep the same values |
| `Distinct.KeepsFirstOccurrences` | javascript/src/functions.js:1977-2004 | comparing with kept values is comparing with all earlier ones: the result is the first occurrence of each |
| `Distinct.KeptByPosition` | javascript/src/functions.js:1977-2004 | the kept values stand, in order, at exactly the positions whose value equals none before |
| `Distinct.TokensAgree` | go/internal/engine/functions/array_funcs.go:241-250 | the decimal kernel's comparison and canonical spelling tell the same numbers apart, whatever check admits only JSON numbers |
| `PlanCache.Cache.Set` | go/internal/engine/bounded_cache.go:83-112 | writing refines the bounded queue: an old key changes nothing, a new one goes last and evicts exactly the oldest of a full queue, and says so |
| `PlanCache.Cache.Get` | go/internal/engine/bounded_cache.go:71-79 | finds exactly the keys in the published queue, with their plans |
| `PlanCache.Cache.Publish` | go/internal/engine/bounded_cache.go:103-110 | reading the ring from the oldest slot gives the queue, and the index each key's position in it |
| `PlanCache.Cache.Invalidate` | go/internal/engine/bounded_cache.go:116-126 | clears ring, snapshot and index together |
| `PlanCache.Cache.constructor` | go/internal/engine/bounded_cache.go:57-68 | capacities below one become one |
| `PlanCache.WriteAdvances` | go/internal/engine/bounded_cache.go:97-109 | one write at the head and a step round the ring hold the next queue, wrapped or not |
| `PlanCache.PutKeepsQueue` | go/internal/engine/bounded_cache.go:83-112 | keys stay distinct, the capacity holds, and at most the oldest entry leaves |
| `PlanCache.WritesFillTheQueue` | go/internal/engine/bounded_cache.go:83-126 | entries with different keys stand in the order of writing, of too many the newest, and clearing leaves none |
| `PlanCache.QueueIsBounded` | go/internal/engine/bounded_cache.go:83-126 | after any sequence of writes and clearings the queue is bounded, free of duplicates, and holds only what was written |
| `Streams.PlanCacheKeyIsInjective` | go/internal/engine/stream.go:411-422 | different schemas or index lists have different keys, whatever separators the schema's name holds |
| `Streams.BuildPlan` | go/internal/engine/stream.go:425-465 | the loop fills the lists as the expressions ask and drops those no expression uses |
| `Streams.PlanRoutes` | go/internal/engine/stream.go:320-362 | reading a plan at any position routes as that expression itself asks, lists dropped or not |
| `Streams.RoutesMean` | go/internal/engine/stream.go:443-454 | a single pure path goes first, then a comparison, then a function, and without any the whole expression runs |
| `Streams.StreamEvaluator.PlanOfEvaluation` | go/internal/engine/stream.go:235-265 | the plan an evaluation uses is that of the expressions of now, cached or not |
| `Streams.StreamEvaluator.Add` | go/internal/engine/stream.go:119-134 | appends under the next index, keeps all earlier ones and leaves no stale plan |
| `Streams.StreamEvaluator.Replace` | go/internal/engine/stream.go:157-171 | changes exactly one index or, out of range, nothing; leaves no stale plan |
| `Streams.StreamEvaluator.Remove` | go/internal/engine/stream.go:178-192 | empties exactly one index, which stays taken |
| `Streams.StreamEvaluator.Reset` | go/internal/engine/stream.go:200-207 | drops all expressions and plans |
| `CompileCache.EveryRunIsSound` | go/internal/engine/json_executor.go:63-89 | in every interleaving of lookups, unlocked compilations and insertions the keys are distinct, are the map's domain and stay within the bound, and each call returns a compilation of what it asked for |
| `CompileCache.ExecutorIsSound` | go/internal/engine/json_executor.go:63-89 | for the executor: at most its bound of expressions is cached, each under its own text, and each call returns its own expression compiled |
| `CompileCache.RegexCacheIsSound` | go/internal/engine/internal/ecmaregex/regex.go:23-65 | for the regex boundary: at most 32 programs, and each call returns a compilation of its own flags and pattern |
| `CompileCache.StepKeepsInv` | go/internal/engine/json_executor.go:63-89 | each atomic step of any call keeps that invariant |
| `CompileCache.CallersShare` | go/internal/engine/json_executor.go:77-81 | while a key stays cached, every call for it that ends returns the one cached program, also when it had compiled its own |
| `CompileCache.CachedStands` | go/internal/engine/json_executor.go:77-88 | while a key stays cached, over any run, its program is never replaced |
| `CompileCache.NewCallsAsk` | go/internal/engine/json_executor.go:63-65 | a new call joins behind the others and touches neither them nor the store |
| `CompileCache.HitsCompileNothing` | go/internal/engine/json_executor.go:63-72 | a cached program is returned at once and nothing is compiled |
| `CompileCache.CallsEnd` | go/internal/engine/json_executor.go:63-89 | a miss compiles once and is cached as the newest; what does not compile fails and is not cached |
| `CompileCache.EndedCallsStand` | go/internal/engine/json_executor.go:63-89 | an ended call stays as it ended and no step touches another call |
| `CompileCache.InsertKeepsStore` | go/internal/engine/json_executor.go:78-88 | an insertion keeps the store sound and hands back the program now cached under the key |
| `CompileCache.InsertEvictsOldest` | go/internal/engine/json_executor.go:82-85 | an insertion never replaces a cached program and evicts at most the oldest, from a full store only |
| `CompileCache.Cache.Add` | go/internal/engine/json_executor.go:77-88 | the second locked section is that insertion |
| `CompileCache.CheckFlags` | go/internal/engine/internal/ecmaregex/regex.go:23-40 | the flag loop accepts exactly the flags g, i and m without repetition |
| `CompileCache.RegexKeysAreInjective` | go/internal/engine/internal/ecmaregex/regex.go:41-45 | with checked flags a key determines flags and pattern |
| `CompileCache.RegexCacheIsInjective` | go/internal/engine/internal/ecmaregex/regex.go:23-65 | the regex cache is an instance of the protocol |
| `CompileCache.UncheckedFlagsCollide` | go/internal/engine/internal/ecmaregex/regex.go:41-45 | without the check two regexes would share a key |

## Left out

- Paths, tuples, the parent operator, grouping, transforms, joins, `$eval`, higher-order built-ins, signatures and partial application: the call calculus has literals, variables, lambdas, calls, conditionals, blocks, bindings and predicates.
- TailCalls.RewritingPreservesMeaning: programs in which a predicate in tail position follows a block or condition that ends in a call are excluded whether or not the predicate is reached, or would notice the thunk (as `[0]` would not).
- Arrays, and so predicates on more than one item; group expressions and `keepArray`.
- Meaning preservation of the Go trampoline, which keeps the outer focus; Go is modelled for termination, cost and the containment of the sentinel.
- Heap frames and environments are entries of a store addressed by number, and pool tasks and slots are named by ids; pointer identity between them is not modelled further.
- AstRewrite.TailCallOptimizeInPlace: a condition's test and the insides of calls and lambdas are values, because the rewriting does not look into them; source positions are dropped.
- Real timers, worker threads, mutexes and atomics: each handler or critical section is one atomic step. A `terminate()` that throws synchronously is not modelled.
- Overflow, underflow and subnormal flags of the decimal libraries at their exponent limits; correct rounding of library division and square root is taken as given, and only the final budget check is modelled.
- Binary floating-point storage (`FromText`), fractional powers, `ClippedTrunc` and the other arithmetic operations.
- Wtf8.Units: input lengths are unbounded; `Characters`, `SliceUnits` and `MapScalars` are not modelled.
- JsonStrings.Quote: the JSON encoder for runs of scalars is a parameter that spells each scalar as section 7 of RFC 8259 allows.
- Words.WordsToBigInt: upper-case and title-case forms are not modelled; numbers are non-negative.
- Distinct.FnDistinct: arguments that are no arrays are returned as they are; an invalid number inside an array or object, where the Go comparison panics, is excluded.
- Distinct.DistinctByPairs: how two of the host's function objects compare is a parameter.
- Streams.PlanRoutes: the string-decode bypass, and the fallback when a fast form does not handle its input, are not modelled.
- Calendar.UtcMillisIsTrue: the host's clipping of instants beyond its range is not modelled.
- Streams.StreamEvaluator.PlanOfEvaluation: an evaluation is one step; one that overlaps `Replace` or `Add` may cache a plan built from the expressions it had loaded. Fast forms are opaque numbers and their evaluation is not modelled.
- CompileCache.EveryRunIsSound: the byte budget on expressions and the compilers themselves are parameters.
- `$formatNumber` and date pictures, digit-grouping pictures, option validation, the WebAssembly glue and the website.
