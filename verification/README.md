# Pipelines, caches, files and tool calls: a verified model

This project models the parts of a retrieval server whose correctness is hard to see from the
code, and proves what they promise on all inputs, in all runs and for all interleavings.

**Pipeline variables** (`Expressions`, `Variables`, `EvaluationOrder`, `Resolution`, `Validation`,
`Environments`, `EnvironmentEquations`, `Noninterference`, `Soundness`, `StaticViewExample`). A
definition declares constants, caller inputs and derived expressions. They are evaluated in
dependency order into an environment, which then replaces the tagged expressions of the node
configs. The environment is the unique solution of one equation per variable, in no order at
all. The validator's taint analysis is modelled next to the evaluator, and the two are connected:
the analysis is exact, a definition without variable errors gives its identity fields the same
literals whoever calls, and evaluation cannot go wrong except for arithmetic.

**Caches** (`OrderedDicts`, `Eviction`, `Resources`, `ResourceMachine`, `ResourceCaches`,
`ResourceRequests`, `CachedValues`, `ValueMachine`, `ValueCaches`, `Freshness`). Each locked
section, each completion of a future and each callback is one atomic step; a thread is a program
counter. The classes hold the
sections as methods that assign the fields, and each method is proved to be the section of that
name; the machines run any number of threads over the sections in any order. Futures and entries
are known by number, because they outlive their place in the dictionary.

**Definition graphs** (`Graphs`, `Numbering`, `CycleCheck`, `Bypass`, `FusionLimits`). The
depth-first cycle test is exact. Bypassing nodes leaves exactly the connections of paths through
them. Inserting a limit behind every fusion node preserves what every node receives, where the
meaning of a definition is the outcome of running each node on what reaches it.

**Files and chat** (`FileNames`, `FilePaths`, `FileTrees`, `FileSystems`, `FileCopying`,
`FileDeletion`; `Payloads`, `ToolCalls`, `Streams`). The file table is a parent-pointer forest
that uploads, renames, moves, copies and deletions keep; `Valid()` of `FileSystem` is the forest
invariant, so every sequence of operations keeps it. Printed paths resolve back. Streamed
tool-call fragments are reassembled whatever their interleaving, and the extractor files every
reasoning segment once.

`Wrappers`, `Collections` and `Sorting` hold what the others share.

## Where the code and its documentation differ

The model follows the code.

- app/pipelines/settings.py:272-275 takes the static view as authoritative for identity fields.
  It is so only when the static resolution succeeds. A result limit that divides by an argument
  with default zero fails it, and the fallback strips every expression. The retriever then keeps
  the index name and depth given as literals, so its validation hook
  (app/pipelines/nodes/retrieval.py:125-140) raises no issue, but loses a backend given as an
  expression, and settings take the default one (`StaticViewExact`, `StaticViewLosesIdentity`).
- app/pipelines/resolution.py:133-135 and 283 promise placeholders within the declared
  constraints. `PlaceholderRespectsConstraints` gives the bounds for which that is so;
  `PlaceholderBelowMinimum` is an accepted declaration for which it is not.
- app/services/files.py:40-47 limits names to 255 trimmed characters. A name that `dedupe_name`
  numbers can be longer, or begin with a space (`NumberedNameValid`, `LongNameNumbered`,
  `DotFileNumbered`).
- `_bypass_nodes` is exact only without cycles inside the bypassed nodes; `BypassNodes` proves
  that condition necessary and sufficient, and `SelfLoopReturns` shows the smallest such cycle.
  Acyclic edges meet the condition (`AcyclicHasNoInnerCycle`).

## Assumptions

Expression text is modelled by what the parser makes of it. Floats are real numbers. Loaders of
the value cache raise only ordinary exceptions, closing a resource does not fail, and the clock
is read once in each locked section. A copied node belongs to the collection it is copied in, as
the route makes sure. The parent of an upload is a folder of the same collection: neither the
service nor the route checks that, and `FileTrees.AddedExactly` shows that the forest invariant
needs it. Generated ids are a supply of names; the file table numbers its rows. A failing file
operation is rolled back as a whole. A definition that is upgraded was validated before it was
stored (app/pipelines/validation.py:92-117, 211-235): its node ids differ, its edges join
declared nodes and it has no cycle. `str`, `int`, `strip`, `lower` and the JSON codec are
parameters of the chat model.

## Model

| member | source | states |
|---|---|---|
| `Expressions.FloorDivide` | app/pipelines/expressions/evaluator.py:91-113 | `//` rounds towards minus infinity for either sign of the divisor, as Python's does |
| `Expressions.Coincidence` | app/pipelines/expressions/evaluator.py:37-54 | the outcome of an expression, value or fault, depends on the bindings of its references only |
| `Expressions.TypeSoundness` | app/pipelines/expressions/analysis.py:38-58 | a checked expression in an environment of the declared types yields a value of its static type or an arithmetic fault, never an unknown name or a type error |
| `Expressions.BinarySoundness` | app/pipelines/expressions/analysis.py:78-98 | the same for one binary operator, integers being numbers |
| `Expressions.BuiltinSoundness` | app/pipelines/expressions/functions.py:41-66 | builtins keep integers when their catalog entry or all arguments say so, and are numeric otherwise |
| `Expressions.CheckedReferences` | app/pipelines/expressions/analysis.py:122-134 | a checked expression refers to declared names only |
| `Expressions.BinaryExact` | app/pipelines/expressions/analysis.py:78-98 | on values of exactly the checked types the checker's table rejects an operator iff its evaluation is a type error, and names the type of its result |
| `Expressions.CheckerComplete` | app/pipelines/expressions/analysis.py:38-119 | the checker rejects no more than it must: an expression that evaluates under bindings of exactly the declared types is accepted, with the type of its value, if no builtin mixes integers and floats |
| `Expressions.CheckerStrict` | app/pipelines/expressions/functions.py:59-61 | if one does, the checker may reject what evaluates, such as `min(1, 2.5) // 2` |
| `Expressions.SumMeaning` | app/pipelines/expressions/evaluator.py:106-109 | `+` and `-` on integers and floats in any mix are those of the reals |
| `Expressions.ProductMeaning` | app/pipelines/expressions/evaluator.py:110-111 | so is `*` |
| `Expressions.QuotientMeaning` | app/pipelines/expressions/evaluator.py:112-114 | `/` fails on zero only, and its result times the divisor is the dividend |
| `Expressions.DivisionMeaning` | app/pipelines/expressions/evaluator.py:98-103 | `//` and `%` fail on zero only, give the dividend back, and the remainder has the sign of the divisor |
| `Expressions.TextMeaning` | app/pipelines/expressions/evaluator.py:95-97 | `+` concatenates texts; any other operator on them is a type error |
| `Expressions.UnaryMeaning` | app/pipelines/expressions/evaluator.py:79-88 | negation gives the additive inverse; the attributes of a model value are its connection and its name |
| `Expressions.BuiltinMeaning` | app/pipelines/expressions/functions.py:25-66 | `min` and `max` give the first extreme argument, `clamp` the value or the bound it passed, `floor`, `ceil` and `round` the integers they are named for, halves away from zero |
| `Expressions.ArityMeaning` | app/pipelines/expressions/functions.py:57-66 | which names are builtins, and how many arguments each takes |
| `Variables.CoercionIsExact` | app/pipelines/variables.py:197-229 | coercion accepts a raw value iff some value it denotes meets the declaration, and returns such a value |
| `Variables.CoercionIsIdempotent` | app/pipelines/variables.py:197-229 | a coerced value passes its own declaration unchanged |
| `Variables.PlaceholderConforms` | app/pipelines/resolution.py:282-303 | apart from model arguments a static placeholder has the declared type |
| `Variables.PlaceholderRespectsConstraints` | app/pipelines/resolution.py:282-303 | a placeholder meets the declared constraints iff the default does, or the bounds allow it: an integer minimum is whole or not positive and a whole number lies within the bounds, a lone maximum is at least 1, a number's bounds are in order, an enumeration is not empty; the docstring promises it always |
| `Variables.TruncationLeast` | app/pipelines/resolution.py:295-296 | dropping the fraction of a minimum that is whole or not positive stays within the bounds iff some whole number does |
| `Validation.PlaceholderBelowMinimum` | app/pipelines/resolution.py:295-296 | a declaration without errors, an integer of at least 5/2, whose placeholder is 2 |
| `EnvironmentEquations.ArgumentSolves` | app/pipelines/resolution.py:245-279 | an accepted input gets the value of its equation: the one value that the supplied, else the requested, else the default raw value denotes within the declaration, or at defaults what stands in; without such a value there is one problem, a violation if something was given and a missing argument otherwise |
| `EnvironmentEquations.PlaceholderStandsIn` | app/pipelines/resolution.py:282-303 | what stands in is the default if it meets the declaration, else the minimum without its fraction, the first choice or a neutral value |
| `EnvironmentEquations.InputsExactlySolve` | app/pipelines/resolution.py:137-160 | the input loop reports nothing iff every supplied name is an accepted input and every input's equation has a value, and then enters those values |
| `EnvironmentEquations.DerivedStepExact` | app/pipelines/resolution.py:333-351 | a derived variable is bound iff its expression checks, evaluates, and the value denotes one within the declaration; else there is one problem more and nothing is bound |
| `EnvironmentEquations.BuiltSolves` | app/pipelines/resolution.py:114-167 | a built environment satisfies the equations of all inputs, constants and derived variables at once |
| `EnvironmentEquations.SolutionFound` | app/pipelines/resolution.py:114-167 | whatever satisfies them all is what the build delivers |
| `EnvironmentEquations.BuildIsSolution` | app/pipelines/resolution.py:114-167 | an environment builds iff all supplied names are known and the equations have a solution; its values are the only one |
| `EnvironmentEquations.BuildFails` | app/pipelines/resolution.py:245-279 | a build fails for an unknown argument, a raw value that denotes nothing within its declaration, an accepted input that is given nothing and has no default, or a problem among constants and derived variables, and for nothing else |
| `EvaluationOrder.OrderNames` | app/pipelines/resolution.py:375-400 | the loop that orders derived variables computes the rounds and reports a cycle iff something is left over |
| `EvaluationOrder.OrderIsExact` | app/pipelines/resolution.py:375-400 | each name at most once, after everything it depends on; left out are exactly the names from which references lead to a cycle, and something is left out iff there is a cycle |
| `Sorting.LessEqMeaning` | app/pipelines/resolution.py:391-391 | names that are ready together are sorted as texts: a beginning comes first, else the first different character decides |
| `EvaluationOrder.RoundKeepsProgress` | app/pipelines/resolution.py:391-399 | one round keeps the order duplicate-free, complete and dependencies first |
| `Resolution.ComputeEnvironment` | app/pipelines/resolution.py:114-167 | the imperative build of an environment equals `BuildEnvironment`, values, types, taint and every reported problem included; `BuildIsSolution`, `BuildFails`, `BuiltTypes` and `TaintAgreement` say what that is |
| `Resolution.InputsAreFirst` | app/pipelines/resolution.py:66-72 | of several input variables with one name the first counts |
| `Resolution.DeclaredAreFirst` | app/pipelines/resolution.py:314-320 | of several other variables with one name the first counts, unless an input or `query` has the name |
| `Resolution.ComputePanel` | app/pipelines/resolution.py:306-351 | the same for constants and derived variables |
| `Resolution.ComputeConstants` | app/pipelines/resolution.py:324-331 | the loop over the constants, and over the derived variables that do not parse |
| `Resolution.ComputeDerived` | app/pipelines/resolution.py:333-351 | the loop over the derived variables in dependency order, taint first |
| `Resolution.ComputeResolved` | app/pipelines/resolution.py:190-224 | resolving a definition evaluates every tagged field or collects every problem |
| `Resolution.ComputeFields` | app/pipelines/resolution.py:200-219 | the inner loop over the fields of a node |
| `Resolution.ResolvedField` | app/pipelines/resolution.py:200-219 | every field of a resolved node, in place: literals unchanged, expressions replaced by their value |
| `Resolution.ResolvedNode` | app/pipelines/resolution.py:198-221 | every node of a resolved definition, in place |
| `Resolution.ResolutionExact` | app/pipelines/resolution.py:190-224 | resolution succeeds iff every expression evaluates to something other than a model; then literals stay, each expression is replaced by its value in place, and all else is as before |
| `Resolution.FieldOfProblem` | app/pipelines/resolution.py:207-217 | every reported problem of a node comes from one of its fields |
| `Resolution.StripFields` | app/pipelines/resolution.py:227-242 | what stripping keeps is every field without a non-empty expression, and nothing else |
| `Resolution.StripInOrder` | app/pipelines/resolution.py:227-242 | what is kept stays in its order and as often as it stood there: stripping goes part by part |
| `Validation.StaticTaint` | app/pipelines/validation_variables.py:194-228 | the iterate-until-stable loop ends with exactly the names from which references lead to an input or to `query` |
| `Validation.TaintPass` | app/pipelines/validation_variables.py:221-227 | one pass stays inside any set closed under the references, and changes nothing only when the set is closed |
| `Validation.FirstDeclarationCounts` | app/pipelines/validation_variables.py:204-206 | of several declarations of a name the validator counts the type of the first |
| `Validation.CollectVariableIssues` | app/pipelines/validation_variables.py:50-66 | no error is reported iff the definition is well formed |
| `Validation.OutputIssues` | app/pipelines/validation_variables.py:69-117 | no error is reported iff every output node lists outputs with valid, different names whose expressions parse and check and are no bare models |
| `Validation.DeclarationIssues` | app/pipelines/validation_declarations.py:50-83 | no error is reported iff the declaration is sound for its source |
| `Validation.VariableNameIssues` | app/pipelines/validation_declarations.py:23-42 | no error is reported iff names are valid, not reserved and different |
| `Validation.ValidNameMeaning` | app/pipelines/variables.py:43-43 | valid is a lower-case letter or underscore and then letters, underscores and digits, with or without one final newline |
| `Validation.ReservedExactly` | app/pipelines/variables.py:44-44 | reserved are `query`, `true`, `false` and the builtins |
| `Validation.AcceptedArgumentIssues` | app/pipelines/validation_variables.py:134-191 | no error is reported iff every input node lists declared input variables; unaccepted inputs are warnings |
| `Validation.DerivedExpressionIssues` | app/pipelines/validation_variables.py:231-262 | no error is reported iff every expression parses, checks and is assignable |
| `Validation.EnvironmentIssues` | app/pipelines/validation_variables.py:265-279 | no error is reported iff the static environment builds |
| `Validation.FieldIssuesExact` | app/pipelines/validation_variables.py:303-353 | a config field is reported iff it does not check, has the wrong type, or is an identity field with a reference that leads to caller input |
| `Validation.ConfigIssues` | app/pipelines/validation_variables.py:282-300 | the same for all fields of all nodes |
| `Environments.PanelExact` | app/pipelines/resolution.py:114-167 | for separate names: every caller gets the same types, the taint before evaluation is the inputs and `query`, and the declared variables are all the others |
| `Environments.BuiltTypes` | app/pipelines/resolution.py:114-167 | whoever calls, the environment has the types that the validator checked against |
| `Noninterference.TaintAgreement` | app/pipelines/validation_variables.py:207-228 | for definitions without variable errors the taint of the run environment is the validator's: the names from which references lead to caller input |
| `Noninterference.TaintInOrder` | app/pipelines/resolution.py:333-338 | one pass in dependency order computes the whole taint closure |
| `Noninterference.FineOrder` | app/pipelines/resolution.py:333-351 | without variable errors nothing is left out of the evaluation order |
| `Noninterference.BuiltLow` | app/pipelines/resolution.py:114-167 | the environments of two callers agree on every name that is not tainted |
| `Noninterference.EvaluateStepLow` | app/pipelines/resolution.py:333-351 | evaluating one more variable keeps that agreement |
| `Noninterference.IdentityOutcome` | app/pipelines/validation_variables.py:339-352 | an identity field evaluates to the same outcome for any two callers |
| `Noninterference.Noninterference` | app/pipelines/resolution.py:190-224 | two successful resolutions of a well-formed definition, whatever the query, the arguments or the requested depth, give every identity field the same literal |
| `Noninterference.StaticViewExact` | app/pipelines/resolution.py:175-187 | the static view shows the identity fields of a run iff the static resolution succeeds or there are none; settings rely on it always (app/pipelines/settings.py:272-275) |
| `Noninterference.StripLosesIdentity` | app/pipelines/resolution.py:227-242 | when the static view falls back to stripping, an identity expression is lost |
| `StaticViewExample.StaticViewLosesIdentity` | app/pipelines/resolution.py:184-187 | a concrete well-formed definition that runs with the backend it names, and whose static view has lost that backend but keeps the index name and the depth that the retriever's validation hook asks for |
| `Soundness.EnvironmentConforms` | app/pipelines/resolution.py:114-167 | in every environment that builds, each name has a value of its declared type |
| `Soundness.ResolutionCannotGoWrong` | app/pipelines/resolution.py:190-224 | resolving a well-formed definition can only meet arithmetic faults and bare model values |
| `Soundness.ResolvedFieldTyped` | app/pipelines/validation_variables.py:329-338 | in every run an expression field holds a value of the type that the node catalog expects there |
| `Eviction.EvictLoop` | app/cache/resources.py:95-109 | the loop that drops the oldest droppable entry until the dictionary fits equals a single pass |
| `Eviction.EvictsOldest` | app/cache/resources.py:95-109 | what is dropped are the oldest droppable entries up to a cut, as many as needed or all of them, and nothing else |
| `Eviction.EvictKeepsValues` | app/cache/resources.py:95-109 | every entry is either kept or dropped, exactly once |
| `ResourceCaches.ResourceCache.Begin` | app/cache/resources.py:44-52 | the first locked section: join the future that stands under the key, or enter a new one |
| `ResourceCaches.ResourceCache.SetOutcome` | app/cache/resources.py:59-66 | completing a future makes its callbacks due |
| `ResourceCaches.ResourceCache.SettleBuild` | app/cache/resources.py:67-70 | the section after a successful build: touch the own entry, detach what is too much |
| `ResourceCaches.ResourceCache.DetachExcessLocked` | app/cache/resources.py:95-109 | the eviction of completed futures |
| `ResourceCaches.ResourceCache.WithdrawBuild` | app/cache/resources.py:61-63 | the section after a failed build: remove the entry only if it is the own one |
| `ResourceCaches.ResourceCache.PopEntry` | app/cache/resources.py:74-82 | the locked section of `invalidate` |
| `ResourceCaches.ResourceCache.PopEverything` | app/cache/resources.py:84-89 | the locked section of `close_all` |
| `ResourceCaches.ResourceCache.CloseOne` | app/cache/resources.py:119-123 | closing a completed future closes a resource iff there is one |
| `ResourceCaches.ResourceCache.AddDoneCallback` | app/cache/resources.py:111-117 | a callback registered late runs at once |
| `ResourceMachine.NextKeepsInv` | app/cache/resources.py:41-123 | every step of every thread keeps the invariant: each future's one obligation to be closed is in exactly one place |
| `ResourceMachine.RunsKeepInv` | app/cache/resources.py:41-123 | so it holds in every state of every run |
| `ResourceMachine.ClosedAtMostOnce` | app/cache/resources.py:111-123 | in every interleaving no resource is closed twice, and none while it is attached |
| `ResourceMachine.IdleMeansDisposed` | app/cache/resources.py:41-123 | whenever no call is in progress, every resource built is attached and open, or detached and closed exactly once |
| `ResourceMachine.WithinBound` | app/cache/resources.py:95-109 | entries whose creator has left its last section never exceed the bound; without active creators the whole map is within it |
| `ResourceMachine.WaitersAreServed` | app/cache/resources.py:54-55 | a caller waiting for a future has a creator building it until it completes |
| `ResourceMachine.FailureSparesSuccessors` | app/cache/resources.py:57-64 | a failing creator removes its own future and no other entry |
| `ResourceRequests.StepEntries` | app/cache/resources.py:41-109 | what each step adds to and takes from the dictionary: a creator's last section takes its own failed future, or completed ones while there are too many |
| `ResourceRequests.RequestFinds` | app/cache/resources.py:44-52 | a call joins the future under its key iff there is one, else starts one |
| `ResourceRequests.EntriesOfOwnKey` | app/cache/resources.py:44-52 | what stands under a key was created by a call with that key |
| `ResourceRequests.FutureOfOwnKey` | app/cache/resources.py:41-72 | in every run the future that a call builds or waits for was created for the key the call was made with |
| `ResourceRequests.SharedMeansSameKey` | app/cache/resources.py:54-55 | two calls share a future only if they ask for one key |
| `ResourceRequests.CreatedAfterInvalidation` | app/cache/resources.py:74-89 | what stands under a key was created after every invalidation of it |
| `ResourceRequests.ServedAfterInvalidation` | app/cache/resources.py:74-89 | a call made after an invalidation of its key never gets what was created before |
| `ResourceRequests.OrderedByUse` | app/cache/resources.py:51-69 | in every run the dictionary is in the order of last use |
| `ResourceRequests.EvictionTakesOldest` | app/cache/resources.py:95-109 | eviction keeps no completed future that was used before one it detaches |
| `ValueCaches.ValueCache.FindEntry` | app/cache/values.py:117-125 | find and touch the entry of a key, or insert one and evict |
| `ValueCaches.ValueCache.Decide` | app/cache/values.py:67-78 | the decision on an entry that nobody is loading: load without a value, on demand or past the stale window; refresh in the stale window from the retry time on; else serve |
| `ValueCaches.ValueCache.BeginGet` | app/cache/values.py:57-78 | the first locked section of `get` |
| `ValueCaches.ValueCache.ResumeGet` | app/cache/values.py:62-65 | what a woken waiter does |
| `ValueCaches.ValueCache.FinishSuccess` | app/cache/values.py:171-180 | recording a loaded value, and eviction |
| `ValueCaches.ValueCache.FinishFailure` | app/cache/values.py:182-186 | recording a failure |
| `ValueCaches.ValueCache.Invalidate` | app/cache/values.py:82-91 | removing an entry whatever is in flight for it |
| `ValueCaches.ValueCache.InvalidateMatching` | app/cache/values.py:93-99 | removing all entries of a set of keys, and their number |
| `ValueCaches.ValueCache.Clear` | app/cache/values.py:101-106 | removing what is not in flight |
| `ValueMachine.NextKeepsInv` | app/cache/values.py:49-221 | every step keeps the invariant of flights, parked callers, order of touch and bound |
| `ValueMachine.RunsKeepInv` | app/cache/values.py:49-221 | so it holds in every state of every run |
| `ValueMachine.SingleFlightAlways` | app/cache/values.py:57-80 | an entry, attached or detached, is refreshing iff exactly one load of it is running or queued, never two; callers are parked on it only then |
| `ValueMachine.FinishWakesEverybody` | app/cache/values.py:171-186 | a load that ends, good or bad, leaves nobody parked on its entry |
| `ValueMachine.CreatedAfterInvalidation` | app/cache/values.py:82-99 | an attached entry was created after every invalidation of its key |
| `ValueMachine.ValuesWereLoaded` | app/cache/values.py:171-180 | every value in the cache comes from a load of that entry that some step started |
| `ValueMachine.NoStaleRepopulation` | app/cache/values.py:82-99 | the value of an attached entry comes from a load started after the last invalidation of its key |
| `ValueMachine.WithinBound` | app/cache/values.py:209-221 | at every release of the lock the map is within its bound |
| `ValueMachine.InsertionEvictsOldestIdle` | app/cache/values.py:117-125 | inserting into a full cache evicts one entry, the least recently touched idle one, which is the new one when all others are in flight |
| `Freshness.GetValued` | app/cache/values.py:67-80 | a value that nobody is loading is served as fresh within the fresh time, served and refreshed in the stale window once the retry time has come, served without refresh before that, and otherwise, or on demand, loaded first; the answer tells value, age and freshness |
| `Freshness.GetInFlight` | app/cache/values.py:59-63 | while a load is running a value is served unless a refresh is demanded; else the call waits |
| `Freshness.GetMissing` | app/cache/values.py:67-68 | without a value the call loads |
| `Freshness.RetryOutcome` | app/cache/values.py:62-68 | a woken waiter waits again, returns the value that is there, or loads |
| `Freshness.FinishOutcome` | app/cache/values.py:135-186 | what a load leaves: a good one its value, its time and no warning; a failed one the old value, its message and the time of the next try; the caller that loaded gets the new value |
| `Freshness.GetTouches` | app/cache/values.py:117-125 | a call puts the entry it finds last and evicts nothing |
| `Freshness.LoadedAtLastSuccess` | app/cache/values.py:171-180 | in every run the value and the time of a record are those of the last successful load of its entry |
| `Freshness.RetryAfterFailure` | app/cache/values.py:182-186 | after a failed load the record carries its message and retry time until another load ends |
| `Freshness.NoEarlyRefresh` | app/cache/values.py:73-80 | until that time no call queues a refresh of the entry |
| `Numbering.FindFree` | app/pipelines/upgrades.py:380-399 | the first of `base`, `base-2`, `base-3`, ... that is not taken; the search ends |
| `Numbering.CandidateMeaning` | app/pipelines/upgrades.py:380-399 | the candidates are the base, then `base-2` and so on, in decimal |
| `Numbering.FirstFreeUnique` | app/pipelines/upgrades.py:380-399 | that name is determined by the base and the taken names |
| `CycleCheck.BuildAdjacency` | app/pipelines/validation.py:214-217 | the adjacency lists hold exactly the edges with declared sources |
| `CycleCheck.Search.Dfs` | app/pipelines/validation.py:222-233 | true only if there is a cycle; otherwise the node is finished and the search state is as before, grown |
| `CycleCheck.HasCycle` | app/pipelines/validation.py:211-235 | true iff a walk along edges with declared sources comes back to its start; when false, an order of all nodes with successors first |
| `CycleCheck.UnknownEndsIrrelevant` | app/pipelines/validation.py:214-217 | edges with an undeclared end do not change the answer |
| `Bypass.BypassNode` | app/pipelines/upgrades.py:146-176 | one bypass: untouched edges stay in place, every input is spliced to every output once, under a free id |
| `Bypass.BypassNodes` | app/pipelines/upgrades.py:140-177 | what is left connects exactly the ends of paths whose inner nodes are bypassed, with their outer ports, iff no cycle runs inside the bypassed nodes; ids stay distinct and nothing is duplicated anew |
| `Bypass.SelfLoopReturns` | app/pipelines/upgrades.py:157-176 | a self-loop on the bypassed node is spliced to itself: the node keeps a connection |
| `Bypass.StepExact` | app/pipelines/upgrades.py:146-176 | exactness for some bypassed nodes becomes exactness for one more |
| `Bypass.CycleSurvives` | app/pipelines/upgrades.py:157-176 | contracting a node of a cycle leaves a cycle |
| `Bypass.NoNewDuplicates` | app/pipelines/upgrades.py:154-165 | one bypass keeps ids distinct and never adds a second copy of a connection |
| `Bypass.ReachabilitySurvives` | app/pipelines/upgrades.py:140-177 | among kept nodes the bypass does not change which reach which |
| `Bypass.AcyclicitySurvives` | app/pipelines/upgrades.py:140-177 | acyclic edges stay acyclic |
| `Bypass.AcyclicHasNoInnerCycle` | app/pipelines/upgrades.py:140-177 | on acyclic edges the bypass is exact |
| `Bypass.UpgradeEdges` | app/pipelines/upgrades.py:126-132 | the edges after an upgrade: bypassed, without those that touch removed nodes; a drop is noticed iff there was one |
| `FusionLimits.OutcomeExists` | app/pipelines/execution/executor.py:144-177 | on ranked graphs a complete run has an outcome |
| `FusionLimits.OutcomeUnique` | app/pipelines/execution/executor.py:229-260 | and only one |
| `FusionLimits.OrderRanks` | app/pipelines/validation.py:211-235 | the order that `HasCycle` leaves when it answers false ranks the graph |
| `FusionLimits.InsertLimit` | app/pipelines/upgrades.py:359-376 | one fusion node: its edges leave from the limit instead, in place, and one connecting edge with a free id is added last |
| `FusionLimits.LastOnMeaning` | app/pipelines/execution/executor.py:229-260 | of several deliveries to a port the last counts |
| `FusionLimits.CutMeaning` | app/pipelines/nodes/limiting.py:60-75 | a cut keeps the first matches, as many as configured, else as requested, else all |
| `FusionLimits.InsertFusionLimits` | app/pipelines/upgrades.py:331-377 | every fusion node loses its cut and is followed by a limit that carries it, under a fresh id; edges are rewired in place |
| `FusionLimits.RoundRewires` | app/pipelines/upgrades.py:359-376 | rewiring one fusion node after another adds up, fusion nodes that feed each other included |
| `FusionLimits.LimitArrivals` | app/pipelines/upgrades.py:364-372 | a limit receives what its fusion node emits on `results`, and nothing else |
| `FusionLimits.FusionThenLimit` | app/pipelines/upgrades.py:337-341 | a fusion node that does not cut, followed by its limit, holds what the cutting one held |
| `FusionLimits.InsertionPreserves` | app/pipelines/upgrades.py:331-377 | every original node receives what it received, along the same edges in the same order, and each limit holds what its fusion node held |
| `FusionLimits.InsertionRanked` | app/pipelines/upgrades.py:331-377 | the result is acyclic again, with distinct node ids |
| `FusionLimits.MeaningPreserved` | app/pipelines/upgrades.py:331-377 | a definition that passes the checks on ids, edge ends and cycles passes them again; before and after, a run has exactly one outcome, and the two agree at every original node |
| `FileNames.ValidationIsExact` | app/services/files.py:40-47 | accepted are exactly the trimmed, path-safe names of at most 255 characters, which stay as they are |
| `FileNames.TrimMeaning` | app/services/files.py:42-42 | trimming takes white space away at both ends and nothing else |
| `FileNames.SuffixedMeaning` | app/services/files.py:328-336 | the number stands before the last extension, or at the end of a name without one |
| `Numbering.DecimalMeaning` | app/services/files.py:333-333 | the suffix is the decimal of the counter: it reads as that number and has no leading zero |
| `FileNames.TakenSuffixes` | app/services/files.py:326-337 | pigeonhole: no more numbered names are taken than there are siblings |
| `FileNames.DedupedSafe` | app/services/files.py:326-337 | a numbered name is free and can stand in a path |
| `FileNames.NumberedNameValid` | app/services/files.py:331-337 | the number that is picked keeps the name valid iff the name and the suffix together fit into 255 characters and something precedes the last dot |
| `FileNames.DotFileNumbered` | app/services/files.py:331-337 | a second `.env` becomes ` (1).env`, which validation would not have accepted |
| `FileNames.LongNameNumbered` | app/services/files.py:331-337 | a taken name of 255 characters never gets a valid number |
| `FileNames.LongNameExists` | app/services/files.py:40-47 | such names pass validation |
| `FilePaths.SegmentsOfPath` | app/services/files.py:376-384 | splitting a printed path gives back its names |
| `FileTrees.ChainDistinct` | app/services/files.py:284-324 | chains of parents are finite: they repeat no node |
| `FileTrees.Added` | app/services/files.py:154-178 | adding a node with a free name under a folder keeps the forest and every chain |
| `FileTrees.AddedExactly` | app/services/files.py:180-223 | a new row keeps the forest iff its parent is a folder of its collection, its name path-safe and free; an upload relies on its caller for the parent |
| `FileTrees.Moved` | app/services/files.py:255-280 | moving a node to a folder outside its subtree keeps the forest, and the chains of all other nodes |
| `FileTrees.Removed` | app/services/files.py:255-280 | removing a set of nodes that holds the children of its members keeps the forest |
| `FileTrees.NamesDetermine` | app/services/files.py:134-150 | in a forest the names on the way down lead to one node only |
| `FileSystems.FileSystem.FindChild` | app/db/repositories/files.py:54-63 | finds a sibling of that name iff there is one |
| `FileSystems.FileSystem.RequireFolder` | app/services/files.py:339-346 | accepts exactly the folders of the collection, and tells a file from a missing node |
| `FileSystems.FileSystem.RejectCycle` | app/services/files.py:348-358 | the walk up ends, and rejects iff the new parent is the node or below it |
| `FileSystems.FileSystem.DedupeName` | app/services/files.py:326-337 | the name if it is free, else the first numbered one that is; the search ends |
| `FileSystems.FileSystem.ResolvePath` | app/services/files.py:134-150 | the node whose names are the segments of the path, or the precise reason why there is none |
| `FileSystems.FileSystem.CreateFolder` | app/services/files.py:154-178 | succeeds iff the name is valid and free and the parent a folder, else reports the first check that fails; the whole new table |
| `FileSystems.FileSystem.EnsureFolder` | app/services/files.py:301-324 | the existing folder of that name or a new one; fails only on a file of that name |
| `FileSystems.FileSystem.CreateMissingFolders` | app/services/files.py:284-299 | reaches the folder that the cleaned names lead to, creating only what is missing on the way; fails iff a name is invalid or a file stands on the way |
| `FileSystems.FileSystem.AddFile` | app/services/files.py:198-209 | the file row under the first free name |
| `FileSystems.FileSystem.RegisterUpload` | app/services/files.py:180-223 | success iff all names are valid and no file is on the way; one new file under the first free name; iff its type is ingested a new record with status pending, no problem and the file's name, type and bytes, all others unchanged; nothing changes on failure |
| `FileSystems.FileSystem.EnsurePendingDocument` | app/services/files.py:225-253 | the record of a file has status pending, no problem and the file's name, type or the default one, and bytes; an earlier chunk count and all other records stay |
| `FileSystems.FileSystem.CheckParent` | app/services/files.py:257-262 | a move is allowed iff the destination is a folder of the collection outside the subtree |
| `FileSystems.FileSystem.CheckName` | app/services/files.py:263-269 | a name is allowed iff it is valid and no other sibling at the destination has it |
| `FileSystems.FileSystem.UpdateNode` | app/services/files.py:255-280 | succeeds iff destination and name are allowed, else says which check failed; then only this node and the name on its record change |
| `FileSystems.FileSystem.PathFor` | app/services/files.py:368-384 | the memoised path of one node, and of its ancestors |
| `FileSystems.FileSystem.Paths` | app/services/files.py:368-384 | every node of the collection with the path that its names spell |
| `FileSystems.PathRoundTrip` | app/services/files.py:134-150 | the printed path of a node resolves to that node and to no other |
| `FileSystems.PathsDiffer` | app/services/files.py:368-384 | different nodes of a collection have different paths |
| `FileSystems.UploadedAt` | app/services/files.py:180-223 | an upload is found below its parent, under its relative folders and its name |
| `FileSystems.UploadPlace` | app/services/files.py:195-203 | the segments of a relative path are the folders and the name of the upload; without any the file name counts |
| `FileSystems.MoveCarries` | app/services/files.py:255-280 | a move carries the subtree along: what is below keeps its place, everything else its path |
| `FileSystems.NothingBlocked` | app/services/files.py:284-324 | after a walk that came through, no file stood where it needed a folder |
| `FileCopying.CheckTarget` | app/services/file_copy.py:69-72 | a copy is allowed iff the target is a folder of the collection outside what is copied; otherwise the reason |
| `FileCopying.CopyNode` | app/services/file_copy.py:79-105 | the recursion ends; it fails iff a file below has no stored bytes, else it adds a copy of the subtree and its records |
| `FileCopying.CopyChildren` | app/services/file_copy.py:100-104 | the loop over the children of a folder |
| `FileCopying.Copy` | app/services/file_copy.py:54-77 | a fresh isomorphic subtree: same shape, kinds, content types and bytes, the same names below a deduplicated root, existing nodes unchanged; a record with status pending, no problem and the clone's name, type and bytes for every ingested file; nothing changes on failure |
| `FileCopying.CopiesMerge` | app/services/file_copy.py:79-105 | the copy of a child joins the copy of its folder |
| `FileCopying.KidNameFree` | app/services/file_copy.py:62-64 | below the root names need no numbering: the copied folder holds clones of earlier children only |
| `FileCopying.CopyMirrorsNames` | app/services/file_copy.py:79-105 | below the root of the copy paths read as below the original |
| `FileCopying.CopySubtree` | app/services/file_copy.py:79-105 | the subtree of the copied root is exactly the set of clones |
| `FileCopying.DeleteUndoesCopy` | app/services/file_copy.py:54-77 | deleting a copy restores the tables of nodes and records |
| `FileDeletion.IndexChildren` | app/services/file_deletion.py:67-70 | the children of every parent, each once |
| `FileDeletion.Visit` | app/services/file_deletion.py:73-76 | appends exactly the subtree, each node once, children before parents; the recursion ends |
| `FileDeletion.CollectSubtree` | app/services/file_deletion.py:65-79 | the node and everything below it, children before parents |
| `FileDeletion.DeleteRow` | app/db/repositories/files.py:65-68 | a row goes only when no child and no record refers to it |
| `FileDeletion.PurgeRows` | app/services/file_deletion.py:114-126 | records first, then nodes, none while a child of it is left |
| `FileDeletion.Delete` | app/services/file_deletion.py:36-63 | exactly the subtree and its records go; what is left is a forest |
| `ToolCalls.FirstNewExact` | app/chat/tool_calls.py:202-210 | the emitted ids are pairwise different, exactly the new ones, each call being the first with its id |
| `ToolCalls.SegmentsConserved` | app/chat/tool_calls.py:192-216 | every segment is filed exactly once, with the call that owns it or with what is left over |
| `ToolCalls.OwnerThrough` | app/chat/tool_calls.py:195-215 | segments before a call belong to that call |
| `ToolCalls.ResolveExact` | app/chat/tool_calls.py:72-115 | a segment makes a call iff its type or a payload says so and some place holds a name; id, name and arguments come from the first place that is not empty |
| `ToolCalls.NormalizeExact` | app/chat/tool_calls.py:151-179 | a structured call needs a function payload with a name; its parts come from there, a missing id is generated |
| `ToolCalls.ArgumentsMeaning` | app/chat/tool_calls.py:118-130 | arguments always end up as JSON, and stay as they are when normalised again |
| `ToolCalls.WireRoundTrip` | app/chat/tool_calls.py:151-216 | a call, structured or from reasoning, comes back unchanged from the shape in which it is sent to the provider, on both paths |
| `ToolCalls.RunState.NormalizeToolCalls` | app/chat/tool_calls.py:151-179 | the usable structured calls in order, their ids recorded |
| `ToolCalls.RunState.ExtractReasoningToolCalls` | app/chat/tool_calls.py:182-216 | the new calls in order; for each call the segments it owns, in order; the rest is what no call follows |
| `ToolCalls.RunState.ResolveToolCalls` | app/chat/run_loop.py:87-112 | over all iterations the ids that reasoning contributes are pairwise different and repeat none recorded earlier |
| `Streams.FoldIsByLane` | app/chat/tool_calls.py:242-276 | an entry is determined by the updates of its own index: first raw id until a non-empty one comes, last non-empty type and name, arguments joined in order |
| `Streams.StepChangesOne` | app/chat/tool_calls.py:247-275 | an update touches the entry that its payload's index converts to, or entry 0 when it has none or none that converts, and no other |
| `Streams.EntriesExact` | app/chat/tool_calls.py:247-262 | the entries are exactly the positions that some update is for |
| `Streams.InterleavingIrrelevant` | app/chat/tool_calls.py:242-276 | streams that keep the order within each index accumulate to the same entries |
| `Streams.FoldBatches` | app/chat/tool_calls.py:242-276 | how updates are grouped into chunks does not matter |
| `Streams.StreamState.Accumulate` | app/chat/tool_calls.py:242-276 | the loop over the updates of a chunk; entries are made for exactly the positions that some update is for |
| `Streams.StreamState.HandleDelta` | app/chat/streaming.py:95-108 | one chunk: its text and its updates are added to what was received |
| `Streams.StreamState.Finalize` | app/chat/streaming.py:118-144 | the whole text, and one call for each index whose updates name one, by ascending index, holding what those updates describe |
| `Streams.CallDescribes` | app/chat/streaming.py:121-136 | the call of an index: its last id, type and name that are not empty, all argument fragments in order, and a generated id if there is none |
| `Streams.SortedIndices` | app/chat/streaming.py:121-121 | the indices in ascending order, each once |
| `Streams.AscendingUnique` | app/chat/streaming.py:121-121 | there is only one such order |
| `Streams.SameCalls` | app/chat/streaming.py:118-144 | two streams that agree within each index end in the same calls |

## Left out

- FusionLimits.InsertFusionLimits: definitions with duplicate node ids, which the validator refuses (app/pipelines/validation.py:92-105).
- FusionLimits.MeaningPreserved: edges with an undeclared end, which the validator refuses (app/pipelines/validation.py:107-117).
- FusionLimits.InsertionPreserves: edges with an undeclared end that is the id of an inserted limit; the same for `InsertionRanked`, `LimitArrivals` and `FusionThenLimit`.
- FileSystems.FileSystem.RegisterUpload: a parent that is no folder of the collection; `FileTrees.AddedExactly` shows that such an upload breaks the forest.
- FileSystems.FileSystem.CreateMissingFolders: a starting parent that is no folder of the collection; the same for `EnsureFolder` and `AddFile`.
- FileCopying.Copy: a node of another collection, which the route excludes; the same for `CopyNode` and `CopyChildren`.
- The expression lexer and parser.
- Duplicate issues: the validator's removal of repeated messages, which does not change whether there are any.
- Port checks of the validator (`_check_port_fanin`, `_check_required_inputs`): counting per port, with no property across functions.
- The other rewrites of app/pipelines/upgrades.py: renamed node types, variable migrations, and the renaming inside a migrated `top_k` expression; a cut is carried over as it is.
- The executor's scheduling: an outcome is what a complete run produces, not the order in which nodes run, and runs that stall or fail have none.
- `ValueCache.close` waiting for its executor, and its thread pool: a queued refresh is one that any thread may start.
- Liveness of the caches: nothing is said about when a waiting thread runs again.
- The order in which the database lists nodes; the results do not depend on it.
- File bytes on disk, sizes, vectors, chunks and ingestion events; after a failed upload or copy bytes may stay behind under keys that no row names.
- Users and ownership checks, time stamps, and what the routes read back.
- Reasoning text: how segments are normalised and extended, and the part of `resolve_tool_calls` that stores contexts and traces.
- Parsing of provider chunks, usage, and execution of tool calls.
