# Verified model of the Solana audit toolkit's algorithmic core

This Dafny 4.11 project models five parts of the toolkit and proves what they promise, for all
inputs, all runs and all executions. `dafny verify dfyconfig.toml` checks it.

- **Differential engine and lending model** (`Scenario`, `Engine`, `EngineTheorems`, `Lending`,
  `LendingTheorems`, `RoundingTheorems`). Two models run in lockstep. The loops of `compare` and
  `compare_with_trace` are methods proved against `ReportOf`, a function of the rounds played; the
  entries of a report are characterised exactly, the first one is shown to be the first visible
  disagreement, and for two lending models that round differently it is shown to be the first
  operation on which rounding bites. The lending model is a class whose `Apply` computes the
  function `Step`; the economics (shares, backing, price, solvency, overflow) are proved over runs
  of `Step`, and the engine reports a divergence of a candidate from the reference exactly when the
  candidate's share price falls somewhere.
- **IDL layouts** (`Layout`, `LayoutTheorems`, `LayoutNames`). Type resolution with its name chain and
  depth cut, and the items of the generated module: every emitted type reads back to the declared one,
  every surviving reference is emitted, and the reference graph has no path of three edges.
- **CEI walker** (`Cei`, `CeiSyntax`, `CeiOutcomes`, `CeiTheorems`, `CeiReach`). The walker over a syntax
  tree, which bodies it reports read off the tree itself, and an evaluator of the same tree in which
  every list of choices is one execution. What executions can come to (complete, leave, write, before
  or after an interaction) is also computed on the tree, and proved exact. Findings are sound for every execution, real exactly when the write is not dead code,
  and complete exactly for the statements of which the walker tells the truth.
- **CPI depth and taint** (`CpiDepth`, `Taint`). A backtracking search proved to find the longest
  admissible walk; let-chain tracking proved to be noninterference exactly where every source that is
  read is collected.
- **Locations, finding identity, fresh names** (`Decimal`, `Sarif`, `Watch`, `FreshNames`).

Conventions. `u64` and `u128` are bounded integers; unchecked u128 arithmetic wraps (`Wrap`), which is
what a release build does, and `Fits` says that nothing wraps, in which case a build with overflow
checks does the same (otherwise it panics). `as u64` in `observe` truncates. A `dyn ProgramModel` is the
class `ProgramModel` over arbitrary transition and view functions. Error texts count only up to equality;
the text of findings, divergences and generated code is reduced to the data in it.

Where the code and its comments part, the model follows the code, and a theorem says exactly when the
comment holds: "at most one finding per function" (`CeiReach.AtMostOneFindingIff`); a CPI in a bare
block "propagates to the statements that follow it", which a labelled block can break
(`CeiReach.LabelledBlockIsJudgedRightIff`); a write reported after a CPI may be dead code
(`CeiReach.ReportedIsReachedIff`); writes that follow an interaction in a condition, an operand, a branch
or an earlier loop iteration, which the walker misses (`CeiReach.FaithfulIff`, `LoopIsMissedIff`); "the
emitted module always compiles", which fails for some names that the sanitiser changes, that are
declared twice, that belong to enum accounts, or that clash in snake case as functions or fields
(`LayoutTheorems.ModuleIsClosedIff`, `GraphReturnsIff`, `FillersDifferIff`, `BuildersDifferIff`,
`FieldsDifferIff`, which is no complete list); taint of values read
through `ctx.accounts` or `.await` (`Taint.NoninterferenceIff`, `Taint.SoundIffMissedIsCollected`); a first
disagreement that unequal starts hide (`EngineTheorems.FirstDisagreementIsReportedIff`); and a trace
comparison that can miss operation 0 (`EngineTheorems.TraceReportIsTheLiveReport`).

## Model

| member | source | states |
|---|---|---|
| Scenario.DifferencesAreExact | crates/parity/src/scenario.rs:154-171 | exactly the fields in which the observations differ, each once, in comparison order; none iff they are equal |
| Scenario.BrokenIff | crates/parity/src/invariants.rs:10-42 | a check fails exactly when deposits fall short of borrows, shares differ, or vault plus borrows fall short of deposits, in unbounded arithmetic: the saturation never decides |
| Scenario.DefaultsAreThoseThatCanFail | crates/parity/src/invariants.rs:44-55 | the default set holds exactly the invariants that some observation breaks, each once |
| Engine.RecordViolations | crates/parity/src/engine.rs:166-178 | appends one violation per broken invariant, in order, and keeps what was there |
| Engine.PlayRound | crates/parity/src/engine.rs:101-153 | what one round adds to divergences, violations, agreed errors, baseline and first divergence, for both refresh rules |
| Engine.Compare | crates/parity/src/engine.rs:87-164 | the loop returns the report of the rounds the two models play, and leaves both models after all operations |
| Engine.CompareWithTrace | crates/parity/src/engine.rs:198-282 | the same against recorded steps, stopping with a "trace" divergence at the first operation without a step |
| Engine.TheFirstStepIsFound | crates/parity/src/engine.rs:214 | of several recorded steps with the same index the earliest is found |
| Engine.RoundsOfPrefix | crates/parity/src/engine.rs:100-103 | running a prefix plays the prefix of the rounds |
| EngineTheorems.DivergencesAreExact | crates/parity/src/engine.rs:126-149 | both directions: an entry is in the report iff it truthfully describes an examined round and, for a field, the two values differ and one side changed since the baseline |
| EngineTheorems.ResultsAreExact | crates/parity/src/engine.rs:82-136 | for any two answers x and y: a result divergence from x to y at operation i is listed iff these are the answers of round i and they differ, be it only in the message |
| EngineTheorems.BaselineIsExact | crates/parity/src/engine.rs:92-153 | a field counts as changed against the latest earlier round that was not rejected with one message by both sides, or against the start |
| EngineTheorems.DivergencesAreOrdered | crates/parity/src/engine.rs:126-149 | divergences are listed by operation, the result before the fields, the fields in declared order, each once |
| EngineTheorems.ViolationsAreExact | crates/parity/src/engine.rs:118-124 | both directions: a violation is reported iff a side that accepted the operation broke a checked invariant |
| EngineTheorems.ViolationsAreOrdered | crates/parity/src/engine.rs:118-124 | violations are listed by operation, those of the reference before those of the program |
| EngineTheorems.AgreedErrorsAreCounted | crates/parity/src/engine.rs:105-110 | agreed errors is the number of rounds in which, for some message, both sides reject with that message |
| EngineTheorems.CompareReportsTheFirstDisagreement | crates/parity/src/engine.rs:87-164 | for any two deterministic models with equal initial observables, the first divergence is the least operation on which they visibly disagree, and there is none iff they never do: neither the changed-field filter nor the skipped agreed errors hide it |
| EngineTheorems.FirstDisagreementIsReportedIff | crates/parity/src/engine.rs:92-149 | the first disagreement is reported on every run if and only if the two sides start out looking alike |
| EngineTheorems.LastingDifferenceIsNeverReported | crates/parity/src/engine.rs:137-141 | two machines that look different and stand still disagree on every operation of every scenario, and no divergence is reported |
| EngineTheorems.PrefixReport | crates/parity/src/engine.rs:100-153 | the report on a prefix is the full report filtered to the operation indices inside it |
| EngineTheorems.MinimalReproReproduces | crates/parity/src/engine.rs:67-77 | re-running the minimal repro on fresh models gives the same first divergence (or, without one, the same first violation) at its last operation, and every shorter prefix reports none |
| EngineTheorems.TraceReportIsTheLiveReport | crates/parity/src/engine.rs:198-282 | against a faithful recording of a model whose rejections change nothing: same violations and agreed errors, and the live divergences minus the field entries of operation 0 that the reference did not move; equal to the live ones iff at operation 0 the program moved no field away from a reference that kept it |
| EngineTheorems.TraceCanMissOperationZero | crates/parity/src/engine.rs:208 | if the reference stands still at operation 0, whatever the program moved there is reported live and not from the trace |
| EngineTheorems.RecordingGivesTheSameRounds | crates/parity/src/engine.rs:214-229 | looking steps up by index in an in-order recording replays the live rounds |
| EngineTheorems.RecordingsAreFaithful | crates/parity/src/engine.rs:214-229 | writing a run down step by step, with an error where the model rejects, is a faithful recording of it |
| EngineTheorems.TraceStopsAtTheFirstGap | crates/parity/src/engine.rs:214-229 | a trace without a step for operation n gives a "trace" divergence at n with the reference's own answer, and nothing after it |
| Lending.LendingModel.WithRounding | crates/parity/src/model.rs:72-91 | a new model is empty except for the last user account's balance |
| Lending.StartsWithTheLastUser | crates/parity/src/model.rs:72-91 | the user starts with what the last user account holds, zero without one, and everything else at zero |
| Lending.LendingModel.Apply | crates/parity/src/model.rs:121-179 | the field updates of every operation, accepted or rejected, amount to the specification step |
| Lending.DivRoundIsTight | crates/parity/src/model.rs:31-41 | Down brackets the quotient from below and Up from above, by less than one denominator |
| Lending.SharesForIsTight | crates/parity/src/model.rs:98-113 | shares are one to one for an empty pool, else the quotient of amount * shares (modulo 2^128) by deposits, bracketed from the side of the rounding |
| Lending.InterestIsProportional | crates/parity/src/model.rs:164-169 | interest is borrows * rate * seconds in units of 10 000, rounded down, with the product cut at the u128 ceiling; no borrows, no interest |
| Lending.AccrualIsExact | crates/parity/src/model.rs:164-173 | accrual adds one and the same such interest to deposits and to borrows, each up to the ceiling, and touches nothing else; without borrows it changes nothing |
| Lending.AcceptedIff | crates/parity/src/model.rs:121-157 | which operations are accepted, and the message of each rejection |
| Lending.RejectionChangesNothing | crates/parity/src/model.rs:121-157 | a rejected operation leaves every field as it was |
| Lending.StepIsExact | crates/parity/src/model.rs:121-179 | a step in which nothing wraps is the step in unbounded arithmetic |
| Lending.StepIsExactModulo | crates/parity/src/model.rs:121-179 | an accepted step, fitting or not: sums and differences modulo 2^128, saturating and checked ones exactly, all else unchanged |
| Lending.ObservedAsItIs | crates/parity/src/model.rs:181-192 | each quantity is observed under its own name, modulo 2^64, and the price as it is |
| LendingTheorems.SharesAreConserved | crates/parity/src/model.rs:121-179 | under every rounding, wrapping included, the user holds all shares after every run |
| LendingTheorems.BackingIsKept | crates/parity/src/model.rs:121-179 | under every rounding, vault plus borrows covers deposits and user balance plus vault never falls over a run |
| LendingTheorems.MintBound | crates/parity/src/model.rs:98-103 | a deposit mints at most the amount, and at most its worth |
| LendingTheorems.BurnBound | crates/parity/src/model.rs:105-113 | an accepted withdrawal never exceeds the deposits, burns at least its worth and keeps shares below deposits |
| LendingTheorems.HealthIsKept | crates/parity/src/model.rs:98-146 | in the reference, total shares never exceed total deposits |
| LendingTheorems.StepKeepsPriceIff | crates/parity/src/model.rs:98-146 | under every rounding, a step keeps the price of a share exactly when it does not round a fractional share count in the user's favour |
| LendingTheorems.PriceNeverFallsIff | crates/parity/src/model.rs:98-173 | under every rounding, over a run with shares outstanding throughout: no step lowers the price iff no operation rounds in the user's favour, and then the end price is at least the start price |
| LendingTheorems.SharePriceNeverFalls | crates/parity/src/model.rs:98-173 | in the reference, over any run segment with shares outstanding throughout, deposits per share never falls, interest included |
| LendingTheorems.NoFreeMoneyInTheReference | crates/parity/src/model.rs:121-146 | a deposit/withdraw segment that ends with at least its starting shares has taken out no more than it put in |
| LendingTheorems.SurplusIsOverdraft | crates/parity/src/model.rs:135-173 | vault plus borrows minus deposits is exactly the sum of what accepted withdrawals overdrew |
| LendingTheorems.SolventIffOverdraftCovered | crates/parity/src/invariants.rs:10-42 | a run from the start is solvent iff the vault covers everything overdrawn, for the state and for what the check observes; vault backing always holds |
| LendingTheorems.OverdraftCanMakeInsolvent | crates/parity/src/model.rs:135-146 | in a run from the start one accepted withdrawal turns a solvent pool insolvent, because liquidity is not checked |
| LendingTheorems.ProductsNeverWrap | crates/parity/src/model.rs:98-142 | accrual included, with amounts up to m: if (starting shares plus m per deposit) times m stays below 2^128, nothing wraps iff no addition of the run does, however many other operations there are, and then shares grow by at most m per deposit |
| LendingTheorems.ShortRunsFit | crates/parity/src/model.rs:98-170 | without accrual the additions fit as well: from the start of a scenario nothing wraps when the number of deposits times m\*m and the starting balance plus m per operation stay below 2^128 |
| RoundingTheorems.FirstDivergenceIsFirstBite | crates/parity/src/model.rs:98-146 | for any two roundings: the first divergence is the first accepted deposit or payable withdrawal whose share count is fractional and rounded differently; both states coincide until then, and forever if there is none |
| RoundingTheorems.NoDivergenceIffPriceNeverFalls | crates/parity/src/model.rs:98-173 | for a candidate with any rounding: over a run with shares outstanding throughout, the comparison with the reference reports no divergence iff no step of the candidate lowers the price of a share |
| RoundingTheorems.ABiteShows | crates/parity/src/model.rs:181-192 | a bite is visible although observables are truncated to 64 bits |
| RoundingTheorems.LendingRejectionsChangeNothing | crates/parity/src/model.rs:121-157 | lending models satisfy the assumption of the trace comparison, for any pair of policies |
| RoundingTheorems.ShareConservationIsNeverReported | crates/parity/src/invariants.rs:22-31 | no comparison of two lending models ever reports share_conservation |
| Layout.ExpandFieldsLoop | crates/sat/src/fuzzer_layout.rs:351-357 | the field loop of resolve_defined computes the specification expansion |
| Layout.BuildDefs | crates/sat/src/fuzzer_layout.rs:94-100 | the definition map after both insertion loops; first declaration wins |
| Layout.InsertDef | crates/sat/src/fuzzer_layout.rs:156-169 | one insertion extends the map of any declarations before it |
| Layout.RenderModuleBody | crates/sat/src/fuzzer_layout.rs:93-154 | the two emission loops with their emitted-name guard produce the items of the module |
| LayoutTheorems.ChainWeakening | crates/sat/src/fuzzer_layout.rs:284-361 | a supported, untruncated resolution is the same under any shorter chain over a subset of the names |
| LayoutTheorems.UnsupportedDominates | crates/sat/src/fuzzer_layout.rs:195-210 | a struct is blocked, and not emitted, iff some field is unsupported, whatever else is truncated |
| LayoutTheorems.SurvivingName | crates/sat/src/fuzzer_layout.rs:338-361 | a name in a resolved type is defined, off the chain, expands cleanly one level down, and is what the filler calls |
| LayoutTheorems.NoPathOfLengthThree | crates/sat/src/fuzzer_layout.rs:338-361 | no three consecutive references survive in the definitions |
| LayoutTheorems.ItemsAreExact | crates/sat/src/fuzzer_layout.rs:107-151 | for every IDL the emitted items are those of the declarations that are the first with their Rust name |
| LayoutTheorems.DefsAreDeclared | crates/sat/src/fuzzer_layout.rs:94-100 | every definition comes from a struct or enum declaration, and each of those has a definition |
| LayoutTheorems.FirstDefining | crates/sat/src/fuzzer_layout.rs:156-169 | the first struct or enum declaration of a name is its definition, whatever else the name is declared as |
| LayoutTheorems.TypesReadBack | crates/sat/src/fuzzer_layout.rs:284-335 | every supported type reads back from the Rust type: the declared containers and array lengths around the declared leaf, except u64, with a comment, for f64 and truncated references; the filler has the shape of the type |
| LayoutTheorems.SupportedIff | crates/sat/src/fuzzer_layout.rs:284-335 | supported are exactly the fourteen primitives and the references that resolve, in any nesting of vec, option and array |
| LayoutTheorems.ReferenceResolvesTo | crates/sat/src/fuzzer_layout.rs:338-361 | a reference is truncated on the chain or below three names, unsupported iff undefined or some field is, and named iff every field resolves cleanly |
| LayoutTheorems.OffendingIs | crates/sat/src/fuzzer_layout.rs:347-357 | what is reported as unsupported is the leaf of the type or, below a reference, what its first unsupported field reports |
| LayoutTheorems.DeclarationBecomes | crates/sat/src/fuzzer_layout.rs:107-151 | what each declaration is emitted as: struct with its fields read back in order, enum with its variants, placeholder, comment, or nothing |
| LayoutTheorems.MentionsIff | crates/sat/src/fuzzer_layout.rs:186-214 | for every IDL the emitted struct a mentions b iff a reference to b survives in a field of the declaration that becomes a |
| LayoutTheorems.MentionsAreReferences | crates/sat/src/fuzzer_layout.rs:186-214 | for every IDL a mention is a surviving reference between definitions, from the raw name of the declaration; the raw name is the item name unless the item is captured |
| LayoutTheorems.LongPathsAreCaptured | crates/sat/src/fuzzer_layout.rs:107-151 | for every IDL a path of the emitted reference graph that has three edges or returns passes through a captured name, the Rust name of a struct declared under another name |
| LayoutTheorems.GraphReturnsIff | crates/sat/src/fuzzer_layout.rs:275-283 | for every IDL the emitted reference graph has a cycle iff a chain of captured names returns, each linked to the next by a surviving reference, directly or through one uncaptured name |
| LayoutTheorems.EmittedGraphIsAcyclic | crates/sat/src/fuzzer_layout.rs:275-283 | where the sanitiser changes no name, repeated or not, paths have at most two edges and never return: types are finite and fillers terminate |
| LayoutTheorems.MentionsItselfIff | crates/sat/src/fuzzer_layout.rs:432-446 | an item mentions itself iff its declaration refers to the Rust name that the sanitiser gives it |
| LayoutTheorems.CapturedNamesLoop | crates/sat/src/fuzzer_layout.rs:432-446 | types `b { f: B }` and `B {}` give the infinite `struct B { f: B }` |
| LayoutTheorems.DefinesIff | crates/sat/src/fuzzer_layout.rs:107-151 | for every IDL the module defines exactly the Rust names of the declarations that render: first takers that are structs with supported fields, or enums among the types |
| LayoutTheorems.ModuleIsClosedIff | crates/sat/src/fuzzer_layout.rs:275-283 | for every IDL the module is closed iff each reference that survives in a rendered declaration is the Rust name of a rendered declaration |
| LayoutTheorems.ModuleIsClosed | crates/sat/src/fuzzer_layout.rs:275-283 | where names are distinct and left alone by the sanitiser, the module is closed iff nothing emitted mentions an enum account, so always when accounts are structs |
| LayoutTheorems.FillersCallWhatTypesMention | crates/sat/src/fuzzer_layout.rs:363-381 | for every IDL, each field's filler calls the fillers of exactly the items its type mentions |
| LayoutTheorems.FillersDifferIff | crates/sat/src/fuzzer_layout.rs:186-214 | for every IDL no two `make_` functions share a name iff the Rust names of the rendered declarations stay apart in snake case |
| LayoutTheorems.BuildersDifferIff | crates/sat/src/fuzzer_layout.rs:107-132 | for every IDL no two `build_` functions share a name iff the Rust names of the accounts that take theirs first, placeholders included, stay apart in snake case |
| LayoutTheorems.FieldsDifferIff | crates/sat/src/fuzzer_layout.rs:193-207 | the fields of a rendered struct have distinct names iff the declared names stay apart when sanitised |
| LayoutTheorems.RawNamesDangle | crates/sat/src/fuzzer_layout.rs:345-358 | a name the sanitiser changes is referenced raw and left undefined |
| LayoutTheorems.ShadowedNamesDangle | crates/sat/src/fuzzer_layout.rs:134-149 | a name declared first with an unknown kind is resolved but never emitted |
| LayoutNames.SanitizedTypeNames | crates/sat/src/fuzzer_layout.rs:432-446 | a type name becomes a capitalised identifier that is no keyword, and stays as it is iff it is alphanumeric, capitalised and no keyword, or `Self_` |
| LayoutNames.CapitalisedSamples | crates/sat/src/fuzzer_layout.rs:432-442 | other characters are dropped, a leading digit gets a T, and a name without letters or digits becomes Type |
| LayoutNames.SnakeCaseKeepsTheLetters | crates/sat/src/fuzzer_layout.rs:411-429 | snake case keeps exactly the letters and digits, in order and in lower case, with underscores only between them; without any it is "field" |
| LayoutNames.SnakeCaseWords | crates/sat/src/fuzzer_layout.rs:411-429 | words start at a capital behind a small letter or digit and at other characters |
| LayoutNames.SanitizedFieldNames | crates/sat/src/fuzzer_layout.rs:450-459 | a field name is its snake case iff that is no keyword and starts with no digit, else that name marked |
| Cei.WriteCollector.InExpr | crates/sat/src/analyzer.rs:1332-1405 | the collector lists the texts of exactly the write sites in sight, in order, each text once |
| Cei.ListedOnce | crates/sat/src/analyzer.rs:1415-1420 | collecting keeps what is listed, adds every new text exactly once and nothing else |
| Cei.Walker.VisitBlock | crates/sat/src/analyzer.rs:1124-1162 | the statement loop with its flag returns the walk's pair and pushes the walk's findings |
| Cei.Walker.VisitExpr | crates/sat/src/analyzer.rs:1172-1266 | the same for every expression form |
| CeiSyntax.FoundIffOffends | crates/sat/src/analyzer.rs:1111-1198 | read off the syntax, without walking: a body is reported iff somewhere, in it or in a block, branch, arm or loop body inside, a statement with a write in sight follows one with an interaction in plain view (a method receiver, `?`, a call argument, a bare block); and its interaction escapes iff some statement has one in plain view |
| CeiSyntax.FindingIsTheFirstWriting | crates/sat/src/analyzer.rs:1124-1162 | the finding lists the writes of the first writing statement behind the first interaction |
| CeiSyntax.CollectedInSourceOrder | crates/sat/src/analyzer.rs:1332-1405 | writes are collected in source order, the expression's own before those of its parts |
| CeiOutcomes.OutcomesAreExact | crates/sat/src/analyzer.rs:1164-1171 | an outcome (completing, leaving by a certain exit, writing at a site; before or after an interaction) is computed for code iff some execution of it shows it |
| CeiTheorems.EffectsAreSites | crates/sat/src/analyzer.rs:1332-1405 | executions only write at write sites, and code without interactions never interacts |
| CeiTheorems.WalkIsConsistent | crates/sat/src/analyzer.rs:1164-1171 | found holds iff a finding was pushed, every finding lists a write, and only writes of the code |
| CeiTheorems.EscapeMeansInteraction | crates/sat/src/analyzer.rs:1170-1171 | when nothing was found, escapes implies that completing without an interaction is not an outcome |
| CeiTheorems.SafeInBlock | crates/sat/src/analyzer.rs:1124-1162 | writing at a reported site before an interaction is not an outcome of a block |
| CeiReach.ExecutionsAreDecided | crates/sat/src/analyzer.rs:1111-1113 | for every body and site: whether some execution reaches the write, and whether every execution interacts before it, is decided on the tree |
| CeiReach.FindingsAreViolations | crates/sat/src/analyzer.rs:1111-1162 | for every reported write: every execution reaching it has already interacted, and some execution reaches it iff control may get there |
| CeiReach.CpiOutMeansInteraction | crates/sat/src/analyzer.rs:1118-1123 | cpi_out of a block without findings means every completed execution of it interacts |
| CeiReach.FaithfulIff | crates/sat/src/analyzer.rs:1124-1171 | a statement is faithful (the walk tells the truth about its writes after an interaction, its completing after one, its writes) iff the walker misses nothing in the statement alone, in front of a write, and behind an interaction |
| CeiReach.NothingIsMissed | crates/sat/src/analyzer.rs:1124-1162 | in a body of faithful statements: if some execution writes after an interaction, something is found |
| CeiReach.FoundIffSomeExecutionWritesAfterInteraction | crates/sat/src/analyzer.rs:1124-1198 | on faithful statements, such as those whose interactions are statements of the body or of bare blocks, early exits and loops included: what violates is found, what is found violates if control may get to a reported write, and it is a false alarm iff every write after an interaction is dead |
| CeiReach.MissedBeforeAWriteIff | crates/sat/src/analyzer.rs:1124-1162 | `s; write` with nothing to find in s: found iff an interaction escapes from s, and some execution writes after an interaction iff s may complete after one |
| CeiReach.InteractionsInConditionsAreMissed | crates/sat/src/analyzer.rs:1199-1218 | `if invoke() {} write` is missed |
| CeiReach.LoopIsMissedIff | crates/sat/src/analyzer.rs:1238-1259 | a loop in which nothing is found is missed iff it can be entered and a write follows an interaction within an iteration, or some iteration interacts and goes on and some iteration writes |
| CeiReach.BackEdgesAreMissed | crates/sat/src/analyzer.rs:1256-1259 | `loop { write; invoke(); }` is missed |
| CeiReach.AtMostOneFindingIff | crates/sat/src/analyzer.rs:1111-1113 | at most one finding is pushed iff the walk never comes to a call with two offending arguments |
| CeiReach.ReportedIsReachedIff | crates/sat/src/analyzer.rs:1127-1136 | in `invoke(); s; write` the write is reported for every s, and reached by some execution iff s may complete |
| CeiReach.LabelledBlockIsJudgedRightIff | crates/sat/src/analyzer.rs:1196-1198 | a write after a labelled block that the walk takes to interact is reported, and every execution interacts before it iff the label cannot be broken to before an interaction |
| CpiDepth.Search.ComputeMaxDepth | crates/sat/src/cpi.rs:278-308 | the search with its shared visiting set computes the specification depth, terminates on cyclic graphs and leaves the set as it found it |
| CpiDepth.DepthIsLongestWalk | crates/sat/src/cpi.rs:278-308 | the result is the depth plus the longest walk of resolved internal calls with distinct callers off the visiting set, up to the cap of 11 |
| CpiDepth.OverflowIffWalkOfFive | crates/sat/src/cpi.rs:85-86 | depth exceeds 4 iff a walk of five calls with distinct callers starts at the instruction |
| CpiDepth.AnalyzeCpiDepth | crates/sat/src/cpi.rs:62-106 | exactly the instructions with such a walk are flagged |
| Taint.TaintState.BindIdent | crates/sat/src/taint.rs:122-127 | every binding grows or stays, only the given local gains accounts, and an empty set binds nothing |
| Taint.BoundIsTheUnion | crates/sat/src/taint.rs:276-296 | after any line of lets a local is bound to an account iff the initialiser of some let of its name referenced it |
| Taint.TaintState.ScanLets | crates/sat/src/taint.rs:276-299 | the let loop binds each local to the accounts its initialiser references |
| Taint.TaintState.SourcesIn | crates/sat/src/taint.rs:130-136 | the collected set is the specification's, whichever element a hash set yields |
| Taint.Collector.CollectSources | crates/sat/src/taint.rs:153-230 | the accumulating traversal adds exactly the specified sources |
| Taint.Collector.ReferencedAccounts | crates/sat/src/taint.rs:616-688 | the accumulating traversal adds exactly the specified accounts |
| Taint.CollectedIsRead | crates/sat/src/taint.rs:153-230 | where no account or local is called ctx, only sources are collected, and only those that e reads, whatever its forms |
| Taint.ReferencedIsRead | crates/sat/src/taint.rs:616-688 | where no local is called ctx, an expression without awaited or unwalked parts references exactly the accounts that it reads |
| Taint.LetsAreTracked | crates/sat/src/taint.rs:276-299 | after any let-chain without awaited or unwalked initialisers, shadowing included, every local is bound to all accounts it is made from |
| Taint.Noninterference | crates/sat/src/taint.rs:153-299 | where every source that e reads is collected, two runs that agree on non-sources and on the collected sources give e the same value, for arbitrary operations |
| Taint.NoninterferenceIff | crates/sat/src/taint.rs:153-299 | that condition is exact: the value is independent of all other sources under all operations and runs iff every source that is read is collected |
| Taint.SoundIffMissedIsCollected | crates/sat/src/taint.rs:177-186 | tracking is sound iff what is read through ctx.accounts paths, unwalked forms and unbound locals is collected elsewhere in the expression |
| Taint.CoveredCodeIsSound | crates/sat/src/taint.rs:153-299 | without such parts every source that is read is collected |
| Taint.CollectedIsReferencedSources | crates/sat/src/taint.rs:153-230 | without ctx.accounts paths and await, unwalked forms included, collected is referenced restricted to sources |
| Taint.CtxPathsEscape | crates/sat/src/taint.rs:177-186 | a direct ctx.accounts read of any source is not collected |
| Taint.AwaitedLetsEscape | crates/sat/src/taint.rs:616-688 | a local initialised by awaiting any source is not bound to it |
| Sarif.EncodeUri | crates/sat/src/sarif.rs:232-262 | the encoding loop computes the specification encoding |
| Sarif.EncodeRoundTrips | crates/sat/src/sarif.rs:232-262 | percent-decoding by section 2.1 of RFC 3986 inverts the encoding of every byte string |
| Sarif.EncodeIsInjective | crates/sat/src/sarif.rs:232-262 | different paths get different URIs |
| Sarif.EncodedIsSafe | crates/sat/src/sarif.rs:228-231 | the output has only safe characters and percent signs, in particular no raw colon |
| Sarif.EncodedByte | crates/sat/src/sarif.rs:232-262 | a byte stands for itself iff it is unreserved, a sub-delimiter, `@` or `/` in RFC 3986; else it becomes `%` and two upper-case hexadecimal digits |
| Sarif.LocationToUriAndLine | crates/sat/src/sarif.rs:205-226 | the backward scan finds the last line marker, or encodes the whole string |
| Sarif.PrintedLineRoundTrips | crates/sat/src/sarif.rs:198-226 | for every file, line and tail (nothing, or anything behind a blank or `(`): `file:line` and the tail parse to the encoded file and the line iff the tail has no marker |
| Sarif.BareLocationRoundTrips | crates/sat/src/sarif.rs:213-224 | `file:line` alone always does, whatever the file |
| Sarif.AttachedContextRoundTrips | crates/sat/src/sarif.rs:213-224 | `file:line(context)` does iff the context has no marker |
| Sarif.EncodedWholeIff | crates/sat/src/sarif.rs:205-226 | a location is encoded whole, without a line, iff it cannot be read as a file, a colon, digits and a tail |
| Sarif.LocationsWithoutALine | crates/sat/src/sarif.rs:205-226 | in particular when no colon is directly followed by a digit |
| Sarif.ColumnsAreTakenForLines | crates/sat/src/sarif.rs:205-226 | of `file:line:column` the column becomes the line |
| Sarif.LocationRoundTrips | crates/sat/src/sarif.rs:198-226 | for every path, line and context, parsing `file:line (context)` gives the encoded file and the line (when below 2^32) iff the context carries no line marker |
| Sarif.PlainContextsHaveNoMarker | crates/sat/src/sarif.rs:213-220 | a context with no colon directly followed by a digit carries none |
| Watch.StripTrailingLine | crates/sat/src/watch.rs:135-152 | the loop removes up to two trailing `:digits` |
| Watch.PeelDigits | crates/sat/src/watch.rs:135-152 | a trailing colon and digits is removed |
| Watch.PeelsOnlyDigits | crates/sat/src/watch.rs:135-152 | and nothing else ever is |
| Watch.NormalizedLocation | crates/sat/src/watch.rs:110-133 | the normalised location is the relative path and the context, with the exact effect on paths that end in digits |
| Watch.LineIsForgottenIff | crates/sat/src/watch.rs:110-133 | two lines give the same normalised location iff the context has no ` (` of its own |
| Watch.NormalizedBareLocation | crates/sat/src/watch.rs:114-133 | a location without a context loses its position, when its path has no ` (` |
| Watch.BareLineIsForgottenIff | crates/sat/src/watch.rs:114-133 | two lines without a context normalise alike iff the relative path has no ` (` |
| Watch.BelowTheSource | crates/sat/src/watch.rs:114-123 | a finding below the source directory is located by its path from there, with either separator |
| Watch.SourcePrefixIgnoresTrailingSeparators | crates/sat/src/watch.rs:114-123 | separators behind the source path do not matter |
| Watch.PathAndContextAreKept | crates/sat/src/watch.rs:124-133 | equal normalised locations have equal paths and contexts |
| Watch.SameSignatureIffSameUpToDrift | crates/sat/src/watch.rs:100-108 | two findings have one identity iff rule, title, severity, relative path and context agree, wherever they are |
| Watch.FindingList.RetainNew | crates/sat/src/baseline.rs:66-71 | the list becomes the unknown findings in order, and removed plus kept is the old count |
| Watch.BaselineKeepsTheNewOnes | crates/sat/src/baseline.rs:36-71 | against a baseline of F a finding keeps its multiplicity unless it equals one of F up to its signature, and then vanishes |
| Watch.KeptInOrder | crates/sat/src/baseline.rs:69 | the kept findings are, one by one, those at the positions of the unknown findings |
| Watch.UnknownExactly | crates/sat/src/baseline.rs:67-69 | a position is listed as unknown iff the signature of its finding is not in the baseline |
| Watch.UnknownAscend | crates/sat/src/baseline.rs:69 | these positions ascend: the order of the list is kept |
| FreshNames.NameTable.UniqueIdent | crates/sat/src/fuzzer_seeds.rs:285-300 | terminates for every finite table and hands out the base or the least free numbered variant, which is then used |
| FreshNames.RenderSeedsNames | crates/sat/src/fuzzer_seeds.rs:129-166 | over any IDL, all seeds_ and pda_ identifiers are pairwise distinct, one pair per account with seeds, each extending its base |
| FreshNames.BasesAreExact | crates/sat/src/fuzzer_seeds.rs:129-150 | names are wanted for exactly the accounts with seeds of all instructions: `seeds_`, the instruction, `_`, the account |
| FreshNames.BasesOfAreCounted | crates/sat/src/fuzzer_seeds.rs:129-150 | one per such account |
| FreshNames.SanitizedIdents | crates/sat/src/fuzzer_seeds.rs:270-283 | a name becomes an identifier that is no keyword, and stays as it is iff it is one |
| FreshNames.SanitizedInPlace | crates/sat/src/fuzzer_seeds.rs:270-283 | each other character becomes an underscore in its place, behind one more for a leading digit |
| FreshNames.CandidatesDiffer | crates/sat/src/fuzzer_seeds.rs:291 | different counters give different candidates |

## Left out

- Unchecked u128 arithmetic is modelled as a release build runs it; the panic of a build with overflow checks is the negation of `Fits`, not a separate outcome.
- CeiReach.FindingsAreViolations: assumes that write sites are told apart, and that a labelled block the walk takes to interact keeps its label; without the latter `LabelledBlockIsJudgedRightIff` and `ExecutionsAreDecided` say what holds.
- Cei: calls are recognised as interactions and writes by node kind, not by matching text; line numbers and the wording of findings are not modelled. Conditions are free choices, calls return, and a closure, macro or `let ... else` branch is an unexamined form or nothing.
- LayoutTheorems.EmittedGraphIsAcyclic: for names the sanitiser leaves alone; for all others `GraphReturnsIff` says when there is a cycle.
- LayoutTheorems.ModuleIsClosed: for distinct names the sanitiser leaves alone; `ModuleIsClosedIff` covers every IDL.
- Layout: the rendered text, enum variants' sanitised names and discriminators; names are ASCII. That generated code compiles is stated for item names, references, infinite types, function names and field names, not as a whole.
- Taint: sinks, bounded sources, comparisons and findings; assignments to locals; the sorted order of sources_in. Account kinds and the canonical set are inputs.
- CpiDepth: extraction of call targets from source, the finding about unresolved calls, and the text of findings. Hash map order is a free choice.
- Watch: rule classification is a parameter; repository cloning, saved state and diff_signatures (set difference) are not modelled.
- Sarif: rule tables, severities and the SARIF document around the location.
- FreshNames: the text of the generated functions, the address book and signer ordinals.
- Parsing of Rust, JSON, TOML and the command line, and all reports: plumbing.
