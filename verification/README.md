# Verified model of the security kit

A Dafny 4.11 model of the three crates of the kit, with proofs of what they promise:

- **the shrinker** (`invariant-fuzzer`): greedy deletion, bisection of 256-bit values, their
  composition on transaction sequences, and the diff it reports;
- **the simulator and the audit** (`revm-sim`): execution on a forked database, snapshots, the
  inspected and the invariant-checking replays;
- **the rules** (`invariant-rules`): reading storage into a context, price scaling, bitfields, and
  the verdicts of the rules in fixed-width arithmetic.

`dafny verify dfyconfig.toml` checks everything.

## How it is modelled

Code that works step by step is a method or a class (`ShrinkSequence`, `ShrinkU256Bisect`,
`ShrinkSimTxSequence`, `InvariantContext`, `InvariantInspector`, `CompositeInvariant`, `Simulator`,
the audit loops). Each is proved equal to a function of its inputs or of its old state, and the
results below are lemmas about those functions, or the contract itself where that says more. What
such a function computes is in turn stated without it: by the questions a pass asks (`KeptIff`,
`ValueSettled`), the steps of the machine (`RunSteps`, `ExecuteSteps`), the database that is judged
(`AuditMeans`, `PerTxMeans`), the reads of the bindings (the modules `FieldReads` and
`ExtractedVerdicts`), and the values read back after a write (`SlotsReadBack`, `AccountsReadBack`,
`DirectWrites`).

- A violation predicate is a deterministic total function on sequences; the program accepts
  closures with state. Predicate calls are counted in ghost results.
- `Below` is the order along which shrinking moves: fewer transactions, smaller values, every other
  field equal. `JointlyMonotone` predicates never lose a violation when moving up in it.
- A 256-bit word is an integer with an explicit range; `saturating_*` is `SatAdd`, `SatSub`,
  `SatMul`, and plain `*` is `WrapMul`.
- The virtual machine is a deterministic function from database, block environment, chain and
  transaction to a committed database and result, or to a rejection that leaves the database alone.
  Attaching the inspector does not change it. `getReserves` reads and the hashed slots of mappings
  are functions supplied from outside.
- The iteration order of hash maps is left open: the loops over loan positions pick any remaining
  entry, and the ordered set of visited counters is an ascending list.

## Where the code and its documentation differ

The model follows the code.

- `shrink_u256_bisect` is documented for monotone conditions. From satisfying starts it finds the
  smallest satisfying value of every range exactly when the satisfying values have no gap
  (`BisectLeastIff`). `BisectCorrect` says what holds for all conditions; `BisectNotLeast` is an
  example of a gap.
- The search does not always end: with `start` at the last value of the word and every probe
  failing, `lo` saturates and the loop repeats. `BisectTerminatesIff` gives the exact condition, and
  it is the precondition of the method; `SafeStartIff` is the guard of a caller who does not look at
  the floor. `ViolatingShrinkEnds` discharges it for a violating sequence.
- One deletion pass is not 1-minimal for every predicate (`OnePassNotMinimal`). A condition on single
  drops is enough (`OneMinimalWithoutRevival`), and deletion-monotone predicates meet it; it is not
  necessary (`RevivalNeedNotHarm`).
- Shrinking again is not always a no-op when indices are restricted, because the restriction then
  names positions of the shorter sequence (`RestrictedRunIsNoFixpoint`). `FixpointIff` says, from the
  original and the options alone, for which restrictions it always is.
- The ratio rules wrap their products: an overflow can hide or condemn a position (`RatioCanHide`,
  `RatioCanCondemn`). Within given bounds, whatever they are, the rules are right about everything
  exactly when no number of wraps does harm, a finite test on the bounds (`RatioExactIff`,
  `CdpExactIff`, `LiquidationExactIff`, and with prices `PricedExactIff`). For bounds that leave room
  for a ratio the test is that they cannot overflow (`HarmlessIffFits`, `HarmlessUpToIffFits`); for a
  ratio of zero it is that the debt stays below 2^252 or there is no collateral (`HarmlessAtZeroIff`).
- The fee rule wraps its tolerance and can only raise false alarms (`FeeSound`, `FeeCanCondemn`). It
  is right about every collected amount exactly when the tolerance fits the word (`FeeExactIff`).
- At a total of 2^256 - 1 the sum rules decide "at least".
- `execute_tx` overrides the nonce of the caller, also when the transaction is then rejected; the
  simulations do not. `AgreementIff` and `PreviewTellsIff` say when that makes no difference.
- The inspector is described as tracing calls and creates; the code records steps only.
- The fee rule is described as monotonicity of fees; the code compares collected with expected fees.

## Model

| member | source | states |
|---|---|---|
| DeletionPass.ShrinkSequence | crates/invariant-fuzzer/src/shrink.rs:10-30 | the loop returns what the recursive greedy specification selects, for any deterministic predicate, in exactly as many predicate calls as there are items |
| DeletionPass.KeptIff | crates/invariant-fuzzer/src/shrink.rs:15-29 | for any predicate, an item is kept if and only if what was kept before it, followed by all items after it, does not violate |
| DeletionPass.GreedyOutcome | crates/invariant-fuzzer/src/shrink.rs:15-29 | the result is an order-preserving subsequence which is the input or violates, for any predicate |
| DeletionPass.DeletionLexLeast | crates/invariant-fuzzer/src/shrink.rs:15-29 | for a deletion-monotone predicate the kept set is the lexicographically least keep-vector among all violating index subsets |
| DeletionPass.OneMinimalWithoutRevival | crates/invariant-fuzzer/src/shrink.rs:9-30 | when dropping an item, none before it being removable, never makes one of those removable, deleting any one surviving item cures the violation |
| DeletionPass.DeletionOneMinimal | crates/invariant-fuzzer/src/shrink.rs:9-30 | in particular for a deletion-monotone predicate |
| DeletionPass.DeletionNoopIff | crates/invariant-fuzzer/src/shrink.rs:9-30 | for any predicate, the pass keeps everything if and only if no single deletion violates |
| DeletionPass.OnePassNotMinimal | crates/invariant-fuzzer/src/shrink.rs:9-30 | a concrete predicate and input for which one pass leaves a removable item |
| DeletionPass.RevivalNeedNotHarm | crates/invariant-fuzzer/src/shrink.rs:9-30 | a concrete predicate that fails that condition and whose every pass, on every input, still ends with no removable item |
| Bisection.ShrinkU256Bisect | crates/invariant-fuzzer/src/shrink.rs:277-299 | on every input on which it ends, the loop returns the specified value in at most bit-length-of-the-interval, and so 257, predicate calls |
| Bisection.BisectCorrect | crates/invariant-fuzzer/src/shrink.rs:272-299 | with no monotonicity: in range, satisfying, and at the floor or with a failing predecessor |
| Bisection.BisectLeast | crates/invariant-fuzzer/src/shrink.rs:272-276 | for a predicate satisfied at the start, the smallest satisfying value of the range, if the predicate is monotone there or its satisfying values have no gap |
| Bisection.BisectLeastIff | crates/invariant-fuzzer/src/shrink.rs:272-299 | in any interval, all searches from satisfying starts find the smallest satisfying value of their range if and only if the satisfying values have no gap |
| Bisection.BisectNotLeast | crates/invariant-fuzzer/src/shrink.rs:272-276 | a concrete predicate for which the result is not the smallest satisfying value |
| Bisection.BisectInRange | crates/invariant-fuzzer/src/shrink.rs:281-298 | for any start, the result is the start or a satisfying value of the range |
| Bisection.BisectAnyStart | crates/invariant-fuzzer/src/shrink.rs:277-299 | what the start itself says does not matter: the search answers as if it satisfied the predicate, so from any start the result is at the floor or has a failing predecessor |
| Bisection.BisectTerminatesIff | crates/invariant-fuzzer/src/shrink.rs:285-296 | the loop, with its saturating steps, ends if and only if it does not start at the last value of the word with all probes failing |
| Bisection.SafeStart | crates/invariant-fuzzer/src/shrink.rs:285-296 | starting below the last value, or from a satisfying value, is enough to end |
| Bisection.SafeStartIff | crates/invariant-fuzzer/src/shrink.rs:285-296 | for every predicate, that is exact when the search must end whatever its floor |
| Bisection.SafeStartIffMonotone | crates/invariant-fuzzer/src/shrink.rs:285-296 | for a predicate monotone on the range it is exact at every floor |
| ShrinkTx.RemovedIndices | crates/invariant-fuzzer/src/shrink.rs:167-179 | the loop lists, ascending, exactly the indices that are not kept |
| Transactions.RewriteAmountOfCopy | crates/invariant-fuzzer/src/shrink.rs:340-346 | only the value at the index changes, and nothing when it is out of range |
| ShrinkTx.ShrinkSimTxSequence | crates/invariant-fuzzer/src/shrink.rs:187-253 | both passes and the diff equal their specification, in at most n + 257 (kept count) predicate calls, n when bisection is off |
| ShrinkTx.IndexedGreedy | crates/invariant-fuzzer/src/shrink.rs:154-165 | the deletion pass over indexed transactions is the one over bare transactions with the kept indices attached |
| ShrinkTx.ViolatingShrinkEnds | crates/invariant-fuzzer/src/shrink.rs:181-236 | on a violating sequence every bisection of the second pass ends, because the sequence at hand violates throughout |
| ShrinkFixpoint.ShrinkEndsIff | crates/invariant-fuzzer/src/shrink.rs:207-236 | for a jointly monotone predicate the shrink ends if and only if the original violates or no value to be bisected is the last of the word |
| ShrinkOptimality.ShrunkStillViolates | crates/invariant-fuzzer/src/shrink.rs:181-253 | for any predicate the result is below the original, and is the original or violates |
| ShrinkOptimality.ValueSettled | crates/invariant-fuzzer/src/shrink.rs:207-238 | for any predicate and a violating original, each value that the options let the pass bisect ends in range, with the sequence at that moment violating and one step lower not, and every other transaction stays as it was |
| ShrinkOptimality.ValuesLexLeast | crates/invariant-fuzzer/src/shrink.rs:207-238 | the final values are lexicographically least among all violating value vectors between the floors and the kept originals |
| ShrinkOptimality.CombinedOptimum | crates/invariant-fuzzer/src/shrink.rs:198-238 | among all violating pairs of an index subset and values above the floors, the result has the least keep-vector, and with it the least values |
| ShrinkOptimality.ValuesPareto | crates/invariant-fuzzer/src/shrink.rs:207-238 | no other violating vector above the floors lies pointwise below the final one |
| ShrinkOptimality.DeletionsCure | crates/invariant-fuzzer/src/shrink.rs:198-238 | nothing below the result that lost a transaction violates, whatever its values |
| ShrinkOptimality.TwoPassMinimality | crates/invariant-fuzzer/src/shrink.rs:198-238 | the result violates, deleting any one transaction cures it, and so does lowering any one allowed value to any smaller value not below the minimum |
| ShrinkFixpoint.UnchangedIff | crates/invariant-fuzzer/src/shrink.rs:187-253 | a shrink changes nothing if and only if no single deletion and no single step down of an eligible value violates |
| ShrinkFixpoint.SecondRunUnchangedIff | crates/invariant-fuzzer/src/shrink.rs:187-253 | with any options, a second run changes nothing if and only if no position the options then name has a violating lower neighbour |
| ShrinkFixpoint.FixpointIff | crates/invariant-fuzzer/src/shrink.rs:207-214 | for every jointly monotone predicate the original violates, a second run changes nothing, if and only if whenever the options would bisect an original transaction at a lower position they also name its own |
| ShrinkFixpoint.Fixpoint | crates/invariant-fuzzer/src/shrink.rs:187-253 | without an index restriction the output is a fixpoint and its diff a no-op |
| ShrinkFixpoint.RestrictedRunIsNoFixpoint | crates/invariant-fuzzer/src/shrink.rs:210-214 | a concrete restricted shrink whose output a second run changes |
| ShrinkDiff.IndexPartition | crates/invariant-fuzzer/src/shrink.rs:154-179 | removed and kept indices are strictly increasing and partition the original indices |
| ShrinkDiff.MetricsAgree | crates/invariant-fuzzer/src/shrink.rs:124-131 | the metrics of the result equal those of the report, which subtracts lengths (lines 327-335), in every field |
| ShrinkDiff.DiffRoundTrip | crates/invariant-fuzzer/src/shrink.rs:204-245 | replaying the diff on the original reproduces the minimized sequence in every field |
| ShrinkDiff.ChangesAreLowerings | crates/invariant-fuzzer/src/shrink.rs:207-236 | each change names a kept, allowed index with its original value and a smaller one not below the minimum, in strictly increasing order |
| ShrinkDiff.OnlyNamedChange | crates/invariant-fuzzer/src/shrink.rs:209-217 | for any predicate, transactions whose original index the restriction does not name keep their value, every change names one that it does, and with bisection off nothing changes |
| ShrinkDiff.NamedLoweringCures | crates/invariant-fuzzer/src/shrink.rs:209-236 | with bisection on, lowering any value at a named index, or at any index without a restriction, to a smaller one not below the minimum cures the violation |
| ShrinkDiff.ReportShape | crates/invariant-fuzzer/src/shrink.rs:240-252 | the report holds the original, the two lengths, which the removed indices account for, and no trace |
| ShrinkDiff.NoopMeansUnchanged | crates/invariant-fuzzer/src/shrink.rs:51-55 | is_noop holds if and only if the minimized sequence is the original |
| Inspector.InvariantInspector.Step | crates/invariant-fuzzer/src/lib.rs:78-86 | appends the numbered event, advances the index and adds the counter to the visited ones |
| Inspector.RecordFacts | crates/invariant-fuzzer/src/lib.rs:78-86 | an observation adds consecutively numbered events and exactly its counters, in ascending order without duplicates |
| Execution.RunShape | crates/revm-sim/src/audit.rs:26-79 | one result and one offset per transaction, non-decreasing offsets, every event numbered by its position, visited counters strictly ascending |
| Execution.RunSteps | crates/revm-sim/src/audit.rs:31-66 | at every position the run goes on from the database the earlier transactions left by what the machine does there with the spelled-out environment: every commit is kept, of a reverted or halted transaction too, a rejection changes nothing, and its result, offset and steps are recorded |
| Execution.RunStarts | crates/revm-sim/src/audit.rs:26-29 | a run starts on the given database with nothing recorded |
| Execution.RunIsChain | crates/revm-sim/src/simulator.rs:241-271 | any list of databases and results that follows the machine step by step is that of the run |
| Execution.VisitedAreRecorded | crates/revm-sim/src/audit.rs:68-78 | the visited counters are exactly those of the recorded events |
| Execution.RunSplit | crates/revm-sim/src/audit.rs:26-66 | running a then b is running b under a fresh inspector on the database that a left, up to the numbering of events and offsets |
| Execution.TraceSlice | crates/revm-sim/src/audit.rs:31-66 | slice i of the trace, and result i, are what a fresh inspector records for transaction i alone on the state left by the earlier ones, shifted by offset i |
| Audit.SimulateSequenceInspected | crates/revm-sim/src/audit.rs:22-80 | the loop reports the run of all transactions, rejected ones included, on a copy of the database |
| Audit.SimulateSequenceWithInvariants | crates/revm-sim/src/audit.rs:87-156 | the report is that run, and the context and verdict of the database it leaves, or the first error of the two |
| Audit.AuditMeans | crates/revm-sim/src/audit.rs:135-155 | a report shows the database that the transactions leave, the context extracted from it, no violation if and only if every rule holds there, and otherwise the first rule that does not; it errs if and only if that extraction or that first rule does |
| Audit.SimulateSequenceWithPerTxInvariants | crates/revm-sim/src/audit.rs:166-264 | one pass yields the contexts and verdicts of separate audits of all non-empty prefixes, the inspection of the whole, the first and the number of violations, or the error of the first prefix audit that errs |
| Audit.PerTxMeans | crates/revm-sim/src/audit.rs:209-263 | the same for the database after each transaction, with the first violation and the number of positions that have one, or the error of the first position that has one |
| Audit.PerTxErrsIff | crates/revm-sim/src/audit.rs:209-231 | it errs if and only if the audit of some non-empty prefix does |
| Audit.PerTxReportUnique | crates/revm-sim/src/audit.rs:245-263 | the prefix audits determine the whole report |
| Audit.AuditJudgesExecution | crates/revm-sim/src/audit.rs:135-155 | executing the sequence for real ends on the audited database with the reported results |
| ShrinkAudit.ShrunkAuditStillViolates | crates/invariant-fuzzer/src/shrink.rs:181-253 | with the audit as predicate, the shrink of a sequence reported as violating ends in a sequence below it that the audit still reports |
| ShrinkAudit.ShrunkBreaksRule | crates/invariant-fuzzer/src/shrink.rs:181-253 | on the database that the shrunk sequence leaves, some rule is false |
| Simulation.Simulator.SimulateSequence | crates/revm-sim/src/simulator.rs:241-271 | returns the results of the run and leaves the simulator alone |
| Simulation.Simulator.ExecuteTx | crates/revm-sim/src/simulator.rs:186-225 | overrides the nonce, then commits, or keeps the overridden database on a rejection; nothing else changes |
| Simulation.ExecuteSteps | crates/revm-sim/src/simulator.rs:186-225 | the nonce of the caller is set, an account that was not cached being created for it, and then a commit of whatever kind is kept, while a rejection leaves the database with the nonce set |
| Simulation.Simulator.SimulateTx | crates/revm-sim/src/simulator.rs:166-183 | the result on the current database, or an error on a rejection, without any change |
| Simulation.PreviewSteps | crates/revm-sim/src/simulator.rs:166-183 | the result is what the machine makes of the transaction on the database as it is, and a rejection, and only that, is an error |
| Simulation.PreviewTellsIff | crates/revm-sim/src/simulator.rs:166-225 | on every machine it foretells what executing the transaction returns, and that a rejected one changes nothing, if and only if the nonce is settled |
| Simulation.ExecuteAgrees | crates/revm-sim/src/simulator.rs:186-271 | executing a sequence gives the results and final database of simulating it when no nonce override changes anything |
| Simulation.ExecuteAgreesWithoutNonces | crates/revm-sim/src/simulator.rs:186-271 | in particular when no transaction carries a nonce, rejected transactions included |
| Simulation.AgreementIff | crates/revm-sim/src/simulator.rs:186-271 | a sequence is executed as it is simulated on every machine if and only if the first nonce is settled at the start and no later transaction carries one |
| Simulation.Simulator.Snapshot | crates/revm-sim/src/simulator.rs:143-148 | stores the current database under the returned identifier and advances the counter |
| Simulation.Simulator.Restore | crates/revm-sim/src/simulator.rs:151-156 | succeeds if and only if the identifier is stored, changes only the database, and nothing on failure |
| Simulation.Simulator.ReleaseSnapshot | crates/revm-sim/src/simulator.rs:159-161 | removes only that identifier |
| Simulation.Simulator.CloneOf | crates/revm-sim/src/simulator.rs:352-365 | a clone has no snapshots and counts from zero |
| Simulation.Simulator.ClearCache | crates/revm-sim/src/simulator.rs:65-68 | empties the database and the loaded addresses, and keeps the snapshots |
| Simulation.Simulator.SetStorage | crates/revm-sim/src/simulator.rs:99-106 | writes one slot of the database |
| Simulation.Simulator.Prefund | crates/revm-sim/src/simulator.rs:128-138 | sets the account's information, keeps its storage, and marks the address as loaded |
| Simulation.DirectWrites | crates/revm-sim/src/simulator.rs:65-134 | account by account, what prefunding, clearing the cache and the two setters of the block environment leave, and that they leave the rest alone |
| Simulation.Simulator.InsertAccounts | crates/revm-sim/src/state.rs:153-179 | the loop sets the information of all fetched accounts, keeps their storage, and marks them as loaded |
| Simulation.AccountsReadBack | crates/revm-sim/src/state.rs:153-181 | each address has the balance, nonce and code fetched last for it |
| Simulation.AccountsLeave | crates/revm-sim/src/state.rs:153-181 | all storage, and every address that was not fetched, stays as it was |
| Simulation.Simulator.LoadStorageSlots | crates/revm-sim/src/state.rs:288-317 | the loop writes the fetched slots of one account and nothing else |
| Simulation.SlotsReadBack | crates/revm-sim/src/state.rs:288-317 | each slot reads back the value fetched last for it |
| Simulation.SlotsLeave | crates/revm-sim/src/state.rs:288-317 | slots that were not fetched, other accounts and the information of the account stay as they were |
| Simulation.WriteThenRestore | crates/revm-sim/tests/simulator_tests.rs:15-30 | a written slot reads back, all others keep their values, and restoring a snapshot taken before undoes the write |
| Simulation.NextIdIsCount | crates/revm-sim/src/simulator.rs:143-148 | over every run, identifiers count the snapshots taken, modulo 2^64 |
| Simulation.IdsCollideIff | crates/revm-sim/src/simulator.rs:143-148 | two snapshots share an identifier if and only if their ordinals agree modulo 2^64 |
| Simulation.IdsAreUnique | crates/revm-sim/src/simulator.rs:143-148 | within the first 2^64 snapshots no identifier is used twice |
| Simulation.RestoreIsExact | crates/revm-sim/src/simulator.rs:143-161 | after any run, restore succeeds if and only if a snapshot is current under the identifier, and then sets the database, and only it, to its value when that snapshot was taken |
| Simulation.CurrentUntilReleased | crates/revm-sim/src/simulator.rs:143-161 | within the first 2^64 snapshots, an identifier is current exactly from its issue to its release |
| Rules.SatFoldIsCappedSum | crates/invariant-rules/src/rules.rs:84-90 | a saturating sum is the true sum capped at 2^256 - 1 |
| Rules.SatFoldOrderFree | crates/invariant-rules/src/rules.rs:150-153 | it does not depend on the order of the values |
| Rules.CheckSupply | crates/invariant-rules/src/rules.rs:83-95 | the saturating loop decides equality of the true sum of balances with every total below 2^256 - 1, and "at least" at it, or reports the missing holder or total |
| Rules.SupplyExact | crates/invariant-rules/src/rules.rs:83-95 | for every total below 2^256 - 1 the verdict is that the balances of the holders add up to it, and at 2^256 - 1 that they reach it |
| Rules.CheckLoanTotal | crates/invariant-rules/src/rules.rs:146-155 | the same for the borrowed amounts of exactly the protocol's positions, met in any order |
| Rules.LoanTotalExact | crates/invariant-rules/src/rules.rs:146-155 | for every total below 2^256 - 1 the verdict is that the borrowed amounts of exactly the protocol's positions add up to it, and at 2^256 - 1 that they reach it |
| Rules.CheckLiquidation | crates/invariant-rules/src/rules.rs:172-187 | the early-returning loop decides whether all of the protocol's positions are healthy, met in any order |
| Rules.CheckCdp | crates/invariant-rules/src/rules.rs:114-129 | the shortcuts and the wrapped comparison decide the ratio, or report a missing position |
| Rules.CheckFee | crates/invariant-rules/src/rules.rs:205-220 | the floor division and the zero shortcut decide whether the scaled deviation is within the wrapped product |
| Rules.WrappedVerdicts | crates/invariant-rules/src/rules.rs:114-220 | on every context the ratio, liquidation and fee verdicts compare the products modulo 2^256, zero amounts first |
| Rules.Check | crates/invariant-rules/src/rules.rs:33-65 | every rule, and so the constant product over the naturals despite its saturating product, and the balance gap, decides its formula or reports what is missing |
| Rules.RatioExact | crates/invariant-rules/src/rules.rs:119-128 | the verdict is the inequality over the naturals when both products fit the word |
| Rules.RatioExactIff | crates/invariant-rules/src/rules.rs:119-128 | within any bounds and at any ratio, the verdict is right about every debt and collateral if and only if no number of wraps of either product does harm |
| Rules.HarmlessIffFits | crates/invariant-rules/src/rules.rs:126-128 | within bounds that leave room for a ratio that is: neither scaled bound leaves the word |
| Rules.HarmlessAtZeroIff | crates/invariant-rules/src/rules.rs:119-128 | at a ratio of zero that is: the debt stays below 2^252, or there is no collateral |
| Rules.CdpExactIff | crates/invariant-rules/src/rules.rs:114-129 | the CDP rule is right about every context within any bounds if and only if no wrap does harm there |
| Rules.RatioCanHide | crates/invariant-rules/src/rules.rs:126-128 | a concrete unhealthy position that passes |
| Rules.RatioCanCondemn | crates/invariant-rules/src/rules.rs:126-128 | a concrete healthy position that fails |
| Rules.LiquidationExact | crates/invariant-rules/src/rules.rs:172-187 | the verdict is the for-all formula over the naturals when the products of the protocol's positions fit the word |
| Rules.LiquidationExactIff | crates/invariant-rules/src/rules.rs:172-187 | the liquidation rule is right about all contexts with any number of positions within any bounds if and only if no wrap does harm there at any threshold up to the bound |
| Rules.HarmlessUpToIffFits | crates/invariant-rules/src/rules.rs:172-187 | within bounds that leave room for a ratio that is: neither scaled bound leaves the word |
| Rules.FeeExactIff | crates/invariant-rules/src/rules.rs:205-220 | for an expected amount and a tolerance, the verdict is right about every collected amount if and only if their product fits the word |
| Rules.FeeSound | crates/invariant-rules/src/rules.rs:205-220 | a passing record is within the true tolerance, for all inputs |
| Rules.FeeCanCondemn | crates/invariant-rules/src/rules.rs:217-219 | a concrete record within its tolerance that fails |
| Rules.CompositeInvariant.Evaluate | crates/invariant-rules/src/rules.rs:249-260 | the early-returning loop computes the composite verdict |
| Rules.EvaluateCleanIff | crates/invariant-rules/src/rules.rs:249-260 | nothing is reported if and only if every rule holds |
| Rules.EvaluateFirst | crates/invariant-rules/src/rules.rs:223-260 | otherwise the first rule that does not hold is reported, as violation or error |
| Bindings.ExtractContext | crates/invariant-rules/src/bindings.rs:128-201 | the nine loops fill the context as specified, or return the error of the first failing read |
| Bindings.LastWins | crates/invariant-rules/src/bindings.rs:135-138 | the last binding of a key decides its entry |
| Bindings.FillOkIff | crates/invariant-rules/src/bindings.rs:135-138 | a loop succeeds if and only if every binding reads, and sets exactly the bound keys |
| PriceToVerdict.PricedRatio | crates/invariant-rules/src/bindings.rs:209-222 | saturated price products and the ratio check compose to the inequality over the naturals when its two products fit, zeros included |
| PriceToVerdict.ExtractedPrice | crates/invariant-rules/src/bindings.rs:131-133 | the price in an extracted context is the last one bound |
| PriceToVerdict.ExtractedCdp | crates/invariant-rules/src/bindings.rs:156-170 | a position in the context holds what the last binding of its owner reads, times the prices of its assets, cut off at 2^256 - 1 |
| PriceToVerdict.PricedExactIff | crates/invariant-rules/src/bindings.rs:209-222 | for any bounds on the priced values, beyond the word or not, and any ratio, pricing and rule are right about all raw amounts and prices if and only if no wrap does harm within the bounds cut off at the word |
| PriceToVerdict.CdpVerdictExact | crates/invariant-rules/src/bindings.rs:156-170 | on an extracted context the CDP rule decides raw debt x price x 10000 <= raw collateral x price x limit for the last binding of the owner |
| FieldReads.ExtractOkIff | crates/invariant-rules/src/bindings.rs:128-201 | the extraction succeeds if and only if every field of every binding reads and every price a position asks for is bound |
| FieldReads.ExtractError | crates/invariant-rules/src/bindings.rs:128-201 | it fails with the error of the first failing read or price of the nine loops, in their order |
| FieldReads.FieldReadsBack | crates/invariant-rules/src/bindings.rs:224-245 | after a slot is written, fields that lie in it read the value or the bits of it that they name, and fields in other slots read what they did |
| FieldReads.UncachedReadsZero | crates/invariant-rules/src/bindings.rs:299-308 | fields in a slot that is not cached read zero |
| ExtractedVerdicts.ExtractedLoans | crates/invariant-rules/src/bindings.rs:172-184 | the loan positions in the context are exactly those of the last binding of each protocol and borrower, with the borrowed amount and the collateral that it reads and the threshold that it names |
| ExtractedVerdicts.LiquidationVerdict | crates/invariant-rules/src/bindings.rs:172-184 | on an extracted context the liquidation rule decides, over the borrowed and collateral reads of the last bindings, whether all are within their thresholds, when the products fit |
| ExtractedVerdicts.LoanTotalVerdict | crates/invariant-rules/src/bindings.rs:186-189 | the loan total rule tests whether the amounts read by the protocol's last bindings add up to the total read last, or reach it at 2^256 - 1 |
| ExtractedVerdicts.FeeVerdict | crates/invariant-rules/src/bindings.rs:191-198 | the fee rule decides the tolerance on the pair read last, when the product fits |
| ExtractedVerdicts.SupplyVerdict | crates/invariant-rules/src/bindings.rs:135-154 | the supply rule tests whether the balances read last for its holders add up to the supply read last, or reach it at 2^256 - 1 |
| ExtractedVerdicts.BalanceGapVerdict | crates/invariant-rules/src/bindings.rs:135-143 | the balance gap rule compares the balance read last for the pool with the reserve read last for it |
| ExtractedVerdicts.ConstantProductVerdict | crates/invariant-rules/src/bindings.rs:145-149 | the constant product rule compares the true product of the two reserves read last |
| ExtractedVerdicts.BalanceGapUnbound | crates/invariant-rules/src/rules.rs:41-47 | it errs if and only if no balance, or no reserve, is bound for the pool |
| ExtractedVerdicts.SupplyUnbound | crates/invariant-rules/src/rules.rs:83-95 | the supply rule errs if and only if no balance is bound for some holder, or no supply |
| ExtractedVerdicts.ConstantProductUnbound | crates/invariant-rules/src/rules.rs:61-66 | the constant product rule errs if and only if no reserves are bound for the pool |
| ExtractedVerdicts.CdpUnbound | crates/invariant-rules/src/rules.rs:114-117 | the CDP rule errs if and only if no position is bound for the owner |
| ExtractedVerdicts.LoanTotalUnbound | crates/invariant-rules/src/rules.rs:146-149 | the loan rule errs if and only if no total is bound for the protocol |
| ExtractedVerdicts.FeeUnbound | crates/invariant-rules/src/rules.rs:205-208 | the fee rule errs if and only if no fees are bound for the protocol |
| Bits.ExtractBitsIsField | crates/invariant-rules/src/bindings.rs:327-337 | all branches read bits offset to offset + width, for every offset and width |
| Bits.TilesRebuild | crates/invariant-rules/src/bindings.rs:327-337 | contiguous fields covering the word rebuild it |

## Left out

- the virtual machine, opcode semantics and the bytes of a `getReserves` answer: library code, represented by a function
- keccak256 and the encoding of mapping slots: the slot is a function of key, base slot and layout, with no claim about collisions
- JSON-RPC requests (`state.rs`) and their parsers: network plumbing; the writes of what was fetched are modelled
- `decode_revert`, `classify_revert`, `estimate_gas`, string formatting, serialization and configuration builders: no property beyond one branch
- `shrink_minimized_with_report` and `shrink_sim_sequence`: wrappers that return what the modelled functions return
- predicates and rules with state of their own: the interfaces permit them, and nothing proved here would survive them
- the normalization of a zero code hash, account states and the contract table inside the cached database: only account information and storage are represented
- DeletionPass.OneMinimalWithoutRevival: goes one way; `RevivalNeedNotHarm` shows that the converse is false
- PriceToVerdict.CdpVerdictExact: speaks of products that fit the word; for all others `ExtractedCdp` and `WrappedVerdicts` give the verdict, and `PricedExactIff` says when it is the natural one
- the two declarations of the transaction input, one per crate and equal field by field, are one type here
- Simulation.Simulator.Snapshot: models the wrapping counter of a release build; a debug build stops at the 2^64th snapshot instead
- Simulation.Simulator.SetBlockEnv: takes the block environment already built from a header; copying the header fields is not modelled
