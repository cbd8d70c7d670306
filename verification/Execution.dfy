/** Running transactions against a database: the deterministic execution step and its folds. */
module Execution {
  import opened Wrappers
  import opened Words
  import opened Selections
  import opened Transactions
  import opened Bindings
  import opened Inspector

  datatype BlockEnv = BlockEnv(number: U256, timestamp: U256, coinbase: Address, basefee: U256, gasLimit: U256)

  datatype TxEnv = TxEnv(
    caller: Address,
    transactTo: Address,
    value: U256,
    data: Bytes,
    gasLimit: U64,
    gasPrice: U64,
    chainId: U64,
    nonce: Option<U64>)

  datatype SimLog = SimLog(address: Address, topics: seq<U256>, data: Bytes)

  datatype ExecutionResult =
    | Success(output: Bytes, gasUsed: U64, logs: seq<SimLog>)
    | Revert(output: Bytes, gasUsed: U64)
    | Halt(reason: string, gasUsed: U64)

  datatype SimResult = SimResult(
    success: bool,
    gasUsed: U64,
    revertReason: Option<string>,
    output: Bytes,
    logs: seq<SimLog>)

  /** What one execution yields: a new database, or a rejection that leaves it as it was. Either
      way, the program counters it stepped through. */
  datatype Outcome =
    | Committed(db: CacheDb, result: ExecutionResult, pcs: seq<nat>)
    | Rejected(error: string, pcs: seq<nat>)

  /** The virtual machine, as a deterministic function, and the decoder of revert data. */
  datatype Machine = Machine(
    run: (CacheDb, BlockEnv, U64, TxEnv) -> Outcome,
    decodeRevert: Bytes -> string)

  /** What an execution depends on besides the database and the transaction. */
  datatype Settings = Settings(machine: Machine, lib: Library, blockEnv: BlockEnv, chainId: U64)

  function BuildTxEnv(chainId: U64, tx: SimTxInput): TxEnv {
    TxEnv(tx.caller, tx.to, tx.value, tx.data, tx.gasLimit, tx.gasPrice, chainId, tx.nonce)
  }

  function TxErrorResult(error: string): SimResult {
    SimResult(false, 0, Some("TxEnvError: " + error), [], [])
  }

  /** `convert_result`, every arm of which succeeds. */
  function ConvertResult(machine: Machine, result: ExecutionResult): SimResult {
    match result
    case Success(output, gasUsed, logs) => SimResult(true, gasUsed, None, output, logs)
    case Revert(output, gasUsed) => SimResult(false, gasUsed, Some(machine.decodeRevert(output)), [], [])
    case Halt(reason, gasUsed) => SimResult(false, gasUsed, Some("Halted: " + reason), [], [])
  }

  function Transact(s: Settings, db: CacheDb, tx: SimTxInput): Outcome {
    s.machine.run(db, s.blockEnv, s.chainId, BuildTxEnv(s.chainId, tx))
  }

  function DbAfter(db: CacheDb, outcome: Outcome): CacheDb {
    if outcome.Committed? then outcome.db else db
  }

  function ResultOf(s: Settings, outcome: Outcome): SimResult {
    if outcome.Committed? then ConvertResult(s.machine, outcome.result) else TxErrorResult(outcome.error)
  }

  /* ----- A sequence under inspection ----- */

  datatype Run = Run(db: CacheDb, results: seq<SimResult>, inspector: InspectorView, offsets: seq<nat>)

  function RunNext(s: Settings, run: Run, tx: SimTxInput): Run {
    var outcome := Transact(s, run.db, tx);
    Run(
      DbAfter(run.db, outcome),
      run.results + [ResultOf(s, outcome)],
      Record(run.inspector, outcome.pcs),
      run.offsets + [|run.inspector.traces|])
  }

  /** All of `txs` in order, rejected ones included, from `db` and a fresh inspector. */
  function RunAll(s: Settings, db: CacheDb, txs: seq<SimTxInput>): Run {
    if |txs| == 0 then Run(db, [], FRESH, [])
    else RunNext(s, RunAll(s, db, txs[..|txs| - 1]), txs[|txs| - 1])
  }

  /** Events as another inspector would have numbered them after `shift` earlier ones. */
  function ShiftEvents(events: seq<TraceEvent>, shift: nat): (r: seq<TraceEvent>)
    ensures |r| == |events|
    ensures forall i :: 0 <= i < |r| ==> r[i] == events[i].(stepIndex := events[i].stepIndex + shift)
  {
    seq(|events|, i requires 0 <= i < |events| => events[i].(stepIndex := events[i].stepIndex + shift))
  }

  function ShiftOffsets(offsets: seq<nat>, shift: nat): (r: seq<nat>)
    ensures |r| == |offsets|
    ensures forall i :: 0 <= i < |r| ==> r[i] == offsets[i] + shift
  {
    seq(|offsets|, i requires 0 <= i < |offsets| => offsets[i] + shift)
  }

  /** The shape of every run. */
  predicate WellFormed(run: Run, txs: seq<SimTxInput>) {
    && |run.results| == |run.offsets| == |txs|
    && run.inspector.stepIndex == |run.inspector.traces|
    && StrictlyIncreasing(run.inspector.visitedPcs)
    && (forall k :: 0 <= k < |run.inspector.traces| ==> run.inspector.traces[k].stepIndex == k)
    && (forall i, j :: 0 <= i <= j < |run.offsets| ==> run.offsets[i] <= run.offsets[j] <= |run.inspector.traces|)
  }

  /** Results and offsets have one entry per transaction, the offsets never decrease, and every
      event is numbered by its position in the whole trace. */
  lemma {:induction false} RunShape(s: Settings, db: CacheDb, txs: seq<SimTxInput>)
    ensures WellFormed(RunAll(s, db, txs), txs)
  {
    if |txs| == 0 {
    } else {
      var front := txs[..|txs| - 1];
      RunShape(s, db, front);
      var run := RunAll(s, db, front);
      RecordFacts(run.inspector, Transact(s, run.db, txs[|txs| - 1]).pcs);
    }
  }

  ghost predicate Recorded(pc: nat, traces: seq<TraceEvent>) {
    exists k :: 0 <= k < |traces| && traces[k].programCounter == Some(pc)
  }

  /** The visited program counters are exactly those of the recorded events. */
  lemma {:induction false} VisitedAreRecorded(s: Settings, db: CacheDb, txs: seq<SimTxInput>, pc: nat)
    ensures pc in RunAll(s, db, txs).inspector.visitedPcs <==> Recorded(pc, RunAll(s, db, txs).inspector.traces)
  {
    if |txs| == 0 {
    } else {
      var front := txs[..|txs| - 1];
      RunShape(s, db, front);
      VisitedAreRecorded(s, db, front, pc);
      var v := RunAll(s, db, front).inspector;
      var pcs := Transact(s, RunAll(s, db, front).db, txs[|txs| - 1]).pcs;
      RecordFacts(v, pcs);
      RecordedAppend(pc, v.traces, pcs);
    }
  }

  lemma RecordedAppend(pc: nat, traces: seq<TraceEvent>, pcs: seq<nat>)
    ensures Recorded(pc, traces + Numbered(pcs, |traces|)) <==> Recorded(pc, traces) || pc in pcs
  {
    var all := traces + Numbered(pcs, |traces|);
    if Recorded(pc, traces) {
      var k :| 0 <= k < |traces| && traces[k].programCounter == Some(pc);
      assert all[k].programCounter == Some(pc);
    }
    if pc in pcs {
      var k :| 0 <= k < |pcs| && pcs[k] == pc;
      assert all[|traces| + k].programCounter == Some(pc);
    }
    if Recorded(pc, all) {
      var k :| 0 <= k < |all| && all[k].programCounter == Some(pc);
      if k >= |traces| {
        assert pcs[k - |traces|] == pc;
      }
    }
  }

  /** `z` is the run `x` continued by the run `y`, whose fresh inspector numbered from zero. */
  predicate Continues(x: Run, y: Run, z: Run) {
    var shift := |x.inspector.traces|;
    && z.db == y.db
    && z.results == x.results + y.results
    && z.inspector.traces == x.inspector.traces + ShiftEvents(y.inspector.traces, shift)
    && z.offsets == x.offsets + ShiftOffsets(y.offsets, shift)
  }

  lemma ShiftEventsAppend(events: seq<TraceEvent>, pcs: seq<nat>, shift: nat)
    ensures ShiftEvents(events + Numbered(pcs, |events|), shift)
         == ShiftEvents(events, shift) + Numbered(pcs, |events| + shift)
  {
  }

  lemma ShiftOffsetsAppend(offsets: seq<nat>, offset: nat, shift: nat)
    ensures ShiftOffsets(offsets + [offset], shift) == ShiftOffsets(offsets, shift) + [offset + shift]
  {
  }

  lemma Associative<T>(a: seq<T>, b: seq<T>, c: seq<T>)
    ensures (a + b) + c == a + (b + c)
  {
  }

  lemma ContinuesTraces(x: seq<TraceEvent>, y: seq<TraceEvent>, z: seq<TraceEvent>, pcs: seq<nat>)
    requires z == x + ShiftEvents(y, |x|)
    ensures z + Numbered(pcs, |z|) == x + ShiftEvents(y + Numbered(pcs, |y|), |x|)
  {
    ShiftEventsAppend(y, pcs, |x|);
    Associative(x, ShiftEvents(y, |x|), Numbered(pcs, |z|));
  }

  lemma ContinuesNext(s: Settings, x: Run, y: Run, z: Run, tx: SimTxInput, txs: seq<SimTxInput>, all: seq<SimTxInput>)
    requires Continues(x, y, z) && WellFormed(y, txs) && WellFormed(z, all)
    ensures Continues(x, RunNext(s, y, tx), RunNext(s, z, tx))
  {
    var pcs := Transact(s, y.db, tx).pcs;
    RecordFacts(y.inspector, pcs);
    RecordFacts(z.inspector, pcs);
    ContinuesTraces(x.inspector.traces, y.inspector.traces, z.inspector.traces, pcs);
    ShiftOffsetsAppend(y.offsets, |y.inspector.traces|, |x.inspector.traces|);
  }

  /** Runs compose: running `b` on the database that `a` left, under a fresh inspector, records what
      the joint run records for `b`, up to the numbering. */
  lemma {:induction false} RunSplit(s: Settings, db: CacheDb, a: seq<SimTxInput>, b: seq<SimTxInput>)
    ensures Continues(RunAll(s, db, a), RunAll(s, RunAll(s, db, a).db, b), RunAll(s, db, a + b))
  {
    var x := RunAll(s, db, a);
    if |b| == 0 {
      assert a + b == a;
      assert x.inspector.traces + ShiftEvents([], |x.inspector.traces|) == x.inspector.traces;
      assert x.offsets + ShiftOffsets([], |x.inspector.traces|) == x.offsets;
    } else {
      var front, tx := b[..|b| - 1], b[|b| - 1];
      RunSplit(s, db, a, front);
      RunShape(s, x.db, front);
      RunShape(s, db, a + front);
      ContinuesNext(s, x, RunAll(s, x.db, front), RunAll(s, db, a + front), tx, front, a + front);
      assert (a + b)[..|a + b| - 1] == a + front;
    }
  }

  /** Where the trace of transaction `i` ends. */
  function SliceEnd(run: Run, i: nat): nat
    requires i < |run.offsets|
  {
    if i + 1 < |run.offsets| then run.offsets[i + 1] else |run.inspector.traces|
  }

  lemma Middle<T>(a: seq<T>, b: seq<T>, c: seq<T>)
    ensures ((a + b) + c)[|a|..|a + b|] == b
  {
  }

  /** The offsets cut the trace into the transactions' own traces: slice `i`, and result `i`, are
      what a fresh inspector records for transaction `i` alone on the database left by the earlier
      ones, with the step indices shifted by offset `i`. */
  lemma TraceSlice(s: Settings, db: CacheDb, txs: seq<SimTxInput>, i: nat)
    requires i < |txs|
    ensures var run, alone := RunAll(s, db, txs), RunAll(s, RunAll(s, db, txs[..i]).db, [txs[i]]);
            && |run.results| == |run.offsets| == |txs| && |alone.results| == 1
            && run.results[i] == alone.results[0]
            && (i == 0 ==> run.offsets[i] == 0)
            && run.offsets[i] <= SliceEnd(run, i) <= |run.inspector.traces|
            && run.inspector.traces[run.offsets[i]..SliceEnd(run, i)]
               == ShiftEvents(alone.inspector.traces, run.offsets[i])
  {
    var before, upTo, after := txs[..i], txs[..i + 1], txs[i + 1..];
    var x, z := RunAll(s, db, before), RunAll(s, db, upTo);
    var alone := RunAll(s, x.db, [txs[i]]);
    assert upTo == before + [txs[i]];
    RunSplit(s, db, before, [txs[i]]);
    assert txs == upTo + after;
    RunSplit(s, db, upTo, after);
    RunShape(s, db, before);
    RunShape(s, db, upTo);
    RunShape(s, x.db, [txs[i]]);
    RunShape(s, z.db, after);
    RunShape(s, db, txs);
    FirstOffset(s, x.db, [txs[i]]);
    var run := RunAll(s, db, txs);
    assert run.offsets[i] == z.offsets[i] == |x.inspector.traces|;
    if |after| > 0 {
      FirstOffset(s, z.db, after);
      assert run.offsets[i + 1] == |z.inspector.traces|;
    } else {
      assert run.inspector.traces == z.inspector.traces;
    }
    var rest := ShiftEvents(RunAll(s, z.db, after).inspector.traces, |z.inspector.traces|);
    Middle(x.inspector.traces, ShiftEvents(alone.inspector.traces, |x.inspector.traces|), rest);
  }

  lemma {:induction false} FirstOffset(s: Settings, db: CacheDb, txs: seq<SimTxInput>)
    requires |txs| > 0
    ensures |RunAll(s, db, txs).offsets| == |txs| && RunAll(s, db, txs).offsets[0] == 0
  {
    RunShape(s, db, txs);
    if |txs| > 1 {
      FirstOffset(s, db, txs[..|txs| - 1]);
    }
  }

  /* ----- What one transaction does, in terms of the machine alone ----- */

  /** On `before`, the transaction ends on `after` with `result`, stepping through `pcs`. Whatever the
      machine commits is kept, of a reverted or halted transaction too; a rejection changes nothing. */
  predicate StepsTo(
    s: Settings, before: CacheDb, tx: SimTxInput, after: CacheDb, result: SimResult, pcs: seq<nat>)
  {
    var env := TxEnv(
      caller := tx.caller, transactTo := tx.to, value := tx.value, data := tx.data, gasLimit := tx.gasLimit,
      gasPrice := tx.gasPrice, chainId := s.chainId, nonce := tx.nonce);
    match s.machine.run(before, s.blockEnv, s.chainId, env)
    case Committed(d, Success(output, gasUsed, logs), stepped) =>
      after == d && pcs == stepped && result.success && result.gasUsed == gasUsed && result.revertReason == None
      && result.output == output && result.logs == logs
    case Committed(d, Revert(output, gasUsed), stepped) =>
      after == d && pcs == stepped && !result.success && result.gasUsed == gasUsed
      && result.revertReason == Some(s.machine.decodeRevert(output)) && result.output == [] && result.logs == []
    case Committed(d, Halt(reason, gasUsed), stepped) =>
      after == d && pcs == stepped && !result.success && result.gasUsed == gasUsed
      && result.revertReason == Some("Halted: " + reason) && result.output == [] && result.logs == []
    case Rejected(error, stepped) =>
      after == before && pcs == stepped && !result.success && result.gasUsed == 0
      && result.revertReason == Some("TxEnvError: " + error) && result.output == [] && result.logs == []
  }

  lemma OutcomeSteps(s: Settings, db: CacheDb, tx: SimTxInput)
    ensures var outcome := Transact(s, db, tx);
            StepsTo(s, db, tx, DbAfter(db, outcome), ResultOf(s, outcome), outcome.pcs)
  {
  }

  /** The events of `later` from position `from` on are those of `pcs`, numbered by position. */
  predicate Appends(earlier: seq<TraceEvent>, later: seq<TraceEvent>, pcs: seq<nat>) {
    && |later| == |earlier| + |pcs| && later[..|earlier|] == earlier
    && forall k :: 0 <= k < |pcs| ==> later[|earlier| + k] == TraceEvent(|earlier| + k, Some(pcs[k]))
  }

  /** The run `after` goes on from `before` by what the machine makes of `tx` on its database, and
      records the result, the offset and the steps of that. */
  ghost predicate GoesOn(s: Settings, before: Run, tx: SimTxInput, after: Run) {
    && after.offsets == before.offsets + [|before.inspector.traces|]
    && exists result: SimResult, pcs: seq<nat> ::
         && StepsTo(s, before.db, tx, after.db, result, pcs)
         && after.results == before.results + [result]
         && Appends(before.inspector.traces, after.inspector.traces, pcs)
         && forall pc :: pc in after.inspector.visitedPcs <==> pc in before.inspector.visitedPcs || pc in pcs
  }

  /** At every position of a sequence the run goes on in that way. */
  lemma RunSteps(s: Settings, db: CacheDb, txs: seq<SimTxInput>, i: nat)
    requires i < |txs|
    ensures GoesOn(s, RunAll(s, db, txs[..i]), txs[i], RunAll(s, db, txs[..i + 1]))
  {
    var before := RunAll(s, db, txs[..i]);
    var outcome := Transact(s, before.db, txs[i]);
    assert txs[..i + 1][..i] == txs[..i];
    RunShape(s, db, txs[..i]);
    OutcomeSteps(s, before.db, txs[i]);
    RecordFacts(before.inspector, outcome.pcs);
    var after := RunAll(s, db, txs[..i + 1]);
    assert StepsTo(s, before.db, txs[i], after.db, ResultOf(s, outcome), outcome.pcs);
  }

  /** A run starts from the given database with nothing recorded. */
  lemma RunStarts(s: Settings, db: CacheDb)
    ensures var run := RunAll(s, db, []);
            && run.db == db && run.results == [] && run.offsets == []
            && run.inspector.traces == [] && run.inspector.visitedPcs == []
  {
  }

  /** Any list of databases and results that follows the machine step by step is that of the run. */
  lemma {:induction false} RunIsChain(
    s: Settings, txs: seq<SimTxInput>, dbs: seq<CacheDb>, results: seq<SimResult>, pcs: seq<seq<nat>>)
    requires |dbs| == |txs| + 1 && |results| == |pcs| == |txs|
    requires forall i :: 0 <= i < |txs| ==> StepsTo(s, dbs[i], txs[i], dbs[i + 1], results[i], pcs[i])
    ensures RunAll(s, dbs[0], txs).db == dbs[|txs|] && RunAll(s, dbs[0], txs).results == results
  {
    if |txs| > 0 {
      var n := |txs| - 1;
      RunIsChain(s, txs[..n], dbs[..n + 1], results[..n], pcs[..n]);
      OutcomeSteps(s, dbs[n], txs[n]);
      assert dbs[..n + 1][0] == dbs[0] && dbs[..n + 1][n] == dbs[n];
      assert StepsTo(s, dbs[n], txs[n], dbs[n + 1], results[n], pcs[n]);
      assert results == results[..n] + [results[n]];
    }
  }
}
