/** Simulating a sequence while recording its trace and checking the invariant rules. */
module Audit {
  import opened Wrappers
  import opened Transactions
  import opened Context
  import opened Rules
  import opened Bindings
  import opened Inspector
  import opened Execution
  import opened Simulation

  datatype SequenceInspectionReport = SequenceInspectionReport(
    txResults: seq<SimResult>,
    traces: seq<TraceEvent>,
    visitedPcs: seq<nat>,
    traceOffsets: seq<nat>)

  datatype InvariantAuditReport = InvariantAuditReport(
    inspection: SequenceInspectionReport,
    context: ContextView,
    violation: Option<RuleViolation>,
    finalDb: Option<CacheDb>)

  datatype TxInvariantSnapshot = TxInvariantSnapshot(
    txIndex: nat,
    context: ContextView,
    violation: Option<RuleViolation>)

  datatype SequenceInvariantResult = SequenceInvariantResult(
    inspection: SequenceInspectionReport,
    perTxSnapshots: seq<TxInvariantSnapshot>,
    firstViolation: Option<RuleViolation>,
    violationCount: nat)

  function InspectionOf(run: Run): SequenceInspectionReport {
    SequenceInspectionReport(run.results, run.inspector.traces, run.inspector.visitedPcs, run.offsets)
  }

  /** The context and the verdict on a database. */
  ghost function Judge(s: Settings, db: CacheDb, bindings: DbInvariantBindings, rules: seq<Rule>)
    : Result<(ContextView, Option<RuleViolation>), AuditError>
  {
    match Extract(bindings, db, s.lib)
    case Err(error) => Err(error)
    case Ok(ctx) =>
      match EvaluateRules(rules, ctx)
      case Err(error) => Err(error)
      case Ok(violation) => Ok((ctx, violation))
  }

  /** The audit of the first `k` transactions: run them all, then judge the database they leave. */
  ghost function AuditOf(
    s: Settings, db: CacheDb, txs: seq<SimTxInput>, k: nat, bindings: DbInvariantBindings, rules: seq<Rule>)
    : Result<InvariantAuditReport, AuditError>
    requires k <= |txs|
  {
    var run := RunAll(s, db, txs[..k]);
    match Judge(s, run.db, bindings, rules)
    case Err(error) => Err(error)
    case Ok((ctx, violation)) => Ok(InvariantAuditReport(InspectionOf(run), ctx, violation, Some(run.db)))
  }

  /** One transaction under the inspector, committed to the clone unless it is rejected. */
  method TransactCommit(s: Settings, db: CacheDb, tx: SimTxInput, inspector: InvariantInspector)
    returns (next: CacheDb, result: SimResult)
    modifies inspector
    ensures inspector.View() == Record(old(inspector.View()), Transact(s, db, tx).pcs)
    ensures next == DbAfter(db, Transact(s, db, tx))
    ensures result == ResultOf(s, Transact(s, db, tx))
  {
    var outcome := Transact(s, db, tx);
    inspector.Observe(outcome.pcs);
    match outcome {
      case Committed(committed, exec, _) =>
        next := committed;
        result := ConvertResult(s.machine, exec);
      case Rejected(error, _) =>
        next := db;
        result := TxErrorResult(error);
    }
  }

  /** `simulate_sequence_inspected` */
  method SimulateSequenceInspected(sim: Simulator, txs: seq<SimTxInput>) returns (report: SequenceInspectionReport)
    ensures report == InspectionOf(RunAll(sim.CurrentSettings(), sim.db, txs))
  {
    var s := sim.CurrentSettings();
    var dbClone := sim.db;
    var inspector := new InvariantInspector();
    var results: seq<SimResult> := [];
    var traceOffsets: seq<nat> := [];
    for i := 0 to |txs|
      invariant Run(dbClone, results, inspector.View(), traceOffsets) == RunAll(s, sim.db, txs[..i])
    {
      assert txs[..i + 1][..i] == txs[..i];
      traceOffsets := traceOffsets + [|inspector.traces|];
      var result;
      dbClone, result := TransactCommit(s, dbClone, txs[i], inspector);
      results := results + [result];
    }
    assert txs[..|txs|] == txs;
    report := SequenceInspectionReport(results, inspector.traces, inspector.visitedPcs, traceOffsets);
  }

  /** Extract a context and evaluate the rules on it. */
  method ExtractAndEvaluate(
    s: Settings, db: CacheDb, bindings: DbInvariantBindings, rules: CompositeInvariant)
    returns (r: Result<(ContextView, Option<RuleViolation>), AuditError>)
    ensures r == Judge(s, db, bindings, rules.rules)
  {
    var context := ExtractContext(bindings, db, s.lib);
    if context.Err? {
      return Err(context.error);
    }
    var violation := rules.Evaluate(context.value);
    if violation.Err? {
      return Err(violation.error);
    }
    return Ok((context.value, violation.value));
  }

  /** `simulate_sequence_with_invariants` */
  method SimulateSequenceWithInvariants(
    sim: Simulator, txs: seq<SimTxInput>, bindings: DbInvariantBindings, rules: CompositeInvariant)
    returns (r: Result<InvariantAuditReport, AuditError>)
    ensures r == AuditOf(sim.CurrentSettings(), sim.db, txs, |txs|, bindings, rules.rules)
  {
    var s := sim.CurrentSettings();
    var dbClone := sim.db;
    var inspector := new InvariantInspector();
    var results: seq<SimResult> := [];
    var traceOffsets: seq<nat> := [];
    for i := 0 to |txs|
      invariant Run(dbClone, results, inspector.View(), traceOffsets) == RunAll(s, sim.db, txs[..i])
    {
      assert txs[..i + 1][..i] == txs[..i];
      traceOffsets := traceOffsets + [|inspector.traces|];
      var result;
      dbClone, result := TransactCommit(s, dbClone, txs[i], inspector);
      results := results + [result];
    }
    assert txs[..|txs|] == txs;
    var judged := ExtractAndEvaluate(s, dbClone, bindings, rules);
    if judged.Err? {
      return Err(judged.error);
    }
    var inspection := SequenceInspectionReport(results, inspector.traces, inspector.visitedPcs, traceOffsets);
    return Ok(InvariantAuditReport(inspection, judged.value.0, judged.value.1, Some(dbClone)));
  }

  /* ----- Per-transaction audit ----- */

  function ViolationCount(snapshots: seq<TxInvariantSnapshot>): nat {
    if |snapshots| == 0 then 0
    else ViolationCount(snapshots[..|snapshots| - 1])
         + if snapshots[|snapshots| - 1].violation.Some? then 1 else 0
  }

  /** `violation` is that of the first snapshot that has one. */
  ghost predicate IsFirstViolation(violation: Option<RuleViolation>, snapshots: seq<TxInvariantSnapshot>) {
    match violation
    case None => forall i :: 0 <= i < |snapshots| ==> snapshots[i].violation.None?
    case Some(_) =>
      exists k :: 0 <= k < |snapshots| && snapshots[k].violation == violation
                  && forall i :: 0 <= i < k ==> snapshots[i].violation.None?
  }

  /** The snapshot at position `i` records what a separate audit of the first `i + 1` transactions reports. */
  ghost predicate SnapshotMatches(
    snapshot: TxInvariantSnapshot, i: nat, s: Settings, db: CacheDb, txs: seq<SimTxInput>,
    bindings: DbInvariantBindings, rules: seq<Rule>)
  {
    i < |txs| &&
    var audit := AuditOf(s, db, txs, i + 1, bindings, rules);
    audit.Ok? && snapshot == TxInvariantSnapshot(i, audit.value.context, audit.value.violation)
  }

  ghost predicate SnapshotsMatch(
    snapshots: seq<TxInvariantSnapshot>, s: Settings, db: CacheDb, txs: seq<SimTxInput>,
    bindings: DbInvariantBindings, rules: seq<Rule>)
  {
    forall i :: 0 <= i < |snapshots| ==> SnapshotMatches(snapshots[i], i, s, db, txs, bindings, rules)
  }

  /** The tallies agree with the snapshots. */
  ghost predicate Tallied(
    snapshots: seq<TxInvariantSnapshot>, firstViolation: Option<RuleViolation>, violationCount: nat)
  {
    IsFirstViolation(firstViolation, snapshots) && violationCount == ViolationCount(snapshots)
  }

  lemma TalliedNext(
    snapshots: seq<TxInvariantSnapshot>, firstViolation: Option<RuleViolation>, violationCount: nat,
    next: TxInvariantSnapshot)
    requires Tallied(snapshots, firstViolation, violationCount)
    ensures Tallied(
              snapshots + [next],
              if firstViolation.None? then next.violation else firstViolation,
              violationCount + if next.violation.Some? then 1 else 0)
  {
    FirstViolationNext(firstViolation, snapshots, next);
    assert (snapshots + [next])[..|snapshots|] == snapshots;
  }

  lemma SnapshotsMatchNext(
    snapshots: seq<TxInvariantSnapshot>, next: TxInvariantSnapshot, s: Settings, db: CacheDb, txs: seq<SimTxInput>,
    bindings: DbInvariantBindings, rules: seq<Rule>)
    requires SnapshotsMatch(snapshots, s, db, txs, bindings, rules)
    requires SnapshotMatches(next, |snapshots|, s, db, txs, bindings, rules)
    ensures SnapshotsMatch(snapshots + [next], s, db, txs, bindings, rules)
  {
  }

  /** The audit of the first `k` transactions errs, and that of no shorter non-empty prefix does. */
  ghost predicate FirstError(
    k: nat, error: AuditError, s: Settings, db: CacheDb, txs: seq<SimTxInput>,
    bindings: DbInvariantBindings, rules: seq<Rule>)
  {
    && 1 <= k <= |txs| && AuditOf(s, db, txs, k, bindings, rules) == Err(error)
    && forall j :: 1 <= j < k ==> AuditOf(s, db, txs, j, bindings, rules).Ok?
  }

  lemma FirstViolationNext(
    violation: Option<RuleViolation>, snapshots: seq<TxInvariantSnapshot>, next: TxInvariantSnapshot)
    requires IsFirstViolation(violation, snapshots)
    ensures IsFirstViolation(if violation.None? then next.violation else violation, snapshots + [next])
  {
    var all := snapshots + [next];
    if violation.Some? {
      var k :| 0 <= k < |snapshots| && snapshots[k].violation == violation
               && forall i :: 0 <= i < k ==> snapshots[i].violation.None?;
      assert all[k].violation == violation && forall i :: 0 <= i < k ==> all[i].violation.None?;
    } else if next.violation.Some? {
      assert all[|snapshots|].violation == next.violation;
    }
  }

  /** A per-transaction audit yields what auditing every non-empty prefix from scratch would: on
      success all their contexts and verdicts, the inspection of the whole sequence, and the first
      and the number of the violations; otherwise the first error. */
  ghost predicate RefinesPrefixAudits(
    r: Result<SequenceInvariantResult, AuditError>, s: Settings, db: CacheDb, txs: seq<SimTxInput>,
    bindings: DbInvariantBindings, rules: seq<Rule>)
  {
    match r
    case Ok(result) =>
      && |result.perTxSnapshots| == |txs|
      && SnapshotsMatch(result.perTxSnapshots, s, db, txs, bindings, rules)
      && result.inspection == InspectionOf(RunAll(s, db, txs))
      && Tallied(result.perTxSnapshots, result.firstViolation, result.violationCount)
    case Err(error) =>
      exists k: nat :: FirstError(k, error, s, db, txs, bindings, rules)
  }

  /** `simulate_sequence_with_per_tx_invariants` */
  method SimulateSequenceWithPerTxInvariants(
    sim: Simulator, txs: seq<SimTxInput>, bindings: DbInvariantBindings, rules: CompositeInvariant)
    returns (r: Result<SequenceInvariantResult, AuditError>)
    ensures RefinesPrefixAudits(r, sim.CurrentSettings(), sim.db, txs, bindings, rules.rules)
  {
    var s := sim.CurrentSettings();
    var dbClone := sim.db;
    var inspector := new InvariantInspector();
    var results: seq<SimResult> := [];
    var traceOffsets: seq<nat> := [];
    var perTxSnapshots: seq<TxInvariantSnapshot> := [];
    var firstViolation: Option<RuleViolation> := None;
    var violationCount: nat := 0;
    for i := 0 to |txs|
      invariant Run(dbClone, results, inspector.View(), traceOffsets) == RunAll(s, sim.db, txs[..i])
      invariant |perTxSnapshots| == i
      invariant SnapshotsMatch(perTxSnapshots, s, sim.db, txs, bindings, rules.rules)
      invariant Tallied(perTxSnapshots, firstViolation, violationCount)
    {
      assert txs[..i + 1][..i] == txs[..i];
      traceOffsets := traceOffsets + [|inspector.traces|];
      var result;
      dbClone, result := TransactCommit(s, dbClone, txs[i], inspector);
      results := results + [result];

      var judged := ExtractAndEvaluate(s, dbClone, bindings, rules);
      if judged.Err? {
        PrefixError(i, judged.error, perTxSnapshots, s, sim.db, txs, bindings, rules.rules);
        return Err(judged.error);
      }
      var (ctx, violation) := judged.value;
      var snapshot := TxInvariantSnapshot(i, ctx, violation);
      SnapshotsMatchNext(perTxSnapshots, snapshot, s, sim.db, txs, bindings, rules.rules);
      TalliedNext(perTxSnapshots, firstViolation, violationCount, snapshot);
      if violation.Some? {
        violationCount := violationCount + 1;
        if firstViolation.None? {
          firstViolation := violation;
        }
      }
      perTxSnapshots := perTxSnapshots + [snapshot];
    }
    assert txs[..|txs|] == txs;
    var inspection := SequenceInspectionReport(results, inspector.traces, inspector.visitedPcs, traceOffsets);
    return Ok(SequenceInvariantResult(inspection, perTxSnapshots, firstViolation, violationCount));
  }

  lemma PrefixError(
    i: nat, error: AuditError, snapshots: seq<TxInvariantSnapshot>, s: Settings, db: CacheDb, txs: seq<SimTxInput>,
    bindings: DbInvariantBindings, rules: seq<Rule>)
    requires i == |snapshots| && i < |txs| && SnapshotsMatch(snapshots, s, db, txs, bindings, rules)
    requires AuditOf(s, db, txs, i + 1, bindings, rules) == Err(error)
    ensures RefinesPrefixAudits(Err(error), s, db, txs, bindings, rules)
  {
    forall j | 1 <= j < i + 1
      ensures AuditOf(s, db, txs, j, bindings, rules).Ok?
    {
      assert SnapshotMatches(snapshots[j - 1], j - 1, s, db, txs, bindings, rules);
    }
    var k: nat := i + 1;
    assert FirstError(k, error, s, db, txs, bindings, rules);
  }

  /** So it errs exactly when the audit of some non-empty prefix does. */
  lemma PerTxErrsIff(
    r: Result<SequenceInvariantResult, AuditError>, s: Settings, db: CacheDb, txs: seq<SimTxInput>,
    bindings: DbInvariantBindings, rules: seq<Rule>)
    requires RefinesPrefixAudits(r, s, db, txs, bindings, rules)
    ensures r.Err? <==> exists k :: 1 <= k <= |txs| && AuditOf(s, db, txs, k, bindings, rules).Err?
  {
    if r.Err? {
      var k: nat :| FirstError(k, r.error, s, db, txs, bindings, rules);
      assert AuditOf(s, db, txs, k, bindings, rules).Err?;
    } else {
      forall k | 1 <= k <= |txs|
        ensures AuditOf(s, db, txs, k, bindings, rules).Ok?
      {
        assert SnapshotMatches(r.value.perTxSnapshots[k - 1], k - 1, s, db, txs, bindings, rules);
      }
    }
  }

  lemma FirstViolationUnique(a: Option<RuleViolation>, b: Option<RuleViolation>, snapshots: seq<TxInvariantSnapshot>)
    requires IsFirstViolation(a, snapshots) && IsFirstViolation(b, snapshots)
    ensures a == b
  {
  }

  lemma SnapshotsUnique(
    a: seq<TxInvariantSnapshot>, b: seq<TxInvariantSnapshot>, s: Settings, db: CacheDb, txs: seq<SimTxInput>,
    bindings: DbInvariantBindings, rules: seq<Rule>)
    requires |a| == |b|
    requires SnapshotsMatch(a, s, db, txs, bindings, rules) && SnapshotsMatch(b, s, db, txs, bindings, rules)
    ensures a == b
  {
    forall i | 0 <= i < |a|
      ensures a[i] == b[i]
    {
      assert SnapshotMatches(a[i], i, s, db, txs, bindings, rules);
      assert SnapshotMatches(b[i], i, s, db, txs, bindings, rules);
    }
  }

  /** The prefix audits leave the per-transaction audit no choice: its whole report is determined. */
  lemma PerTxReportUnique(
    a: Result<SequenceInvariantResult, AuditError>, b: Result<SequenceInvariantResult, AuditError>,
    s: Settings, db: CacheDb, txs: seq<SimTxInput>, bindings: DbInvariantBindings, rules: seq<Rule>)
    requires RefinesPrefixAudits(a, s, db, txs, bindings, rules) && RefinesPrefixAudits(b, s, db, txs, bindings, rules)
    ensures a == b
  {
    PerTxErrsIff(a, s, db, txs, bindings, rules);
    PerTxErrsIff(b, s, db, txs, bindings, rules);
    if a.Ok? {
      SnapshotsUnique(a.value.perTxSnapshots, b.value.perTxSnapshots, s, db, txs, bindings, rules);
      FirstViolationUnique(a.value.firstViolation, b.value.firstViolation, a.value.perTxSnapshots);
    } else {
      var k: nat :| FirstError(k, a.error, s, db, txs, bindings, rules);
      var l: nat :| FirstError(l, b.error, s, db, txs, bindings, rules);
      assert k == l;
    }
  }

  /* ----- What the audits judge, and what their verdicts mean ----- */

  /** `violation` is what the rules say about `ctx`: nothing exactly when every rule holds, and
      otherwise the first rule that does not hold, which is then false rather than undecided. */
  ghost predicate IsVerdictOn(ctx: ContextView, rules: seq<Rule>, violation: Option<RuleViolation>) {
    && (violation == None <==> forall i :: 0 <= i < |rules| ==> Decide(rules[i], ctx) == Ok(true))
    && (violation != None ==>
          exists k :: 0 <= k < |rules| && Decide(rules[k], ctx) == Ok(false)
                      && (forall i :: 0 <= i < k ==> Decide(rules[i], ctx) == Ok(true))
                      && violation == Some(RuleViolation(rules[k].Name(), rules[k].Name() + " violated")))
  }

  /** Judging the database fails with `error`: the extraction does, or the first rule that does not hold errs. */
  ghost predicate FailsOn(
    s: Settings, db: CacheDb, bindings: DbInvariantBindings, rules: seq<Rule>, error: AuditError)
  {
    match Extract(bindings, db, s.lib)
    case Err(e) => e == error
    case Ok(ctx) =>
      exists k :: 0 <= k < |rules| && Decide(rules[k], ctx) == Err(error)
                  && forall i :: 0 <= i < k ==> Decide(rules[i], ctx) == Ok(true)
  }

  lemma {:induction false} FirstFailingExists(rules: seq<Rule>, ctx: ContextView, n: nat) returns (k: nat)
    requires n <= |rules| && exists i :: 0 <= i < n && Decide(rules[i], ctx) != Ok(true)
    ensures FirstFailing(rules, ctx, k)
  {
    if forall i :: 0 <= i < n - 1 ==> Decide(rules[i], ctx) == Ok(true) {
      k := n - 1;
    } else {
      k := FirstFailingExists(rules, ctx, n - 1);
    }
  }

  lemma EvaluateMeans(rules: seq<Rule>, ctx: ContextView)
    ensures var r := EvaluateRules(rules, ctx);
            if r.Ok? then IsVerdictOn(ctx, rules, r.value)
            else exists k :: 0 <= k < |rules| && Decide(rules[k], ctx) == Err(r.error)
                             && forall i :: 0 <= i < k ==> Decide(rules[i], ctx) == Ok(true)
  {
    EvaluateCleanIff(rules, ctx);
    if exists i :: 0 <= i < |rules| && Decide(rules[i], ctx) != Ok(true) {
      var k := FirstFailingExists(rules, ctx, |rules|);
      EvaluateFirst(rules, ctx, k);
      assert 0 <= k < |rules| && forall i :: 0 <= i < k ==> Decide(rules[i], ctx) == Ok(true);
    }
  }

  lemma JudgeMeans(s: Settings, db: CacheDb, bindings: DbInvariantBindings, rules: seq<Rule>)
    ensures var r := Judge(s, db, bindings, rules);
            if r.Ok? then Extract(bindings, db, s.lib) == Ok(r.value.0) && IsVerdictOn(r.value.0, rules, r.value.1)
            else FailsOn(s, db, bindings, rules, r.error)
  {
    var extracted := Extract(bindings, db, s.lib);
    if extracted.Ok? {
      EvaluateMeans(rules, extracted.value);
    }
  }

  /** An audit judges the database that the transactions leave: a report shows that database, the
      context extracted from it and what the rules say about it; the audit errs exactly when judging
      that database does. */
  lemma AuditMeans(s: Settings, db: CacheDb, txs: seq<SimTxInput>, bindings: DbInvariantBindings, rules: seq<Rule>)
    ensures var run := RunAll(s, db, txs);
            var r := AuditOf(s, db, txs, |txs|, bindings, rules);
            if r.Ok? then
              var report := r.value;
              && report.finalDb == Some(run.db)
              && report.inspection.txResults == run.results
              && report.inspection.traces == run.inspector.traces
              && report.inspection.visitedPcs == run.inspector.visitedPcs
              && report.inspection.traceOffsets == run.offsets
              && Extract(bindings, run.db, s.lib) == Ok(report.context)
              && IsVerdictOn(report.context, rules, report.violation)
            else FailsOn(s, run.db, bindings, rules, r.error)
    ensures AuditOf(s, db, txs, |txs|, bindings, rules).Err?
       <==> exists error :: FailsOn(s, RunAll(s, db, txs).db, bindings, rules, error)
  {
    assert txs[..|txs|] == txs;
    JudgeMeans(s, RunAll(s, db, txs).db, bindings, rules);
  }

  /** The per-transaction audit judges, at each position, the database that the transactions up to
      there leave. It counts the positions with a violation and keeps the first violation; it errs
      exactly when judging one of these databases does, with the error of the first. */
  lemma PerTxMeans(
    r: Result<SequenceInvariantResult, AuditError>, s: Settings, db: CacheDb, txs: seq<SimTxInput>,
    bindings: DbInvariantBindings, rules: seq<Rule>)
    requires RefinesPrefixAudits(r, s, db, txs, bindings, rules)
    ensures if r.Ok? then
              var result := r.value;
              && |result.perTxSnapshots| == |txs|
              && (forall i :: 0 <= i < |txs| ==>
                    var snapshot := result.perTxSnapshots[i];
                    && snapshot.txIndex == i
                    && Extract(bindings, RunAll(s, db, txs[..i + 1]).db, s.lib) == Ok(snapshot.context)
                    && IsVerdictOn(snapshot.context, rules, snapshot.violation))
              && IsFirstViolation(result.firstViolation, result.perTxSnapshots)
              && result.violationCount
                 == |set i | 0 <= i < |result.perTxSnapshots| && result.perTxSnapshots[i].violation != None|
            else exists k: nat :: FirstFailure(k, r.error, s, db, txs, bindings, rules)
  {
    match r {
      case Ok(result) =>
        forall i | 0 <= i < |txs|
          ensures var snapshot := result.perTxSnapshots[i];
                  && snapshot.txIndex == i
                  && Extract(bindings, RunAll(s, db, txs[..i + 1]).db, s.lib) == Ok(snapshot.context)
                  && IsVerdictOn(snapshot.context, rules, snapshot.violation)
        {
          assert SnapshotMatches(result.perTxSnapshots[i], i, s, db, txs, bindings, rules);
          JudgeMeans(s, RunAll(s, db, txs[..i + 1]).db, bindings, rules);
        }
        CountIsCardinality(result.perTxSnapshots);
      case Err(error) =>
        var k: nat :| FirstError(k, error, s, db, txs, bindings, rules);
        FirstErrorMeans(k, error, s, db, txs, bindings, rules);
    }
  }

  /** Judging the database after the first `k` transactions fails with `error`, and judging none of
      the databases after fewer does. */
  ghost predicate FirstFailure(
    k: nat, error: AuditError, s: Settings, db: CacheDb, txs: seq<SimTxInput>,
    bindings: DbInvariantBindings, rules: seq<Rule>)
  {
    && 1 <= k <= |txs| && FailsOn(s, RunAll(s, db, txs[..k]).db, bindings, rules, error)
    && forall j, e :: 1 <= j < k ==> !FailsOn(s, RunAll(s, db, txs[..j]).db, bindings, rules, e)
  }

  lemma FirstErrorMeans(
    k: nat, error: AuditError, s: Settings, db: CacheDb, txs: seq<SimTxInput>,
    bindings: DbInvariantBindings, rules: seq<Rule>)
    requires FirstError(k, error, s, db, txs, bindings, rules)
    ensures FirstFailure(k, error, s, db, txs, bindings, rules)
  {
    JudgeMeans(s, RunAll(s, db, txs[..k]).db, bindings, rules);
    forall j, e | 1 <= j < k
      ensures !FailsOn(s, RunAll(s, db, txs[..j]).db, bindings, rules, e)
    {
      assert AuditOf(s, db, txs, j, bindings, rules).Ok?;
      JudgedDoesNotFail(s, RunAll(s, db, txs[..j]).db, bindings, rules, e);
    }
  }

  lemma JudgedDoesNotFail(
    s: Settings, db: CacheDb, bindings: DbInvariantBindings, rules: seq<Rule>, error: AuditError)
    requires Judge(s, db, bindings, rules).Ok?
    ensures !FailsOn(s, db, bindings, rules, error)
  {
    JudgeMeans(s, db, bindings, rules);
  }

  lemma {:induction false} CountIsCardinality(snapshots: seq<TxInvariantSnapshot>)
    ensures ViolationCount(snapshots) == |set i | 0 <= i < |snapshots| && snapshots[i].violation != None|
  {
    if |snapshots| > 0 {
      var n := |snapshots| - 1;
      CountIsCardinality(snapshots[..n]);
      var before := set i | 0 <= i < n && snapshots[..n][i].violation != None;
      var all := set i | 0 <= i < |snapshots| && snapshots[i].violation != None;
      assert all == before + if snapshots[n].violation != None then {n} else {};
    }
  }

  /** Executing the transactions for real ends on the database that the audit judged, and returns
      the results it reports, as long as the nonce overrides have nothing to change. */
  lemma {:induction false} AuditJudgesExecution(
    s: Settings, db: CacheDb, txs: seq<SimTxInput>, bindings: DbInvariantBindings, rules: seq<Rule>)
    requires NoncesSettled(s, db, txs) && AuditOf(s, db, txs, |txs|, bindings, rules).Ok?
    ensures var report := AuditOf(s, db, txs, |txs|, bindings, rules).value;
            ExecuteAll(s, db, txs).1 == report.inspection.txResults && Some(ExecuteAll(s, db, txs).0) == report.finalDb
  {
    ExecuteAgrees(s, db, txs);
    assert txs[..|txs|] == txs;
  }
}
