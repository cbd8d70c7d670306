/** Shrinking with the audit as the predicate. */
module ShrinkAudit {
  import opened Wrappers
  import opened Transactions
  import opened Rules
  import opened Bindings
  import opened Execution
  import opened ShrinkTx
  import opened ShrinkOptimality
  import opened Audit

  /** The audit of a sequence reports a violation. */
  ghost function AuditViolates(s: Settings, db: CacheDb, bindings: DbInvariantBindings, rules: seq<Rule>)
    : seq<SimTxInput> -> bool
  {
    txs => AuditOf(s, db, txs, |txs|, bindings, rules).Ok?
           && AuditOf(s, db, txs, |txs|, bindings, rules).value.violation.Some?
  }

  /** What the shrinker makes of a sequence whose audit reports a violation is a sequence, below the
      original, whose audit still does; and the shrink comes to an end. */
  lemma {:induction false} ShrunkAuditStillViolates(
    s: Settings, db: CacheDb, bindings: DbInvariantBindings, rules: seq<Rule>,
    original: seq<SimTxInput>, options: ShrinkOptions)
    ensures var violates := AuditViolates(s, db, bindings, rules);
            var r := Shrunk(original, violates, options).minimizedSequence;
            violates(original) ==> ShrinkEnds(original, violates, options) && Below(r, original) && violates(r)
  {
    var violates := AuditViolates(s, db, bindings, rules);
    if violates(original) {
      ViolatingShrinkEnds(original, violates, options);
      ShrunkStillViolates(original, violates, options);
    }
  }

  /** So on the database that the shrunk sequence leaves, some rule is false. */
  lemma ShrunkBreaksRule(
    s: Settings, db: CacheDb, bindings: DbInvariantBindings, rules: seq<Rule>,
    original: seq<SimTxInput>, options: ShrinkOptions)
    ensures var violates := AuditViolates(s, db, bindings, rules);
            var r := Shrunk(original, violates, options).minimizedSequence;
            var extracted := Extract(bindings, RunAll(s, db, r).db, s.lib);
            violates(original) ==>
              extracted.Ok? && exists k :: 0 <= k < |rules| && Decide(rules[k], extracted.value) == Ok(false)
  {
    var r := Shrunk(original, AuditViolates(s, db, bindings, rules), options).minimizedSequence;
    ShrunkAuditStillViolates(s, db, bindings, rules, original, options);
    AuditMeans(s, db, r, bindings, rules);
  }
}
