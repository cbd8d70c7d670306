/** The reported difference: an exact recipe from the original sequence to the minimized one. */
module ShrinkDiff {
  import opened Words
  import opened Selections
  import opened Transactions
  import opened DeletionPass
  import opened ShrinkTx
  import opened ShrinkOptimality

  /** Carry out the value changes on the original sequence, in order. */
  function ApplyChanges(s: seq<SimTxInput>, changes: seq<ValueChange>): (r: seq<SimTxInput>)
    ensures |r| == |s|
  {
    if |changes| == 0 then s
    else
      var last := changes[|changes| - 1];
      RewriteAmount(ApplyChanges(s, changes[..|changes| - 1]), last.originalIndex, last.after)
  }

  /** The items of `s` at the indices not listed in `removed`. */
  function Without<T>(s: seq<T>, removed: seq<nat>): seq<T> {
    Select(s, seq(|s|, i => i !in removed))
  }

  /** What a reader of the diff rebuilds from the original. */
  function Replay(original: seq<SimTxInput>, diff: ShrinkDiffSummary): seq<SimTxInput> {
    Without(ApplyChanges(original, diff.valueChanges), diff.removedOriginalIndices)
  }

  function Negate(mask: seq<bool>): (r: seq<bool>)
    ensures |r| == |mask|
    ensures forall i :: 0 <= i < |r| ==> r[i] == !mask[i]
  {
    seq(|mask|, i requires 0 <= i < |mask| => !mask[i])
  }

  /** `kept` are the items of `original` that `mask` keeps, and `idx` their indices. */
  ghost predicate KeptBy<T>(idx: seq<nat>, kept: seq<T>, original: seq<T>, mask: seq<bool>) {
    && |mask| == |original| && |idx| == |kept|
    && StrictlyIncreasing(idx)
    && (forall j :: 0 <= j < |idx| ==> idx[j] < |original| && original[idx[j]] == kept[j])
    && (forall i :: 0 <= i < |mask| ==> (mask[i] <==> i in idx))
  }

  lemma IndexesIsKeptBy<T>(idx: seq<nat>, kept: seq<T>, original: seq<T>, mask: seq<bool>)
    requires |mask| == |original| && Indexes(idx, kept, original, mask, 0)
    ensures KeptBy(idx, kept, original, mask)
  {
    forall j | 0 <= j < |idx|
      ensures idx[j] < |original| && original[idx[j]] == kept[j]
    {
      assert original[idx[j] - 0] == kept[j];
    }
    forall i | 0 <= i < |mask|
      ensures mask[i] <==> i in idx
    {
      assert mask[i] <==> 0 + i in idx;
    }
  }

  lemma SelectIsKeptBy<T>(original: seq<T>, mask: seq<bool>)
    requires |mask| == |original|
    ensures KeptBy(Select(Range(0, |original|), mask), Select(original, mask), original, mask)
  {
    SelectIndices(original, mask, 0);
    IndexesIsKeptBy(Select(Range(0, |original|), mask), Select(original, mask), original, mask);
  }

  /** The kept indices say what the deletion pass did. */
  lemma KeptIndicesFacts(original: seq<SimTxInput>, violates: seq<SimTxInput> -> bool)
    ensures KeptBy(
              KeptIndices(original, violates), Greedy(original, violates), original, KeepMask([], original, violates))
  {
    SelectIsKeptBy(original, KeepMask([], original, violates));
  }

  lemma RangeStep(n: nat)
    requires n > 0
    ensures Range(0, n) == Range(0, n - 1) + [n - 1 as nat]
  {
  }

  /** The missing indices are the ones the mask drops. */
  lemma {:induction false} MissingIsSelect(n: nat, kept: set<nat>, dropped: seq<bool>)
    requires n == |dropped| && forall i :: 0 <= i < n ==> (dropped[i] <==> i !in kept)
    ensures Missing(n, kept) == Select(Range(0, n), dropped)
  {
    if n == 0 {
    } else {
      var last, item: seq<nat> := dropped[n - 1], [n - 1];
      MissingIsSelect(n - 1, kept, dropped[..n - 1]);
      RangeStep(n);
      assert dropped == dropped[..n - 1] + [last];
      SelectAppend(Range(0, n - 1), item, dropped[..n - 1], [last]);
      assert Select(item, [last]) == if last then item else [];
    }
  }

  /** The listed and the unlisted indices below `n` together are all of them. */
  lemma MissingComplements(n: nat, idx: seq<nat>, mask: seq<bool>)
    requires n == |mask| && idx == Select(Range(0, n), mask)
    requires forall i :: 0 <= i < n ==> (mask[i] <==> i in idx)
    ensures |Missing(n, IndexSet(idx))| + |idx| == n
  {
    MissingIsSelect(n, IndexSet(idx), Negate(mask));
    SelectCount(Range(0, n), mask, Negate(mask));
  }

  /** Removed and kept indices are strictly increasing and partition the original indices. */
  lemma IndexPartition(original: seq<SimTxInput>, violates: seq<SimTxInput> -> bool, options: ShrinkOptions)
    ensures StrictlyIncreasing(Shrunk(original, violates, options).diff.removedOriginalIndices)
    ensures StrictlyIncreasing(KeptIndices(original, violates))
    ensures forall i: nat :: i < |original| ==>
              (i in Shrunk(original, violates, options).diff.removedOriginalIndices
               <==> i !in KeptIndices(original, violates))
    ensures forall i :: i in Shrunk(original, violates, options).diff.removedOriginalIndices ==> i < |original|
    ensures forall i :: i in KeptIndices(original, violates) ==> i < |original|
    ensures |Shrunk(original, violates, options).diff.removedOriginalIndices| + |KeptIndices(original, violates)|
         == |original|
  {
    KeptIndicesFacts(original, violates);
    MissingComplements(|original|, KeptIndices(original, violates), KeepMask([], original, violates));
  }

  /** Both metrics agree on every field, though one counts removed indices and the other subtracts lengths. */
  lemma MetricsAgree(original: seq<SimTxInput>, violates: seq<SimTxInput> -> bool, options: ShrinkOptions)
    ensures var result := Shrunk(original, violates, options);
            result.Metrics() == ShrinkReport(result.minimizedSequence, result.traces).Metrics(|original|)
  {
    IndexPartition(original, violates, options);
  }

  /** In `a`, the first `n` kept transactions have their final form and the others are untouched. */
  predicate AppliedUpTo(
    a: seq<SimTxInput>, kept: seq<SimTxInput>, r: seq<SimTxInput>, idx: seq<nat>, n: nat)
    requires |idx| == |kept| == |r|
  {
    forall j :: 0 <= j < |idx| ==> idx[j] < |a| && a[idx[j]] == if j < n then r[j] else kept[j]
  }

  lemma ApplyNext(
    a: seq<SimTxInput>, kept: seq<SimTxInput>, r: seq<SimTxInput>, idx: seq<nat>, n: nat)
    requires PointwiseLeq(r, kept) && |idx| == |kept| && n < |idx| && StrictlyIncreasing(idx)
    requires AppliedUpTo(a, kept, r, idx, n)
    ensures AppliedUpTo(RewriteAmount(a, idx[n], r[n].value), kept, r, idx, n + 1)
    ensures kept[n].value == r[n].value ==> AppliedUpTo(a, kept, r, idx, n + 1)
  {
    assert TxLeq(r[n], kept[n]);
    forall j | 0 <= j < |idx| && j != n
      ensures idx[j] != idx[n]
    {
      assert j < n ==> idx[j] < idx[n];
      assert n < j ==> idx[n] < idx[j];
    }
  }

  /** Replaying the first `n` recorded changes brings the first `n` kept transactions to their final form. */
  lemma {:induction false} ChangesApplied(
    original: seq<SimTxInput>, kept: seq<SimTxInput>, r: seq<SimTxInput>, idx: seq<nat>, n: nat)
    requires |idx| == |kept| && PointwiseLeq(r, kept) && n <= |idx| && StrictlyIncreasing(idx)
    requires AppliedUpTo(original, kept, r, idx, 0)
    ensures AppliedUpTo(ApplyChanges(original, Changes(kept, r, idx, n)), kept, r, idx, n)
  {
    if n == 0 {
    } else {
      ChangesApplied(original, kept, r, idx, n - 1);
      var before, after := Changes(kept, r, idx, n - 1), Changes(kept, r, idx, n);
      ApplyNext(ApplyChanges(original, before), kept, r, idx, n - 1);
      if kept[n - 1].value != r[n - 1].value {
        assert after[..|after| - 1] == before;
      } else {
        assert after == before;
      }
    }
  }

  /** Dropping everything but the kept indices from the rewritten original leaves the final transactions. */
  lemma ReplayOf(
    original: seq<SimTxInput>, kept: seq<SimTxInput>, r: seq<SimTxInput>, idx: seq<nat>, mask: seq<bool>)
    requires KeptBy(idx, kept, original, mask) && idx == Select(Range(0, |original|), mask) && PointwiseLeq(r, kept)
    ensures Without(ApplyChanges(original, Changes(kept, r, idx, |kept|)), Missing(|original|, IndexSet(idx))) == r
  {
    var a, removed := ApplyChanges(original, Changes(kept, r, idx, |kept|)), Missing(|original|, IndexSet(idx));
    ChangesApplied(original, kept, r, idx, |kept|);
    assert seq(|a|, i => i !in removed) == mask;
    SelectIsKeptBy(a, mask);
    assert Select(a, mask) == r;
  }

  /** Deleting the removed indices and applying the value changes reproduces the minimized sequence in every field. */
  lemma DiffRoundTrip(original: seq<SimTxInput>, violates: seq<SimTxInput> -> bool, options: ShrinkOptions)
    ensures var result := Shrunk(original, violates, options);
            Replay(original, result.diff) == result.minimizedSequence
  {
    var r := Shrunk(original, violates, options).minimizedSequence;
    var kept, idx := Greedy(original, violates), KeptIndices(original, violates);
    KeptIndicesFacts(original, violates);
    ValuePassFacts(kept, idx, 0, violates, options, r);
    ReplayOf(original, kept, r, idx, KeepMask([], original, violates));
  }

  /** A recorded change, in terms of the position it stems from. */
  predicate ChangeAt(
    c: ValueChange, kept: seq<SimTxInput>, r: seq<SimTxInput>, idx: seq<nat>, j: nat)
    requires |kept| == |r| == |idx|
  {
    j < |idx| && c == ValueChange(idx[j], kept[j].value, r[j].value) && c.before != c.after
  }

  ghost predicate ChangeBelow(c: ValueChange, kept: seq<SimTxInput>, r: seq<SimTxInput>, idx: seq<nat>, n: nat)
    requires |kept| == |r| == |idx|
  {
    exists j: nat :: j < n && ChangeAt(c, kept, r, idx, j)
  }

  predicate SortedByIndex(changes: seq<ValueChange>) {
    forall k, l :: 0 <= k < l < |changes| ==> changes[k].originalIndex < changes[l].originalIndex
  }

  lemma {:induction false} ChangesAreSorted(kept: seq<SimTxInput>, r: seq<SimTxInput>, idx: seq<nat>, n: nat)
    requires |kept| == |r| == |idx| && n <= |idx| && StrictlyIncreasing(idx)
    ensures forall c :: c in Changes(kept, r, idx, n) ==> ChangeBelow(c, kept, r, idx, n)
    ensures SortedByIndex(Changes(kept, r, idx, n))
  {
    if n == 0 {
    } else {
      ChangesAreSorted(kept, r, idx, n - 1);
      var before, changes := Changes(kept, r, idx, n - 1), Changes(kept, r, idx, n);
      forall c | c in before
        ensures ChangeBelow(c, kept, r, idx, n) && c.originalIndex < idx[n - 1]
      {
        assert ChangeBelow(c, kept, r, idx, n - 1);
        var j: nat :| j < n - 1 && ChangeAt(c, kept, r, idx, j);
      }
      if changes != before {
        var last := ValueChange(idx[n - 1], kept[n - 1].value, r[n - 1].value);
        assert changes == before + [last];
        assert ChangeAt(last, kept, r, idx, n - 1);
        assert forall k :: 0 <= k < |before| ==> before[k] in before;
      }
    }
  }

  /** A change that the options permit and that lowers the value its transaction had. */
  predicate Lowering(c: ValueChange, original: seq<SimTxInput>, options: ShrinkOptions) {
    && c.originalIndex < |original|
    && c.before == original[c.originalIndex].value
    && options.bisectValue && Allowed(c.originalIndex, options)
    && options.minValue <= c.after < c.before
  }

  /** Every reported change names a kept, allowed transaction and lowers its value, not below the
      minimum; the changes come in strictly increasing order of index. */
  lemma ChangesAreLowerings(original: seq<SimTxInput>, violates: seq<SimTxInput> -> bool, options: ShrinkOptions)
    ensures forall c :: c in Shrunk(original, violates, options).diff.valueChanges ==>
              c.originalIndex in KeptIndices(original, violates) && Lowering(c, original, options)
    ensures SortedByIndex(Shrunk(original, violates, options).diff.valueChanges)
  {
    var r := Shrunk(original, violates, options).minimizedSequence;
    var kept, idx := Greedy(original, violates), KeptIndices(original, violates);
    KeptIndicesFacts(original, violates);
    ValuePassFacts(kept, idx, 0, violates, options, r);
    ChangesAreSorted(kept, r, idx, |kept|);
    forall c | c in Changes(kept, r, idx, |kept|)
      ensures c.originalIndex in idx && Lowering(c, original, options)
    {
      assert ChangeBelow(c, kept, r, idx, |kept|);
      var j: nat :| j < |kept| && ChangeAt(c, kept, r, idx, j);
      assert TxLeq(r[j], kept[j]) && Floor(idx[j], kept[j].value, options) <= r[j].value;
    }
  }

  /** `is_noop` tells exactly whether the minimized sequence is the original. */
  lemma NoopMeansUnchanged(original: seq<SimTxInput>, violates: seq<SimTxInput> -> bool, options: ShrinkOptions)
    ensures Shrunk(original, violates, options).diff.IsNoop()
       <==> Shrunk(original, violates, options).minimizedSequence == original
  {
    var result := Shrunk(original, violates, options);
    if result.diff.IsNoop() {
      DiffRoundTrip(original, violates, options);
      assert seq(|original|, i => i !in result.diff.removedOriginalIndices) == AllTrue(|original|);
      SelectAll(original);
    }
    if result.minimizedSequence == original {
      IndexPartition(original, violates, options);
      SelectEverything(original, KeepMask([], original, violates));
      SelectAll(original);
      NoChanges(original, KeptIndices(original, violates), |original|);
    }
  }

  /* ----- What the options let the second pass touch ----- */

  /** With bisection off every kept transaction is the original one, and no change is reported. Under
      a restriction that holds of every kept transaction whose original index is not named, and every
      reported change names one that is. This is so for any predicate. */
  lemma OnlyNamedChange(original: seq<SimTxInput>, violates: seq<SimTxInput> -> bool, options: ShrinkOptions)
    ensures var result, idx := Shrunk(original, violates, options), KeptIndices(original, violates);
            && |result.minimizedSequence| == |idx|
            && (forall j :: 0 <= j < |idx| ==> idx[j] < |original|)
            && (!options.bisectValue ==>
                  result.diff.valueChanges == []
                  && forall j :: 0 <= j < |idx| ==> result.minimizedSequence[j] == original[idx[j]])
            && match options.restrictToOriginalIndices
               case None => true
               case Some(named) =>
                 && (forall j :: 0 <= j < |idx| && idx[j] !in named ==>
                       result.minimizedSequence[j] == original[idx[j]])
                 && (forall c :: c in result.diff.valueChanges ==> c.originalIndex in named)
  {
    var r := Shrunk(original, violates, options).minimizedSequence;
    var kept, idx := Greedy(original, violates), KeptIndices(original, violates);
    KeptIndicesFacts(original, violates);
    ValuePassFacts(kept, idx, 0, violates, options, r);
    ChangesAreLowerings(original, violates, options);
    forall j | 0 <= j < |idx| && !(options.bisectValue && Allowed(idx[j], options))
      ensures r[j] == original[idx[j]]
    {
      assert TxLeq(r[j], kept[j]);
    }
    var changes := Shrunk(original, violates, options).diff.valueChanges;
    assert changes != [] ==> changes[0] in changes;
  }

  /** ... and what they let it touch is as low as it can be: with bisection on, lowering the value of
      any kept transaction that is named, or of any at all when there is no restriction, cures the
      violation. */
  lemma NamedLoweringCures(
    original: seq<SimTxInput>, violates: seq<SimTxInput> -> bool, options: ShrinkOptions, j: nat, v: U256)
    requires JointlyMonotone(violates) && violates(original) && options.bisectValue
    requires j < |KeptIndices(original, violates)|
    requires match options.restrictToOriginalIndices
             case None => true
             case Some(named) => KeptIndices(original, violates)[j] in named
    requires options.minValue <= v < Shrunk(original, violates, options).minimizedSequence[j].value
    ensures var r := Shrunk(original, violates, options).minimizedSequence;
            violates(r) && !violates(r[j := r[j].(value := v)])
  {
    TwoPassMinimality(original, violates, options);
    var r := Shrunk(original, violates, options).minimizedSequence;
    assert RewriteAmount(r, j, v) == r[j := r[j].(value := v)];
  }

  /** The rest of the report: the original, the two lengths, and no trace. */
  lemma ReportShape(original: seq<SimTxInput>, violates: seq<SimTxInput> -> bool, options: ShrinkOptions)
    ensures var result := Shrunk(original, violates, options);
            && result.originalSequence == original && |original| == result.diff.originalLen
            && |result.minimizedSequence| == result.diff.minimizedLen
            && result.diff.minimizedLen + |result.diff.removedOriginalIndices| == |original|
            && result.traces == []
  {
    IndexPartition(original, violates, options);
  }
}
