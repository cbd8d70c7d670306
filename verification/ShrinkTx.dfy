/** Shrinking a violating transaction sequence: greedy deletion, then bisection of each surviving value. */
module ShrinkTx {
  import opened Wrappers
  import opened Words
  import opened Selections
  import opened Transactions
  import opened DeletionPass
  import opened Bisection

  datatype ValueChange = ValueChange(originalIndex: nat, before: U256, after: U256)

  datatype ShrinkDiffSummary = ShrinkDiffSummary(
    originalLen: nat,
    minimizedLen: nat,
    removedOriginalIndices: seq<nat>,
    valueChanges: seq<ValueChange>)
  {
    predicate IsNoop() {
      originalLen == minimizedLen && |removedOriginalIndices| == 0 && |valueChanges| == 0
    }
  }

  datatype ShrinkMetrics = ShrinkMetrics(originalLen: nat, minimizedLen: nat, removedCount: nat, traceCount: nat)

  datatype ShrinkOptions = ShrinkOptions(
    bisectValue: bool,
    minValue: U256,
    restrictToOriginalIndices: Option<set<nat>>)

  datatype SequenceShrinkResult = SequenceShrinkResult(
    originalSequence: seq<SimTxInput>,
    minimizedSequence: seq<SimTxInput>,
    diff: ShrinkDiffSummary,
    traces: seq<TraceEvent>)
  {
    function Metrics(): ShrinkMetrics {
      ShrinkMetrics(diff.originalLen, diff.minimizedLen, |diff.removedOriginalIndices|, |traces|)
    }
  }

  datatype ShrinkReport = ShrinkReport(minimizedSequence: seq<SimTxInput>, traces: seq<TraceEvent>) {
    /** The removed count is a saturating difference of lengths here. */
    function Metrics(originalLen: nat): ShrinkMetrics {
      var minimizedLen := |minimizedSequence|;
      ShrinkMetrics(
        originalLen,
        minimizedLen,
        if minimizedLen <= originalLen then originalLen - minimizedLen else 0,
        |traces|)
    }
  }

  datatype IndexedTx = IndexedTx(originalIndex: nat, tx: SimTxInput)

  function Indexed(sequence: seq<SimTxInput>): (r: seq<IndexedTx>)
    ensures |r| == |sequence|
    ensures Unindexed(r) == sequence
    ensures OriginalIndices(r) == Range(0, |sequence|)
  {
    seq(|sequence|, i requires 0 <= i < |sequence| => IndexedTx(i, sequence[i]))
  }

  function Unindexed(sequence: seq<IndexedTx>): (r: seq<SimTxInput>)
    ensures |r| == |sequence|
    ensures forall i :: 0 <= i < |r| ==> r[i] == sequence[i].tx
  {
    seq(|sequence|, i requires 0 <= i < |sequence| => sequence[i].tx)
  }

  function OriginalIndices(sequence: seq<IndexedTx>): (r: seq<nat>)
    ensures |r| == |sequence|
    ensures forall i :: 0 <= i < |r| ==> r[i] == sequence[i].originalIndex
  {
    seq(|sequence|, i requires 0 <= i < |sequence| => sequence[i].originalIndex)
  }

  /** The deletion pass asks about the bare transactions of an indexed candidate. */
  function OnIndexed(violates: seq<SimTxInput> -> bool): seq<IndexedTx> -> bool {
    candidate => violates(Unindexed(candidate))
  }

  /** The bisection of transaction `i` asks about the sequence with its value replaced. */
  function Probe(current: seq<SimTxInput>, i: nat, violates: seq<SimTxInput> -> bool): U256 -> bool {
    (v: U256) => violates(RewriteAmount(current, i, v))
  }

  predicate Allowed(originalIndex: nat, options: ShrinkOptions) {
    options.restrictToOriginalIndices.None? || originalIndex in options.restrictToOriginalIndices.value
  }

  /** Whether the second pass bisects a transaction that has this original index and value. */
  predicate Bisected(originalIndex: nat, value: U256, options: ShrinkOptions) {
    options.bisectValue && Allowed(originalIndex, options) && value > options.minValue
  }

  function ShrunkValue(
    current: seq<SimTxInput>, i: nat, originalIndex: nat, violates: seq<SimTxInput> -> bool, options: ShrinkOptions)
    : U256
    requires i < |current|
  {
    var value := current[i].value;
    if Bisected(originalIndex, value, options)
    then Bisect(options.minValue, value, value, Probe(current, i, violates))
    else value
  }

  /** The second pass from transaction `i` on. */
  function ValuePass(
    current: seq<SimTxInput>, idx: seq<nat>, i: nat, violates: seq<SimTxInput> -> bool, options: ShrinkOptions)
    : (r: seq<SimTxInput>)
    requires |idx| == |current| && i <= |current|
    ensures |r| == |current|
    decreases |current| - i
  {
    if i == |current| then current
    else
      var next := RewriteAmount(current, i, ShrunkValue(current, i, idx[i], violates, options));
      ValuePass(next, idx, i + 1, violates, options)
  }

  /** The changes of value among the first `n` transactions. */
  function Changes(before: seq<SimTxInput>, after: seq<SimTxInput>, idx: seq<nat>, n: nat): (r: seq<ValueChange>)
    requires |before| == |after| == |idx| && n <= |idx|
  {
    if n == 0 then []
    else
      Changes(before, after, idx, n - 1) +
      (if before[n - 1].value != after[n - 1].value
       then [ValueChange(idx[n - 1], before[n - 1].value, after[n - 1].value)] else [])
  }

  function IndexSet(idx: seq<nat>): (r: set<nat>)
    ensures forall i :: i in r <==> i in idx
  {
    set i | i in idx
  }

  /** The indices below `n` that are not in `kept`, in ascending order. */
  function Missing(n: nat, kept: set<nat>): (r: seq<nat>)
    ensures forall j :: 0 <= j < |r| ==> r[j] < n && r[j] !in kept
    ensures forall i: nat :: i < n && i !in kept ==> i in r
    ensures StrictlyIncreasing(r)
  {
    if n == 0 then [] else Missing(n - 1, kept) + (if n - 1 in kept then [] else [n - 1])
  }

  /** The outcome of the whole shrink, in terms of the original indices kept by the deletion pass. */
  function Shrunk(original: seq<SimTxInput>, violates: seq<SimTxInput> -> bool, options: ShrinkOptions)
    : SequenceShrinkResult
  {
    var mask := KeepMask([], original, violates);
    var kept := Select(original, mask);
    var idx := KeptIndices(original, violates);
    var minimized := ValuePass(kept, idx, 0, violates, options);
    SequenceShrinkResult(
      original,
      minimized,
      ShrinkDiffSummary(
        |original|,
        |minimized|,
        Missing(|original|, IndexSet(idx)),
        Changes(kept, minimized, idx, |kept|)),
      [])
  }

  /** The original indices of the transactions that `mask` keeps. */
  function SelectedIndices(original: seq<SimTxInput>, mask: seq<bool>): (idx: seq<nat>)
    requires |mask| == |original|
    ensures |idx| == |Select(original, mask)|
  {
    SelectIndices(original, mask, 0);
    Select(Range(0, |original|), mask)
  }

  function KeptIndices(original: seq<SimTxInput>, violates: seq<SimTxInput> -> bool): (idx: seq<nat>)
    ensures |idx| == |Greedy(original, violates)|
  {
    SelectedIndices(original, KeepMask([], original, violates))
  }

  lemma {:induction false} UnindexedSelect(s: seq<IndexedTx>, mask: seq<bool>)
    requires |s| == |mask|
    ensures Unindexed(Select(s, mask)) == Select(Unindexed(s), mask)
    ensures OriginalIndices(Select(s, mask)) == Select(OriginalIndices(s), mask)
  {
    if |s| == 0 {
    } else {
      assert Unindexed(s)[1..] == Unindexed(s[1..]);
      assert OriginalIndices(s)[1..] == OriginalIndices(s[1..]);
      UnindexedSelect(s[1..], mask[1..]);
    }
  }

  lemma {:induction false} KeepMaskUnindexed(
    kept: seq<IndexedTx>, rest: seq<IndexedTx>, violates: seq<SimTxInput> -> bool)
    ensures KeepMask(kept, rest, OnIndexed(violates)) == KeepMask(Unindexed(kept), Unindexed(rest), violates)
    decreases |rest|
  {
    if |rest| == 0 {
    } else {
      var tail := rest[1..];
      assert Unindexed(rest)[1..] == Unindexed(tail);
      assert Unindexed(kept + tail) == Unindexed(kept) + Unindexed(tail);
      if violates(Unindexed(kept + tail)) {
        KeepMaskUnindexed(kept, tail, violates);
      } else {
        assert Unindexed(kept + [rest[0]]) == Unindexed(kept) + [Unindexed(rest)[0]];
        KeepMaskUnindexed(kept + [rest[0]], tail, violates);
      }
    }
  }

  /** The deletion pass over indexed transactions is the one over bare transactions, with the kept indices attached. */
  lemma IndexedGreedy(original: seq<SimTxInput>, violates: seq<SimTxInput> -> bool)
    ensures var r := Greedy(Indexed(original), OnIndexed(violates));
            Unindexed(r) == Greedy(original, violates) && OriginalIndices(r) == KeptIndices(original, violates)
  {
    KeepMaskUnindexed([], Indexed(original), violates);
    assert Unindexed([]) == [];
    UnindexedSelect(Indexed(original), KeepMask([], original, violates));
  }

  /** `removed_indices` */
  method RemovedIndices(originalLen: nat, kept: seq<IndexedTx>) returns (removed: seq<nat>)
    ensures removed == Missing(originalLen, IndexSet(OriginalIndices(kept)))
  {
    var keptSet: set<nat> := {};
    for k := 0 to |kept|
      invariant keptSet == IndexSet(OriginalIndices(kept)[..k])
    {
      assert OriginalIndices(kept)[..k + 1] == OriginalIndices(kept)[..k] + [kept[k].originalIndex];
      keptSet := keptSet + {kept[k].originalIndex};
    }
    assert OriginalIndices(kept)[..|kept|] == OriginalIndices(kept);
    removed := [];
    for idx := 0 to originalLen
      invariant removed == Missing(idx, keptSet)
    {
      if idx !in keptSet {
        removed := removed + [idx];
      }
    }
  }

  lemma RewriteSame(s: seq<SimTxInput>, i: nat)
    requires i < |s|
    ensures RewriteAmount(s, i, s[i].value) == s
  {
  }

  lemma {:induction false} ChangesFrame(
    before: seq<SimTxInput>, after: seq<SimTxInput>, other: seq<SimTxInput>, idx: seq<nat>, n: nat)
    requires |before| == |after| == |idx| == |other| && n <= |idx|
    requires forall j :: 0 <= j < n ==> after[j] == other[j]
    ensures Changes(before, after, idx, n) == Changes(before, other, idx, n)
  {
    if n == 0 {
    } else {
      ChangesFrame(before, after, other, idx, n - 1);
    }
  }

  /** Every bisection that the second pass runs from transaction `i` on comes to an end. */
  predicate PassEnds(
    current: seq<SimTxInput>, idx: seq<nat>, i: nat, violates: seq<SimTxInput> -> bool, options: ShrinkOptions)
    requires |idx| == |current| && i <= |current|
    decreases |current| - i
  {
    i == |current| ||
    (&& (Bisected(idx[i], current[i].value, options)
         ==> !Diverges(current[i].value, options.minValue, Probe(current, i, violates)))
     && PassEnds(
          RewriteAmount(current, i, ShrunkValue(current, i, idx[i], violates, options)),
          idx, i + 1, violates, options))
  }

  /** The whole shrink comes to an end. */
  predicate ShrinkEnds(original: seq<SimTxInput>, violates: seq<SimTxInput> -> bool, options: ShrinkOptions) {
    PassEnds(Greedy(original, violates), KeptIndices(original, violates), 0, violates, options)
  }

  /** No value to be bisected from position `i` on is the last of the word. */
  predicate NoTopValue(s: seq<SimTxInput>, idx: seq<nat>, i: nat, options: ShrinkOptions)
    requires |idx| == |s|
  {
    forall j :: i <= j < |s| && Bisected(idx[j], s[j].value, options) ==> s[j].value < MAX_U256
  }

  lemma {:induction false} PassEndsWhen(
    s: seq<SimTxInput>, idx: seq<nat>, i: nat, violates: seq<SimTxInput> -> bool, options: ShrinkOptions)
    requires |idx| == |s| && i <= |s|
    requires violates(s) || NoTopValue(s, idx, i, options)
    ensures PassEnds(s, idx, i, violates, options)
    decreases |s| - i
  {
    if i == |s| {
    } else {
      RewriteSame(s, i);
      if Bisected(idx[i], s[i].value, options) {
        SafeStart(s[i].value, options.minValue, Probe(s, i, violates));
        BisectInRange(s[i].value, options.minValue, Probe(s, i, violates));
      }
      PassEndsWhen(RewriteAmount(s, i, ShrunkValue(s, i, idx[i], violates, options)), idx, i + 1, violates, options);
    }
  }

  /** On a violating sequence, the documented use, every bisection ends: the sequence at hand violates throughout. */
  lemma ViolatingShrinkEnds(original: seq<SimTxInput>, violates: seq<SimTxInput> -> bool, options: ShrinkOptions)
    requires violates(original)
    ensures ShrinkEnds(original, violates, options)
  {
    GreedyOutcome(original, violates);
    PassEndsWhen(Greedy(original, violates), KeptIndices(original, violates), 0, violates, options);
  }

  /** The state of the second pass before transaction `i`: what it leads to, and what it has recorded. */
  ghost predicate PassAt(
    kept: seq<SimTxInput>, idx: seq<nat>, minimized: seq<SimTxInput>, changes: seq<ValueChange>, i: nat,
    violates: seq<SimTxInput> -> bool, options: ShrinkOptions)
  {
    && |idx| == |kept| == |minimized| && i <= |kept|
    && minimized[i..] == kept[i..]
    && ValuePass(minimized, idx, i, violates, options) == ValuePass(kept, idx, 0, violates, options)
    && changes == Changes(kept, minimized, idx, i)
    && PassEnds(minimized, idx, i, violates, options)
  }

  lemma PassStep(
    kept: seq<SimTxInput>, idx: seq<nat>, minimized: seq<SimTxInput>, changes: seq<ValueChange>, i: nat,
    violates: seq<SimTxInput> -> bool, options: ShrinkOptions)
    requires i < |kept| && PassAt(kept, idx, minimized, changes, i, violates, options)
    ensures minimized[i].value == kept[i].value
    ensures var value, best := minimized[i].value, ShrunkValue(minimized, i, idx[i], violates, options);
            var change := if best != value then [ValueChange(idx[i], value, best)] else [];
            PassAt(kept, idx, RewriteAmount(minimized, i, best), changes + change, i + 1, violates, options)
  {
    var best := ShrunkValue(minimized, i, idx[i], violates, options);
    var next := RewriteAmount(minimized, i, best);
    assert minimized[i] == minimized[i..][0] == kept[i..][0] == kept[i];
    assert next[i + 1..] == minimized[i..][1..] == kept[i..][1..] == kept[i + 1..];
    ChangesFrame(kept, minimized, next, idx, i);
  }

  /** `shrink_simtx_sequence`. The ghost result counts the predicate calls of both passes. The
      precondition is the termination of the run itself; `ViolatingShrinkEnds` gives it for the
      documented use. */
  method ShrinkSimTxSequence(
    originalSequence: seq<SimTxInput>, violates: seq<SimTxInput> -> bool, options: ShrinkOptions)
    returns (result: SequenceShrinkResult, ghost calls: nat)
    requires ShrinkEnds(originalSequence, violates, options)
    ensures result == Shrunk(originalSequence, violates, options)
    ensures calls <= |originalSequence| + 257 * |result.minimizedSequence|
    ensures !options.bisectValue ==> calls == |originalSequence|
  {
    var indexedSeq := Indexed(originalSequence);
    var minimizedIndexed;
    minimizedIndexed, calls := ShrinkSequence(indexedSeq, OnIndexed(violates));
    IndexedGreedy(originalSequence, violates);

    var minimized := Unindexed(minimizedIndexed);
    var removed := RemovedIndices(|originalSequence|, minimizedIndexed);
    ghost var kept, idx := minimized, OriginalIndices(minimizedIndexed);

    var valueChanges: seq<ValueChange> := [];
    if options.bisectValue {
      for i := 0 to |minimizedIndexed|
        invariant PassAt(kept, idx, minimized, valueChanges, i, violates, options)
        invariant calls <= |originalSequence| + 257 * i
      {
        var originalIndex := minimizedIndexed[i].originalIndex;
        var current := minimized[i].value;
        PassStep(kept, idx, minimized, valueChanges, i, violates, options);
        RewriteSame(minimized, i);
        if !Allowed(originalIndex, options) || current <= options.minValue {
          assert valueChanges + [] == valueChanges;
          continue;
        }
        var best;
        ghost var probes;
        best, probes := ShrinkU256Bisect(current, options.minValue, Probe(minimized, i, violates));
        calls := calls + probes;
        if best != current {
          valueChanges := valueChanges + [ValueChange(originalIndex, current, best)];
          minimized := minimized[i := minimized[i].(value := best)];
        } else {
          assert valueChanges + [] == valueChanges;
        }
      }
    } else {
      NoValuePass(kept, idx, 0, violates, options);
    }

    result := SequenceShrinkResult(
      originalSequence,
      minimized,
      ShrinkDiffSummary(|originalSequence|, |minimized|, removed, valueChanges),
      []);
  }

  lemma {:induction false} NoChanges(s: seq<SimTxInput>, idx: seq<nat>, n: nat)
    requires |s| == |idx| && n <= |idx|
    ensures Changes(s, s, idx, n) == []
  {
    if n == 0 {
    } else {
      NoChanges(s, idx, n - 1);
    }
  }

  lemma {:induction false} NoValuePass(
    s: seq<SimTxInput>, idx: seq<nat>, i: nat, violates: seq<SimTxInput> -> bool, options: ShrinkOptions)
    requires |idx| == |s| && i <= |s| && !options.bisectValue
    ensures ValuePass(s, idx, i, violates, options) == s
    ensures Changes(s, s, idx, |s|) == []
    decreases |s| - i
  {
    NoChanges(s, idx, |s|);
    if i == |s| {
    } else {
      RewriteSame(s, i);
      NoValuePass(s, idx, i + 1, violates, options);
    }
  }
}
