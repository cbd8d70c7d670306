/** When a further shrink changes nothing. */
module ShrinkFixpoint {
  import opened Wrappers
  import opened Words
  import opened Selections
  import opened Transactions
  import opened DeletionPass
  import opened Bisection
  import opened ShrinkTx
  import opened ShrinkOptimality
  import opened ShrinkDiff

  /** If the second pass would bisect transaction `j`, then the next lower value cures the violation. */
  predicate StepStays(
    s: seq<SimTxInput>, idx: seq<nat>, j: nat, violates: seq<SimTxInput> -> bool, options: ShrinkOptions)
    requires |idx| == |s| && j < |s|
  {
    Bisected(idx[j], s[j].value, options) ==> !violates(RewriteAmount(s, j, s[j].value - 1))
  }

  predicate NoLowerNeighbour(
    s: seq<SimTxInput>, idx: seq<nat>, i: nat, violates: seq<SimTxInput> -> bool, options: ShrinkOptions)
    requires |idx| == |s|
  {
    forall j :: i <= j < |s| ==> StepStays(s, idx, j, violates, options)
  }

  lemma StepIsStillIff(
    s: seq<SimTxInput>, idx: seq<nat>, i: nat, violates: seq<SimTxInput> -> bool, options: ShrinkOptions)
    requires JointlyMonotone(violates) && violates(s) && |idx| == |s| && i < |s|
    ensures ShrunkValue(s, i, idx[i], violates, options) == s[i].value <==> StepStays(s, idx, i, violates, options)
  {
    var value := s[i].value;
    if Bisected(idx[i], value, options) {
      var p := Probe(s, i, violates);
      var below: U256 := value - 1;
      RewriteSame(s, i);
      assert p(value);
      assert p(below) == violates(RewriteAmount(s, i, below));
      BisectCorrect(value, options.minValue, p);
      ProbeMonotone(s, i, violates, options.minValue, value);
      var best: U256 := Bisect(options.minValue, value, value, p);
      assert best < value ==> best <= below && p(best) && p(below);
    }
  }

  lemma ValuePassMoves(
    s: seq<SimTxInput>, idx: seq<nat>, i: nat, violates: seq<SimTxInput> -> bool, options: ShrinkOptions)
    requires |idx| == |s| && i < |s| && ShrunkValue(s, i, idx[i], violates, options) != s[i].value
    ensures ValuePass(s, idx, i, violates, options) != s
  {
    var next := RewriteAmount(s, i, ShrunkValue(s, i, idx[i], violates, options));
    var r := ValuePass(next, idx, i + 1, violates, options);
    ValuePassFacts(next, idx, i + 1, violates, options, r);
    assert r[i] == next[i];
  }

  lemma {:induction false} ValuePassIsStillIff(
    s: seq<SimTxInput>, idx: seq<nat>, i: nat, violates: seq<SimTxInput> -> bool, options: ShrinkOptions)
    requires JointlyMonotone(violates) && violates(s) && |idx| == |s| && i <= |s|
    ensures ValuePass(s, idx, i, violates, options) == s <==> NoLowerNeighbour(s, idx, i, violates, options)
    decreases |s| - i
  {
    if i == |s| {
    } else {
      StepIsStillIff(s, idx, i, violates, options);
      if ShrunkValue(s, i, idx[i], violates, options) == s[i].value {
        RewriteSame(s, i);
        ValuePassIsStillIff(s, idx, i + 1, violates, options);
      } else {
        ValuePassMoves(s, idx, i, violates, options);
      }
    }
  }

  lemma AllKept(s: seq<SimTxInput>, violates: seq<SimTxInput> -> bool)
    requires KeepMask([], s, violates) == AllTrue(|s|)
    ensures Greedy(s, violates) == s && KeptIndices(s, violates) == Range(0, |s|)
  {
    SelectAll(s);
    SelectAll(Range(0, |s|));
  }

  /** Shrinking a violating sequence changes nothing exactly when no single deletion and no single
      step down of an eligible value keeps it violating: a condition checked with one query per
      transaction and pass. */
  lemma {:induction false} UnchangedIff(s: seq<SimTxInput>, violates: seq<SimTxInput> -> bool, options: ShrinkOptions)
    requires JointlyMonotone(violates) && violates(s)
    ensures Shrunk(s, violates, options).minimizedSequence == s
       <==> OneMinimalFrom(s, 0, violates) && NoLowerNeighbour(s, Range(0, |s|), 0, violates, options)
  {
    DeletionNoopIff(s, violates);
    SelectEverything(s, KeepMask([], s, violates));
    if KeepMask([], s, violates) == AllTrue(|s|) {
      AllKept(s, violates);
      ValuePassIsStillIff(s, Range(0, |s|), 0, violates, options);
    }
  }

  /** A second run with the same options leaves the output of the first alone exactly when it finds
      no lower neighbour at the positions the options name in the shorter sequence. */
  lemma SecondRunUnchangedIff(original: seq<SimTxInput>, violates: seq<SimTxInput> -> bool, options: ShrinkOptions)
    requires JointlyMonotone(violates) && violates(original)
    ensures var r := Shrunk(original, violates, options).minimizedSequence;
            Shrunk(r, violates, options).minimizedSequence == r
            <==> NoLowerNeighbour(r, Range(0, |r|), 0, violates, options)
  {
    TwoPassMinimality(original, violates, options);
    UnchangedIff(Shrunk(original, violates, options).minimizedSequence, violates, options);
  }

  predicate SecondRunChangesNothing(
    original: seq<SimTxInput>, violates: seq<SimTxInput> -> bool, options: ShrinkOptions)
  {
    var r := Shrunk(original, violates, options).minimizedSequence;
    Shrunk(r, violates, options).minimizedSequence == r
  }

  /** Whenever the options would bisect original transaction `q` at a position below its own, they
      also name `q` itself. */
  predicate RestrictionStable(original: seq<SimTxInput>, options: ShrinkOptions) {
    forall p: nat, q: nat ::
      p < q < |original| && Bisected(p, original[q].value, options) ==> Allowed(q, options)
  }

  lemma {:induction false} IncreasingFromZero(idx: seq<nat>, j: nat)
    requires StrictlyIncreasing(idx) && j < |idx|
    ensures j <= idx[j]
  {
    if j > 0 {
      IncreasingFromZero(idx, j - 1);
    }
  }

  /** A value eligible at its position in the shorter sequence was eligible at its original one. */
  lemma StableEligible(
    original: seq<SimTxInput>, kept: seq<SimTxInput>, idx: seq<nat>, mask: seq<bool>, j: nat, v: U256,
    options: ShrinkOptions)
    requires RestrictionStable(original, options) && KeptBy(idx, kept, original, mask)
    requires j < |idx| && v <= kept[j].value && Bisected(j, v, options)
    ensures Bisected(idx[j], v, options)
  {
    IncreasingFromZero(idx, j);
    assert Bisected(j, original[idx[j]].value, options);
    assert Allowed(idx[j], options);
  }

  lemma StableHasNoNeighbour(
    original: seq<SimTxInput>, kept: seq<SimTxInput>, idx: seq<nat>, mask: seq<bool>, r: seq<SimTxInput>,
    violates: seq<SimTxInput> -> bool, options: ShrinkOptions)
    requires RestrictionStable(original, options) && KeptBy(idx, kept, original, mask) && PointwiseLeq(r, kept)
    requires Unlowerable(r, idx, violates, options)
    ensures NoLowerNeighbour(r, Range(0, |r|), 0, violates, options)
  {
    forall j | 0 <= j < |r|
      ensures StepStays(r, Range(0, |r|), j, violates, options)
    {
      var value := r[j].value;
      if Bisected(j, value, options) {
        assert TxLeq(r[j], kept[j]);
        StableEligible(original, kept, idx, mask, j, value, options);
        var below: U256 := value - 1;
        assert !violates(RewriteAmount(r, j, below));
      }
    }
  }

  /** Under a stable restriction the output is a fixpoint: transactions only move to lower positions,
      and what is eligible there was eligible before. */
  lemma StableFixpoint(original: seq<SimTxInput>, violates: seq<SimTxInput> -> bool, options: ShrinkOptions)
    requires JointlyMonotone(violates) && violates(original)
    requires RestrictionStable(original, options)
    ensures SecondRunChangesNothing(original, violates, options)
  {
    var r := Shrunk(original, violates, options).minimizedSequence;
    var kept, idx := Greedy(original, violates), KeptIndices(original, violates);
    TwoPassMinimality(original, violates, options);
    KeptIndicesFacts(original, violates);
    ValuePassFacts(kept, idx, 0, violates, options, r);
    StableHasNoNeighbour(original, kept, idx, KeepMask([], original, violates), r, violates, options);
    SecondRunUnchangedIff(original, violates, options);
  }

  /** The predicate that only counts transactions. */
  function AtLeast(m: nat): seq<SimTxInput> -> bool {
    s => |s| >= m
  }

  /** The predicate asks for `m` transactions and nothing else. */
  ghost predicate Counts(violates: seq<SimTxInput> -> bool, m: nat) {
    forall s :: violates(s) <==> |s| >= m
  }

  lemma CountingIsMonotone(violates: seq<SimTxInput> -> bool, m: nat)
    requires Counts(violates, m)
    ensures JointlyMonotone(violates)
  {
  }

  /** The mask that drops the first `d` of `n` items. */
  function DropMask(n: nat, d: nat): (mask: seq<bool>)
    ensures |mask| == n
  {
    seq(n, i => i >= d)
  }

  /** Counting drops items from the front until the count is reached, and then keeps the rest. */
  lemma {:induction false} CountingDropsFirst(
    kept: seq<SimTxInput>, rest: seq<SimTxInput>, violates: seq<SimTxInput> -> bool, d: nat)
    requires d <= |rest| && Counts(violates, |kept| + |rest| - d)
    ensures KeepMask(kept, rest, violates) == DropMask(|rest|, d)
    decreases |rest|
  {
    if |rest| == 0 {
    } else if d > 0 {
      CountingDropsFirst(kept, rest[1..], violates, d - 1);
      assert DropMask(|rest|, d) == [false] + DropMask(|rest| - 1, d - 1);
    } else {
      CountingDropsFirst(kept + [rest[0]], rest[1..], violates, 0);
      assert DropMask(|rest|, 0) == [true] + DropMask(|rest| - 1, 0);
    }
  }

  lemma {:induction false} SelectDropMask<T>(s: seq<T>, d: nat)
    requires d <= |s|
    ensures Select(s, DropMask(|s|, d)) == s[d..]
  {
    if |s| == 0 {
    } else if d > 0 {
      assert DropMask(|s|, d)[1..] == DropMask(|s[1..]|, d - 1);
      SelectDropMask(s[1..], d - 1);
    } else {
      assert DropMask(|s|, 0) == AllTrue(|s|);
      SelectAll(s);
    }
  }

  /** A count that leaves room for dropping `d` moves transaction `d + j` to position `j`. */
  lemma CountingKeeps(original: seq<SimTxInput>, violates: seq<SimTxInput> -> bool, d: nat, j: nat)
    requires d + j < |original| && Counts(violates, |original| - d)
    ensures |Greedy(original, violates)| == |original| - d
    ensures Greedy(original, violates)[j] == original[d + j] && KeptIndices(original, violates)[j] == d + j
  {
    CountingDropsFirst([], original, violates, d);
    SelectDropMask(original, d);
    SelectDropMask(Range(0, |original|), d);
  }

  lemma ValueOfProtected(
    kept: seq<SimTxInput>, idx: seq<nat>, j: nat, violates: seq<SimTxInput> -> bool, options: ShrinkOptions)
    requires |idx| == |kept| && j < |kept| && !Allowed(idx[j], options)
    ensures ValuePass(kept, idx, 0, violates, options)[j].value == kept[j].value
  {
    var r := ValuePass(kept, idx, 0, violates, options);
    ValuePassFacts(kept, idx, 0, violates, options, r);
    assert TxLeq(r[j], kept[j]);
  }

  /** A value that was protected and becomes eligible is lowered by the second run, if sequences of
      that length violate whatever their values. */
  lemma ProtectedIsLowered(
    original: seq<SimTxInput>, violates: seq<SimTxInput> -> bool, options: ShrinkOptions, j: nat)
    requires JointlyMonotone(violates) && violates(original)
    requires forall s: seq<SimTxInput> :: |s| == |Greedy(original, violates)| ==> violates(s)
    requires j < |Greedy(original, violates)| && Bisected(j, Greedy(original, violates)[j].value, options)
    requires !Allowed(KeptIndices(original, violates)[j], options)
    ensures !SecondRunChangesNothing(original, violates, options)
  {
    var r := Shrunk(original, violates, options).minimizedSequence;
    ValueOfProtected(Greedy(original, violates), KeptIndices(original, violates), j, violates, options);
    assert violates(RewriteAmount(r, j, r[j].value - 1));
    assert !StepStays(r, Range(0, |r|), j, violates, options);
    SecondRunUnchangedIff(original, violates, options);
  }

  /** At an offending pair of positions, counting moves transaction `q` to position `p` with its
      value untouched, where the second run lowers it. */
  lemma UnstableMoves(
    original: seq<SimTxInput>, violates: seq<SimTxInput> -> bool, options: ShrinkOptions, p: nat, q: nat)
    requires p < q < |original| && Bisected(p, original[q].value, options) && !Allowed(q, options)
    requires Counts(violates, |original| - (q - p))
    ensures JointlyMonotone(violates) && violates(original)
    ensures !SecondRunChangesNothing(original, violates, options)
  {
    CountingIsMonotone(violates, |original| - (q - p));
    CountingKeeps(original, violates, q - p, p);
    ProtectedIsLowered(original, violates, options, p);
  }

  /** Which restrictions are safe, decided on the original alone: the output of every shrink is a
      fixpoint of the same options exactly when the restriction is stable. */
  lemma FixpointIff(original: seq<SimTxInput>, options: ShrinkOptions)
    ensures (forall violates: seq<SimTxInput> -> bool :: JointlyMonotone(violates) && violates(original) ==>
               SecondRunChangesNothing(original, violates, options))
       <==> RestrictionStable(original, options)
  {
    if RestrictionStable(original, options) {
      forall violates: seq<SimTxInput> -> bool | JointlyMonotone(violates) && violates(original)
        ensures SecondRunChangesNothing(original, violates, options)
      {
        StableFixpoint(original, violates, options);
      }
    } else {
      var p: nat, q: nat :| p < q < |original| && Bisected(p, original[q].value, options) && !Allowed(q, options);
      UnstableMoves(original, AtLeast(|original| - (q - p)), options, p, q);
    }
  }

  /** Without an index restriction the output is a fixpoint, and the second diff says so. */
  lemma Fixpoint(original: seq<SimTxInput>, violates: seq<SimTxInput> -> bool, options: ShrinkOptions)
    requires JointlyMonotone(violates) && violates(original)
    requires options.restrictToOriginalIndices.None?
    ensures var r := Shrunk(original, violates, options).minimizedSequence;
            Shrunk(r, violates, options).minimizedSequence == r && Shrunk(r, violates, options).diff.IsNoop()
  {
    var r := Shrunk(original, violates, options).minimizedSequence;
    StableFixpoint(original, violates, options);
    NoopMeansUnchanged(r, violates, options);
  }

  /** With a restriction it need not be: the indices of the second run are those of the shorter
      sequence, so a value that was protected becomes eligible. */
  lemma RestrictedRunIsNoFixpoint(first: SimTxInput, second: SimTxInput)
    requires second.value > 0
    ensures var options := ShrinkOptions(true, 0, Some({0}));
            var violates := (s: seq<SimTxInput>) => |s| >= 1;
            var r := Shrunk([first, second], violates, options).minimizedSequence;
            JointlyMonotone(violates) && r == [second] && Shrunk(r, violates, options).minimizedSequence != r
  {
    var options := ShrinkOptions(true, 0, Some({0}));
    var violates := (s: seq<SimTxInput>) => |s| >= 1;
    forall s, t | violates(s) && Below(s, t)
      ensures violates(t)
    {
    }
    var s := [first, second];
    assert KeepMask([], s, violates) == [false] + KeepMask([], [second], violates) by {
      assert s[1..] == [second] && [] + [second] == [second];
    }
    assert KeepMask([], [second], violates) == [true];
    assert Greedy(s, violates) == [second] by {
      assert Select([second], [true]) == [second];
    }
    assert KeptIndices(s, violates) == [1] by {
      var one: seq<nat> := [1];
      assert Range(0, 2)[1..] == one;
      assert Select(one, [true]) == one;
    }
    assert ValuePass([second], [1], 0, violates, options) == [second];
    var r := [second];
    UnchangedIff(r, violates, options);
    assert violates(RewriteAmount(r, 0, second.value - 1));
    assert !StepStays(r, Range(0, 1), 0, violates, options);
  }

  lemma NothingBelowViolates(original: seq<SimTxInput>, violates: seq<SimTxInput> -> bool)
    requires JointlyMonotone(violates) && !violates(original)
    ensures KeepMask([], original, violates) == AllTrue(|original|)
  {
    forall j | 0 <= j < |original|
      ensures !violates(RemoveAt(original, j))
    {
      RemoveIsSelect(original, j);
      assert Subsequence(RemoveAt(original, j), original);
      SubsequenceIsBelow(RemoveAt(original, j), original);
    }
    DeletionNoopIff(original, violates);
  }

  lemma {:induction false} TopValueDiverges(
    s: seq<SimTxInput>, idx: seq<nat>, i: nat, violates: seq<SimTxInput> -> bool, options: ShrinkOptions)
    requires JointlyMonotone(violates) && |idx| == |s| && i <= |s|
    requires !violates(s) && !NoTopValue(s, idx, i, options)
    ensures !PassEnds(s, idx, i, violates, options)
    decreases |s| - i
  {
    var value := s[i].value;
    RewriteSame(s, i);
    if Bisected(idx[i], value, options) {
      var p := Probe(s, i, violates);
      ProbeMonotone(s, i, violates, options.minValue, value);
      SafeStartIffMonotone(value, options.minValue, p);
      ShrunkValueFacts(s, i, idx[i], violates, options);
      var best := ShrunkValue(s, i, idx[i], violates, options);
      RewritePointwise(s, i, best, value);
      PointwiseIsBelow(RewriteAmount(s, i, best), s);
      assert best == value;
    }
    if !(Bisected(idx[i], value, options) && value == MAX_U256) {
      TopValueDiverges(s, idx, i + 1, violates, options);
    }
  }

  /** For a jointly monotone predicate the shrink ends exactly when the original violates or none
      of the values it would bisect is the last of the word. */
  lemma ShrinkEndsIff(original: seq<SimTxInput>, violates: seq<SimTxInput> -> bool, options: ShrinkOptions)
    requires JointlyMonotone(violates)
    ensures ShrinkEnds(original, violates, options)
       <==> violates(original) || NoTopValue(original, Range(0, |original|), 0, options)
  {
    if violates(original) {
      ViolatingShrinkEnds(original, violates, options);
    } else {
      NothingBelowViolates(original, violates);
      AllKept(original, violates);
      if NoTopValue(original, Range(0, |original|), 0, options) {
        PassEndsWhen(original, Range(0, |original|), 0, violates, options);
      } else {
        TopValueDiverges(original, Range(0, |original|), 0, violates, options);
      }
    }
  }
}
