/** Why the two passes together minimise, for predicates that never lose a violation by inserting
    transactions or raising values. */
module ShrinkOptimality {
  import opened Words
  import opened Selections
  import opened Transactions
  import opened DeletionPass
  import opened Bisection
  import opened ShrinkTx

  /** The least value the second pass may give a transaction. */
  function Floor(originalIndex: nat, value: U256, options: ShrinkOptions): U256 {
    if options.bisectValue && Allowed(originalIndex, options) then Min(options.minValue, value) else value
  }

  /** `s` has the transactions of `kept` with values between the floors and those of `kept`, from position `i` on. */
  predicate Candidate(s: seq<SimTxInput>, kept: seq<SimTxInput>, idx: seq<nat>, i: nat, options: ShrinkOptions)
    requires |idx| == |kept|
  {
    && PointwiseLeq(s, kept)
    && forall j :: i <= j < |kept| ==> Floor(idx[j], kept[j].value, options) <= s[j].value
  }

  lemma JointlyMonotoneDeletion(violates: seq<SimTxInput> -> bool)
    requires JointlyMonotone(violates)
    ensures DeletionMonotone(violates)
  {
    forall s, t | violates(s) && Subsequence(s, t)
      ensures violates(t)
    {
      SubsequenceIsBelow(s, t);
    }
  }

  lemma RewritePointwise(s: seq<SimTxInput>, i: nat, u: U256, v: U256)
    requires u <= v
    ensures PointwiseLeq(RewriteAmount(s, i, u), RewriteAmount(s, i, v))
  {
  }

  lemma ProbeMonotone(s: seq<SimTxInput>, i: nat, violates: seq<SimTxInput> -> bool, min: U256, max: U256)
    requires JointlyMonotone(violates)
    ensures MonotoneBetween(Probe(s, i, violates), min, max)
  {
    forall u: U256, v: U256 | min <= u <= v <= max && Probe(s, i, violates)(u)
      ensures Probe(s, i, violates)(v)
    {
      RewritePointwise(s, i, u, v);
      PointwiseIsBelow(RewriteAmount(s, i, u), RewriteAmount(s, i, v));
    }
  }

  /** One step of the second pass, whatever the predicate: the value stays between its floor and
      what it was, and the violation, if any, stays. */
  lemma ShrunkValueFacts(
    current: seq<SimTxInput>, i: nat, originalIndex: nat, violates: seq<SimTxInput> -> bool, options: ShrinkOptions)
    requires i < |current|
    ensures var value, best := current[i].value, ShrunkValue(current, i, originalIndex, violates, options);
            && Floor(originalIndex, value, options) <= best <= value
            && (best != value ==> violates(RewriteAmount(current, i, best)))
  {
    if Bisected(originalIndex, current[i].value, options) {
      BisectInRange(current[i].value, options.minValue, Probe(current, i, violates));
    }
  }

  /** The second pass only lowers values, not below the floors, and keeps the violation. */
  lemma {:induction false} ValuePassFacts(
    current: seq<SimTxInput>, idx: seq<nat>, i: nat, violates: seq<SimTxInput> -> bool, options: ShrinkOptions,
    r: seq<SimTxInput>)
    requires |idx| == |current| && i <= |current| && r == ValuePass(current, idx, i, violates, options)
    ensures Candidate(r, current, idx, i, options)
    ensures forall j :: 0 <= j < i ==> r[j] == current[j]
    ensures r == current || violates(r)
    decreases |current| - i
  {
    if i == |current| {
    } else {
      var best := ShrunkValue(current, i, idx[i], violates, options);
      var next := RewriteAmount(current, i, best);
      ShrunkValueFacts(current, i, idx[i], violates, options);
      RewriteSame(current, i);
      ValuePassFacts(next, idx, i + 1, violates, options, r);
      assert r[i] == next[i];
    }
  }

  /** A violating candidate that agrees with the pass before `i` is not below it at `i`. */
  lemma ShrunkValueLeast(
    current: seq<SimTxInput>, idx: seq<nat>, i: nat, violates: seq<SimTxInput> -> bool, options: ShrinkOptions,
    w: seq<SimTxInput>)
    requires JointlyMonotone(violates) && |idx| == |current| && i < |current|
    requires Candidate(w, current, idx, i, options) && violates(w)
    ensures ShrunkValue(current, i, idx[i], violates, options) <= w[i].value
  {
    var value := current[i].value;
    if Bisected(idx[i], value, options) {
      var p := Probe(current, i, violates);
      PointwiseIsBelow(w, current);
      RewriteSame(current, i);
      ProbeMonotone(current, i, violates, options.minValue, value);
      PointwiseIsBelow(w, RewriteAmount(current, i, w[i].value));
      assert p(value) && p(w[i].value);
      BisectLeast(value, options.minValue, p, w[i].value);
    }
  }

  /** A candidate stays one for the rest of the pass when it has the value just chosen. */
  lemma CandidateStep(w: seq<SimTxInput>, current: seq<SimTxInput>, idx: seq<nat>, i: nat, options: ShrinkOptions)
    requires |idx| == |current| && i < |current| && Candidate(w, current, idx, i, options)
    ensures Candidate(w, RewriteAmount(current, i, w[i].value), idx, i + 1, options)
  {
    var next := RewriteAmount(current, i, w[i].value);
    forall j | 0 <= j < |w|
      ensures TxLeq(w[j], next[j])
    {
      assert TxLeq(w[j], current[j]);
    }
  }

  lemma {:induction false} ValuesLexLeastFrom(
    current: seq<SimTxInput>, idx: seq<nat>, i: nat, violates: seq<SimTxInput> -> bool, options: ShrinkOptions,
    r: seq<SimTxInput>, w: seq<SimTxInput>)
    requires JointlyMonotone(violates) && |idx| == |current| && i <= |current|
    requires r == ValuePass(current, idx, i, violates, options)
    requires Candidate(w, current, idx, i, options) && violates(w)
    ensures LexLeq(Values(r)[i..], Values(w)[i..])
    decreases |current| - i
  {
    if i == |current| {
    } else {
      var best := ShrunkValue(current, i, idx[i], violates, options);
      var next := RewriteAmount(current, i, best);
      ShrunkValueLeast(current, idx, i, violates, options, w);
      ValuePassFacts(next, idx, i + 1, violates, options, r);
      assert r[i] == next[i];
      if w[i].value == best {
        CandidateStep(w, current, idx, i, options);
        ValuesLexLeastFrom(next, idx, i + 1, violates, options, r, w);
      }
      LexFrom(Values(r), Values(w), i);
    }
  }

  /** The final values are lexicographically least among all violating value vectors between the
      floors and the values left by the deletion pass, although value i was bisected while the
      later ones were still large. */
  lemma ValuesLexLeast(
    original: seq<SimTxInput>, violates: seq<SimTxInput> -> bool, options: ShrinkOptions, w: seq<SimTxInput>)
    requires JointlyMonotone(violates) && violates(w)
    requires Candidate(w, Greedy(original, violates), KeptIndices(original, violates), 0, options)
    ensures var r := Shrunk(original, violates, options).minimizedSequence;
            |r| == |w| && LexLeq(Values(r), Values(w))
  {
    var r := Shrunk(original, violates, options).minimizedSequence;
    var kept, idx := Greedy(original, violates), KeptIndices(original, violates);
    ValuesLexLeastFrom(kept, idx, 0, violates, options, r, w);
    assert Values(r)[0..] == Values(r) && Values(w)[0..] == Values(w);
  }

  /** The optimum of both passes together. Take any subset of the original transactions, with any
      values between their floors and their originals, that violates: its keep-vector is not
      lexicographically below that of the result, and if they are the same, nor are its values. */
  lemma CombinedOptimum(
    original: seq<SimTxInput>, violates: seq<SimTxInput> -> bool, options: ShrinkOptions,
    mask: seq<bool>, w: seq<SimTxInput>)
    requires JointlyMonotone(violates) && violates(w) && |mask| == |original|
    requires Candidate(w, Select(original, mask), SelectedIndices(original, mask), 0, options)
    ensures LexLeq(KeepVector(KeepMask([], original, violates)), KeepVector(mask))
    ensures var r := Shrunk(original, violates, options).minimizedSequence;
            mask == KeepMask([], original, violates) ==> |r| == |w| && LexLeq(Values(r), Values(w))
  {
    PointwiseIsBelow(w, Select(original, mask));
    JointlyMonotoneDeletion(violates);
    DeletionLexLeast(original, mask, violates);
    if mask == KeepMask([], original, violates) {
      ValuesLexLeast(original, violates, options, w);
    }
  }

  lemma TxLeqAntisymmetric(s: seq<SimTxInput>, t: seq<SimTxInput>)
    requires PointwiseLeq(s, t) && Values(s) == Values(t)
    ensures s == t
  {
    forall i | 0 <= i < |s|
      ensures s[i] == t[i]
    {
      assert Values(s)[i] == Values(t)[i];
    }
  }

  /** Pareto optimality: no other violating vector above the floors lies pointwise below the result. */
  lemma ValuesPareto(
    original: seq<SimTxInput>, violates: seq<SimTxInput> -> bool, options: ShrinkOptions, w: seq<SimTxInput>)
    requires JointlyMonotone(violates) && violates(w)
    requires Candidate(w, Greedy(original, violates), KeptIndices(original, violates), 0, options)
    requires PointwiseLeq(w, Shrunk(original, violates, options).minimizedSequence)
    ensures w == Shrunk(original, violates, options).minimizedSequence
  {
    var r := Shrunk(original, violates, options).minimizedSequence;
    ValuesLexLeast(original, violates, options, w);
    PointwiseImpliesLex(Values(w), Values(r));
    LexAntisymmetric(Values(w), Values(r));
    TxLeqAntisymmetric(w, r);
  }

  lemma PointwiseTransitive(s: seq<SimTxInput>, t: seq<SimTxInput>, u: seq<SimTxInput>)
    requires PointwiseLeq(s, t) && PointwiseLeq(t, u)
    ensures PointwiseLeq(s, u)
  {
    forall i | 0 <= i < |s|
      ensures TxLeq(s[i], u[i])
    {
      assert TxLeq(s[i], t[i]) && TxLeq(t[i], u[i]);
    }
  }

  /** Whatever the predicate, shrinking a violating sequence ends in a violating sequence that is
      the original with transactions deleted and values lowered. */
  lemma ShrunkStillViolates(original: seq<SimTxInput>, violates: seq<SimTxInput> -> bool, options: ShrinkOptions)
    ensures var r := Shrunk(original, violates, options).minimizedSequence;
            Below(r, original) && (r == original || violates(r))
  {
    var r := Shrunk(original, violates, options).minimizedSequence;
    GreedyOutcome(original, violates);
    ValuePassFacts(Greedy(original, violates), KeptIndices(original, violates), 0, violates, options, r);
    assert PointwiseLeq(r, Select(original, KeepMask([], original, violates)));
  }

  lemma DroppingCures(
    kept: seq<SimTxInput>, r: seq<SimTxInput>, mask: seq<bool>, s: seq<SimTxInput>, violates: seq<SimTxInput> -> bool)
    requires JointlyMonotone(violates) && OneMinimalFrom(kept, 0, violates)
    requires PointwiseLeq(r, kept) && |mask| == |r| && mask != AllTrue(|r|)
    requires PointwiseLeq(s, Select(r, mask))
    ensures !violates(s)
  {
    SelectPointwise(r, kept, mask);
    PointwiseTransitive(s, Select(r, mask), Select(kept, mask));
    var j :| 0 <= j < |mask| && !mask[j];
    SelectWithout(kept, mask, j);
    assert Below(s, RemoveAt(kept, j));
  }

  /** Anything below the result that lost a transaction no longer violates, even though every
      deletion was tested before any value was lowered. */
  lemma {:induction false} DeletionsCure(
    original: seq<SimTxInput>, violates: seq<SimTxInput> -> bool, options: ShrinkOptions,
    mask: seq<bool>, s: seq<SimTxInput>)
    requires JointlyMonotone(violates)
    requires var r := Shrunk(original, violates, options).minimizedSequence;
             |mask| == |r| && mask != AllTrue(|r|) && PointwiseLeq(s, Select(r, mask))
    ensures !violates(s)
  {
    var r := Shrunk(original, violates, options).minimizedSequence;
    var kept := Greedy(original, violates);
    ValuePassFacts(kept, KeptIndices(original, violates), 0, violates, options, r);
    JointlyMonotoneDeletion(violates);
    DeletionOneMinimal(original, violates);
    DroppingCures(kept, r, mask, s, violates);
  }

  lemma ResultOneMinimal(original: seq<SimTxInput>, violates: seq<SimTxInput> -> bool, options: ShrinkOptions)
    requires JointlyMonotone(violates)
    ensures OneMinimalFrom(Shrunk(original, violates, options).minimizedSequence, 0, violates)
  {
    var r := Shrunk(original, violates, options).minimizedSequence;
    forall j | 0 <= j < |r|
      ensures !violates(RemoveAt(r, j))
    {
      RemoveIsSelect(r, j);
      assert PointwiseLeq(RemoveAt(r, j), Select(r, AllBut(|r|, j)));
      DeletionsCure(original, violates, options, AllBut(|r|, j), RemoveAt(r, j));
    }
  }

  /** No one allowed value can be lowered, to any smaller value not below the configured minimum,
      without curing the violation. */
  ghost predicate Unlowerable(
    r: seq<SimTxInput>, idx: seq<nat>, violates: seq<SimTxInput> -> bool, options: ShrinkOptions)
    requires |idx| == |r|
  {
    forall j, v: U256 ::
      0 <= j < |r| && Bisected(idx[j], r[j].value, options) && options.minValue <= v < r[j].value
      ==> !violates(RewriteAmount(r, j, v))
  }

  lemma LoweredCandidate(
    r: seq<SimTxInput>, kept: seq<SimTxInput>, idx: seq<nat>, j: nat, v: U256, options: ShrinkOptions)
    requires |idx| == |kept| && Candidate(r, kept, idx, 0, options)
    requires j < |r| && Bisected(idx[j], r[j].value, options) && options.minValue <= v < r[j].value
    ensures Candidate(RewriteAmount(r, j, v), kept, idx, 0, options)
    ensures PointwiseLeq(RewriteAmount(r, j, v), r)
  {
    var w := RewriteAmount(r, j, v);
    PointwiseTransitive(w, r, kept);
  }

  lemma LoweringCures(
    original: seq<SimTxInput>, violates: seq<SimTxInput> -> bool, options: ShrinkOptions, j: nat, v: U256)
    requires JointlyMonotone(violates)
    requires var r, idx := Shrunk(original, violates, options).minimizedSequence, KeptIndices(original, violates);
             j < |r| && Bisected(idx[j], r[j].value, options) && options.minValue <= v < r[j].value
    ensures !violates(RewriteAmount(Shrunk(original, violates, options).minimizedSequence, j, v))
  {
    var r, idx := Shrunk(original, violates, options).minimizedSequence, KeptIndices(original, violates);
    var kept := Greedy(original, violates);
    ValuePassFacts(kept, idx, 0, violates, options, r);
    var w := RewriteAmount(r, j, v);
    LoweredCandidate(r, kept, idx, j, v, options);
    if violates(w) {
      ValuesPareto(original, violates, options, w);
    }
  }

  /** Two-pass minimality: the result violates, deleting any one transaction cures it, and so does
      lowering any one allowed value. */
  lemma TwoPassMinimality(original: seq<SimTxInput>, violates: seq<SimTxInput> -> bool, options: ShrinkOptions)
    requires JointlyMonotone(violates) && violates(original)
    ensures violates(Shrunk(original, violates, options).minimizedSequence)
    ensures OneMinimalFrom(Shrunk(original, violates, options).minimizedSequence, 0, violates)
    ensures Unlowerable(
              Shrunk(original, violates, options).minimizedSequence, KeptIndices(original, violates), violates, options)
  {
    var r := Shrunk(original, violates, options).minimizedSequence;
    var idx := KeptIndices(original, violates);
    ShrunkStillViolates(original, violates, options);
    ResultOneMinimal(original, violates, options);
    forall j, v: U256 |
      0 <= j < |r| && Bisected(idx[j], r[j].value, options) && options.minValue <= v < r[j].value
      ensures !violates(RewriteAmount(r, j, v))
    {
      LoweringCures(original, violates, options, j, v);
    }
  }

  /** What the second pass has settled before position `j`, followed by what it has not touched. */
  function Midway(r: seq<SimTxInput>, kept: seq<SimTxInput>, j: nat, v: U256): seq<SimTxInput>
    requires |r| == |kept| && j < |kept|
  {
    r[..j] + [kept[j].(value := v)] + kept[j + 1..]
  }

  lemma {:induction false} ValueSettledFrom(
    current: seq<SimTxInput>, idx: seq<nat>, i: nat, violates: seq<SimTxInput> -> bool, options: ShrinkOptions,
    r: seq<SimTxInput>, j: nat)
    requires |idx| == |current| && i <= j < |current| && violates(current)
    requires r == ValuePass(current, idx, i, violates, options)
    requires Bisected(idx[j], current[j].value, options)
    ensures Boundary(
              r[j].value, options.minValue, current[j].value, (v: U256) => violates(Midway(r, current, j, v)))
    decreases |current| - i
  {
    var value, best := current[i].value, ShrunkValue(current, i, idx[i], violates, options);
    var next := RewriteAmount(current, i, best);
    ValuePassFacts(next, idx, i + 1, violates, options, r);
    RewriteSame(current, i);
    if i < j {
      ShrunkValueFacts(current, i, idx[i], violates, options);
      ValueSettledFrom(next, idx, i + 1, violates, options, r, j);
      forall v: U256
        ensures Midway(r, current, j, v) == Midway(r, next, j, v)
      {
      }
    } else {
      var p := Probe(current, i, violates);
      BisectCorrect(value, options.minValue, p);
      forall v: U256
        ensures Midway(r, current, j, v) == RewriteAmount(current, i, v)
      {
        assert r[..j] == current[..j];
      }
    }
  }

  /** With no assumption on the predicate: from a violating original, each value the second pass may
      bisect ends at a boundary of the question it was asked. With the values settled before it and
      the untouched ones after it, the sequence violates, and one step lower it does not, unless the
      value is the minimum. */
  lemma ValueSettled(
    original: seq<SimTxInput>, violates: seq<SimTxInput> -> bool, options: ShrinkOptions, j: nat)
    requires violates(original) && j < |Greedy(original, violates)|
    ensures var r, kept := Shrunk(original, violates, options).minimizedSequence, Greedy(original, violates);
            var named := match options.restrictToOriginalIndices
                         case None => true
                         case Some(allowed) => KeptIndices(original, violates)[j] in allowed;
            if options.bisectValue && named && options.minValue < kept[j].value
            then Boundary(
                   r[j].value, options.minValue, kept[j].value, (v: U256) => violates(Midway(r, kept, j, v)))
            else r[j] == kept[j]
  {
    var kept, idx := Greedy(original, violates), KeptIndices(original, violates);
    var r := Shrunk(original, violates, options).minimizedSequence;
    GreedyOutcome(original, violates);
    ValuePassFacts(kept, idx, 0, violates, options, r);
    if Bisected(idx[j], kept[j].value, options) {
      ValueSettledFrom(kept, idx, 0, violates, options, r, j);
    } else {
      ValueUntouched(kept, idx, 0, violates, options, r, j);
    }
  }

  lemma {:induction false} ValueUntouched(
    current: seq<SimTxInput>, idx: seq<nat>, i: nat, violates: seq<SimTxInput> -> bool, options: ShrinkOptions,
    r: seq<SimTxInput>, j: nat)
    requires |idx| == |current| && i <= j < |current|
    requires r == ValuePass(current, idx, i, violates, options)
    requires !Bisected(idx[j], current[j].value, options)
    ensures r[j] == current[j]
    decreases |current| - i
  {
    var next := RewriteAmount(current, i, ShrunkValue(current, i, idx[i], violates, options));
    if i < j {
      ValueUntouched(next, idx, i + 1, violates, options, r, j);
    } else {
      RewriteSame(current, i);
      ValuePassFacts(next, idx, i + 1, violates, options, r);
    }
  }
}
