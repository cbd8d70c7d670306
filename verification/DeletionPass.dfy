/** Greedy top-down deletion: the first shrinking pass, for any item type and any predicate. */
module DeletionPass {
  import opened Selections

  /** Which of the items of `rest` survive, given that `kept` already did. An item is dropped
      exactly when the sequence without it still violates. */
  function KeepMask<T>(kept: seq<T>, rest: seq<T>, violates: seq<T> -> bool): (mask: seq<bool>)
    ensures |mask| == |rest|
    decreases |rest|
  {
    if |rest| == 0 then []
    else if violates(kept + rest[1..]) then [false] + KeepMask(kept, rest[1..], violates)
    else [true] + KeepMask(kept + [rest[0]], rest[1..], violates)
  }

  function Greedy<T>(sequence: seq<T>, violates: seq<T> -> bool): seq<T> {
    Select(sequence, KeepMask([], sequence, violates))
  }

  /** The final sequence of a run that has kept `kept` and has `rest` still to examine. */
  function GreedyFrom<T>(kept: seq<T>, rest: seq<T>, violates: seq<T> -> bool): seq<T> {
    kept + Select(rest, KeepMask(kept, rest, violates))
  }

  /** The question that decides each item, for any predicate: it is kept exactly when what was kept
      of the items before it, followed by all items after it, does not violate. */
  lemma {:induction false} KeptIff<T>(sequence: seq<T>, violates: seq<T> -> bool, i: nat)
    requires i < |sequence|
    ensures var mask := KeepMask([], sequence, violates);
            mask[i] <==> !violates(Select(sequence[..i], mask[..i]) + sequence[i + 1..])
  {
    KeptIffFrom([], sequence, violates, i);
    var mask := KeepMask([], sequence, violates);
    assert [] + Select(sequence[..i], mask[..i]) == Select(sequence[..i], mask[..i]);
  }

  lemma {:induction false} KeptIffFrom<T>(kept: seq<T>, rest: seq<T>, violates: seq<T> -> bool, i: nat)
    requires i < |rest|
    ensures var mask := KeepMask(kept, rest, violates);
            mask[i] <==> !violates(kept + Select(rest[..i], mask[..i]) + rest[i + 1..])
    decreases |rest|
  {
    var mask := KeepMask(kept, rest, violates);
    if i == 0 {
      assert kept + Select(rest[..0], mask[..0]) + rest[1..] == kept + rest[1..];
    } else {
      var tail, first := rest[1..], if mask[0] then [rest[0]] else [];
      KeepMaskTail(kept, rest, violates);
      KeptIffFrom(kept + first, tail, violates, i - 1);
      PrefixShifts(kept, rest, mask, i);
    }
  }

  /** The sequence that decides item `i` of the rest is the one that decides item `i - 1` of its tail. */
  lemma PrefixShifts<T>(kept: seq<T>, rest: seq<T>, mask: seq<bool>, i: nat)
    requires |rest| == |mask| && 0 < i < |rest|
    ensures var first := if mask[0] then [rest[0]] else [];
            kept + first + Select(rest[1..][..i - 1], mask[1..][..i - 1]) + rest[1..][i..]
            == kept + Select(rest[..i], mask[..i]) + rest[i + 1..]
  {
    SelectPrefix(rest, mask, i);
    var first := if mask[0] then [rest[0]] else [];
    var others := Select(rest[1..][..i - 1], mask[1..][..i - 1]);
    assert kept + first + others == kept + (first + others);
    assert rest[1..][i..] == rest[i + 1..];
  }

  lemma KeepMaskTail<T>(kept: seq<T>, rest: seq<T>, violates: seq<T> -> bool)
    requires |rest| > 0
    ensures var mask := KeepMask(kept, rest, violates);
            mask[1..] == KeepMask(kept + (if mask[0] then [rest[0]] else []), rest[1..], violates)
  {
    assert kept + [] == kept;
  }

  lemma SelectPrefix<T>(s: seq<T>, mask: seq<bool>, i: nat)
    requires |s| == |mask| && 0 < i <= |s|
    ensures Select(s[..i], mask[..i]) == (if mask[0] then [s[0]] else []) + Select(s[1..][..i - 1], mask[1..][..i - 1])
  {
    assert s[..i][1..] == s[1..][..i - 1] && mask[..i][1..] == mask[1..][..i - 1];
  }

  /** A violation is never cured by inserting items. */
  ghost predicate DeletionMonotone<T(!new)>(violates: seq<T> -> bool) {
    forall s, t :: violates(s) && Subsequence(s, t) ==> violates(t)
  }

  /** No single deletion at position `from` or later leaves a violating sequence. */
  predicate OneMinimalFrom<T>(s: seq<T>, from: nat, violates: seq<T> -> bool) {
    forall j :: from <= j < |s| ==> !violates(RemoveAt(s, j))
  }

  lemma GreedyStep<T>(kept: seq<T>, rest: seq<T>, violates: seq<T> -> bool)
    requires |rest| > 0
    ensures GreedyFrom(kept, rest, violates)
         == if violates(kept + rest[1..]) then GreedyFrom(kept, rest[1..], violates)
            else GreedyFrom(kept + [rest[0]], rest[1..], violates)
  {
    var mask := KeepMask(kept, rest, violates);
    if violates(kept + rest[1..]) {
      assert mask[1..] == KeepMask(kept, rest[1..], violates);
      assert Select(rest, mask) == Select(rest[1..], mask[1..]);
    } else {
      assert mask[1..] == KeepMask(kept + [rest[0]], rest[1..], violates);
      assert kept + Select(rest, mask) == kept + [rest[0]] + Select(rest[1..], mask[1..]);
    }
  }

  lemma GreedyIsFromStart<T>(sequence: seq<T>, violates: seq<T> -> bool)
    ensures GreedyFrom([], sequence, violates) == Greedy(sequence, violates)
  {
  }

  /** `shrink_sequence`. The ghost result counts the predicate calls. */
  method ShrinkSequence<T>(sequence: seq<T>, violates: seq<T> -> bool)
    returns (minimized: seq<T>, ghost calls: nat)
    ensures minimized == Greedy(sequence, violates)
    ensures calls == |sequence|
  {
    minimized := sequence;
    calls := 0;
    var index := 0;
    GreedyIsFromStart(sequence, violates);
    while index < |minimized|
      invariant index <= |minimized|
      invariant calls + (|minimized| - index) == |sequence|
      invariant minimized[index..] == sequence[calls..]
      invariant GreedyFrom(minimized[..index], minimized[index..], violates) == Greedy(sequence, violates)
      decreases |minimized| - index
    {
      ghost var kept, rest := minimized[..index], minimized[index..];
      GreedyStep(kept, rest, violates);
      var candidate := minimized[..index] + minimized[index + 1..];
      assert candidate == kept + rest[1..];
      assert rest[1..] == sequence[calls + 1..];
      calls := calls + 1;
      if violates(candidate) {
        minimized := candidate;
        assert minimized[..index] == kept && minimized[index..] == rest[1..];
      } else {
        index := index + 1;
        assert minimized[..index] == kept + [rest[0]] && minimized[index..] == rest[1..];
      }
    }
    assert minimized[..index] == minimized;
  }

  lemma {:induction false} GreedyViolates<T>(kept: seq<T>, rest: seq<T>, violates: seq<T> -> bool, r: seq<T>)
    requires r == GreedyFrom(kept, rest, violates)
    ensures r == kept + rest || violates(r)
    decreases |rest|
  {
    if |rest| == 0 {
    } else {
      GreedyStep(kept, rest, violates);
      var x, tail := rest[0], rest[1..];
      if violates(kept + tail) {
        GreedyViolates(kept, tail, violates, r);
      } else {
        GreedyViolates(kept + [x], tail, violates, r);
        assert kept + rest == kept + [x] + tail;
      }
    }
  }

  /** Whatever the predicate, the result is an order-preserving subsequence that is the input or violates. */
  lemma GreedyOutcome<T>(sequence: seq<T>, violates: seq<T> -> bool)
    ensures Subsequence(Greedy(sequence, violates), sequence)
    ensures Greedy(sequence, violates) == sequence || violates(Greedy(sequence, violates))
  {
    GreedyIsFromStart(sequence, violates);
    GreedyViolates([], sequence, violates, Greedy(sequence, violates));
    assert [] + sequence == sequence;
  }

  /** Selecting from the tail only selects from the whole. */
  lemma SubsequenceAfter<T>(kept: seq<T>, rest: seq<T>, mask: seq<bool>)
    requires |rest| == |mask|
    ensures Subsequence(kept + Select(rest, mask), kept + rest)
  {
    SelectAppend(kept, rest, AllTrue(|kept|), mask);
    SelectAll(kept);
    assert |AllTrue(|kept|) + mask| == |kept + rest|;
  }

  lemma {:induction false} LexLeastFrom<T(!new)>(kept: seq<T>, rest: seq<T>, other: seq<bool>, violates: seq<T> -> bool)
    requires DeletionMonotone(violates)
    requires |other| == |rest| && violates(kept + Select(rest, other))
    ensures LexLeq(KeepVector(KeepMask(kept, rest, violates)), KeepVector(other))
    decreases |rest|
  {
    if |rest| == 0 {
    } else {
      var mask := KeepMask(kept, rest, violates);
      assert KeepVector(mask)[1..] == KeepVector(mask[1..]);
      assert KeepVector(other)[1..] == KeepVector(other[1..]);
      if other[0] {
        assert kept + Select(rest, other) == kept + [rest[0]] + Select(rest[1..], other[1..]);
        if mask[0] {
          LexLeastFrom(kept + [rest[0]], rest[1..], other[1..], violates);
        }
      } else {
        SubsequenceAfter(kept, rest[1..], other[1..]);
        assert Select(rest, other) == Select(rest[1..], other[1..]);
        assert violates(kept + rest[1..]);
        LexLeastFrom(kept, rest[1..], other[1..], violates);
      }
    }
  }

  /** Of the 2^n index subsets that violate, the loop finds the lexicographically least keep-vector,
      although it asks the predicate only n times. */
  lemma {:induction false} DeletionLexLeast<T(!new)>(sequence: seq<T>, other: seq<bool>, violates: seq<T> -> bool)
    requires DeletionMonotone(violates)
    requires |other| == |sequence| && violates(Select(sequence, other))
    ensures LexLeq(KeepVector(KeepMask([], sequence, violates)), KeepVector(other))
  {
    assert [] + Select(sequence, other) == Select(sequence, other);
    LexLeastFrom([], sequence, other, violates);
  }

  /** No single deletion before position `n` leaves a violating sequence. */
  predicate OneMinimalBefore<T>(s: seq<T>, n: nat, violates: seq<T> -> bool)
    requires n <= |s|
  {
    forall i :: 0 <= i < n ==> !violates(RemoveAt(s, i))
  }

  /** When no item before a position is removable, dropping the item there does not make one so. */
  ghost predicate NoRevival<T(!new)>(violates: seq<T> -> bool) {
    forall s, j ::
      0 <= j < |s| && OneMinimalBefore(s, j, violates) && violates(RemoveAt(s, j))
      ==> OneMinimalBefore(RemoveAt(s, j), j, violates)
  }

  lemma AtTheSplit<T>(kept: seq<T>, rest: seq<T>)
    requires |rest| > 0
    ensures RemoveAt(kept + rest, |kept|) == kept + rest[1..]
    ensures kept + [rest[0]] + rest[1..] == kept + rest
  {
  }

  lemma {:induction false} GreedyOneMinimal<T(!new)>(
    kept: seq<T>, rest: seq<T>, s: seq<T>, violates: seq<T> -> bool)
    requires s == kept + rest && NoRevival(violates) && OneMinimalBefore(s, |kept|, violates)
    ensures OneMinimalFrom(GreedyFrom(kept, rest, violates), 0, violates)
    decreases |rest|
  {
    if |rest| == 0 {
      assert s == kept;
    } else {
      GreedyStep(kept, rest, violates);
      AtTheSplit(kept, rest);
      var next := RemoveAt(s, |kept|);
      if violates(next) {
        GreedyOneMinimal(kept, rest[1..], next, violates);
      } else {
        GreedyOneMinimal(kept + [rest[0]], rest[1..], s, violates);
      }
    }
  }

  /** Under that condition on single drops, deleting any one surviving item cures the violation,
      although each deletion was tested against a longer sequence than the final one. No converse is
      claimed: `RevivalNeedNotHarm` refutes it. */
  lemma OneMinimalWithoutRevival<T(!new)>(sequence: seq<T>, violates: seq<T> -> bool)
    requires NoRevival(violates)
    ensures OneMinimalFrom(Greedy(sequence, violates), 0, violates)
  {
    assert sequence == [] + sequence;
    GreedyOneMinimal([], sequence, sequence, violates);
    GreedyIsFromStart(sequence, violates);
  }

  lemma MonotoneHasNoRevival<T(!new)>(violates: seq<T> -> bool)
    requires DeletionMonotone(violates)
    ensures NoRevival(violates)
  {
    forall s, i, j | 0 <= i < j < |s| && OneMinimalBefore(s, j, violates)
      ensures !violates(RemoveAt(RemoveAt(s, j), i))
    {
      var t := RemoveAt(s, i);
      RemoveTwice(s, i, j);
      RemoveIsSelect(t, j - 1);
      assert Subsequence(RemoveAt(t, j - 1), t);
    }
  }

  /** In particular for a deletion-monotone predicate. */
  lemma DeletionOneMinimal<T(!new)>(sequence: seq<T>, violates: seq<T> -> bool)
    requires DeletionMonotone(violates)
    ensures OneMinimalFrom(Greedy(sequence, violates), 0, violates)
  {
    MonotoneHasNoRevival(violates);
    OneMinimalWithoutRevival(sequence, violates);
  }

  lemma {:induction false} KeepAllFrom<T>(kept: seq<T>, rest: seq<T>, violates: seq<T> -> bool)
    ensures KeepMask(kept, rest, violates) == AllTrue(|rest|) <==> OneMinimalFrom(kept + rest, |kept|, violates)
    decreases |rest|
  {
    if |rest| == 0 {
    } else {
      var x, tail := rest[0], rest[1..];
      assert RemoveAt(kept + rest, |kept|) == kept + tail;
      assert AllTrue(|rest|) == [true] + AllTrue(|tail|);
      if !violates(kept + tail) {
        KeepAllFrom(kept + [x], tail, violates);
        assert kept + rest == kept + [x] + tail;
        assert KeepMask(kept, rest, violates)[1..] == KeepMask(kept + [x], tail, violates);
        assert AllTrue(|rest|)[1..] == AllTrue(|tail|);
      } else {
        assert !KeepMask(kept, rest, violates)[0];
      }
    }
  }

  /** The pass changes nothing exactly when no single deletion violates, with no assumption on the predicate. */
  lemma {:induction false} DeletionNoopIff<T>(sequence: seq<T>, violates: seq<T> -> bool)
    ensures KeepMask([], sequence, violates) == AllTrue(|sequence|) <==> OneMinimalFrom(sequence, 0, violates)
  {
    KeepAllFrom([], sequence, violates);
    assert [] + sequence == sequence;
  }

  /** Without monotonicity one pass need not reach such a sequence: an item kept early can become
      removable once a later one is gone. */
  lemma OnePassNotMinimal()
    ensures var violates := (s: seq<int>) => |s| == 0 || s[0] == 1;
            var r := Greedy([1, 2], violates);
            r == [1] && !OneMinimalFrom(r, 0, violates)
  {
    var violates := (s: seq<int>) => |s| == 0 || s[0] == 1;
    var s := [1, 2];
    GreedyIsFromStart(s, violates);
    assert s[1..] == [2];
    GreedyStep([], s, violates);
    GreedyStep([1], [2], violates);
    assert Greedy(s, violates) == GreedyFrom([1], [], violates) == [1];
    assert RemoveAt([1], 0) == [];
  }

  /** A predicate with a revival, all of whose passes end in a 1-minimal sequence nevertheless. */
  predicate Revives(s: seq<int>) {
    || s == [1] || s == [3] || s == [1, 3]
    || (|s| == 2 && s[0] == 3)
  }

  lemma RunOfTwo(a: int, b: int)
    ensures OneMinimalFrom(GreedyFrom([], [a, b], Revives), 0, Revives)
  {
    GreedyStep([], [a, b], Revives);
    assert [a, b][1..] == [b];
    GreedyStep([], [b], Revives);
    GreedyStep([a], [b], Revives);
  }

  lemma TripleStays(a: int, b: int, c: int)
    requires !Revives([b, c]) && !Revives([a, c]) && !Revives([a, b])
    ensures OneMinimalFrom([a, b, c], 0, Revives)
  {
    var s := [a, b, c];
    assert RemoveAt(s, 0) == [b, c] && RemoveAt(s, 1) == [a, c] && RemoveAt(s, 2) == [a, b];
  }

  lemma LastStep(kept: seq<int>, x: int)
    ensures GreedyFrom(kept, [x], Revives) == if Revives(kept) then kept else kept + [x]
  {
    GreedyStep(kept, [x], Revives);
    assert kept + [x][1..] == kept;
  }

  lemma RunKeepingFirst(a: int, b: int, c: int)
    requires !Revives([b, c])
    ensures OneMinimalFrom(GreedyFrom([a], [b, c], Revives), 0, Revives)
  {
    GreedyStep([a], [b, c], Revives);
    assert [b, c][1..] == [c] && [a] + [c] == [a, c] && [a] + [b] == [a, b];
    if Revives([a, c]) {
      LastStep([a], c);
      assert RemoveAt([a], 0) == [];
    } else {
      LastStep([a, b], c);
      assert [a, b] + [c] == [a, b, c];
      TripleStays(a, b, c);
    }
  }

  lemma RunOfThree(a: int, b: int, c: int)
    ensures OneMinimalFrom(GreedyFrom([], [a, b, c], Revives), 0, Revives)
  {
    GreedyStep([], [a, b, c], Revives);
    assert [] + [a, b, c][1..] == [b, c] && [a, b, c][1..] == [b, c] && [] + [a] == [a];
    if Revives([b, c]) {
      RunOfTwo(b, c);
    } else {
      RunKeepingFirst(a, b, c);
    }
  }

  /** So the absence of revivals is not necessary: here dropping 2 from [1, 2, 3] makes 1 removable,
      and yet every pass ends in a 1-minimal sequence. */
  lemma RevivalNeedNotHarm()
    ensures !NoRevival(Revives)
    ensures forall s :: OneMinimalFrom(Greedy(s, Revives), 0, Revives)
  {
    var s := [1, 2, 3];
    assert RemoveAt(s, 0) == [2, 3] && RemoveAt(s, 1) == [1, 3] && RemoveAt([1, 3], 0) == [3];
    forall s
      ensures OneMinimalFrom(Greedy(s, Revives), 0, Revives)
    {
      GreedyIsFromStart(s, Revives);
      if |s| == 2 {
        assert s == [s[0], s[1]];
        RunOfTwo(s[0], s[1]);
      } else if |s| == 3 {
        assert s == [s[0], s[1], s[2]];
        RunOfThree(s[0], s[1], s[2]);
      } else {
        DeletionNoopIff(s, Revives);
        SelectAll(s);
      }
    }
  }
}
