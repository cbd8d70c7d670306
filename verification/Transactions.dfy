/** The transaction input shared by the shrinker and the simulator, and the order on
    transaction sequences along which shrinking moves downwards. */
module Transactions {
  import opened Wrappers
  import opened Words
  import opened Selections

  datatype SimTxInput = SimTxInput(
    caller: Address,
    to: Address,
    value: U256,
    data: Bytes,
    gasLimit: U64,
    gasPrice: U64,
    nonce: Option<U64>)

  /** One observed execution step. */
  datatype TraceEvent = TraceEvent(stepIndex: nat, programCounter: Option<nat>)

  /** `rewrite_amount`: the sequence with one value replaced, unchanged when the index is out of range. */
  function RewriteAmount(sequence: seq<SimTxInput>, index: nat, newAmount: U256): (next: seq<SimTxInput>)
    ensures |next| == |sequence|
    ensures forall j :: 0 <= j < |next| && j != index ==> next[j] == sequence[j]
    ensures index < |next| ==> next[index] == sequence[index].(value := newAmount)
  {
    if index < |sequence| then sequence[index := sequence[index].(value := newAmount)] else sequence
  }

  /** `rewrite_amount`, on a copy that is then updated in place. */
  method RewriteAmountOfCopy(sequence: seq<SimTxInput>, index: nat, newAmount: U256) returns (next: seq<SimTxInput>)
    ensures next == RewriteAmount(sequence, index, newAmount)
  {
    next := sequence;
    if index < |next| {
      var tx := next[index];
      next := next[index := tx.(value := newAmount)];
    }
  }

  function Values(sequence: seq<SimTxInput>): (values: seq<int>)
    ensures |values| == |sequence|
    ensures forall i :: 0 <= i < |values| ==> values[i] == sequence[i].value
  {
    seq(|sequence|, i requires 0 <= i < |sequence| => sequence[i].value)
  }

  /** Equal in every field except the value, which is at most that of `b`. */
  predicate TxLeq(a: SimTxInput, b: SimTxInput) {
    a == b.(value := a.value) && a.value <= b.value
  }

  predicate PointwiseLeq(s: seq<SimTxInput>, t: seq<SimTxInput>) {
    |s| == |t| && forall i :: 0 <= i < |s| ==> TxLeq(s[i], t[i])
  }

  /** `s` is obtained from `t` by deleting transactions and lowering values. */
  ghost predicate Below(s: seq<SimTxInput>, t: seq<SimTxInput>) {
    exists mask: seq<bool> :: |mask| == |t| && PointwiseLeq(s, Select(t, mask))
  }

  /** A violation is never cured by inserting transactions or raising values. */
  ghost predicate JointlyMonotone(violates: seq<SimTxInput> -> bool) {
    forall s, t :: violates(s) && Below(s, t) ==> violates(t)
  }

  lemma PointwiseIsBelow(s: seq<SimTxInput>, t: seq<SimTxInput>)
    requires PointwiseLeq(s, t)
    ensures Below(s, t)
  {
    SelectAll(t);
    assert PointwiseLeq(s, Select(t, AllTrue(|t|)));
  }

  lemma SubsequenceIsBelow(s: seq<SimTxInput>, t: seq<SimTxInput>)
    requires Subsequence(s, t)
    ensures Below(s, t)
  {
    var mask: seq<bool> :| |mask| == |t| && Select(t, mask) == s;
    assert PointwiseLeq(s, Select(t, mask));
  }

  lemma {:induction false} SelectPointwise(s: seq<SimTxInput>, t: seq<SimTxInput>, mask: seq<bool>)
    requires PointwiseLeq(s, t) && |mask| == |t|
    ensures PointwiseLeq(Select(s, mask), Select(t, mask))
  {
    if |s| == 0 {
    } else {
      SelectPointwise(s[1..], t[1..], mask[1..]);
    }
  }
}
