/** The step inspector attached to an execution. */
module Inspector {
  import opened Wrappers
  import opened Selections
  import opened Transactions

  /** Insertion into an ordered set, kept as the ascending list of its elements. */
  function OrderedInsert(s: seq<nat>, x: nat): seq<nat> {
    if |s| == 0 || x < s[0] then [x] + s
    else if x == s[0] then s
    else [s[0]] + OrderedInsert(s[1..], x)
  }

  lemma {:induction false} OrderedInsertMembers(s: seq<nat>, x: nat)
    ensures forall y :: y in OrderedInsert(s, x) <==> y == x || y in s
  {
    if |s| == 0 || x < s[0] || x == s[0] {
    } else {
      OrderedInsertMembers(s[1..], x);
      assert s == [s[0]] + s[1..];
    }
  }

  lemma {:induction false} OrderedInsertIncreasing(s: seq<nat>, x: nat)
    requires StrictlyIncreasing(s)
    ensures StrictlyIncreasing(OrderedInsert(s, x))
  {
    if |s| == 0 || x < s[0] || x == s[0] {
    } else {
      OrderedInsertIncreasing(s[1..], x);
      OrderedInsertMembers(s[1..], x);
      var rest := OrderedInsert(s[1..], x);
      forall k | 0 <= k < |rest|
        ensures s[0] < rest[k]
      {
        assert rest[k] in rest;
      }
    }
  }

  datatype InspectorView = InspectorView(traces: seq<TraceEvent>, stepIndex: nat, visitedPcs: seq<nat>)

  const FRESH := InspectorView([], 0, [])

  function StepView(v: InspectorView, pc: nat): InspectorView {
    InspectorView(v.traces + [TraceEvent(v.stepIndex, Some(pc))], v.stepIndex + 1, OrderedInsert(v.visitedPcs, pc))
  }

  /** The inspector after it has observed `pcs`. */
  function Record(v: InspectorView, pcs: seq<nat>): InspectorView {
    if |pcs| == 0 then v else StepView(Record(v, pcs[..|pcs| - 1]), pcs[|pcs| - 1])
  }

  class InvariantInspector {
    var traces: seq<TraceEvent>
    var stepIndex: nat
    var visitedPcs: seq<nat>

    function View(): InspectorView
      reads this
    {
      InspectorView(traces, stepIndex, visitedPcs)
    }

    constructor ()
      ensures View() == FRESH
    {
      traces, stepIndex, visitedPcs := [], 0, [];
    }

    method Step(programCounter: nat)
      modifies this
      ensures View() == StepView(old(View()), programCounter)
    {
      visitedPcs := OrderedInsert(visitedPcs, programCounter);
      traces := traces + [TraceEvent(stepIndex, Some(programCounter))];
      stepIndex := stepIndex + 1;
    }

    /** One execution, which calls `Step` for each instruction. */
    method Observe(pcs: seq<nat>)
      modifies this
      ensures View() == Record(old(View()), pcs)
    {
      for i := 0 to |pcs|
        invariant View() == Record(old(View()), pcs[..i])
      {
        assert pcs[..i + 1][..i] == pcs[..i];
        Step(pcs[i]);
      }
      assert pcs[..|pcs|] == pcs;
    }
  }

  /** The events of one observation, numbered from `from`. */
  function Numbered(pcs: seq<nat>, from: nat): (r: seq<TraceEvent>)
    ensures |r| == |pcs|
    ensures forall i :: 0 <= i < |r| ==> r[i] == TraceEvent(from + i, Some(pcs[i]))
  {
    seq(|pcs|, i requires 0 <= i < |pcs| => TraceEvent(from + i, Some(pcs[i])))
  }

  /** An observation adds consecutively numbered events, and its program counters to those visited. */
  lemma {:induction false} RecordFacts(v: InspectorView, pcs: seq<nat>)
    requires v.stepIndex == |v.traces| && StrictlyIncreasing(v.visitedPcs)
    ensures var r := Record(v, pcs);
            && r.traces == v.traces + Numbered(pcs, |v.traces|)
            && r.stepIndex == |r.traces|
            && StrictlyIncreasing(r.visitedPcs)
            && (forall pc :: pc in r.visitedPcs <==> pc in v.visitedPcs || pc in pcs)
  {
    if |pcs| == 0 {
    } else {
      var front, last := pcs[..|pcs| - 1], pcs[|pcs| - 1];
      RecordFacts(v, front);
      var w := Record(v, front);
      assert pcs == front + [last];
      assert Numbered(pcs, |v.traces|) == Numbered(front, |v.traces|) + [TraceEvent(|w.traces|, Some(last))];
      OrderedInsertIncreasing(w.visitedPcs, last);
      OrderedInsertMembers(w.visitedPcs, last);
    }
  }
}
