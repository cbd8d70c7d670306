/** Binary search over 256-bit values: `shrink_u256_bisect`. */
module Bisection {
  import opened Words

  /** Number of values in the interval `[lo, hi]`. */
  function Width(lo: U256, hi: U256): nat {
    if lo <= hi then hi - lo + 1 else 0
  }

  /** `lo + ((hi - lo) >> 1)`, which stays inside the interval and so never overflows. */
  function Midpoint(lo: U256, hi: U256): (mid: U256)
    requires lo <= hi
    ensures lo <= mid <= hi
    ensures mid - lo <= hi - mid <= mid - lo + 1
  {
    lo + (hi - lo) / 2
  }

  /** The value the search returns from the interval `[lo, hi]` when `best` is the best so far.
      At the last value of the word a failing probe leaves the interval as it is, and the program
      loops; the function then gives up with `best`, and `Diverges` says when that happens. */
  function Bisect(lo: U256, hi: U256, best: U256, p: U256 -> bool): U256
    decreases Width(lo, hi)
  {
    if lo > hi then best
    else
      var mid := Midpoint(lo, hi);
      if p(mid) then
        if mid == 0 then mid else Bisect(lo, mid - 1, mid, p)
      else if mid == MAX_U256 then best
      else Bisect(mid + 1, hi, best, p)
  }

  /** Every probe fails on the way up from `lo` to the last value of the word. */
  predicate AscentFails(lo: U256, p: U256 -> bool)
    decreases MAX_U256 - lo
  {
    var mid := Midpoint(lo, MAX_U256);
    !p(mid) && (mid == MAX_U256 || AscentFails(mid + 1, p))
  }

  /** When the loop never ends. */
  predicate Diverges(start: U256, min: U256, p: U256 -> bool) {
    start == MAX_U256 && AscentFails(min, p)
  }

  /** Between `min` and `max`, the predicate holds of every value above one it holds of. */
  ghost predicate MonotoneBetween(p: U256 -> bool, min: U256, max: U256) {
    forall u: U256, v: U256 :: min <= u <= v <= max && p(u) ==> p(v)
  }

  /** Between `min` and `max`, the values the predicate holds of form an interval. */
  ghost predicate GaplessBetween(p: U256 -> bool, min: U256, max: U256) {
    forall u: U256, v: U256, w: U256 :: min <= u <= v <= w <= max && p(u) && p(w) ==> p(v)
  }

  /** While the ascent does not fail throughout, a failing probe leaves room above it. */
  lemma AscentStep(lo: U256, hi: U256, p: U256 -> bool)
    requires lo <= hi && !p(Midpoint(lo, hi))
    requires hi == MAX_U256 ==> !AscentFails(lo, p)
    ensures var mid := Midpoint(lo, hi);
            mid < MAX_U256 && SatAdd(mid, 1) == mid + 1 && (hi == MAX_U256 ==> !AscentFails(mid + 1, p))
  {
  }

  /** Either half left over by a probe is at least one binary digit narrower. */
  lemma HalvesBits(lo: U256, hi: U256)
    requires lo <= hi
    ensures var mid := Midpoint(lo, hi);
            && BitLength(mid - lo) < BitLength(Width(lo, hi))
            && BitLength(hi - mid) < BitLength(Width(lo, hi))
  {
    var mid := Midpoint(lo, hi);
    var width: nat := Width(lo, hi);
    BitLengthMonotone(mid - lo, width / 2);
    BitLengthMonotone(hi - mid, width / 2);
  }

  lemma WidthBits(lo: U256, hi: U256, bits: nat)
    requires bits == 257
    ensures BitLength(Width(lo, hi)) <= bits
  {
    Pow2OfWord(bits - 1);
    assert Pow2(bits) == 2 * Pow2(bits - 1);
    BitLengthBound(Width(lo, hi), bits);
  }

  /** `shrink_u256_bisect`. The ghost result counts the predicate calls. */
  method ShrinkU256Bisect(start: U256, min: U256, condition: U256 -> bool) returns (best: U256, ghost calls: nat)
    requires !Diverges(start, min, condition)
    ensures best == Bisect(min, start, start, condition)
    ensures calls <= BitLength(Width(min, start))
    ensures calls <= 257
  {
    var lo, hi := min, start;
    best := start;
    calls := 0;
    while lo <= hi
      invariant Bisect(lo, hi, best, condition) == Bisect(min, start, start, condition)
      invariant hi == MAX_U256 ==> !AscentFails(lo, condition)
      invariant calls + BitLength(Width(lo, hi)) <= BitLength(Width(min, start))
      decreases Width(lo, hi)
    {
      var mid := Midpoint(lo, hi);
      HalvesBits(lo, hi);
      calls := calls + 1;
      if condition(mid) {
        best := mid;
        if mid == 0 {
          break;
        }
        hi := SatSub(mid, 1);
      } else {
        AscentStep(lo, hi, condition);
        lo := SatAdd(mid, 1);
      }
    }
    WidthBits(min, start, 257);
  }

  /** `r` satisfies the predicate, lies in `[min, max]`, and cannot be stepped down inside it. */
  predicate Boundary(r: U256, min: U256, max: U256, p: U256 -> bool) {
    min <= r <= max && p(r) && (r == min || !p(r - 1))
  }

  lemma {:induction false} BisectFrom(lo: U256, hi: U256, best: U256, min: U256, p: U256 -> bool)
    requires p(best) && min <= lo <= best <= hi + 1 && hi <= best
    requires lo == min || !p(lo - 1)
    ensures Boundary(Bisect(lo, hi, best, p), min, best, p)
    decreases Width(lo, hi)
  {
    if lo <= hi {
      var mid := Midpoint(lo, hi);
      if !p(mid) {
        assert mid < best;
        BisectFrom(mid + 1, hi, best, min, p);
      } else if mid != 0 {
        BisectFrom(lo, mid - 1, mid, min, p);
      }
    }
  }

  /** With no assumption on the predicate: from a start that satisfies it, the result satisfies it,
      lies in the interval, and is the floor or has a failing predecessor. */
  lemma BisectCorrect(start: U256, min: U256, p: U256 -> bool)
    requires min <= start && p(start)
    ensures Boundary(Bisect(min, start, start, p), min, start, p)
  {
    BisectFrom(min, start, start, min, p);
  }

  /** When the satisfying values of the interval have no gap, and so for a monotone predicate, the
      result is the least of them. */
  lemma BisectLeast(start: U256, min: U256, p: U256 -> bool, v: U256)
    requires min <= start && p(start)
    requires GaplessBetween(p, min, start) || MonotoneBetween(p, min, start)
    ensures min <= v && p(v) ==> Bisect(min, start, start, p) <= v
  {
    BisectCorrect(start, min, p);
  }

  /** A gap can make it a larger one: here 0 satisfies the predicate, and the search returns 3. */
  lemma {:induction false} BisectNotLeast(start: U256)
    requires start == 4
    ensures var p := (v: U256) => v != 1 && v != 2;
            Bisect(0, start, start, p) == 3 && p(0)
  {
    var p := (v: U256) => v != 1 && v != 2;
    var mid := Midpoint(0, start);
    assert mid == 2 && !p(mid);
    var next := Midpoint(mid + 1, start);
    assert next == 3 && p(next);
    assert Bisect(next, next - 1, next, p) == next;
    assert Bisect(mid + 1, start, start, p) == next;
  }

  lemma {:induction false} BisectInRangeFrom(lo: U256, hi: U256, best: U256, start: U256, min: U256, p: U256 -> bool)
    requires min <= lo && hi <= start && min <= best <= start
    requires best == start || p(best)
    ensures var r := Bisect(lo, hi, best, p);
            min <= r <= start && (r == start || p(r))
    decreases Width(lo, hi)
  {
    if lo <= hi {
      var mid := Midpoint(lo, hi);
      if p(mid) {
        if mid != 0 {
          BisectInRangeFrom(lo, mid - 1, mid, start, min, p);
        }
      } else if mid != MAX_U256 {
        BisectInRangeFrom(mid + 1, hi, best, start, min, p);
      }
    }
  }

  /** For any start and any predicate, the result is the start or a satisfying value of the interval. */
  lemma BisectInRange(start: U256, min: U256, p: U256 -> bool)
    requires min <= start
    ensures var r := Bisect(min, start, start, p);
            min <= r <= start && (r == start || p(r))
  {
    BisectInRangeFrom(min, start, start, start, min, p);
  }

  /** No value of `[min, start]` below the result satisfies the predicate. */
  ghost predicate FindsLeast(start: U256, min: U256, p: U256 -> bool) {
    forall v: U256 :: min <= v < Bisect(min, start, start, p) ==> !p(v)
  }

  /** The last satisfying value before a failing one. */
  lemma {:induction false} LastBefore(u: U256, v: U256, p: U256 -> bool) returns (l: U256)
    requires u <= v && p(u) && !p(v)
    ensures u <= l < v && p(l)
    ensures forall x: U256 :: l < x <= v ==> !p(x)
    decreases v - u
  {
    if p(v - 1) {
      l := v - 1;
    } else {
      l := LastBefore(u, v - 1, p);
    }
  }

  /** The first satisfying value after a failing one. */
  lemma {:induction false} FirstAfter(v: U256, w: U256, p: U256 -> bool) returns (s: U256)
    requires v <= w && !p(v) && p(w)
    ensures v < s <= w && p(s)
    ensures forall x: U256 :: v <= x < s ==> !p(x)
    decreases w - v
  {
    if p(v + 1) {
      s := v + 1;
    } else {
      s := FirstAfter(v + 1, w, p);
    }
  }

  /** From one side of a gap the search does not see the other. */
  lemma GapMisses(l: U256, s: U256, p: U256 -> bool)
    requires l < s - 1 && p(l) && forall x: U256 :: l < x < s ==> !p(x)
    ensures !FindsLeast(s, l, p)
  {
    var mid := Midpoint(l, s);
    BisectInRangeFrom(mid + 1, s, s, s, mid + 1, p);
    assert Bisect(l, s, s, p) == Bisect(mid + 1, s, s, p);
  }

  /** Inside `[floor, top]` every search from a satisfying start finds the least satisfying value of
      its range exactly when the satisfying values have no gap. */
  lemma BisectLeastIff(floor: U256, top: U256, p: U256 -> bool)
    ensures (forall start: U256, min: U256 ::
               floor <= min <= start <= top && p(start) ==> FindsLeast(start, min, p))
       <==> GaplessBetween(p, floor, top)
  {
    if GaplessBetween(p, floor, top) {
      forall start: U256, min: U256, v: U256 |
        floor <= min <= start <= top && p(start) && min <= v < Bisect(min, start, start, p)
        ensures !p(v)
      {
        BisectLeast(start, min, p, v);
      }
    } else {
      var u: U256, v: U256, w: U256 :| floor <= u <= v <= w <= top && p(u) && p(w) && !p(v);
      var l := LastBefore(u, v, p);
      var s := FirstAfter(v, w, p);
      GapMisses(l, s, p);
    }
  }

  lemma {:induction false} BisectAgrees(lo: U256, hi: U256, best: U256, p: U256 -> bool, q: U256 -> bool)
    requires forall v: U256 :: lo <= v <= hi ==> p(v) == q(v)
    ensures Bisect(lo, hi, best, p) == Bisect(lo, hi, best, q)
    decreases Width(lo, hi)
  {
    if lo <= hi {
      var mid := Midpoint(lo, hi);
      if p(mid) && mid != 0 {
        BisectAgrees(lo, mid - 1, mid, p, q);
      } else if !p(mid) && mid != MAX_U256 {
        BisectAgrees(mid + 1, hi, best, p, q);
      }
    }
  }

  lemma LastProbe(start: U256, p: U256 -> bool)
    ensures Bisect(start, start, start, p) == start
  {
    assert Midpoint(start, start) == start;
  }

  lemma {:induction false} StartUnasked(lo: U256, start: U256, p: U256 -> bool, q: U256 -> bool)
    requires lo <= start && q(start) && forall v: U256 :: v < start ==> p(v) == q(v)
    ensures Bisect(lo, start, start, p) == Bisect(lo, start, start, q)
    decreases start - lo
  {
    var mid := Midpoint(lo, start);
    if mid == start {
      LastProbe(start, p);
      LastProbe(start, q);
    } else if p(mid) {
      if mid != 0 {
        BisectAgrees(lo, mid - 1, mid, p, q);
      }
    } else {
      StartUnasked(mid + 1, start, p, q);
    }
  }

  /** What the start itself says does not matter: the search answers as if it satisfied the
      predicate. So from any start the result is at the floor or has a failing predecessor. */
  lemma BisectAnyStart(start: U256, min: U256, p: U256 -> bool)
    requires min <= start
    ensures var r := Bisect(min, start, start, p);
            && r == Bisect(min, start, start, (v: U256) => v == start || p(v))
            && min <= r && (r == min || !p(r - 1))
  {
    var q := (v: U256) => v == start || p(v);
    StartUnasked(min, start, p, q);
    BisectCorrect(start, min, q);
  }

  /** The loop, iterated as the program does, with saturating steps, leaves within `n` iterations. */
  predicate Exits(n: nat, lo: U256, hi: U256, p: U256 -> bool) {
    lo > hi ||
    (n > 0 &&
     var mid := Midpoint(lo, hi);
     if p(mid) then mid == 0 || Exits(n - 1, lo, SatSub(mid, 1), p)
     else Exits(n - 1, SatAdd(mid, 1), hi, p))
  }

  ghost predicate Terminates(start: U256, min: U256, p: U256 -> bool) {
    exists n: nat :: RunExits(n, start, min, p)
  }

  predicate RunExits(n: nat, start: U256, min: U256, p: U256 -> bool) {
    Exits(n, min, start, p)
  }

  lemma {:induction false} NeverExits(n: nat, lo: U256, p: U256 -> bool)
    requires AscentFails(lo, p)
    ensures !Exits(n, lo, MAX_U256, p)
  {
    if n > 0 {
      var mid := Midpoint(lo, MAX_U256);
      if mid != MAX_U256 {
        NeverExits(n - 1, mid + 1, p);
      } else {
        NeverExits(n - 1, lo, p);
      }
    }
  }

  lemma {:induction false} ExitsWithin(n: nat, lo: U256, hi: U256, p: U256 -> bool)
    requires Width(lo, hi) <= n
    requires hi == MAX_U256 ==> !AscentFails(lo, p)
    ensures Exits(n, lo, hi, p)
  {
    if lo <= hi {
      var mid := Midpoint(lo, hi);
      if p(mid) {
        if mid != 0 {
          ExitsWithin(n - 1, lo, mid - 1, p);
        }
      } else {
        ExitsWithin(n - 1, SatAdd(mid, 1), hi, p);
      }
    }
  }

  /** The search ends exactly when it does not start at the last value of the word with all probes failing. */
  lemma BisectTerminatesIff(start: U256, min: U256, p: U256 -> bool)
    ensures Terminates(start, min, p) <==> !Diverges(start, min, p)
  {
    if Diverges(start, min, p) {
      forall n: nat
        ensures !RunExits(n, start, min, p)
      {
        NeverExits(n, min, p);
      }
    } else {
      var n: nat := Width(min, start);
      ExitsWithin(n, min, start, p);
      assert RunExits(n, start, min, p);
    }
  }

  lemma {:induction false} AscentMeetsTop(lo: U256, p: U256 -> bool)
    requires AscentFails(lo, p)
    ensures !p(MAX_U256)
    decreases MAX_U256 - lo
  {
    var mid := Midpoint(lo, MAX_U256);
    if mid != MAX_U256 {
      AscentMeetsTop(mid + 1, p);
    }
  }

  /** A caller need only start below the last value or from a satisfying value. */
  lemma SafeStart(start: U256, min: U256, p: U256 -> bool)
    requires start < MAX_U256 || p(start)
    ensures !Diverges(start, min, p)
  {
    if AscentFails(min, p) {
      AscentMeetsTop(min, p);
    }
  }

  /** Without knowing the floor, that condition is exact for every predicate. */
  lemma SafeStartIff(start: U256, p: U256 -> bool)
    ensures (forall min: U256 :: !Diverges(start, min, p)) <==> start < MAX_U256 || p(start)
  {
    if start < MAX_U256 || p(start) {
      forall min: U256
        ensures !Diverges(start, min, p)
      {
        SafeStart(start, min, p);
      }
    } else {
      assert Midpoint(MAX_U256, MAX_U256) == MAX_U256;
      assert Diverges(start, MAX_U256, p);
    }
  }

  lemma {:induction false} AscentOfMonotone(lo: U256, p: U256 -> bool)
    requires MonotoneBetween(p, lo, MAX_U256) && !p(MAX_U256)
    ensures AscentFails(lo, p)
    decreases MAX_U256 - lo
  {
    var mid: U256 := Midpoint(lo, MAX_U256);
    assert !p(mid);
    if mid != MAX_U256 {
      AscentOfMonotone(mid + 1, p);
    }
  }

  /** For a monotone predicate it is exact at every floor. */
  lemma SafeStartIffMonotone(start: U256, min: U256, p: U256 -> bool)
    requires MonotoneBetween(p, min, start)
    ensures Diverges(start, min, p) <==> start == MAX_U256 && !p(start)
  {
    if start == MAX_U256 && !p(start) {
      AscentOfMonotone(min, p);
    } else {
      SafeStart(start, min, p);
    }
  }
}
