/** Subsequences described by a keep-mask, and the lexicographic order on vectors. */
module Selections {

  /** The items of `s` whose mask bit is set, in their original order. */
  function Select<T>(s: seq<T>, mask: seq<bool>): (r: seq<T>)
    requires |s| == |mask|
    ensures |r| <= |s|
  {
    if |s| == 0 then [] else (if mask[0] then [s[0]] else []) + Select(s[1..], mask[1..])
  }

  function AllTrue(n: nat): seq<bool> {
    seq(n, i => true)
  }

  /** `s` without its item `i`: `Vec::remove`. */
  function RemoveAt<T>(s: seq<T>, i: nat): (r: seq<T>)
    requires i < |s|
    ensures |r| == |s| - 1
  {
    s[..i] + s[i + 1..]
  }

  /** The indices `from, from + 1, ..., to - 1`. */
  function Range(from: nat, to: nat): (r: seq<nat>)
    requires from <= to
    ensures |r| == to - from
    ensures forall i :: 0 <= i < |r| ==> r[i] == from + i
  {
    seq(to - from, i requires 0 <= i => from + i)
  }

  ghost predicate Subsequence<T>(s: seq<T>, t: seq<T>) {
    exists mask: seq<bool> :: |mask| == |t| && Select(t, mask) == s
  }

  predicate StrictlyIncreasing(s: seq<nat>) {
    forall i, j :: 0 <= i < j < |s| ==> s[i] < s[j]
  }

  /** Lexicographic order, first component most significant. */
  predicate LexLeq(a: seq<int>, b: seq<int>)
    requires |a| == |b|
  {
    |a| == 0 || a[0] < b[0] || (a[0] == b[0] && LexLeq(a[1..], b[1..]))
  }

  /** A keep-mask as a vector, where dropping an item (0) is smaller than keeping it (1). */
  function KeepVector(mask: seq<bool>): (v: seq<int>)
    ensures |v| == |mask|
  {
    seq(|mask|, i requires 0 <= i < |mask| => if mask[i] then 1 else 0)
  }

  lemma {:induction false} SelectAppend<T>(a: seq<T>, b: seq<T>, ma: seq<bool>, mb: seq<bool>)
    requires |a| == |ma| && |b| == |mb|
    ensures Select(a + b, ma + mb) == Select(a, ma) + Select(b, mb)
  {
    if |a| == 0 {
      assert a + b == b && ma + mb == mb;
    } else {
      var first := if ma[0] then [a[0]] else [];
      assert (a + b)[1..] == a[1..] + b && (ma + mb)[1..] == ma[1..] + mb;
      assert Select(a + b, ma + mb) == first + Select(a[1..] + b, ma[1..] + mb);
      SelectAppend(a[1..], b, ma[1..], mb);
      assert first + (Select(a[1..], ma[1..]) + Select(b, mb)) == (first + Select(a[1..], ma[1..])) + Select(b, mb);
    }
  }

  lemma {:induction false} SelectAll<T>(s: seq<T>)
    ensures Select(s, AllTrue(|s|)) == s
  {
    if |s| == 0 {
    } else {
      assert AllTrue(|s|)[1..] == AllTrue(|s| - 1);
      SelectAll(s[1..]);
    }
  }

  /** Only the full mask keeps every item. */
  lemma {:induction false} SelectEverything<T>(s: seq<T>, mask: seq<bool>)
    requires |mask| == |s|
    ensures |Select(s, mask)| == |s| <==> mask == AllTrue(|s|)
  {
    if |s| == 0 {
    } else {
      SelectEverything(s[1..], mask[1..]);
      assert AllTrue(|s|)[1..] == AllTrue(|s| - 1);
      if |Select(s, mask)| == |s| {
        assert mask == [mask[0]] + mask[1..];
      }
    }
  }

  /** `idx` lists, in order, the positions (counted from `from`) at which `mask` selects from `s`,
      and `r` the items there. */
  ghost predicate Indexes<T>(idx: seq<nat>, r: seq<T>, s: seq<T>, mask: seq<bool>, from: nat)
    requires |s| == |mask|
  {
    && |idx| == |r|
    && (forall j :: 0 <= j < |idx| ==> from <= idx[j] < from + |s| && s[idx[j] - from] == r[j])
    && StrictlyIncreasing(idx)
    && (forall k :: 0 <= k < |s| ==> (mask[k] <==> from + k in idx))
  }

  lemma IndexesDrop<T>(idx: seq<nat>, r: seq<T>, s: seq<T>, mask: seq<bool>, from: nat)
    requires |s| == |mask| && |s| > 0 && !mask[0] && Indexes(idx, r, s[1..], mask[1..], from + 1)
    ensures Indexes(idx, r, s, mask, from)
  {
    forall k | 0 <= k < |s|
      ensures mask[k] <==> from + k in idx
    {
      assert k > 0 ==> (mask[1..][k - 1] <==> (from + 1) + (k - 1) in idx);
    }
  }

  lemma IndexesKeep<T>(idx: seq<nat>, r: seq<T>, s: seq<T>, mask: seq<bool>, from: nat)
    requires |s| == |mask| && |s| > 0 && mask[0] && Indexes(idx, r, s[1..], mask[1..], from + 1)
    ensures Indexes([from] + idx, [s[0]] + r, s, mask, from)
  {
    var idx', r' := [from] + idx, [s[0]] + r;
    assert forall j :: 0 < j < |idx'| ==> idx'[j] == idx[j - 1] && r'[j] == r[j - 1];
    forall k | 0 <= k < |s|
      ensures mask[k] <==> from + k in idx'
    {
      assert k > 0 ==> (mask[1..][k - 1] <==> (from + 1) + (k - 1) in idx);
      assert from + k in idx' <==> k == 0 || from + k in idx;
    }
  }

  /** Selecting from the indices tells which items are selected. */
  lemma {:induction false} SelectIndices<T>(s: seq<T>, mask: seq<bool>, from: nat)
    requires |s| == |mask|
    ensures Indexes(Select(Range(from, from + |s|), mask), Select(s, mask), s, mask, from)
  {
    if |s| == 0 {
    } else {
      var range := Range(from, from + |s|);
      assert range[1..] == Range(from + 1, from + 1 + |s[1..]|);
      SelectIndices(s[1..], mask[1..], from + 1);
      var idx, r := Select(range[1..], mask[1..]), Select(s[1..], mask[1..]);
      if mask[0] {
        IndexesKeep(idx, r, s, mask, from);
      } else {
        IndexesDrop(idx, r, s, mask, from);
        assert Select(range, mask) == idx && Select(s, mask) == r;
      }
    }
  }

  lemma {:induction false} SelectCount<T>(s: seq<T>, mask: seq<bool>, others: seq<bool>)
    requires |s| == |mask| == |others|
    requires forall i :: 0 <= i < |mask| ==> others[i] == !mask[i]
    ensures |Select(s, mask)| + |Select(s, others)| == |s|
  {
    if |s| == 0 {
    } else {
      SelectCount(s[1..], mask[1..], others[1..]);
    }
  }

  lemma SelectCons<T>(x: T, s: seq<T>, keep: bool, mask: seq<bool>)
    requires |s| == |mask|
    ensures Select([x] + s, [keep] + mask) == if keep then [x] + Select(s, mask) else Select(s, mask)
  {
    assert ([x] + s)[1..] == s && ([keep] + mask)[1..] == mask;
  }

  lemma SplitAround<T>(s: seq<T>, j: nat)
    requires j < |s|
    ensures s == s[..j] + ([s[j]] + s[j + 1..])
  {
  }

  lemma SelectDropped<T>(front: seq<T>, x: T, back: seq<T>, mf: seq<bool>, mb: seq<bool>)
    requires |front| == |mf| && |back| == |mb|
    ensures Select(front + ([x] + back), mf + ([false] + mb)) == Select(front + back, mf + mb)
  {
    SelectCons(x, back, false, mb);
    SelectAppend(front, [x] + back, mf, [false] + mb);
    SelectAppend(front, back, mf, mb);
  }

  /** A mask that drops item `j` selects from what is left once `j` is removed. */
  lemma SelectWithout<T>(s: seq<T>, mask: seq<bool>, j: nat)
    requires |s| == |mask| && j < |s| && !mask[j]
    ensures Select(s, mask) == Select(RemoveAt(s, j), RemoveAt(mask, j))
  {
    SelectDropped(s[..j], s[j], s[j + 1..], mask[..j], mask[j + 1..]);
    SplitAround(s, j);
    SplitAround(mask, j);
  }

  /** The mask that drops only item `j` of `n`. */
  function AllBut(n: nat, j: nat): (mask: seq<bool>)
    requires j < n
    ensures |mask| == n && mask != AllTrue(n)
  {
    var mask := seq(n, i => i != j);
    assert mask[j] != AllTrue(n)[j];
    mask
  }

  /** Removing one item is a selection. */
  lemma {:induction false} RemoveIsSelect<T>(s: seq<T>, j: nat)
    requires j < |s|
    ensures Select(s, AllBut(|s|, j)) == RemoveAt(s, j)
  {
    var tail, mask := s[1..], AllBut(|s|, j);
    if j == 0 {
      assert mask[1..] == AllTrue(|tail|);
      SelectAll(tail);
      assert RemoveAt(s, 0) == tail;
    } else {
      assert mask[1..] == AllBut(|tail|, j - 1);
      RemoveIsSelect(tail, j - 1);
      assert RemoveAt(s, j) == [s[0]] + RemoveAt(tail, j - 1);
    }
  }

  /** Two removals in either order. */
  lemma RemoveTwice<T>(s: seq<T>, i: nat, j: nat)
    requires i < j < |s|
    ensures RemoveAt(RemoveAt(s, j), i) == RemoveAt(RemoveAt(s, i), j - 1)
  {
  }

  lemma {:induction false} LexAntisymmetric(a: seq<int>, b: seq<int>)
    requires |a| == |b| && LexLeq(a, b) && LexLeq(b, a)
    ensures a == b
  {
    if |a| == 0 {
    } else {
      LexAntisymmetric(a[1..], b[1..]);
      assert a == [a[0]] + a[1..] && b == [b[0]] + b[1..];
    }
  }

  lemma LexFrom(a: seq<int>, b: seq<int>, i: nat)
    requires |a| == |b| && i < |a|
    requires a[i] < b[i] || (a[i] == b[i] && LexLeq(a[i + 1..], b[i + 1..]))
    ensures LexLeq(a[i..], b[i..])
  {
    assert a[i..][1..] == a[i + 1..] && b[i..][1..] == b[i + 1..];
  }

  lemma {:induction false} PointwiseImpliesLex(a: seq<int>, b: seq<int>)
    requires |a| == |b| && forall i :: 0 <= i < |a| ==> a[i] <= b[i]
    ensures LexLeq(a, b)
  {
    if |a| == 0 {
    } else {
      PointwiseImpliesLex(a[1..], b[1..]);
    }
  }
}
