/**
 * The post-processing of picked peaks: `filter_peaks_by_height`,
 * `filter_peaks_by_count` (a stable sort by descending |height| and a
 * cut), and the selection step of `sample_noise` (the middle element of
 * the sorted absolute samples).
 */
module Filters {
  import opened PeakPick

  /** `filter_peaks_by_height`: the pairs whose |height| reaches |max_height|, in order. */
  function FilterByHeight(peaks: seq<seq<int>>, heights: seq<real>, maxHeight: real): (r: (seq<seq<int>>, seq<real>))
    requires |heights| >= |peaks|
    ensures |r.0| == |r.1| <= |peaks|
  {
    if peaks == [] then ([], [])
    else
      var rest := FilterByHeight(peaks[1..], heights[1..], maxHeight);
      if Abs(heights[0]) >= Abs(maxHeight) then ([peaks[0]] + rest.0, [heights[0]] + rest.1) else rest
  }

  /** The positions in [lo, n) whose |height| reaches |max_height|, ascending. */
  function Kept(heights: seq<real>, lo: nat, n: nat, maxHeight: real): seq<nat>
    requires n <= |heights|
    decreases n - lo
  {
    if lo >= n then []
    else (if Abs(heights[lo]) >= Abs(maxHeight) then [lo] else []) + Kept(heights, lo + 1, n, maxHeight)
  }

  lemma {:induction false} KeptSpec(heights: seq<real>, lo: nat, n: nat, maxHeight: real)
    requires n <= |heights|
    ensures forall i :: i in Kept(heights, lo, n, maxHeight) <==> lo <= i < n && Abs(heights[i]) >= Abs(maxHeight)
    ensures forall a, b :: 0 <= a < b < |Kept(heights, lo, n, maxHeight)| ==>
      Kept(heights, lo, n, maxHeight)[a] < Kept(heights, lo, n, maxHeight)[b]
    decreases n - lo
  {
    if lo < n {
      KeptSpec(heights, lo + 1, n, maxHeight);
      var rest := Kept(heights, lo + 1, n, maxHeight);
      var idx := Kept(heights, lo, n, maxHeight);
      if Abs(heights[lo]) >= Abs(maxHeight) {
        assert idx == [lo] + rest;
        forall a, b | 0 <= a < b < |idx|
          ensures idx[a] < idx[b]
        {
          assert idx[b] == rest[b - 1] && rest[b - 1] in rest;
          if a > 0 {
            assert idx[a] == rest[a - 1];
          }
        }
      } else {
        assert idx == rest;
      }
    }
  }

  lemma {:induction false} FilterByHeightFrom(peaks: seq<seq<int>>, heights: seq<real>, maxHeight: real, lo: nat)
    requires |heights| >= |peaks| && lo <= |peaks|
    ensures var idx := Kept(heights, lo, |peaks|, maxHeight);
      var r := FilterByHeight(peaks[lo..], heights[lo..], maxHeight);
      && |r.0| == |idx|
      && forall k :: 0 <= k < |idx| ==> idx[k] < |peaks| && r.0[k] == peaks[idx[k]] && r.1[k] == heights[idx[k]]
    decreases |peaks| - lo
  {
    if lo < |peaks| {
      FilterByHeightFrom(peaks, heights, maxHeight, lo + 1);
      assert peaks[lo..][1..] == peaks[lo + 1..];
      assert heights[lo..][1..] == heights[lo + 1..];
      var rest := FilterByHeight(peaks[lo + 1..], heights[lo + 1..], maxHeight);
      var restIdx := Kept(heights, lo + 1, |peaks|, maxHeight);
      var r := FilterByHeight(peaks[lo..], heights[lo..], maxHeight);
      var idx := Kept(heights, lo, |peaks|, maxHeight);
      if Abs(heights[lo]) >= Abs(maxHeight) {
        assert r == ([peaks[lo]] + rest.0, [heights[lo]] + rest.1);
        assert idx == [lo] + restIdx;
        forall k | 0 <= k < |idx|
          ensures idx[k] < |peaks| && r.0[k] == peaks[idx[k]] && r.1[k] == heights[idx[k]]
        {
          if k > 0 {
            assert idx[k] == restIdx[k - 1] && r.0[k] == rest.0[k - 1] && r.1[k] == rest.1[k - 1];
          }
        }
      } else {
        assert r == rest && idx == restIdx;
      }
    }
  }

  /**
   * The result is, in input order, exactly the pairs with
   * |height| >= |max_height|: the k-th kept pair is the pair at the k-th
   * position of `Kept`, and a position is in `Kept` iff its height passes.
   */
  lemma FilterByHeightSpec(peaks: seq<seq<int>>, heights: seq<real>, maxHeight: real)
    requires |heights| >= |peaks|
    ensures var idx := Kept(heights, 0, |peaks|, maxHeight);
      var r := FilterByHeight(peaks, heights, maxHeight);
      && (forall i :: i in idx <==> 0 <= i < |peaks| && Abs(heights[i]) >= Abs(maxHeight))
      && (forall a, b :: 0 <= a < b < |idx| ==> idx[a] < idx[b])
      && |r.0| == |idx|
      && forall k :: 0 <= k < |idx| ==> idx[k] < |peaks| && r.0[k] == peaks[idx[k]] && r.1[k] == heights[idx[k]]
  {
    KeptSpec(heights, 0, |peaks|, maxHeight);
    FilterByHeightFrom(peaks, heights, maxHeight, 0);
    assert peaks[0..] == peaks && heights[0..] == heights;
  }

  /** A (peak, height) pair tagged with its input position. */
  datatype Entry = Entry(index: nat, peak: seq<int>, height: real)

  function Entries(peaks: seq<seq<int>>, heights: seq<real>): (r: seq<Entry>)
    requires |heights| >= |peaks|
    ensures |r| == |peaks|
  {
    seq(|peaks|, i requires 0 <= i < |peaks| => Entry(i, peaks[i], heights[i]))
  }

  /** Insert e before the first entry whose |height| is not larger. */
  function InsertDesc(e: Entry, s: seq<Entry>): seq<Entry>
  {
    if s == [] || Abs(s[0].height) <= Abs(e.height) then [e] + s
    else [s[0]] + InsertDesc(e, s[1..])
  }

  /** `sort(key=lastabs, reverse=True)`: by descending |height|, stable. */
  function SortDesc(l: seq<Entry>): seq<Entry>
  {
    if l == [] then [] else InsertDesc(l[0], SortDesc(l[1..]))
  }

  predicate Descending(s: seq<Entry>)
  {
    forall i, j :: 0 <= i < j < |s| ==> Abs(s[i].height) >= Abs(s[j].height)
  }

  /** Entries of equal |height| appear in the order of their input positions. */
  predicate Stable(s: seq<Entry>)
  {
    forall i, j :: 0 <= i < j < |s| && Abs(s[i].height) == Abs(s[j].height) ==> s[i].index < s[j].index
  }

  lemma {:induction false} InsertDescMultiset(e: Entry, s: seq<Entry>)
    ensures multiset(InsertDesc(e, s)) == multiset(s) + multiset{e}
    ensures |InsertDesc(e, s)| == |s| + 1
  {
    if s != [] && Abs(s[0].height) > Abs(e.height) {
      InsertDescMultiset(e, s[1..]);
      assert s == [s[0]] + s[1..];
    }
  }

  /** Every element of InsertDesc(e, s) past the head is e or an element of s[1..] when e is not first. */
  lemma InsertDescTail(e: Entry, s: seq<Entry>, x: Entry)
    requires s != [] && Abs(s[0].height) > Abs(e.height)
    requires x in InsertDesc(e, s[1..])
    ensures x == e || x in s[1..]
  {
    InsertDescMultiset(e, s[1..]);
    assert x in multiset(InsertDesc(e, s[1..]));
  }

  lemma {:induction false} InsertDescOrdered(e: Entry, s: seq<Entry>)
    requires Descending(s)
    ensures Descending(InsertDesc(e, s))
  {
    if s != [] && Abs(s[0].height) > Abs(e.height) {
      InsertDescOrdered(e, s[1..]);
      var r := InsertDesc(e, s);
      var t := InsertDesc(e, s[1..]);
      assert r == [s[0]] + t;
      forall i, j | 0 <= i < j < |r|
        ensures Abs(r[i].height) >= Abs(r[j].height)
      {
        if i == 0 {
          assert r[j] == t[j - 1] && t[j - 1] in t;
          InsertDescTail(e, s, r[j]);
        }
      }
    }
  }

  lemma {:induction false} InsertDescStable(e: Entry, s: seq<Entry>)
    requires Descending(s) && Stable(s)
    requires forall x :: x in s ==> e.index < x.index
    ensures Stable(InsertDesc(e, s))
  {
    if s != [] && Abs(s[0].height) > Abs(e.height) {
      InsertDescStable(e, s[1..]);
      var r := InsertDesc(e, s);
      var t := InsertDesc(e, s[1..]);
      assert r == [s[0]] + t;
      forall i, j | 0 <= i < j < |r| && Abs(r[i].height) == Abs(r[j].height)
        ensures r[i].index < r[j].index
      {
        if i == 0 {
          assert r[j] == t[j - 1] && t[j - 1] in t;
          InsertDescTail(e, s, r[j]);
          if r[j] != e {
            var j' :| 0 <= j' < |s[1..]| && s[1..][j'] == r[j];
            assert s[1 + j'] == r[j];
          }
        }
      }
    }
  }

  predicate IndicesIncreasing(l: seq<Entry>)
  {
    forall i, j :: 0 <= i < j < |l| ==> l[i].index < l[j].index
  }

  /**
   * The sort is a permutation, orders by descending |height| and keeps
   * equal heights in input order.
   */
  lemma {:induction false} SortDescSpec(l: seq<Entry>)
    ensures multiset(SortDesc(l)) == multiset(l) && |SortDesc(l)| == |l|
    ensures Descending(SortDesc(l))
    ensures IndicesIncreasing(l) ==> Stable(SortDesc(l))
  {
    if l != [] {
      SortDescSpec(l[1..]);
      var s := SortDesc(l[1..]);
      InsertDescMultiset(l[0], s);
      InsertDescOrdered(l[0], s);
      assert l == [l[0]] + l[1..];
      if IndicesIncreasing(l) {
        forall x | x in s
          ensures l[0].index < x.index
        {
          assert x in multiset(l[1..]);
          var j :| 0 <= j < |l[1..]| && l[1..][j] == x;
          assert l[1 + j] == x;
        }
        InsertDescStable(l[0], s);
      }
    }
  }

  function MinCount(maxCount: int, n: nat): (k: nat)
    ensures k <= n
  {
    if maxCount < 0 then 0 else if maxCount < n then maxCount else n
  }

  /** `filter_peaks_by_count`: the first min(max_count, n) pairs of the sorted list. */
  function FilterByCount(peaks: seq<seq<int>>, heights: seq<real>, maxCount: int): (r: (seq<seq<int>>, seq<real>))
    requires |heights| >= |peaks|
  {
    var sorted := SortDesc(Entries(peaks, heights));
    SortDescSpec(Entries(peaks, heights));
    var k := MinCount(maxCount, |peaks|);
    (seq(k, i requires 0 <= i < k => sorted[i].peak), seq(k, i requires 0 <= i < k => sorted[i].height))
  }

  /**
   * `filter_peaks_by_count` returns min(max_count, n) pairs (none for a
   * negative count), each an input pair, in non-increasing |height| with
   * ties in input order, and no dropped pair has a larger |height| than a
   * kept one.
   */
  lemma FilterByCountSpec(peaks: seq<seq<int>>, heights: seq<real>, maxCount: int)
    requires |heights| >= |peaks|
    ensures var r := FilterByCount(peaks, heights, maxCount);
      var sorted := SortDesc(Entries(peaks, heights));
      var k := if maxCount < 0 then 0 else if maxCount < |peaks| then maxCount else |peaks|;
      && |sorted| == |peaks|
      && multiset(sorted) == multiset(Entries(peaks, heights))
      && |r.0| == |r.1| == k
      && (forall i :: 0 <= i < k ==>
            var e := sorted[i]; e.index < |peaks| && r.0[i] == e.peak == peaks[e.index] && r.1[i] == e.height == heights[e.index])
      && (forall i, j :: 0 <= i < j < k ==> Abs(r.1[i]) >= Abs(r.1[j]))
      && (forall i, j :: 0 <= i < j < k && Abs(r.1[i]) == Abs(r.1[j]) ==> sorted[i].index < sorted[j].index)
      && (forall i, j :: 0 <= i < k <= j < |peaks| ==> Abs(r.1[i]) >= Abs(sorted[j].height))
  {
    var es := Entries(peaks, heights);
    SortDescSpec(es);
    var sorted := SortDesc(es);
    forall i | 0 <= i < |sorted|
      ensures sorted[i].index < |peaks| && sorted[i].peak == peaks[sorted[i].index] && sorted[i].height == heights[sorted[i].index]
    {
      assert sorted[i] in multiset(es);
    }
  }

  /** Insert x before the first element not smaller than it. */
  function InsertAsc(x: real, s: seq<real>): seq<real>
  {
    if s == [] || x <= s[0] then [x] + s else [s[0]] + InsertAsc(x, s[1..])
  }

  /** `sorted()` on reals, ascending. */
  function SortAsc(l: seq<real>): seq<real>
  {
    if l == [] then [] else InsertAsc(l[0], SortAsc(l[1..]))
  }

  predicate Ascending(s: seq<real>)
  {
    forall i, j :: 0 <= i < j < |s| ==> s[i] <= s[j]
  }

  function CountBelow(s: seq<real>, r: real): nat
  {
    if s == [] then 0 else (if s[0] < r then 1 else 0) + CountBelow(s[1..], r)
  }

  function CountAtMost(s: seq<real>, r: real): nat
  {
    if s == [] then 0 else (if s[0] <= r then 1 else 0) + CountAtMost(s[1..], r)
  }

  lemma {:induction false} InsertAscMultiset(x: real, s: seq<real>)
    ensures multiset(InsertAsc(x, s)) == multiset(s) + multiset{x}
  {
    if s != [] && x > s[0] {
      InsertAscMultiset(x, s[1..]);
      assert s == [s[0]] + s[1..];
    }
  }

  lemma {:induction false} InsertAscOrdered(x: real, s: seq<real>)
    requires Ascending(s)
    ensures Ascending(InsertAsc(x, s))
  {
    if s != [] && x > s[0] {
      InsertAscOrdered(x, s[1..]);
      var t := InsertAsc(x, s[1..]);
      var out := InsertAsc(x, s);
      assert out == [s[0]] + t;
      forall i, j | 0 <= i < j < |out|
        ensures out[i] <= out[j]
      {
        if i == 0 {
          assert out[j] == t[j - 1];
          InsertAscMultiset(x, s[1..]);
          assert out[j] in multiset(t);
          assert out[j] == x || out[j] in s[1..];
        }
      }
    }
  }

  lemma {:induction false} InsertAscCounts(x: real, s: seq<real>, r: real)
    ensures CountBelow(InsertAsc(x, s), r) == CountBelow(s, r) + (if x < r then 1 else 0)
    ensures CountAtMost(InsertAsc(x, s), r) == CountAtMost(s, r) + (if x <= r then 1 else 0)
  {
    if s != [] && x > s[0] {
      InsertAscCounts(x, s[1..], r);
      assert InsertAsc(x, s)[1..] == InsertAsc(x, s[1..]);
    } else {
      assert InsertAsc(x, s)[1..] == s;
    }
  }

  lemma {:induction false} SortAscSpec(l: seq<real>, r: real)
    ensures multiset(SortAsc(l)) == multiset(l) && |SortAsc(l)| == |l|
    ensures Ascending(SortAsc(l))
    ensures CountBelow(SortAsc(l), r) == CountBelow(l, r)
    ensures CountAtMost(SortAsc(l), r) == CountAtMost(l, r)
  {
    if l != [] {
      SortAscSpec(l[1..], r);
      InsertAscMultiset(l[0], SortAsc(l[1..]));
      InsertAscOrdered(l[0], SortAsc(l[1..]));
      InsertAscCounts(l[0], SortAsc(l[1..]), r);
      assert l == [l[0]] + l[1..];
    }
  }

  lemma {:induction false} NoneBelowMin(s: seq<real>, r: real)
    requires forall i :: 0 <= i < |s| ==> r <= s[i]
    ensures CountBelow(s, r) == 0
  {
    if s != [] {
      NoneBelowMin(s[1..], r);
    }
  }

  /** In an ascending list, at most k elements are below s[k] and more than k are at most s[k]. */
  lemma {:induction false} RankInSorted(s: seq<real>, k: nat)
    requires Ascending(s) && k < |s|
    ensures CountBelow(s, s[k]) <= k < CountAtMost(s, s[k])
  {
    if k == 0 {
      NoneBelowMin(s[1..], s[0]);
    } else {
      assert s[1..][k - 1] == s[k];
      RankInSorted(s[1..], k - 1);
    }
  }

  function AbsAll(l: seq<real>): (r: seq<real>)
    ensures |r| == |l|
  {
    seq(|l|, i requires 0 <= i < |l| => Abs(l[i]))
  }

  /** `sorted(ht_list)[sample_count/2]` over the absolute sample values. */
  function NoisePick(samples: seq<real>): real
    requires |samples| >= 1
  {
    SortAscSpec(AbsAll(samples), 0.0);
    SortAsc(AbsAll(samples))[|samples| / 2]
  }

  /**
   * The noise estimate is one of the absolute samples, with at most n/2
   * samples strictly below it and more than n/2 at or below it: the
   * element of rank n/2.
   */
  lemma NoisePickSpec(samples: seq<real>)
    requires |samples| >= 1
    ensures var r := NoisePick(samples); var a := AbsAll(samples);
      && r in a
      && CountBelow(a, r) <= |samples| / 2 < CountAtMost(a, r)
  {
    var a := AbsAll(samples);
    var s := SortAsc(a);
    var r := NoisePick(samples);
    SortAscSpec(a, r);
    assert r == s[|samples| / 2];
    assert r in multiset(s);
    RankInSorted(s, |samples| / 2);
  }
}
