/**
 Generic sequence helpers: order-preserving selection (the shape of a pandas
 boolean-mask filter followed by `reset_index(drop=True)`, and of a list
 comprehension with an `if` clause).
 */
module Seqs {

  predicate StrictlyIncreasing(ps: seq<nat>) {
    forall i, j :: 0 <= i < j < |ps| ==> ps[i] < ps[j]
  }

  /** The elements of `xs` that satisfy `p`, in their original order. */
  function Filter<T>(xs: seq<T>, p: T -> bool): (r: seq<T>)
    ensures |r| <= |xs|
    ensures forall k :: 0 <= k < |r| ==> r[k] in xs && p(r[k])
    ensures forall i :: 0 <= i < |xs| && p(xs[i]) ==> xs[i] in r
  {
    if xs == [] then []
    else (if p(xs[0]) then [xs[0]] else []) + Filter(xs[1..], p)
  }

  /** The positions `i >= lo` whose element `xs[i]` satisfies `p`, in increasing order. */
  function PositionsFrom<T>(xs: seq<T>, p: T -> bool, lo: nat): (ps: seq<nat>)
    ensures forall k :: 0 <= k < |ps| ==> lo <= ps[k] < |xs| && p(xs[ps[k]])
    ensures forall i :: lo <= i < |xs| && p(xs[i]) ==> i in ps
    ensures StrictlyIncreasing(ps)
    decreases |xs| - lo
  {
    if lo >= |xs| then []
    else (if p(xs[lo]) then [lo] else []) + PositionsFrom(xs, p, lo + 1)
  }

  /** The row positions kept by a mask `p`: every position whose element satisfies `p`, and no other. */
  function Positions<T>(xs: seq<T>, p: T -> bool): (ps: seq<nat>)
    ensures forall k :: 0 <= k < |ps| ==> ps[k] < |xs| && p(xs[ps[k]])
    ensures forall i :: 0 <= i < |xs| ==> (p(xs[i]) <==> i in ps)
    ensures StrictlyIncreasing(ps)
  {
    PositionsFrom(xs, p, 0)
  }

  /** The `k`-th element kept by `Filter` on the suffix from `lo` is the element at the `k`-th kept position. */
  lemma {:induction false} FilterPositionsFrom<T>(xs: seq<T>, p: T -> bool, lo: nat)
    requires lo <= |xs|
    ensures |Filter(xs[lo..], p)| == |PositionsFrom(xs, p, lo)|
    ensures forall k :: 0 <= k < |Filter(xs[lo..], p)| ==>
              Filter(xs[lo..], p)[k] == xs[PositionsFrom(xs, p, lo)[k]]
    decreases |xs| - lo
  {
    if lo < |xs| {
      assert xs[lo..][1..] == xs[lo + 1..];
      FilterPositionsFrom(xs, p, lo + 1);
    }
  }

  lemma FilterIsSelection<T>(xs: seq<T>, p: T -> bool)
    ensures |Filter(xs, p)| == |Positions(xs, p)|
    ensures forall k :: 0 <= k < |Filter(xs, p)| ==> Filter(xs, p)[k] == xs[Positions(xs, p)[k]]
  {
    assert xs[0..] == xs;
    FilterPositionsFrom(xs, p, 0);
  }

  /** Filtering a concatenation filters each part. */
  lemma {:induction false} FilterConcat<T>(a: seq<T>, b: seq<T>, p: T -> bool)
    ensures Filter(a + b, p) == Filter(a, p) + Filter(b, p)
  {
    if a == [] {
      assert a + b == b;
    } else {
      assert (a + b)[0] == a[0];
      assert (a + b)[1..] == a[1..] + b;
      FilterConcat(a[1..], b, p);
    }
  }

  /** Filtering keeps a sequence whose every element already passes. */
  lemma {:induction false} FilterAllPass<T>(xs: seq<T>, p: T -> bool)
    requires forall i :: 0 <= i < |xs| ==> p(xs[i])
    ensures Filter(xs, p) == xs
  {
    if xs != [] {
      FilterAllPass(xs[1..], p);
    }
  }

  /** Filtering a sequence none of whose elements passes yields the empty sequence. */
  lemma {:induction false} FilterNonePass<T>(xs: seq<T>, p: T -> bool)
    requires forall i :: 0 <= i < |xs| ==> !p(xs[i])
    ensures Filter(xs, p) == []
  {
    if xs != [] {
      FilterNonePass(xs[1..], p);
    }
  }

  /** Python's normalisation of a slice bound: a negative bound counts from the end; the result is clamped to `[0, n]`. */
  function SliceBound(i: int, n: nat): (b: nat)
    ensures b <= n
  {
    if i < 0 then (if i + n < 0 then 0 else i + n)
    else if i > n then n
    else i
  }

  /** Python's slice `s[lo:hi]` with unit step. */
  function PySlice<T>(s: seq<T>, lo: int, hi: int): (r: seq<T>)
    ensures var a, b := SliceBound(lo, |s|), SliceBound(hi, |s|);
            && |r| == (if a < b then b - a else 0)
            && forall k :: 0 <= k < |r| ==> r[k] == s[a + k]
  {
    var a, b := SliceBound(lo, |s|), SliceBound(hi, |s|);
    if a < b then s[a..b] else []
  }

  /**
   Python's slice rules: in-range bounds cut the ordinary subsequence; a
   negative bound `-n..-1`, on either side or both, names the position that
   bound plus the length; a bound past either end is clamped to that end, so
   a start at or past the end, or an end at or before the start of the
   sequence, gives nothing; and cutting at any bound `k` splits the sequence
   into `[:k]` and `[k:]`.
   */
  lemma PySliceLaws<T>(s: seq<T>, lo: int, hi: int)
    ensures 0 <= lo <= hi <= |s| ==> PySlice(s, lo, hi) == s[lo..hi]
    ensures 0 <= lo < |s| && 0 <= hi < |s| ==> PySlice(s, lo - |s|, hi - |s|) == PySlice(s, lo, hi)
    ensures 0 <= lo < |s| && 0 <= hi <= |s| ==> PySlice(s, lo - |s|, hi) == PySlice(s, lo, hi)
    ensures 0 <= lo <= |s| && 0 <= hi < |s| ==> PySlice(s, lo, hi - |s|) == PySlice(s, lo, hi)
    ensures hi >= |s| ==> PySlice(s, lo, hi) == PySlice(s, lo, |s|)
    ensures lo <= -|s| ==> PySlice(s, lo, hi) == PySlice(s, 0, hi)
    ensures lo >= |s| ==> PySlice(s, lo, hi) == []
    ensures hi <= -|s| ==> PySlice(s, lo, hi) == []
    ensures PySlice(s, 0, lo) + PySlice(s, lo, |s|) == s
  {
    var b := SliceBound(lo, |s|);
    assert PySlice(s, 0, lo) == s[..b];
    assert PySlice(s, lo, |s|) == s[b..];
    assert s[..b] + s[b..] == s;
  }

  /** Filtering out the one failing element of a sequence removes exactly that element. */
  lemma {:induction false} FilterDropOne<T>(xs: seq<T>, p: T -> bool, i: nat)
    requires i < |xs| && !p(xs[i])
    requires forall k :: 0 <= k < |xs| && k != i ==> p(xs[k])
    ensures Filter(xs, p) == xs[..i] + xs[i + 1..]
  {
    if i == 0 {
      FilterAllPass(xs[1..], p);
    } else {
      var t := xs[1..];
      FilterDropOne(t, p, i - 1);
      assert [xs[0]] + (t[..i - 1] + t[i..]) == xs[..i] + xs[i + 1..];
    }
  }
}
