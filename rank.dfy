/** Rank assignment, `getRank` of correlation.go: the caller's array is
    co-sorted with an index companion, a sweep over the sorted values gives
    each sorted slot a rank (the midpoint of its run of equal values, when a
    strictly larger value closes that run), and the ranks are scattered back
    to the original slots through the index companion.

    Two cases keep raw sorted positions instead of midpoints, exactly as the
    sweep does: the run that reaches the last slot (nothing larger closes it),
    and every run when the sorted array starts with NaN (no value is ever
    `>` NaN, so no run is ever closed). */
module Rank {
  import opened Values
  import CoSort

  /** First slot of the maximal run of equal values that holds slot k. */
  ghost function RunStart(s: seq<Value>, k: nat): (lo: nat)
    requires k < |s|
    ensures lo <= k
    ensures forall m :: lo <= m <= k ==> s[m] == s[k]
    ensures lo == 0 || s[lo - 1] != s[lo]
  {
    if k == 0 || s[k - 1] != s[k] then k else RunStart(s, k - 1)
  }

  /** Last slot of the maximal run of equal values that holds slot k. */
  ghost function RunEnd(s: seq<Value>, k: nat): (hi: nat)
    requires k < |s|
    ensures k <= hi < |s|
    ensures forall m :: k <= m <= hi ==> s[m] == s[k]
    ensures hi == |s| - 1 || s[hi + 1] != s[hi]
    decreases |s| - k
  {
    if k == |s| - 1 || s[k + 1] != s[k] then k else RunEnd(s, k + 1)
  }

  /** The rank the sweep of `getRank` leaves at sorted slot k: the midpoint
      of k's run when a larger value closes it, else the raw position k. */
  ghost function SweepRank(s: seq<Value>, k: nat): (r: real)
    requires k < |s|
    ensures RunStart(s, k) as real <= r <= RunEnd(s, k) as real
  {
    if s[0].NaN? || RunEnd(s, k) == |s| - 1 then k as real
    else RunStart(s, k) as real + (RunEnd(s, k) - RunStart(s, k)) as real / 2.0
  }

  /** Every slot of a block of equal values that starts a run has that run start. */
  lemma {:induction false} RunStartInBlock(s: seq<Value>, lo: nat, k: nat)
    requires lo <= k < |s|
    requires forall m :: lo <= m <= k ==> s[m] == s[lo]
    requires lo == 0 || s[lo - 1] != s[lo]
    ensures RunStart(s, k) == lo
    decreases k - lo
  {
    if k > lo {
      RunStartInBlock(s, lo, k - 1);
    }
  }

  /** Every slot of a block of equal values that ends a run has that run end. */
  lemma {:induction false} RunEndInBlock(s: seq<Value>, k: nat, hi: nat)
    requires k <= hi < |s|
    requires forall m :: k <= m <= hi ==> s[m] == s[hi]
    requires hi == |s| - 1 || s[hi + 1] != s[hi]
    ensures RunEnd(s, k) == hi
    decreases hi - k
  {
    if k < hi {
      RunEndInBlock(s, k + 1, hi);
    }
  }

  /** `r` is what `getRank` returns for the input `x0`: `s` is `x0` sorted,
      `perm` the index companion after the sort (sorted slot k came from
      original slot perm[k]), and original slot perm[k] receives the sweep
      rank of sorted slot k. */
  ghost predicate RankedBy(x0: seq<Value>, s: seq<Value>, perm: seq<int>, r: seq<real>) {
    && |s| == |x0| && |r| == |x0|
    && Sorted(s) && multiset(s) == multiset(x0)
    && IsPermutation(perm, |x0|)
    && (forall k :: 0 <= k < |x0| ==> s[k] == x0[perm[k]])
    && (forall k :: 0 <= k < |x0| ==> r[perm[k]] == SweepRank(s, k))
  }

  /** `getRank(x)`. It sorts the caller's `x` in place (the caller sees `x`
      sorted afterwards) and returns a fresh rank for every original slot. */
  method GetRank(x: array<Value>) returns (rank: seq<real>, ghost perm: seq<int>)
    modifies x
    ensures RankedBy(old(x[..]), x[..], perm, rank)
  {
    ghost var x0 := x[..];
    var order;
    order, perm := SortWithIndex(x);
    var rankSlice := SweepRanks(x);
    rank := Scatter(order, rankSlice, perm);
    RankedByIntro(x0, x[..], perm, rank);
  }

  /** The first half of `getRank`: `x` is co-sorted with a fresh index
      companion, which afterwards holds the original slot of every sorted slot. */
  method SortWithIndex(x: array<Value>) returns (order: array<Value>, ghost perm: seq<int>)
    modifies x
    ensures fresh(order) && order.Length == x.Length
    ensures Sorted(x[..]) && multiset(x[..]) == multiset(old(x[..]))
    ensures IsPermutation(perm, x.Length)
    ensures forall k :: 0 <= k < x.Length ==> x[k] == old(x[..])[perm[k]]
    ensures forall k :: 0 <= k < x.Length ==> order[k] == Num(perm[k] as real)
  {
    order := IndexCompanion(x.Length);
    ghost var o := order[..];
    assert forall j :: 0 <= j < |o| ==> o[j] == Num(j as real);
    perm := CoSort.TandemSort(x, order);
    forall k | 0 <= k < x.Length
      ensures order[k] == Num(perm[k] as real)
    {
      assert order[k] == o[perm[k]];
    }
  }

  /** The index companion of `getRank`: the float64 values 0 .. n-1, appended in order. */
  method IndexCompanion(n: nat) returns (order: array<Value>)
    ensures fresh(order) && order.Length == n
    ensures forall k :: 0 <= k < n ==> order[k] == Num(k as real)
  {
    order := new Value[n];
    var i := 0;
    while i < n
      invariant 0 <= i <= n
      invariant forall k :: 0 <= k < i ==> order[k] == Num(k as real)
    {
      order[i] := Num(i as real);
      i := i + 1;
    }
  }

  /** Gathers the facts that make up `RankedBy`. */
  lemma RankedByIntro(x0: seq<Value>, s: seq<Value>, perm: seq<int>, r: seq<real>)
    requires |s| == |x0| && |r| == |x0|
    requires Sorted(s) && multiset(s) == multiset(x0)
    requires IsPermutation(perm, |x0|)
    requires forall k :: 0 <= k < |x0| ==> s[k] == x0[perm[k]]
    requires forall k :: 0 <= k < |x0| ==> r[perm[k]] == SweepRank(s, k)
    ensures RankedBy(x0, s, perm, r)
  {
  }

  /** The sweep of `getRank` over the sorted values, with its `lastDiff` run
      marker: slot k of the result is the sweep rank of sorted slot k. */
  method SweepRanks(x: array<Value>) returns (rankSlice: seq<real>)
    requires Sorted(x[..])
    ensures |rankSlice| == x.Length
    ensures forall k :: 0 <= k < x.Length ==> rankSlice[k] == SweepRank(x[..], k)
  {
    var n := x.Length;
    ghost var s := x[..];
    var ranks := new real[n];
    var lastDiff := 0;
    var i := 0;
    while i < n
      invariant 0 <= lastDiff <= i <= n
      invariant i > 0 ==> lastDiff < i
      invariant forall k :: 0 <= k < lastDiff ==> ranks[k] == SweepRank(s, k)
      invariant forall k :: lastDiff <= k < i ==> ranks[k] == k as real
      invariant n > 0 && s[0].NaN? ==> lastDiff == 0
      invariant n > 0 && s[0].Num? ==> lastDiff == 0 || s[lastDiff - 1] != s[lastDiff]
      invariant n > 0 && s[0].Num? ==> forall k :: lastDiff <= k < i ==> s[k] == s[lastDiff]
    {
      ranks[i] := i as real;
      if Lt(x[lastDiff], x[i]) {
        SweepClosesRun(s, lastDiff, i);
        if i - lastDiff > 1 {
          var newRank := lastDiff as real + ((i - 1) - lastDiff) as real / 2.0;
          BackFill(ranks, lastDiff, i, newRank);
        }
        lastDiff := i;
      } else if s[0].Num? {
        SweepExtendsRun(s, lastDiff, i);
      }
      i := i + 1;
    }
    SweepLeavesTail(s, lastDiff);
    rankSlice := ranks[..];
  }

  /** The back-fill loop of the sweep: slots lo .. hi-1 get the midpoint
      rank, every other slot keeps its value. */
  method BackFill(ranks: array<real>, lo: nat, hi: nat, newRank: real)
    requires lo <= hi <= ranks.Length
    modifies ranks
    ensures forall k :: 0 <= k < ranks.Length ==> ranks[k] == if lo <= k < hi then newRank else old(ranks[k])
  {
    for j := lo to hi
      invariant forall k :: 0 <= k < ranks.Length ==> ranks[k] == if lo <= k < j then newRank else old(ranks[k])
    {
      ranks[j] := newRank;
    }
  }

  /** The scatter loop of `getRank`: the rank of sorted slot k goes to the
      original slot held by the index companion, `returnvalue[int(order[k])]`.
      Each result slot is written exactly once, because `perm` is a permutation. */
  method Scatter(order: array<Value>, rankSlice: seq<real>, ghost perm: seq<int>) returns (rank: seq<real>)
    requires |rankSlice| == order.Length && IsPermutation(perm, order.Length)
    requires forall k :: 0 <= k < order.Length ==> order[k] == Num(perm[k] as real)
    ensures |rank| == order.Length
    ensures forall k :: 0 <= k < order.Length ==> rank[perm[k]] == rankSlice[k]
  {
    var n := order.Length;
    var returnvalue := new real[n];
    var i := 0;
    while i < n
      invariant 0 <= i <= n
      invariant forall k :: 0 <= k < i ==> returnvalue[perm[k]] == rankSlice[k]
    {
      returnvalue[order[i].r.Floor] := rankSlice[i];
      i := i + 1;
    }
    rank := returnvalue[..];
  }

  /** The sweep step that sees a strictly larger value at slot i closes the
      run that starts at lastDiff: every slot of it gets the midpoint. */
  lemma SweepClosesRun(s: seq<Value>, lastDiff: nat, i: nat)
    requires Sorted(s) && lastDiff < i < |s| && Lt(s[lastDiff], s[i])
    requires forall k :: lastDiff <= k < i ==> s[k] == s[lastDiff]
    requires lastDiff == 0 || s[lastDiff - 1] != s[lastDiff]
    requires lastDiff == 0 || s[0].Num?
    ensures s[0].Num?
    ensures forall k :: lastDiff <= k < i ==>
              SweepRank(s, k) == lastDiff as real + ((i - 1) - lastDiff) as real / 2.0
  {
    forall k | lastDiff <= k < i
      ensures SweepRank(s, k) == lastDiff as real + ((i - 1) - lastDiff) as real / 2.0
    {
      RunStartInBlock(s, lastDiff, k);
      RunEndInBlock(s, k, i - 1);
    }
  }

  /** When the sweep ends, the run still open at lastDiff keeps raw positions. */
  lemma SweepLeavesTail(s: seq<Value>, lastDiff: nat)
    requires lastDiff <= |s|
    requires |s| > 0 && s[0].Num? ==> forall k :: lastDiff <= k < |s| ==> s[k] == s[lastDiff]
    ensures forall k :: lastDiff <= k < |s| ==> SweepRank(s, k) == k as real
  {
    forall k | lastDiff <= k < |s|
      ensures SweepRank(s, k) == k as real
    {
      if s[0].Num? {
        RunEndInBlock(s, k, |s| - 1);
      }
    }
  }

  /** A sweep step that sees no larger value extends the current run. */
  lemma SweepExtendsRun(s: seq<Value>, lastDiff: nat, i: nat)
    requires Sorted(s) && lastDiff <= i < |s| && s[0].Num? && !Lt(s[lastDiff], s[i])
    ensures s[i] == s[lastDiff]
  {
    if lastDiff > 0 {
      NaNsFirst(s, 0, lastDiff);
    }
    if lastDiff < i {
      NaNsFirst(s, lastDiff, i);
    }
  }

  /** Every original slot is the image of some sorted slot. */
  lemma Preimage(perm: seq<int>, n: nat, i: nat) returns (k: nat)
    requires IsPermutation(perm, n) && i < n
    ensures k < n && perm[k] == i
  {
    assert i in perm;
    var k' :| 0 <= k' < |perm| && perm[k'] == i;
    k := k';
  }

  /** Runs of distinct values do not overlap: a strictly smaller value's run
      ends before a larger value's run starts. */
  lemma RunsOrdered(s: seq<Value>, a: nat, b: nat)
    requires Sorted(s) && a < |s| && b < |s| && Less(s[a], s[b])
    ensures a < b && RunEnd(s, a) < RunStart(s, b)
  {
    OrderedSlots(s, a, b);
    var e, st := RunEnd(s, a), RunStart(s, b);
    OrderedSlots(s, e, st);
  }

  /** In sorted data only an earlier slot can hold a `Less` value. */
  lemma OrderedSlots(s: seq<Value>, i: nat, j: nat)
    requires Sorted(s) && i < |s| && j < |s|
    ensures Less(s[i], s[j]) ==> i < j
  {
    if j < i {
      assert !Less(s[i], s[j]);
    } else if j == i {
      LessIsStrictTotalOrder(s[i], s[i], s[i]);
    }
  }

  /** Every rank lies in [0, n-1]. */
  lemma RankBounds(x0: seq<Value>, s: seq<Value>, perm: seq<int>, r: seq<real>)
    requires RankedBy(x0, s, perm, r)
    ensures forall i :: 0 <= i < |r| ==> 0.0 <= r[i] <= (|r| - 1) as real
  {
    forall i | 0 <= i < |r|
      ensures 0.0 <= r[i] <= (|r| - 1) as real
    {
      var k := Preimage(perm, |x0|, i);
      assert r[i] == SweepRank(s, k);
    }
  }

  /** Ranks respect the order: a value `Less` than another (for numbers,
      simply smaller) gets a strictly smaller rank. */
  lemma RankMonotone(x0: seq<Value>, s: seq<Value>, perm: seq<int>, r: seq<real>, i: nat, j: nat)
    requires RankedBy(x0, s, perm, r) && i < |x0| && j < |x0| && Less(x0[i], x0[j])
    ensures r[i] < r[j]
  {
    var ki := Preimage(perm, |x0|, i);
    var kj := Preimage(perm, |x0|, j);
    RunsOrdered(s, ki, kj);
  }

  /** A strictly decreasing input yields strictly decreasing ranks. */
  lemma DecreasingInputRanks(x0: seq<Value>, s: seq<Value>, perm: seq<int>, r: seq<real>)
    requires RankedBy(x0, s, perm, r)
    requires forall i, j :: 0 <= i < j < |x0| ==> Lt(x0[j], x0[i])
    ensures forall i, j :: 0 <= i < j < |r| ==> r[j] < r[i]
  {
    forall i, j | 0 <= i < j < |r|
      ensures r[j] < r[i]
    {
      RankMonotone(x0, s, perm, r, j, i);
    }
  }

  /** The two ways an entry can stand to a value when it is ranked. */
  datatype Relation = Below | Equal

  predicate Stands(x: Value, rel: Relation, v: Value) {
    match rel
    case Below => Less(x, v)
    case Equal => x == v
  }

  /** The number of entries of s that stand in relation rel to v. */
  ghost function Count(s: seq<Value>, rel: Relation, v: Value): (c: nat)
    ensures c <= |s|
  {
    if |s| == 0 then 0
    else Count(s[..|s| - 1], rel, v) + (if Stands(s[|s| - 1], rel, v) then 1 else 0)
  }

  lemma {:induction false} CountConcat(a: seq<Value>, b: seq<Value>, rel: Relation, v: Value)
    ensures Count(a + b, rel, v) == Count(a, rel, v) + Count(b, rel, v)
    decreases |b|
  {
    if |b| == 0 {
      assert a + b == a;
    } else {
      assert (a + b)[..|a + b| - 1] == a + b[..|b| - 1];
      CountConcat(a, b[..|b| - 1], rel, v);
    }
  }

  /** Counting depends only on the multiset of entries, so the sorted
      copy and the original agree on every count. */
  lemma {:induction false} CountPermuted(a: seq<Value>, b: seq<Value>, rel: Relation, v: Value)
    requires multiset(a) == multiset(b)
    ensures Count(a, rel, v) == Count(b, rel, v)
    decreases |a|
  {
    if |a| == 0 {
      assert |b| == |multiset(b)| == 0;
    } else {
      var x := a[|a| - 1];
      var a' := a[..|a| - 1];
      assert a == a' + [x];
      assert multiset(a') == multiset(a) - multiset{x};
      assert x in multiset(b);
      var t :| 0 <= t < |b| && b[t] == x;
      var b' := RemoveAt(b, t, rel, v);
      CountPermuted(a', b', rel, v);
      assert Count(a, rel, v) == Count(a', rel, v) + (if Stands(x, rel, v) then 1 else 0);
    }
  }

  /** Dropping slot t of b: the multiset loses one copy of b[t] and the count
      loses b[t]'s contribution. */
  lemma RemoveAt(b: seq<Value>, t: nat, rel: Relation, v: Value) returns (b': seq<Value>)
    requires t < |b|
    ensures b' == b[..t] + b[t + 1..]
    ensures multiset(b') == multiset(b) - multiset{b[t]}
    ensures Count(b, rel, v) == Count(b', rel, v) + (if Stands(b[t], rel, v) then 1 else 0)
  {
    b' := b[..t] + b[t + 1..];
    assert b == b[..t] + [b[t]] + b[t + 1..];
    CountConcat(b[..t], [b[t]], rel, v);
    CountConcat(b[..t] + [b[t]], b[t + 1..], rel, v);
    CountConcat(b[..t], b[t + 1..], rel, v);
    assert [b[t]][..0] == [];
  }

  /** Entries that qualify exactly on the window [lo, hi) number hi - lo. */
  lemma {:induction false} CountWindow(s: seq<Value>, rel: Relation, v: Value, lo: nat, hi: nat)
    requires lo <= hi <= |s|
    requires forall m :: 0 <= m < |s| ==> (Stands(s[m], rel, v) <==> lo <= m < hi)
    ensures Count(s, rel, v) == hi - lo
    decreases |s|
  {
    if |s| > 0 {
      var n := |s|;
      var lo', hi' := if lo < n then lo else n - 1, if hi < n then hi else n - 1;
      assert forall m :: 0 <= m < n - 1 ==> s[..n - 1][m] == s[m];
      CountWindow(s[..n - 1], rel, v, lo', hi');
    }
  }

  /** In a sorted sequence equal values are contiguous. */
  lemma EqualBetween(s: seq<Value>, a: nat, q: nat, b: nat)
    requires Sorted(s) && a <= q <= b < |s| && s[a] == s[b]
    ensures s[q] == s[a]
  {
    if a < q < b {
      assert !Less(s[q], s[a]) && !Less(s[b], s[q]);
      LessIsStrictTotalOrder(s[q], s[a], s[a]);
    }
  }

  /** Below s[k] lie exactly the slots before k's run. */
  lemma BelowIsBeforeRun(s: seq<Value>, k: nat, m: nat)
    requires Sorted(s) && k < |s| && m < |s|
    ensures Less(s[m], s[k]) <==> m < RunStart(s, k)
  {
    var lo := RunStart(s, k);
    LessIsStrictTotalOrder(s[m], s[k], s[k]);
    if m < lo {
      if s[m] == s[k] {
        EqualBetween(s, m, lo - 1, k);
      }
      assert !Less(s[k], s[m]);
    } else if m > k {
      assert !Less(s[m], s[k]);
    }
  }

  /** No copy of s[k] lies before k's run. */
  lemma NoCopyBeforeRun(s: seq<Value>, k: nat, m: nat)
    requires Sorted(s) && k < |s| && m < RunStart(s, k)
    ensures s[m] != s[k]
  {
    var lo := RunStart(s, k);
    if s[m] == s[k] {
      EqualBetween(s, m, lo - 1, k);
    }
  }

  /** No copy of s[k] lies after k's run. */
  lemma NoCopyAfterRun(s: seq<Value>, k: nat, m: nat)
    requires Sorted(s) && k < |s| && RunEnd(s, k) < m < |s|
    ensures s[m] != s[k]
  {
    var hi := RunEnd(s, k);
    if s[m] == s[k] {
      EqualBetween(s, hi, hi + 1, m);
    }
  }

  /** Equal to s[k] are exactly the slots of k's run. */
  lemma EqualIsRun(s: seq<Value>, k: nat, m: nat)
    requires Sorted(s) && k < |s| && m < |s|
    ensures s[m] == s[k] <==> RunStart(s, k) <= m <= RunEnd(s, k)
  {
    if m < RunStart(s, k) {
      NoCopyBeforeRun(s, k, m);
    } else if m > RunEnd(s, k) {
      NoCopyAfterRun(s, k, m);
    }
  }

  /** In sorted order, the entries below s[k] are exactly the slots before
      k's run, and the entries equal to s[k] are exactly k's run. */
  lemma SortedRunCounts(s: seq<Value>, k: nat)
    requires Sorted(s) && k < |s|
    ensures Count(s, Below, s[k]) == RunStart(s, k)
    ensures Count(s, Equal, s[k]) == RunEnd(s, k) - RunStart(s, k) + 1
  {
    forall m | 0 <= m < |s|
      ensures Stands(s[m], Below, s[k]) <==> 0 <= m < RunStart(s, k)
    {
      BelowIsBeforeRun(s, k, m);
    }
    CountWindow(s, Below, s[k], 0, RunStart(s, k));
    forall m | 0 <= m < |s|
      ensures Stands(s[m], Equal, s[k]) <==> RunStart(s, k) <= m < RunEnd(s, k) + 1
    {
      EqualIsRun(s, k, m);
    }
    CountWindow(s, Equal, s[k], RunStart(s, k), RunEnd(s, k) + 1);
  }

  /** The sorted slot of original slot i, with its counts carried over from
      the sorted copy to the original. */
  lemma SortedSlot(x0: seq<Value>, s: seq<Value>, perm: seq<int>, r: seq<real>, i: nat) returns (k: nat)
    requires RankedBy(x0, s, perm, r) && i < |x0|
    ensures k < |s| && perm[k] == i && s[k] == x0[i] && r[i] == SweepRank(s, k)
    ensures Count(x0, Below, x0[i]) == RunStart(s, k)
    ensures Count(x0, Equal, x0[i]) == RunEnd(s, k) - RunStart(s, k) + 1
  {
    k := Preimage(perm, |x0|, i);
    SortedRunCounts(s, k);
    CountPermuted(s, x0, Below, x0[i]);
    CountPermuted(s, x0, Equal, x0[i]);
  }

  /** Every rank lies between the number of smaller entries and that number
      plus the ties: exactly the number of smaller entries when untied. */
  lemma RankWithinTies(x0: seq<Value>, s: seq<Value>, perm: seq<int>, r: seq<real>, i: nat)
    requires RankedBy(x0, s, perm, r) && i < |x0|
    ensures Count(x0, Below, x0[i]) as real <= r[i]
    ensures r[i] <= (Count(x0, Below, x0[i]) + Count(x0, Equal, x0[i]) - 1) as real
    ensures Count(x0, Equal, x0[i]) == 1 ==> r[i] == Count(x0, Below, x0[i]) as real
  {
    var k := SortedSlot(x0, s, perm, r, i);
  }

  /** An entry of an input without repeats has no other copy. */
  lemma Untied(x0: seq<Value>, i: nat)
    requires i < |x0| && forall p, q :: 0 <= p < q < |x0| ==> x0[p] != x0[q]
    ensures Count(x0, Equal, x0[i]) == 1
  {
    forall m | 0 <= m < |x0|
      ensures Stands(x0[m], Equal, x0[i]) <==> i <= m < i + 1
    {
      if m < i {
        assert x0[m] != x0[i];
      } else if i < m {
        assert x0[i] != x0[m];
      }
    }
    CountWindow(x0, Equal, x0[i], i, i + 1);
  }

  /** Two inputs whose entries stand alike to u and to v have as many
      entries below u as below v. */
  lemma {:induction false} CountMatched(a: seq<Value>, b: seq<Value>, u: Value, v: Value)
    requires |a| == |b|
    requires forall m :: 0 <= m < |a| ==> (Less(a[m], u) <==> Less(b[m], v))
    ensures Count(a, Below, u) == Count(b, Below, v)
    decreases |a|
  {
    if |a| > 0 {
      var n := |a|;
      assert forall m :: 0 <= m < n - 1 ==> a[..n - 1][m] == a[m] && b[..n - 1][m] == b[m];
      CountMatched(a[..n - 1], b[..n - 1], u, v);
    }
  }

  /** Same order, same ranks: two inputs of one length, the first without
      repeats, whose entries are ordered alike pair by pair, get identical
      ranks. */
  lemma SameOrderSameRanks(x0: seq<Value>, sx: seq<Value>, px: seq<int>, rx: seq<real>,
                           y0: seq<Value>, sy: seq<Value>, py: seq<int>, ry: seq<real>)
    requires RankedBy(x0, sx, px, rx) && RankedBy(y0, sy, py, ry) && |x0| == |y0|
    requires forall p, q :: 0 <= p < q < |x0| ==> x0[p] != x0[q]
    requires forall p, q :: 0 <= p < |x0| && 0 <= q < |x0| ==> (Less(x0[p], x0[q]) <==> Less(y0[p], y0[q]))
    ensures rx == ry
  {
    forall p, q | 0 <= p < q < |y0|
      ensures y0[p] != y0[q]
    {
      LessIsStrictTotalOrder(x0[p], x0[q], x0[q]);
      LessIsStrictTotalOrder(y0[p], y0[q], y0[q]);
    }
    forall i | 0 <= i < |x0|
      ensures rx[i] == ry[i]
    {
      Untied(x0, i);
      Untied(y0, i);
      RankWithinTies(x0, sx, px, rx, i);
      RankWithinTies(y0, sy, py, ry, i);
      CountMatched(x0, y0, x0[i], y0[i]);
    }
  }

  /** The midpoint rule: in a NaN-free input, an entry some larger entry
      exceeds gets the midrank of its tie group — the number of smaller
      entries plus half the number of its other copies. */
  lemma MidRank(x0: seq<Value>, s: seq<Value>, perm: seq<int>, r: seq<real>, i: nat, m: nat)
    requires RankedBy(x0, s, perm, r) && i < |x0| && m < |x0|
    requires forall q :: 0 <= q < |x0| ==> x0[q].Num?
    requires Lt(x0[i], x0[m])
    ensures r[i] == Count(x0, Below, x0[i]) as real + (Count(x0, Equal, x0[i]) - 1) as real / 2.0
  {
    var k := SortedSlot(x0, s, perm, r, i);
    var km := Preimage(perm, |x0|, m);
    assert s[0] == x0[perm[0]];
    assert s[km] == x0[m];
    assert Less(s[k], s[km]);
    ClosedRunRank(s, k, km);
    var lo, hi := RunStart(s, k), RunEnd(s, k);
    assert Count(x0, Equal, x0[i]) - 1 == hi - lo;
    assert r[i] == lo as real + (hi - lo) as real / 2.0;
  }

  /** A run that a larger value follows, in NaN-free sorted data, is ranked
      at its midpoint. */
  lemma ClosedRunRank(s: seq<Value>, k: nat, km: nat)
    requires Sorted(s) && k < |s| && km < |s| && s[0].Num? && Less(s[k], s[km])
    ensures SweepRank(s, k) == RunStart(s, k) as real + (RunEnd(s, k) - RunStart(s, k)) as real / 2.0
  {
    RunsOrdered(s, k, km);
  }

  /** Tied entries that a larger entry exceeds share one rank. */
  lemma TiesShareRank(x0: seq<Value>, s: seq<Value>, perm: seq<int>, r: seq<real>, i: nat, j: nat, m: nat)
    requires RankedBy(x0, s, perm, r) && i < |x0| && j < |x0| && m < |x0|
    requires forall q :: 0 <= q < |x0| ==> x0[q].Num?
    requires x0[i] == x0[j] && Lt(x0[i], x0[m])
    ensures r[i] == r[j]
  {
    MidRank(x0, s, perm, r, i, m);
    MidRank(x0, s, perm, r, j, m);
  }

  /** The trailing-run edge: copies of the largest value are never given
      a common midpoint; each keeps its own raw sorted position. */
  lemma TrailingTiesKeepRawRanks(x0: seq<Value>, s: seq<Value>, perm: seq<int>, r: seq<real>, i: nat, j: nat)
    requires RankedBy(x0, s, perm, r) && i < |x0| && j < |x0| && i != j
    requires x0[i] == x0[j] && forall q :: 0 <= q < |x0| ==> !Less(x0[i], x0[q])
    ensures r[i] != r[j]
    ensures r[i] == r[i].Floor as real && r[j] == r[j].Floor as real
  {
    var ki := SortedSlot(x0, s, perm, r, i);
    var kj := SortedSlot(x0, s, perm, r, j);
    TopRunReachesEnd(s, ki);
    TopRunReachesEnd(s, kj);
    assert r[i] == ki as real && r[j] == kj as real;
    assert ki != kj;
  }

  /** The run of a value nothing exceeds reaches the last slot. */
  lemma TopRunReachesEnd(s: seq<Value>, k: nat)
    requires Sorted(s) && k < |s|
    requires forall q :: 0 <= q < |s| ==> !Less(s[k], s[q])
    ensures RunEnd(s, k) == |s| - 1
  {
    RunEndIsBelowNext(s, k);
  }

  /** The slot after a run, if any, holds a strictly larger value. */
  lemma RunEndIsBelowNext(s: seq<Value>, k: nat)
    requires Sorted(s) && k < |s|
    ensures RunEnd(s, k) < |s| - 1 ==> Less(s[k], s[RunEnd(s, k) + 1])
  {
    var hi := RunEnd(s, k);
    if hi < |s| - 1 {
      assert !Less(s[hi + 1], s[hi]);
      LessIsStrictTotalOrder(s[hi], s[hi + 1], s[hi + 1]);
    }
  }

  /** The NaN edge: once any NaN is present no run is ever closed, and every
      original slot keeps the raw sorted position of its value, so even tied
      numbers get distinct ranks. */
  lemma NaNLeavesRawRanks(x0: seq<Value>, s: seq<Value>, perm: seq<int>, r: seq<real>, q: nat)
    requires RankedBy(x0, s, perm, r) && q < |x0| && x0[q].NaN?
    ensures forall k :: 0 <= k < |s| ==> r[perm[k]] == k as real
    ensures forall i, j :: 0 <= i < |r| && 0 <= j < |r| && i != j ==> r[i] != r[j]
  {
    var kq := Preimage(perm, |x0|, q);
    if kq > 0 {
      NaNsFirst(s, 0, kq);
    }
    forall i, j | 0 <= i < |r| && 0 <= j < |r| && i != j
      ensures r[i] != r[j]
    {
      RawRanksDiffer(x0, s, perm, r, i, j);
    }
  }

  /** With NaN leading the sorted data, distinct slots have distinct ranks. */
  lemma RawRanksDiffer(x0: seq<Value>, s: seq<Value>, perm: seq<int>, r: seq<real>, i: nat, j: nat)
    requires RankedBy(x0, s, perm, r) && i < |x0| && j < |x0| && i != j && s[0].NaN?
    ensures r[i] != r[j]
  {
    var ki := Preimage(perm, |x0|, i);
    var kj := Preimage(perm, |x0|, j);
    assert ki != kj;
    assert r[i] == SweepRank(s, ki) == ki as real;
    assert r[j] == SweepRank(s, kj) == kj as real;
  }
}
