/** The rank total of `getRank`: the midpoint back-fill replaces each closed
    run of positions by its mean, so every ranking adds up to 0 + 1 + ... + (n-1). */
module RankSum {
  import opened Values
  import opened Rank

  /** The sweep's ranks in sorted order, slot by slot. */
  ghost function SweepSeq(s: seq<Value>): (w: seq<real>)
    ensures |w| == |s|
  {
    SweepPrefix(s, |s|)
  }

  /** The sweep's ranks of the first n sorted slots. */
  ghost function SweepPrefix(s: seq<Value>, n: nat): (w: seq<real>)
    requires n <= |s|
    ensures |w| == n
  {
    if n == 0 then [] else SweepPrefix(s, n - 1) + [SweepRank(s, n - 1)]
  }

  /** Slot k of the sweep sequence is the sweep rank of sorted slot k. */
  lemma {:induction false} SweepAt(s: seq<Value>, n: nat, k: nat)
    requires k < n <= |s|
    ensures SweepPrefix(s, n)[k] == SweepRank(s, k)
  {
    if k < n - 1 {
      SweepAt(s, n - 1, k);
    }
  }

  /** Reordering a sequence through a permutation keeps its sum. */
  lemma {:induction false} SumPermuted(a: seq<real>, b: seq<real>, perm: seq<int>)
    requires |a| == |b| && IsPermutation(perm, |a|)
    requires forall k :: 0 <= k < |b| ==> b[k] == a[perm[k]]
    ensures SumReals(b) == SumReals(a)
    decreases |a|
  {
    var n := |a|;
    if n > 0 {
      var k := Preimage(perm, n, n - 1);
      var b' := b[..k] + b[k + 1..];
      var perm' := perm[..k] + perm[k + 1..];
      DropPreimage(perm, n, k);
      forall m | 0 <= m < |b'| ensures b'[m] == a[..n - 1][perm'[m]] {
        if m < k {
          assert b'[m] == b[m] && perm'[m] == perm[m];
        } else {
          assert b'[m] == b[m + 1] && perm'[m] == perm[m + 1];
        }
      }
      SumPermuted(a[..n - 1], b', perm');
      SumRemove(b, k);
      assert b[k] == a[n - 1];
    }
  }

  /** Removing the slot that holds the largest index leaves a permutation of the rest. */
  lemma DropPreimage(perm: seq<int>, n: nat, k: nat)
    requires IsPermutation(perm, n) && k < n && perm[k] == n - 1
    ensures IsPermutation(perm[..k] + perm[k + 1..], n - 1)
  {
    var p := perm[..k] + perm[k + 1..];
    assert forall m :: 0 <= m < n - 1 ==> p[m] == perm[if m < k then m else m + 1];
    forall m | 0 <= m < n - 1 ensures 0 <= p[m] < n - 1 {
      var m' := if m < k then m else m + 1;
      assert p[m] == perm[m'] && m' != k;
    }
    forall m, l | 0 <= m < l < n - 1 ensures p[m] != p[l] {
      var m' := if m < k then m else m + 1;
      var l' := if l < k then l else l + 1;
      assert m' < l';
    }
    forall v | 0 <= v < n - 1 ensures v in p {
      var j := Preimage(perm, n, v);
      var j' := if j < k then j else j - 1;
      assert j != k && p[j'] == v;
    }
  }

  /** Taking one slot out of a sequence takes its value out of the sum. */
  lemma SumRemove(b: seq<real>, k: nat)
    requires k < |b|
    ensures SumReals(b) == SumReals(b[..k] + b[k + 1..]) + b[k]
  {
    assert b[..k + 1] == b[..k] + [b[k]];
    assert b == b[..k + 1] + b[k + 1..];
    SumConcat(b[..k + 1], b[k + 1..]);
    SumConcat(b[..k], [b[k]]);
    SumConcat(b[..k], b[k + 1..]);
    assert SumReals([b[k]]) == b[k] by {
      assert [b[k]][..0] == [];
    }
  }

  /** A window e .. h-1 holding its own positions adds up to Tri(h) - Tri(e). */
  lemma {:induction false} SumPositions(w: seq<real>, e: nat, h: nat)
    requires e <= h <= |w|
    requires forall k :: e <= k < h ==> w[k] == k as real
    ensures Tri(e) as real + SumReals(w[e..h]) == Tri(h) as real
    decreases h - e
  {
    if e < h {
      SumPositions(w, e, h - 1);
      assert w[e..h][..h - 1 - e] == w[e..h - 1];
    }
  }

  /** The window e .. h-1 filled with its midpoint (e + h - 1)/2 adds up
      to the same as its positions: peel one slot off each end, which
      together hold e + (h-1), and the inner window keeps the same midpoint. */
  lemma {:induction false} MidpointWindow(w: seq<real>, e: nat, h: nat, c: real)
    requires e <= h <= |w|
    requires forall k :: e <= k < h ==> w[k] == c
    requires 2.0 * c == (e + h - 1) as real
    ensures Tri(e) as real + SumReals(w[e..h]) == Tri(h) as real
    decreases h - e
  {
    if h == e + 1 {
      assert w[e..h] == [w[e]];
      assert SumReals([w[e]]) == w[e] by {
        assert [w[e]][..0] == [];
      }
    } else if h >= e + 2 {
      MidpointWindow(w, e + 1, h - 1, c);
      SumEnds(w, e, h);
      assert Tri(h) == Tri(h - 1) + (h - 1);
      assert Tri(e + 1) == Tri(e) + e;
    }
  }

  /** A window's sum is its first slot, plus the inner window, plus its last slot. */
  lemma SumEnds(w: seq<real>, e: nat, h: nat)
    requires e + 2 <= h <= |w|
    ensures SumReals(w[e..h]) == w[e] + SumReals(w[e + 1..h - 1]) + w[h - 1]
  {
    assert w[e..h] == [w[e]] + w[e + 1..h - 1] + [w[h - 1]];
    SumConcat([w[e]] + w[e + 1..h - 1], [w[h - 1]]);
    SumConcat([w[e]], w[e + 1..h - 1]);
    assert SumReals([w[e]]) == w[e] by {
      assert [w[e]][..0] == [];
    }
    assert SumReals([w[h - 1]]) == w[h - 1] by {
      assert [w[h - 1]][..0] == [];
    }
  }

  /** The sweep ranks of one maximal run e .. h add up to its positions. */
  lemma RunTotal(s: seq<Value>, e: nat)
    requires e < |s| && (e == 0 || s[e - 1] != s[e])
    ensures Tri(e) as real + SumReals(SweepSeq(s)[e..RunEnd(s, e) + 1]) == Tri(RunEnd(s, e) + 1) as real
  {
    var h := RunEnd(s, e);
    var w := SweepSeq(s);
    if s[0].NaN? || h == |s| - 1 {
      RawRun(s, e);
      SumPositions(w, e, h + 1);
    } else {
      ClosedRun(s, e);
      MidpointWindow(w, e, h + 1, e as real + (h - e) as real / 2.0);
    }
  }

  /** An unclosed run keeps the raw positions e .. h. */
  lemma RawRun(s: seq<Value>, e: nat)
    requires e < |s| && (s[0].NaN? || RunEnd(s, e) == |s| - 1)
    ensures forall k :: e <= k <= RunEnd(s, e) ==> SweepSeq(s)[k] == k as real
  {
    forall k | e <= k <= RunEnd(s, e) ensures SweepSeq(s)[k] == k as real {
      RunEndInBlock(s, k, RunEnd(s, e));
      SweepAt(s, |s|, k);
    }
  }

  /** A closed run e .. h holds its midpoint e + (h-e)/2 in every slot. */
  lemma ClosedRun(s: seq<Value>, e: nat)
    requires e < |s| && (e == 0 || s[e - 1] != s[e])
    requires !s[0].NaN? && RunEnd(s, e) < |s| - 1
    ensures forall k :: e <= k <= RunEnd(s, e) ==>
      SweepSeq(s)[k] == e as real + (RunEnd(s, e) - e) as real / 2.0
  {
    forall k | e <= k <= RunEnd(s, e) ensures SweepSeq(s)[k] == e as real + (RunEnd(s, e) - e) as real / 2.0 {
      ClosedSlot(s, e, k);
    }
  }

  lemma ClosedSlot(s: seq<Value>, e: nat, k: nat)
    requires e < |s| && e <= k <= RunEnd(s, e) && (e == 0 || s[e - 1] != s[e])
    requires !s[0].NaN? && RunEnd(s, e) < |s| - 1
    ensures SweepSeq(s)[k] == e as real + (RunEnd(s, e) - e) as real / 2.0
  {
    var h := RunEnd(s, e);
    RunStartInBlock(s, e, k);
    RunEndInBlock(s, k, h);
    SweepAt(s, |s|, k);
    assert SweepRank(s, k) == e as real + (h - e) as real / 2.0;
  }

  /** The sum of a suffix splits at any later slot. */
  lemma SumSplit(w: seq<real>, e: nat, h: nat)
    requires e <= h <= |w|
    ensures SumReals(w[e..]) == SumReals(w[e..h]) + SumReals(w[h..])
  {
    assert w[e..] == w[e..h] + w[h..];
    SumConcat(w[e..h], w[h..]);
  }

  /** From a run boundary e to the end, the sweep ranks add up to the
      positions e .. n-1. */
  lemma {:induction false} TotalFrom(s: seq<Value>, e: nat)
    requires e <= |s| && (e == 0 || e == |s| || s[e - 1] != s[e])
    ensures Tri(e) as real + SumReals(SweepSeq(s)[e..]) == Tri(|s|) as real
    decreases |s| - e
  {
    var w := SweepSeq(s);
    if e == |s| {
      assert w[e..] == [];
    } else {
      var h := RunEnd(s, e);
      RunTotal(s, e);
      TotalFrom(s, h + 1);
      SumSplit(w, e, h + 1);
    }
  }

  /** Ranks always add up to n(n-1)/2, whatever ties and NaNs the input holds. */
  lemma RanksSum(x0: seq<Value>, s: seq<Value>, perm: seq<int>, r: seq<real>)
    requires RankedBy(x0, s, perm, r)
    ensures SumReals(r) == (|r| * (|r| - 1)) as real / 2.0
  {
    RanksTotal(x0, s, perm, r);
    TriHalf(|r|);
  }

  /** Ranks add up to 0 + 1 + ... + (n-1). */
  lemma RanksTotal(x0: seq<Value>, s: seq<Value>, perm: seq<int>, r: seq<real>)
    requires RankedBy(x0, s, perm, r)
    ensures SumReals(r) == Tri(|r|) as real
  {
    SweepScattered(x0, s, perm, r);
    SumPermuted(r, SweepSeq(s), perm);
    SweepTotal(s);
  }

  /** In sorted order the sweep ranks add up to 0 + 1 + ... + (n-1). */
  lemma SweepTotal(s: seq<Value>)
    ensures SumReals(SweepSeq(s)) == Tri(|s|) as real
  {
    TotalFrom(s, 0);
    assert SweepSeq(s)[0..] == SweepSeq(s);
  }

  /** Sorted slot k's sweep rank is the rank of original slot perm[k]. */
  lemma SweepScattered(x0: seq<Value>, s: seq<Value>, perm: seq<int>, r: seq<real>)
    requires RankedBy(x0, s, perm, r)
    ensures forall k :: 0 <= k < |s| ==> SweepSeq(s)[k] == r[perm[k]]
  {
    forall k | 0 <= k < |s| ensures SweepSeq(s)[k] == r[perm[k]] {
      SweepAt(s, |s|, k);
    }
  }
}
