/** The lockstep co-sort of sort.go: a primary array is sorted in place
    under the NaN-first order of `Less`, and every swap exchanges the same two
    slots of one (`TandemSort`) or two (`TripletSort`) companion arrays, so a
    companion entry stays paired with the primary entry it started beside.

    Go's `sort.Sort` drives `Len`, `Less` and `Swap`; its algorithm is not part
    of the repository, so the driver here is an insertion sort built only from
    those three operations. Nothing is promised about the relative order of
    equal keys, exactly as for `sort.Sort`. */
module CoSort {
  import opened Values

  /** `Doublet.Swap`: exchange slots i and j of the data and of the companion. */
  method SwapDoublet(data: array<Value>, companion: array<Value>, i: nat, j: nat)
    requires i < data.Length && j < data.Length && data.Length <= companion.Length
    requires data != companion
    modifies data, companion
    ensures data[..] == old(data[..])[i := old(data[j])][j := old(data[i])]
    ensures companion[..] == old(companion[..])[i := old(companion[j])][j := old(companion[i])]
    ensures multiset(data[..]) == multiset(old(data[..]))
  {
    data[i], data[j] := data[j], data[i];
    companion[i], companion[j] := companion[j], companion[i];
  }

  /** `Triplet.Swap`: exchange slots i and j of the data and of both companions. */
  method SwapTriplet(data: array<Value>, companion: array<Value>, companion2: array<Value>, i: nat, j: nat)
    requires i < data.Length && j < data.Length
    requires data.Length <= companion.Length && data.Length <= companion2.Length
    requires data != companion && data != companion2 && companion != companion2
    modifies data, companion, companion2
    ensures data[..] == old(data[..])[i := old(data[j])][j := old(data[i])]
    ensures companion[..] == old(companion[..])[i := old(companion[j])][j := old(companion[i])]
    ensures companion2[..] == old(companion2[..])[i := old(companion2[j])][j := old(companion2[i])]
    ensures multiset(data[..]) == multiset(old(data[..]))
  {
    data[i], data[j] := data[j], data[i];
    companion[i], companion[j] := companion[j], companion[i];
    companion2[i], companion2[j] := companion2[j], companion2[i];
  }

  /** Sorted except possibly at slot j, where an element is being sunk into
      the sorted prefix data[..hi]: everything after j is no smaller than it. */
  ghost predicate SinkingAt(s: seq<Value>, j: nat, hi: nat)
    requires j < hi <= |s|
  {
    && (forall a, b :: 0 <= a < b < hi && a != j && b != j ==> !Less(s[b], s[a]))
    && (forall b :: j < b < hi ==> !Less(s[b], s[j]))
  }

  /** One step of the sink: swapping slot j with a predecessor that is
      larger keeps the "sorted except at the sinking slot" shape. */
  lemma SinkStep(s: seq<Value>, j: nat, hi: nat)
    requires 0 < j < hi <= |s| && SinkingAt(s, j, hi) && Less(s[j], s[j - 1])
    ensures SinkingAt(s[j - 1 := s[j]][j := s[j - 1]], j - 1, hi)
  {
    var t := s[j - 1 := s[j]][j := s[j - 1]];
    forall b | j - 1 < b < hi
      ensures !Less(t[b], t[j - 1])
    {
      LessIsStrictTotalOrder(s[j], s[j - 1], s[b]);
      if b > j {
        LessIsStrictTotalOrder(s[j - 1], s[b], s[j]);
      }
    }
  }

  /** Before the sink starts, only the new element at slot i is out of place. */
  lemma SinkStart(s: seq<Value>, i: nat)
    requires i < |s| && Sorted(s[..i])
    ensures SinkingAt(s, i, i + 1)
  {
    forall a, b | 0 <= a < b < i + 1 && a != i && b != i
      ensures !Less(s[b], s[a])
    {
      assert s[a] == s[..i][a] && s[b] == s[..i][b];
    }
  }

  /** When the sinking element is no smaller than its predecessor (or has
      reached the front), the whole prefix is sorted. */
  lemma SinkDone(s: seq<Value>, j: nat, hi: nat)
    requires j < hi <= |s| && SinkingAt(s, j, hi) && (j == 0 || !Less(s[j], s[j - 1]))
    ensures Sorted(s[..hi])
  {
    forall a, b | 0 <= a < b < hi
      ensures !Less(s[b], s[a])
    {
      if b == j && a < j - 1 {
        LessIsStrictTotalOrder(s[j], s[j - 1], s[a]);
        LessIsStrictTotalOrder(s[a], s[j - 1], s[j]);
      } else if a == j && j > 0 {
        LessIsStrictTotalOrder(s[b], s[j], s[j]);
      }
    }
  }

  /** `perm` is a rearrangement of 0 .. n-1. */
  ghost predicate Rearrangement(perm: seq<int>, n: nat) {
    && |perm| == n
    && multiset(perm) == multiset(Iota(n))
    && (forall k :: 0 <= k < n ==> 0 <= perm[k] < n)
    && (forall k, l :: 0 <= k < l < n ==> perm[k] != perm[l])
  }

  /** `s` is `s0` with its first |perm| slots rearranged by `perm` (slot k
      takes what slot perm[k] held) and the rest left in place. */
  ghost predicate Moved(s: seq<Value>, s0: seq<Value>, perm: seq<int>) {
    && |s| == |s0| && |perm| <= |s|
    && (forall k :: 0 <= k < |perm| ==> 0 <= perm[k] < |s0| && s[k] == s0[perm[k]])
    && s[|perm|..] == s0[|perm|..]
  }

  /** The identity rearrangement. */
  lemma StartMoved(s0: seq<Value>, n: nat)
    requires n <= |s0|
    ensures Rearrangement(Iota(n), n) && Moved(s0, s0, Iota(n))
  {
  }

  /** What `Moved` says slot by slot. */
  lemma MovedSlots(s: seq<Value>, s0: seq<Value>, perm: seq<int>)
    requires Moved(s, s0, perm)
    ensures forall k :: 0 <= k < |perm| ==> s[k] == s0[perm[k]]
    ensures forall k :: |perm| <= k < |s| ==> s[k] == s0[k]
  {
    forall k | |perm| <= k < |s|
      ensures s[k] == s0[k]
    {
      assert s[k] == s[|perm|..][k - |perm|];
    }
  }

  /** Swapping two slots of an array and of the rearrangement keeps them in step. */
  lemma SwapMoved(s: seq<Value>, s0: seq<Value>, perm: seq<int>, i: nat, j: nat)
    requires Moved(s, s0, perm) && i < |perm| && j < |perm|
    ensures Moved(s[i := s[j]][j := s[i]], s0, perm[i := perm[j]][j := perm[i]])
  {
  }

  /** Swapping two entries of a rearrangement gives a rearrangement. */
  lemma SwapRearrangement(perm: seq<int>, n: nat, i: nat, j: nat)
    requires Rearrangement(perm, n) && i < n && j < n
    ensures Rearrangement(perm[i := perm[j]][j := perm[i]], n)
  {
    var q := perm[i := perm[j]][j := perm[i]];
    SwapKeepsMultiset(perm, i, j);
    forall k, l | 0 <= k < l < n
      ensures q[k] != q[l]
    {
      var k' := if k == i then j else if k == j then i else k;
      var l' := if l == i then j else if l == j then i else l;
      assert q[k] == perm[k'] && q[l] == perm[l'] && k' != l';
    }
  }

  /** A rearrangement is a permutation: it also reaches every slot. */
  lemma RearrangementIsPermutation(perm: seq<int>, n: nat)
    requires Rearrangement(perm, n)
    ensures IsPermutation(perm, n)
  {
    forall v | 0 <= v < n
      ensures v in perm
    {
      assert Iota(n)[v] == v;
      assert v in multiset(Iota(n));
    }
  }

  /** The state of the sort while slot i's element sinks and has reached
      slot j: the data is a rearrangement `perm` of the original `d0`, sorted
      on data[..hi] except at j. */
  ghost predicate Sinking(s: seq<Value>, d0: seq<Value>, perm: seq<int>, j: nat, hi: nat) {
    && j < hi <= |s|
    && SinkingAt(s, j, hi)
    && multiset(s) == multiset(d0)
    && Rearrangement(perm, |s|)
    && Moved(s, d0, perm)
  }

  /** The state of the sort between insertion steps: the data is a
      rearrangement `perm` of the original `d0` whose first i slots are sorted. */
  ghost predicate SortedPrefix(s: seq<Value>, d0: seq<Value>, perm: seq<int>, i: nat) {
    && i <= |s|
    && Sorted(s[..i])
    && multiset(s) == multiset(d0)
    && Rearrangement(perm, |s|)
    && Moved(s, d0, perm)
  }

  /** Nothing is sorted yet and nothing has moved. */
  lemma SortBegins(d0: seq<Value>, c0: seq<Value>)
    requires |d0| <= |c0|
    ensures SortedPrefix(d0, d0, Iota(|d0|), 0) && Moved(c0, c0, Iota(|d0|))
  {
    StartMoved(d0, |d0|);
    StartMoved(c0, |d0|);
  }

  /** Once the whole data is the sorted prefix, the data is sorted. */
  lemma SortEnds(s: seq<Value>, d0: seq<Value>, perm: seq<int>)
    requires SortedPrefix(s, d0, perm, |s|)
    ensures Sorted(s) && multiset(s) == multiset(d0)
    ensures Rearrangement(perm, |s|) && Moved(s, d0, perm)
  {
    assert s[..|s|] == s;
  }

  /** An insertion step starts with its new element at slot i. */
  lemma SinkBegins(s: seq<Value>, d0: seq<Value>, perm: seq<int>, i: nat)
    requires i < |s| && SortedPrefix(s, d0, perm, i)
    ensures Sinking(s, d0, perm, i, i + 1)
  {
    SinkStart(s, i);
  }

  /** An insertion step ends with one more slot sorted. */
  lemma SinkEnds(s: seq<Value>, d0: seq<Value>, perm: seq<int>, j: nat, hi: nat)
    requires Sinking(s, d0, perm, j, hi) && (j == 0 || !Less(s[j], s[j - 1]))
    ensures SortedPrefix(s, d0, perm, hi)
  {
    SinkDone(s, j, hi);
  }

  /** One swap of the Doublet insertion step: the sinking element at slot j
      trades places with its larger predecessor, in the data and the companion. */
  method SinkStepDoublet(data: array<Value>, companion: array<Value>, j: nat, hi: nat,
                         ghost d0: seq<Value>, ghost c0: seq<Value>, ghost perm: seq<int>)
    returns (ghost perm': seq<int>)
    requires data.Length <= companion.Length && data != companion
    requires 0 < j && Sinking(data[..], d0, perm, j, hi) && Less(data[j], data[j - 1])
    requires Moved(companion[..], c0, perm)
    modifies data, companion
    ensures Sinking(data[..], d0, perm', j - 1, hi) && Moved(companion[..], c0, perm')
  {
    ghost var s, c := data[..], companion[..];
    SinkStep(s, j, hi);
    SwapMoved(s, d0, perm, j - 1, j);
    SwapMoved(c, c0, perm, j - 1, j);
    SwapRearrangement(perm, data.Length, j - 1, j);
    SwapDoublet(data, companion, j - 1, j);
    perm' := perm[j - 1 := perm[j]][j := perm[j - 1]];
  }

  /** One insertion step of the Doublet sort: the element at slot i sinks
      into the sorted prefix data[..i], each `Swap` moving the companion too. */
  method SinkDoublet(data: array<Value>, companion: array<Value>, i: nat,
                     ghost d0: seq<Value>, ghost c0: seq<Value>, ghost perm: seq<int>)
    returns (ghost perm': seq<int>)
    requires i < data.Length <= companion.Length && data != companion
    requires SortedPrefix(data[..], d0, perm, i) && Moved(companion[..], c0, perm)
    modifies data, companion
    ensures SortedPrefix(data[..], d0, perm', i + 1) && Moved(companion[..], c0, perm')
  {
    var j: nat := i;
    perm' := perm;
    SinkBegins(data[..], d0, perm, i);
    while j > 0 && Less(data[j], data[j - 1])
      invariant j <= i
      invariant Sinking(data[..], d0, perm', j, i + 1)
      invariant Moved(companion[..], c0, perm')
      decreases j
    {
      perm' := SinkStepDoublet(data, companion, j, i + 1, d0, c0, perm');
      j := j - 1;
    }
    SinkEnds(data[..], d0, perm', j, i + 1);
  }

  /** The insertion-sort driver over a Doublet: `Len` slots are sunk one at
      a time, and both arrays end up rearranged by one and the same `perm`. */
  method InsertionSortDoublet(data: array<Value>, companion: array<Value>) returns (ghost perm: seq<int>)
    requires data.Length <= companion.Length && data != companion
    modifies data, companion
    ensures Sorted(data[..])
    ensures multiset(data[..]) == multiset(old(data[..]))
    ensures Rearrangement(perm, data.Length)
    ensures Moved(data[..], old(data[..]), perm) && Moved(companion[..], old(companion[..]), perm)
  {
    ghost var d0, c0 := data[..], companion[..];
    SortBegins(d0, c0);
    perm := Iota(data.Length);
    var i := 0;
    while i < data.Length
      invariant 0 <= i <= data.Length
      invariant SortedPrefix(data[..], d0, perm, i) && Moved(companion[..], c0, perm)
    {
      perm := SinkDoublet(data, companion, i, d0, c0, perm);
      i := i + 1;
    }
    SortEnds(data[..], d0, perm);
  }

  /** Data and companion rearranged by one permutation, read slot by slot. */
  lemma LockstepSlots(s: seq<Value>, s0: seq<Value>, c: seq<Value>, c0: seq<Value>, perm: seq<int>)
    requires Rearrangement(perm, |s|) && Moved(s, s0, perm) && Moved(c, c0, perm)
    ensures IsPermutation(perm, |s|)
    ensures forall k :: 0 <= k < |s| ==> s[k] == s0[perm[k]] && c[k] == c0[perm[k]]
    ensures forall k :: |s| <= k < |c| ==> c[k] == c0[k]
  {
    RearrangementIsPermutation(perm, |s|);
    MovedSlots(s, s0, perm);
    MovedSlots(c, c0, perm);
  }

  /** `TandemSort(arr, companion)`: sorts `data` in place, moving `companion`
      in lockstep. `perm` is the single rearrangement applied to both: the new
      slot k holds what slot perm[k] held before, in both arrays. Companion
      slots past `data.Length` are never touched, since `Len` reads only the
      data length. */
  method TandemSort(data: array<Value>, companion: array<Value>) returns (ghost perm: seq<int>)
    requires data.Length <= companion.Length
    requires data != companion
    modifies data, companion
    ensures Sorted(data[..])
    ensures multiset(data[..]) == multiset(old(data[..]))
    ensures IsPermutation(perm, data.Length)
    ensures forall k :: 0 <= k < data.Length ==>
              data[k] == old(data[..])[perm[k]] && companion[k] == old(companion[..])[perm[k]]
    ensures forall k :: data.Length <= k < companion.Length ==> companion[k] == old(companion[k])
  {
    ghost var d0, c0 := data[..], companion[..];
    perm := InsertionSortDoublet(data, companion);
    ghost var s, c := data[..], companion[..];
    LockstepSlots(s, d0, c, c0, perm);
    forall k | 0 <= k < data.Length
      ensures data[k] == d0[perm[k]] && companion[k] == c0[perm[k]]
    {
      assert data[k] == s[k] && companion[k] == c[k];
    }
    forall k | data.Length <= k < companion.Length
      ensures companion[k] == c0[k]
    {
      assert companion[k] == c[k];
    }
  }

  /** One swap of the Triplet insertion step, moving both companions. */
  method SinkStepTriplet(data: array<Value>, companion: array<Value>, companion2: array<Value>,
                         j: nat, hi: nat, ghost d0: seq<Value>, ghost c0: seq<Value>,
                         ghost e0: seq<Value>, ghost perm: seq<int>)
    returns (ghost perm': seq<int>)
    requires data.Length <= companion.Length && data.Length <= companion2.Length
    requires data != companion && data != companion2 && companion != companion2
    requires 0 < j && Sinking(data[..], d0, perm, j, hi) && Less(data[j], data[j - 1])
    requires Moved(companion[..], c0, perm) && Moved(companion2[..], e0, perm)
    modifies data, companion, companion2
    ensures Sinking(data[..], d0, perm', j - 1, hi)
    ensures Moved(companion[..], c0, perm') && Moved(companion2[..], e0, perm')
  {
    ghost var s, c, e := data[..], companion[..], companion2[..];
    SinkStep(s, j, hi);
    SwapMoved(s, d0, perm, j - 1, j);
    SwapMoved(c, c0, perm, j - 1, j);
    SwapMoved(e, e0, perm, j - 1, j);
    SwapRearrangement(perm, data.Length, j - 1, j);
    SwapTriplet(data, companion, companion2, j - 1, j);
    perm' := perm[j - 1 := perm[j]][j := perm[j - 1]];
  }

  /** One insertion step of the Triplet sort: as `SinkDoublet`, with two companions. */
  method SinkTriplet(data: array<Value>, companion: array<Value>, companion2: array<Value>, i: nat,
                     ghost d0: seq<Value>, ghost c0: seq<Value>, ghost e0: seq<Value>, ghost perm: seq<int>)
    returns (ghost perm': seq<int>)
    requires i < data.Length <= companion.Length && data.Length <= companion2.Length
    requires data != companion && data != companion2 && companion != companion2
    requires SortedPrefix(data[..], d0, perm, i)
    requires Moved(companion[..], c0, perm) && Moved(companion2[..], e0, perm)
    modifies data, companion, companion2
    ensures SortedPrefix(data[..], d0, perm', i + 1)
    ensures Moved(companion[..], c0, perm') && Moved(companion2[..], e0, perm')
  {
    var j: nat := i;
    perm' := perm;
    SinkBegins(data[..], d0, perm, i);
    while j > 0 && Less(data[j], data[j - 1])
      invariant j <= i
      invariant Sinking(data[..], d0, perm', j, i + 1)
      invariant Moved(companion[..], c0, perm')
      invariant Moved(companion2[..], e0, perm')
      decreases j
    {
      perm' := SinkStepTriplet(data, companion, companion2, j, i + 1, d0, c0, e0, perm');
      j := j - 1;
    }
    SinkEnds(data[..], d0, perm', j, i + 1);
  }

  /** The insertion-sort driver over a Triplet. */
  method InsertionSortTriplet(data: array<Value>, companion: array<Value>, companion2: array<Value>)
    returns (ghost perm: seq<int>)
    requires data.Length <= companion.Length && data.Length <= companion2.Length
    requires data != companion && data != companion2 && companion != companion2
    modifies data, companion, companion2
    ensures Sorted(data[..])
    ensures multiset(data[..]) == multiset(old(data[..]))
    ensures Rearrangement(perm, data.Length)
    ensures Moved(data[..], old(data[..]), perm) && Moved(companion[..], old(companion[..]), perm)
    ensures Moved(companion2[..], old(companion2[..]), perm)
  {
    ghost var d0, c0, e0 := data[..], companion[..], companion2[..];
    SortBegins(d0, c0);
    SortBegins(d0, e0);
    perm := Iota(data.Length);
    var i := 0;
    while i < data.Length
      invariant 0 <= i <= data.Length
      invariant SortedPrefix(data[..], d0, perm, i)
      invariant Moved(companion[..], c0, perm) && Moved(companion2[..], e0, perm)
    {
      perm := SinkTriplet(data, companion, companion2, i, d0, c0, e0, perm);
      i := i + 1;
    }
    SortEnds(data[..], d0, perm);
  }

  /** `TripletSort(arr, companion, companion2)`: as `TandemSort`, with one
      rearrangement applied to the data and to both companions. */
  method TripletSort(data: array<Value>, companion: array<Value>, companion2: array<Value>)
    returns (ghost perm: seq<int>)
    requires data.Length <= companion.Length && data.Length <= companion2.Length
    requires data != companion && data != companion2 && companion != companion2
    modifies data, companion, companion2
    ensures Sorted(data[..])
    ensures multiset(data[..]) == multiset(old(data[..]))
    ensures IsPermutation(perm, data.Length)
    ensures forall k :: 0 <= k < data.Length ==>
              && data[k] == old(data[..])[perm[k]]
              && companion[k] == old(companion[..])[perm[k]]
              && companion2[k] == old(companion2[..])[perm[k]]
    ensures forall k :: data.Length <= k < companion.Length ==> companion[k] == old(companion[k])
    ensures forall k :: data.Length <= k < companion2.Length ==> companion2[k] == old(companion2[k])
  {
    ghost var d0, c0, e0 := data[..], companion[..], companion2[..];
    perm := InsertionSortTriplet(data, companion, companion2);
    ghost var s, c, e := data[..], companion[..], companion2[..];
    LockstepSlots(s, d0, c, c0, perm);
    LockstepSlots(s, d0, e, e0, perm);
    forall k | 0 <= k < data.Length
      ensures data[k] == d0[perm[k]] && companion[k] == c0[perm[k]] && companion2[k] == e0[perm[k]]
    {
      assert data[k] == s[k] && companion[k] == c[k] && companion2[k] == e[k];
    }
    forall k | data.Length <= k < companion.Length
      ensures companion[k] == c0[k]
    {
      assert companion[k] == c[k];
    }
    forall k | data.Length <= k < companion2.Length
      ensures companion2[k] == e0[k]
    {
      assert companion2[k] == e[k];
    }
  }

  /** Sorting an already sorted array leaves its data exactly as it was: the
      sorted arrangement of a multiset is unique, so only the companions can
      move, and only among slots holding equal keys. */
  lemma SortIdempotent(before: seq<Value>, after: seq<Value>, perm: seq<int>)
    requires Sorted(before) && Sorted(after) && multiset(after) == multiset(before)
    requires IsPermutation(perm, |before|) && |after| == |before|
    requires forall k :: 0 <= k < |after| ==> after[k] == before[perm[k]]
    ensures after == before
    ensures forall k :: 0 <= k < |after| ==> before[perm[k]] == before[k]
  {
    SortedUnique(after, before);
  }

  /** The sort test: n strictly decreasing values, with an identical copy as
      companion, come out ascending in the data and in the companion. */
  method TandemSortDescending(n: nat) returns (data: seq<Value>, companion: seq<Value>)
    ensures |data| == n && Sorted(data)
    ensures companion == data
    ensures multiset(data) == multiset(seq(n, i => Num((n - i) as real)))
  {
    var a := new Value[n](i => Num((n - i) as real));
    var c := new Value[n](i => Num((n - i) as real));
    ghost var a0 := a[..];
    assert a0 == c[..];
    ghost var perm := TandemSort(a, c);
    data, companion := a[..], c[..];
    assert a0 == seq(n, i => Num((n - i) as real));
  }

  /** The triplet sort test: both companions come out ascending too. */
  method TripletSortDescending(n: nat) returns (data: seq<Value>, companion: seq<Value>, companion2: seq<Value>)
    ensures |data| == n && Sorted(data)
    ensures companion == data && companion2 == data
  {
    var a := new Value[n](i => Num((n - i) as real));
    var c := new Value[n](i => Num((n - i) as real));
    var e := new Value[n](i => Num((n - i) as real));
    assert a[..] == c[..] == e[..];
    ghost var perm := TripletSort(a, c, e);
    data, companion, companion2 := a[..], c[..], e[..];
  }
}
