/** Sample values as the library sees them: a float64 is either a number or
    the not-a-number sentinel. Arithmetic is exact (reals); rounding is not
    modelled. */
module Values {

  /** A float64 sample: a number, or NaN (a missing or undefined value). */
  datatype Value = Num(r: real) | NaN

  datatype Option<T> = None | Some(value: T)

  /** Go's `a < b` on float64: false as soon as either side is NaN. */
  predicate Lt(a: Value, b: Value) {
    a.Num? && b.Num? && a.r < b.r
  }

  /** The order of `Doublet.Less` and `Triplet.Less`: numeric order, with
      every NaN placed before every number. */
  predicate Less(a: Value, b: Value) {
    Lt(a, b) || (a.NaN? && b.Num?)
  }

  /** Non-decreasing under `Less`: no later element is `Less` than an earlier one. */
  ghost predicate Sorted(s: seq<Value>) {
    forall i, j :: 0 <= i < j < |s| ==> !Less(s[j], s[i])
  }

  /** `p` lists each of 0 .. n-1 exactly once. */
  ghost predicate IsPermutation(p: seq<int>, n: nat) {
    && |p| == n
    && (forall k :: 0 <= k < n ==> 0 <= p[k] < n)
    && (forall k, l :: 0 <= k < l < n ==> p[k] != p[l])
    && (forall v :: 0 <= v < n ==> v in p)
  }

  /** The identity arrangement 0 .. n-1. */
  function Iota(n: nat): (s: seq<int>)
    ensures |s| == n && forall k :: 0 <= k < n ==> s[k] == k
  {
    seq(n, k => k)
  }

  /** `Less` is a strict weak order in which two elements are incomparable
      exactly when they are equal: a total order on values. */
  lemma LessIsStrictTotalOrder(a: Value, b: Value, c: Value)
    ensures !Less(a, a)
    ensures Less(a, b) ==> !Less(b, a)
    ensures Less(a, b) && Less(b, c) ==> Less(a, c)
    ensures !Less(a, b) && !Less(b, a) <==> a == b
  {
  }

  /** In a sorted sequence every NaN comes before every number. */
  lemma {:induction false} NaNsFirst(s: seq<Value>, i: nat, j: nat)
    requires Sorted(s) && i < j < |s|
    ensures s[j].NaN? ==> s[i].NaN?
    ensures s[i].Num? ==> s[j].Num? && s[i].r <= s[j].r
  {
    assert !Less(s[j], s[i]);
  }

  /** The head of a sorted sequence is below-or-equal to every member. */
  lemma HeadIsLeast(s: seq<Value>, x: Value)
    requires Sorted(s) && x in multiset(s)
    ensures !Less(x, s[0])
  {
    var k :| 0 <= k < |s| && s[k] == x;
    if k > 0 {
      assert !Less(s[k], s[0]);
    }
  }

  /** Sorting determines its result: two sorted arrangements of the same
      multiset are identical, because `Less` leaves no two distinct values
      incomparable. `General.AscendingUnique` is the same argument for the
      numeric order `<=` on reals. */
  lemma {:induction false} SortedUnique(a: seq<Value>, b: seq<Value>)
    requires Sorted(a) && Sorted(b) && multiset(a) == multiset(b)
    ensures a == b
  {
    assert |a| == |multiset(a)| == |multiset(b)| == |b|;
    if |a| > 0 {
      HeadIsLeast(b, a[0]);
      HeadIsLeast(a, b[0]);
      LessIsStrictTotalOrder(a[0], b[0], b[0]);
      assert a[0] == b[0];
      assert a == [a[0]] + a[1..];
      assert b == [b[0]] + b[1..];
      assert multiset(a) == multiset{a[0]} + multiset(a[1..]);
      assert multiset(b) == multiset{b[0]} + multiset(b[1..]);
      assert multiset(a[1..]) == multiset(a) - multiset{a[0]};
      assert multiset(b[1..]) == multiset(b) - multiset{b[0]};
      assert Sorted(a[1..]) && Sorted(b[1..]);
      SortedUnique(a[1..], b[1..]);
    }
  }

  /** Swapping two entries of a sequence keeps its multiset. */
  lemma SwapKeepsMultiset<T>(s: seq<T>, i: nat, j: nat)
    requires i < |s| && j < |s|
    ensures multiset(s[i := s[j]][j := s[i]]) == multiset(s)
  {
  }

  /** The exact sum of a sequence of reals, added from the front. */
  function SumReals(t: seq<real>): real {
    if |t| == 0 then 0.0 else SumReals(t[..|t| - 1]) + t[|t| - 1]
  }

  /** Summing splits over concatenation. */
  lemma {:induction false} SumConcat(a: seq<real>, b: seq<real>)
    ensures SumReals(a + b) == SumReals(a) + SumReals(b)
    decreases |b|
  {
    if |b| == 0 {
      assert a + b == a;
    } else {
      assert (a + b)[..|a + b| - 1] == a + b[..|b| - 1];
      assert (a + b)[|a + b| - 1] == b[|b| - 1];
      SumConcat(a, b[..|b| - 1]);
    }
  }

  /** 0 + 1 + ... + (n-1). */
  function Tri(n: nat): nat {
    if n == 0 then 0 else Tri(n - 1) + (n - 1)
  }

  /** Gauss's closed form, for a stretch of positions: twice e + ... + (e+L-1) is L(2e+L-1). */
  lemma {:induction false} TriStretch(e: nat, L: nat)
    ensures 2 * (Tri(e + L) - Tri(e)) == L * (2 * e + L - 1)
  {
    if L > 0 {
      TriStretch(e, L - 1);
      assert Tri(e + L) == Tri(e + L - 1) + (e + L - 1);
      assert (L - 1) * (2 * e + L - 2) + 2 * (e + L - 1) == L * (2 * e + L - 1);
    }
  }

  /** Tri(n) is n(n-1)/2. */
  lemma TriHalf(n: nat)
    ensures Tri(n) as real == (n * (n - 1)) as real / 2.0
  {
    TriStretch(0, n);
  }

  /** A product kept as a term of its own, so that the solver's rewriting
      of squares does not get in the way of sign reasoning. */
  function Product(a: real, b: real): real {
    a * b
  }

  lemma ProductPositive(a: real, b: real)
    requires a > 0.0 && b > 0.0
    ensures Product(a, b) > 0.0
  {
  }

  lemma ProductNonNegative(a: real, b: real)
    requires a >= 0.0 && b >= 0.0
    ensures Product(a, b) >= 0.0
  {
  }
}
