/** The NaN-skipping summaries of general.go: the sorted copy that drops
    NaNs, the percentile engine with its linear blend between neighbours,
    the median, quartiles and Tukey fences built on it, and the
    accumulator loops `Sum` and `Mean`. */
module General {
  import opened Values

  // ------------------------------------------------------------ sorted copy

  /** The numbers among `values`, in order, NaNs dropped. */
  function Cleaned(values: seq<Value>): (c: seq<real>)
    ensures |c| <= |values|
  {
    if |values| == 0 then []
    else
      var last := values[|values| - 1];
      Cleaned(values[..|values| - 1]) + if last.Num? then [last.r] else []
  }

  /** A number survives cleaning exactly when it occurs in the input, and
      an input without NaNs loses nothing. */
  lemma {:induction false} CleanedMembers(values: seq<Value>)
    ensures forall v :: v in Cleaned(values) <==> Num(v) in values
    ensures (forall k :: 0 <= k < |values| ==> values[k].Num?) ==> |Cleaned(values)| == |values|
  {
    if |values| > 0 {
      var init := values[..|values| - 1];
      CleanedMembers(init);
      assert values == init + [values[|values| - 1]];
    }
  }

  /** One more input value extends the cleaned prefix by that value, if
      it is a number. */
  lemma CleanedStep(values: seq<Value>, i: nat)
    requires i < |values|
    ensures values[i].Num? ==> Cleaned(values[..i + 1]) == Cleaned(values[..i]) + [values[i].r]
    ensures values[i].NaN? ==> Cleaned(values[..i + 1]) == Cleaned(values[..i])
  {
    assert values[..i + 1][..i] == values[..i];
    assert Cleaned(values[..i]) + [] == Cleaned(values[..i]);
  }

  /** Non-decreasing. */
  ghost predicate Ascending(s: seq<real>) {
    forall i, j :: 0 <= i < j < |s| ==> s[i] <= s[j]
  }

  /** Insert x into an ascending sequence. */
  function Insert(x: real, s: seq<real>): (r: seq<real>)
    ensures |r| == |s| + 1
    ensures multiset(r) == multiset(s) + multiset{x}
  {
    if |s| == 0 then [x]
    else if x <= s[0] then [x] + s
    else
      assert s == [s[0]] + s[1..];
      [s[0]] + Insert(x, s[1..])
  }

  /** A lower bound of x and of every element bounds the insertion too. */
  lemma {:induction false} InsertBounded(x: real, s: seq<real>, lo: real)
    requires lo <= x && forall k :: 0 <= k < |s| ==> lo <= s[k]
    ensures forall k :: 0 <= k < |s| + 1 ==> lo <= Insert(x, s)[k]
  {
    if |s| > 0 && x > s[0] {
      InsertBounded(x, s[1..], lo);
    }
  }

  lemma {:induction false} InsertAscending(x: real, s: seq<real>)
    requires Ascending(s)
    ensures Ascending(Insert(x, s))
  {
    if |s| > 0 {
      if x <= s[0] {
        forall i, j | 0 <= i < j < |s| + 1
          ensures ([x] + s)[i] <= ([x] + s)[j]
        {
          assert ([x] + s)[j] == s[j - 1];
          if i > 0 {
            assert ([x] + s)[i] == s[i - 1];
          }
        }
      } else {
        AscendingTail(s);
        InsertAscending(x, s[1..]);
        var r := Insert(x, s[1..]);
        InsertBounded(x, s[1..], s[0]);
        forall i, j | 0 <= i < j < |r| + 1
          ensures ([s[0]] + r)[i] <= ([s[0]] + r)[j]
        {
          assert ([s[0]] + r)[j] == r[j - 1];
          if i > 0 {
            assert ([s[0]] + r)[i] == r[i - 1];
          }
        }
      }
    }
  }

  /** The reference sort: insertion of each value into the sorted prefix. */
  function SortReals(t: seq<real>): (s: seq<real>)
    ensures |s| == |t| && multiset(s) == multiset(t)
  {
    if |t| == 0 then []
    else
      assert t == t[..|t| - 1] + [t[|t| - 1]];
      Insert(t[|t| - 1], SortReals(t[..|t| - 1]))
  }

  lemma {:induction false} SortRealsAscending(t: seq<real>)
    ensures Ascending(SortReals(t))
  {
    if |t| > 0 {
      SortRealsAscending(t[..|t| - 1]);
      InsertAscending(t[|t| - 1], SortReals(t[..|t| - 1]));
    }
  }

  /** The head of an ascending sequence is at most every member. */
  lemma FirstIsLeast(s: seq<real>, x: real)
    requires Ascending(s) && x in multiset(s)
    ensures s[0] <= x
  {
    var k :| 0 <= k < |s| && s[k] == x;
  }

  lemma AscendingTail(s: seq<real>)
    requires Ascending(s) && |s| > 0
    ensures Ascending(s[1..])
  {
    forall i, j | 0 <= i < j < |s| - 1
      ensures s[1..][i] <= s[1..][j]
    {
      assert s[1..][i] == s[i + 1] && s[1..][j] == s[j + 1];
    }
  }

  /** Two ascending arrangements of one multiset are the same sequence: the
      argument of `Values.SortedUnique`, for `<=` on reals. */
  lemma {:induction false} AscendingUnique(a: seq<real>, b: seq<real>)
    requires Ascending(a) && Ascending(b) && multiset(a) == multiset(b)
    ensures a == b
  {
    assert |a| == |multiset(a)| == |multiset(b)| == |b|;
    if |a| > 0 {
      FirstIsLeast(b, a[0]);
      FirstIsLeast(a, b[0]);
      assert a[0] == b[0];
      assert a == [a[0]] + a[1..];
      assert b == [b[0]] + b[1..];
      assert multiset(a) == multiset{a[0]} + multiset(a[1..]);
      assert multiset(b) == multiset{b[0]} + multiset(b[1..]);
      assert multiset(a[1..]) == multiset(a) - multiset{a[0]};
      assert multiset(b[1..]) == multiset(b) - multiset{b[0]};
      assert multiset(a[1..]) == multiset(b[1..]);
      AscendingTail(a);
      AscendingTail(b);
      AscendingUnique(a[1..], b[1..]);
    }
  }

  /** What `sortFloat64s` returns: the numbers of `values` in ascending order. */
  function SortedCopy(values: seq<Value>): (s: seq<real>)
    ensures |s| == |Cleaned(values)|
  {
    SortReals(Cleaned(values))
  }

  /** The sorted copy is ascending, holds exactly the numbers of the input,
      and its ends are the least and greatest of them. */
  lemma SortedCopyFacts(values: seq<Value>)
    ensures Ascending(SortedCopy(values))
    ensures multiset(SortedCopy(values)) == multiset(Cleaned(values))
    ensures forall v :: v in SortedCopy(values) <==> Num(v) in values
  {
    SortRealsAscending(Cleaned(values));
    CleanedMembers(values);
    assert forall v :: v in SortedCopy(values) <==> v in multiset(Cleaned(values));
  }

  /** The first and last entries of an ascending sequence bound every entry. */
  lemma Extremes(s: seq<real>, v: real)
    requires Ascending(s) && v in s
    ensures s[0] <= v <= s[|s| - 1]
  {
    var k :| 0 <= k < |s| && s[k] == v;
  }

  /** The sinking loop's invariant: s[..hi] is ascending except that the
      element at j may still be below its left neighbours. */
  ghost predicate Sinking(s: seq<real>, j: nat, hi: nat)
    requires j < hi <= |s|
  {
    && (forall p, q :: 0 <= p < q < hi && q != j && p != j ==> s[p] <= s[q])
    && (forall q :: j < q < hi ==> s[j] <= s[q])
    && (0 < j < hi - 1 ==> s[j - 1] <= s[j + 1])
  }

  lemma SinkingStarts(s: seq<real>, i: nat)
    requires i < |s| && Ascending(s[..i])
    ensures Sinking(s, i, i + 1)
  {
    forall p, q | 0 <= p < q < i + 1 && q != i && p != i
      ensures s[p] <= s[q]
    {
      assert s[p] == s[..i][p] && s[q] == s[..i][q];
    }
  }

  lemma SinkingSteps(s: seq<real>, j: nat, hi: nat)
    requires 0 < j < hi <= |s| && Sinking(s, j, hi) && s[j - 1] > s[j]
    ensures Sinking(s[j - 1 := s[j]][j := s[j - 1]], j - 1, hi)
  {
  }

  lemma SinkingEnds(s: seq<real>, j: nat, hi: nat)
    requires j < hi <= |s| && Sinking(s, j, hi) && (j == 0 || s[j - 1] <= s[j])
    ensures Ascending(s[..hi])
  {
    forall p, q | 0 <= p < q < hi
      ensures s[p] <= s[q]
    {
      if p == j {
      } else if q == j {
        assert s[p] <= s[j - 1] || p == j - 1;
      }
    }
  }

  /** One pass of insertion sort: the element at i sinks left past every
      larger neighbour, so that a[..i + 1] becomes ascending. */
  method Sink(a: array<real>, i: nat)
    requires i < a.Length && Ascending(a[..i])
    modifies a
    ensures Ascending(a[..i + 1])
    ensures multiset(a[..]) == multiset(old(a[..]))
  {
    SinkingStarts(a[..], i);
    var j: nat := i;
    while j > 0 && a[j - 1] > a[j]
      invariant j <= i
      invariant Sinking(a[..], j, i + 1)
      invariant multiset(a[..]) == multiset(old(a[..]))
    {
      ghost var before := a[..];
      SinkingSteps(before, j, i + 1);
      SwapKeepsMultiset(before, j - 1, j);
      a[j - 1], a[j] := a[j], a[j - 1];
      assert a[..] == before[j - 1 := before[j]][j := before[j - 1]];
      j := j - 1;
    }
    SinkingEnds(a[..], j, i + 1);
  }

  /** `sort.Float64s` on the gathered numbers: insertion sort in place. */
  method SortInPlace(a: array<real>)
    modifies a
    ensures Ascending(a[..])
    ensures multiset(a[..]) == multiset(old(a[..]))
  {
    for i := 0 to a.Length
      invariant Ascending(a[..i])
      invariant multiset(a[..]) == multiset(old(a[..]))
    {
      Sink(a, i);
    }
    assert a[..a.Length] == a[..];
  }

  /** `sortFloat64s(values)`: gather the non-NaN values into a fresh
      buffer, sort it, and hand it back; the input is only read. */
  method SortFloat64s(values: seq<Value>) returns (sorted: seq<real>)
    ensures Ascending(sorted)
    ensures multiset(sorted) == multiset(Cleaned(values))
    ensures sorted == SortedCopy(values)
  {
    var gathered: seq<real> := [];
    for i := 0 to |values|
      invariant gathered == Cleaned(values[..i])
    {
      CleanedStep(values, i);
      if values[i].Num? {
        gathered := gathered + [values[i].r];
      }
    }
    assert values[..|values|] == values;
    var buffer := new real[|gathered|](k => if 0 <= k < |gathered| then gathered[k] else 0.0);
    assert buffer[..] == gathered;
    SortInPlace(buffer);
    sorted := buffer[..];
    SortedCopyFacts(values);
    AscendingUnique(sorted, SortedCopy(values));
  }

  // ------------------------------------------------------------ percentiles

  /** ⌈x⌉, from the floor. */
  function Ceil(x: real): int {
    -((-x).Floor)
  }

  lemma CeilFacts(x: real)
    ensures x <= Ceil(x) as real < x + 1.0
    ensures Ceil(x) == x.Floor <==> x == x.Floor as real
    ensures Ceil(x) != x.Floor ==> Ceil(x) == x.Floor + 1
  {
  }

  /** The 0-based position of percentile p among n sorted values. */
  function PercentileIndex(n: nat, p: real): real {
    (n + 1) as real * p / 100.0 - 1.0
  }

  /** `percentile_` reads sorted[floor] and sorted[ceil]: both must be
      positions, otherwise Go stops with an index-out-of-range panic. */
  predicate IndexInRange(n: nat, p: real) {
    0.0 <= PercentileIndex(n, p) <= (n - 1) as real
  }

  /** A blend with weights 1 − w and w, 0 < w < 1, lies between its two
      ends. */
  lemma BlendBetween(w: real, a: real, b: real)
    requires 0.0 < w < 1.0
    ensures a <= b ==> a <= Product(1.0 - w, a) + Product(w, b) <= b
  {
    if a <= b {
      ProductNonNegative(w, b - a);
      ProductNonNegative(1.0 - w, b - a);
      assert Product(1.0 - w, a) + Product(w, b) == a + Product(w, b - a);
      assert Product(1.0 - w, a) + Product(w, b) == b - Product(1.0 - w, b - a);
    }
  }

  /** The body of `percentile_` at a given real position: the element
      there when the position is integral, otherwise
      (ceil − index)·sorted[floor] + (index − floor)·sorted[ceil]. */
  function Interpolate(sorted: seq<real>, index: real): (r: real)
    requires 0.0 <= index <= (|sorted| - 1) as real
    ensures 0 <= index.Floor <= Ceil(index) < |sorted|
    ensures index == index.Floor as real ==> r == sorted[index.Floor]
    ensures sorted[index.Floor] <= sorted[Ceil(index)] ==>
      sorted[index.Floor] <= r <= sorted[Ceil(index)]
  {
    var ceil := Ceil(index);
    var floor := index.Floor;
    CeilFacts(index);
    if ceil == floor then
      sorted[floor]
    else
      var w := index - floor as real;
      assert ceil as real - index == 1.0 - w;
      BlendBetween(w, sorted[floor], sorted[ceil]);
      Product(ceil as real - index, sorted[floor]) + Product(w, sorted[ceil])
  }

  /** For a fractional position the two weights are strictly between 0 and
      1 and add up to 1, and the result is their blend of the neighbours. */
  lemma InterpolateWeights(sorted: seq<real>, index: real)
    requires 0.0 <= index <= (|sorted| - 1) as real
    requires index != index.Floor as real
    ensures 0.0 < Ceil(index) as real - index < 1.0
    ensures 0.0 < index - index.Floor as real < 1.0
    ensures (Ceil(index) as real - index) + (index - index.Floor as real) == 1.0
    ensures Ceil(index) == index.Floor + 1
    ensures Interpolate(sorted, index) ==
      Product(Ceil(index) as real - index, sorted[index.Floor]) + Product(index - index.Floor as real, sorted[Ceil(index)])
  {
    CeilFacts(index);
  }

  /** `percentile_(sorted, p)`. */
  function PercentileOfSorted(sorted: seq<real>, p: real): (r: real)
    requires IndexInRange(|sorted|, p)
    ensures Ascending(sorted) ==> sorted[0] <= r <= sorted[|sorted| - 1]
  {
    Interpolate(sorted, PercentileIndex(|sorted|, p))
  }

  /** The 0th and 100th percentiles are never in range: index −1 and index
      n fall just outside the array, so both always panic. */
  lemma EndPercentilesOutOfRange(n: nat)
    ensures !IndexInRange(n, 0.0)
    ensures !IndexInRange(n, 100.0)
  {
  }

  /** The median is in range exactly for non-empty input. */
  lemma MedianInRange(n: nat)
    ensures IndexInRange(n, 50.0) <==> n > 0
    ensures PercentileIndex(n, 50.0) == (n - 1) as real / 2.0
  {
  }

  /** The quartiles are in range exactly when there are at least three
      values. */
  lemma QuartilesInRange(n: nat)
    ensures IndexInRange(n, 25.0) <==> n >= 3
    ensures IndexInRange(n, 75.0) <==> n >= 3
  {
  }

  /** `Percentile(values, p)`: NaN for p outside [0, 100] (the formatted
      error is built and discarded) or when no number is left after
      dropping NaNs; otherwise `percentile_` on the sorted copy. */
  function Percentile(values: seq<Value>, p: real): (r: Value)
    requires 0.0 <= p <= 100.0 && |Cleaned(values)| > 0 ==> IndexInRange(|Cleaned(values)|, p)
    ensures r.NaN? <==> p < 0.0 || p > 100.0 || |Cleaned(values)| == 0
    ensures r.Num? ==> r.r == PercentileOfSorted(SortedCopy(values), p)
  {
    if p < 0.0 || p > 100.0 then NaN
    else
      var sorted := SortedCopy(values);
      if |sorted| == 0 then NaN else Num(PercentileOfSorted(sorted, p))
  }

  /** A percentile is an interpolation between sorted neighbours, so it
      lies within the range of the data: between its least and greatest
      number, both of which occur in the input. */
  lemma PercentileWithinData(values: seq<Value>, p: real)
    requires 0.0 <= p <= 100.0 && |Cleaned(values)| > 0 ==> IndexInRange(|Cleaned(values)|, p)
    requires Percentile(values, p).Num?
    ensures SortedCopy(values)[0] <= Percentile(values, p).r <= SortedCopy(values)[|Cleaned(values)| - 1]
  {
    SortedCopyFacts(values);
    assert Percentile(values, p).r == PercentileOfSorted(SortedCopy(values), p);
  }

  /** The ends of the sorted copy are numbers of the input, and they bound
      every number of the input. */
  lemma SortedCopyEnds(values: seq<Value>)
    requires |Cleaned(values)| > 0
    ensures Num(SortedCopy(values)[0]) in values
    ensures Num(SortedCopy(values)[|Cleaned(values)| - 1]) in values
    ensures forall v :: Num(v) in values ==> SortedCopy(values)[0] <= v <= SortedCopy(values)[|Cleaned(values)| - 1]
  {
    var s := SortedCopy(values);
    SortedCopyFacts(values);
    assert s[0] in s && s[|s| - 1] in s;
    forall v | Num(v) in values
      ensures s[0] <= v <= s[|s| - 1]
    {
      Extremes(s, v);
    }
  }

  /** At an integral index the percentile is that sorted element. */
  lemma PercentileAtIntegralIndex(values: seq<Value>, p: real)
    requires 0.0 <= p <= 100.0 && |Cleaned(values)| > 0
    requires IndexInRange(|Cleaned(values)|, p)
    requires PercentileIndex(|Cleaned(values)|, p) == PercentileIndex(|Cleaned(values)|, p).Floor as real
    ensures Percentile(values, p) == Num(SortedCopy(values)[PercentileIndex(|Cleaned(values)|, p).Floor])
  {
  }

  /** `Median(values)`, the 50th percentile. */
  function Median(values: seq<Value>): (r: Value)
    ensures r.NaN? <==> |Cleaned(values)| == 0
  {
    MedianInRange(|Cleaned(values)|);
    Percentile(values, 50.0)
  }

  /** With an odd count the median of sorted data is its middle element. */
  lemma MiddleOfOdd(sorted: seq<real>)
    requires |sorted| % 2 == 1
    ensures IndexInRange(|sorted|, 50.0)
    ensures PercentileOfSorted(sorted, 50.0) == sorted[|sorted| / 2]
  {
    var m := |sorted| / 2;
    MedianInRange(|sorted|);
    assert PercentileIndex(|sorted|, 50.0) == m as real;
    InterpolateAtPosition(sorted, m);
  }

  /** With an even count the median of sorted data is the mean of its two
      middle elements. */
  lemma MiddleOfEven(sorted: seq<real>)
    requires |sorted| % 2 == 0 && |sorted| > 0
    ensures IndexInRange(|sorted|, 50.0)
    ensures PercentileOfSorted(sorted, 50.0) == (sorted[|sorted| / 2 - 1] + sorted[|sorted| / 2]) / 2.0
  {
    var m := |sorted| / 2;
    MedianInRange(|sorted|);
    assert PercentileIndex(|sorted|, 50.0) == (m - 1) as real + 0.5;
    InterpolateHalfway(sorted, m - 1);
  }

  /** With an odd count the median is the middle sorted number. */
  lemma MedianOdd(values: seq<Value>)
    requires |Cleaned(values)| % 2 == 1
    ensures Median(values) == Num(SortedCopy(values)[|Cleaned(values)| / 2])
  {
    MiddleOfOdd(SortedCopy(values));
  }

  /** With an even count the median is the mean of the two middle sorted
      numbers. */
  lemma MedianEven(values: seq<Value>)
    requires |Cleaned(values)| % 2 == 0 && |Cleaned(values)| > 0
    ensures Median(values) == Num((SortedCopy(values)[|Cleaned(values)| / 2 - 1] + SortedCopy(values)[|Cleaned(values)| / 2]) / 2.0)
  {
    MiddleOfEven(SortedCopy(values));
  }

  /** At an integral position interpolation reads that element. */
  lemma InterpolateAtPosition(sorted: seq<real>, k: nat)
    requires k < |sorted|
    ensures Interpolate(sorted, k as real) == sorted[k]
  {
  }

  /** Halfway between two positions interpolation is the mean of the
      two elements. */
  lemma InterpolateHalfway(sorted: seq<real>, k: nat)
    requires k + 1 < |sorted|
    ensures Interpolate(sorted, k as real + 0.5) == (sorted[k] + sorted[k + 1]) / 2.0
  {
    var index := k as real + 0.5;
    assert index.Floor == k;
    InterpolateWeights(sorted, index);
  }

  /** `FirstQuartile(values)`, the 25th percentile. */
  function FirstQuartile(values: seq<Value>): (r: Value)
    requires |Cleaned(values)| == 0 || |Cleaned(values)| >= 3
    ensures r.NaN? <==> |Cleaned(values)| == 0
  {
    QuartilesInRange(|Cleaned(values)|);
    Percentile(values, 25.0)
  }

  /** `ThirdQuartile(values)`, the 75th percentile. */
  function ThirdQuartile(values: seq<Value>): (r: Value)
    requires |Cleaned(values)| == 0 || |Cleaned(values)| >= 3
    ensures r.NaN? <==> |Cleaned(values)| == 0
  {
    QuartilesInRange(|Cleaned(values)|);
    Percentile(values, 75.0)
  }

  /** On ascending data the first quartile does not exceed the third: the
      upper neighbour of the 25th-percentile position is at most the lower
      neighbour of the 75th-percentile position. */
  lemma QuartilesOrdered(sorted: seq<real>)
    requires |sorted| >= 3 && Ascending(sorted)
    ensures IndexInRange(|sorted|, 25.0) && IndexInRange(|sorted|, 75.0)
    ensures PercentileOfSorted(sorted, 25.0) <= PercentileOfSorted(sorted, 75.0)
  {
    var n := |sorted|;
    QuartilesInRange(n);
    var i1 := PercentileIndex(n, 25.0);
    var i3 := PercentileIndex(n, 75.0);
    CeilFacts(i1);
    CeilFacts(i3);
    assert i3 - i1 == (n + 1) as real / 2.0;
    assert Ceil(i1) <= i3.Floor;
    assert sorted[i1.Floor] <= sorted[Ceil(i1)] <= sorted[i3.Floor] <= sorted[Ceil(i3)];
    assert PercentileOfSorted(sorted, 25.0) == Interpolate(sorted, i1);
    assert PercentileOfSorted(sorted, 75.0) == Interpolate(sorted, i3);
  }

  /** `QuartileRange(values)`: the 25th and 75th percentiles of one sorted
      copy, with no guard of its own. */
  function QuartileRange(values: seq<Value>): (r: (real, real))
    requires |Cleaned(values)| >= 3
    ensures Num(r.0) == FirstQuartile(values) && Num(r.1) == ThirdQuartile(values)
    ensures r.0 <= r.1
  {
    var sorted := SortedCopy(values);
    QuartilesInRange(|sorted|);
    SortedCopyFacts(values);
    QuartilesOrdered(sorted);
    (PercentileOfSorted(sorted, 25.0), PercentileOfSorted(sorted, 75.0))
  }

  /** `RegularRange(values)`: Tukey's fences, 1.5 interquartile ranges
      beyond the quartiles. */
  function RegularRange(values: seq<Value>): (r: (real, real))
    requires |Cleaned(values)| >= 3
    ensures r.0 <= QuartileRange(values).0 <= QuartileRange(values).1 <= r.1
    ensures r.1 - r.0 == 4.0 * (QuartileRange(values).1 - QuartileRange(values).0)
  {
    var (fq, tq) := QuartileRange(values);
    var iqr := tq - fq;
    (fq - 1.5 * iqr, tq + 1.5 * iqr)
  }

  /** `MinRegular(values)`, the lower fence. */
  function MinRegular(values: seq<Value>): (r: real)
    requires |Cleaned(values)| >= 3
    ensures r == RegularRange(values).0
    ensures r <= QuartileRange(values).0
  {
    var (fq, tq) := QuartileRange(values);
    var iqr := tq - fq;
    fq - 1.5 * iqr
  }

  /** `MaxRegular(values)`, the upper fence. */
  function MaxRegular(values: seq<Value>): (r: real)
    requires |Cleaned(values)| >= 3
    ensures r == RegularRange(values).1
    ensures QuartileRange(values).1 <= r
  {
    var (fq, tq) := QuartileRange(values);
    var iqr := tq - fq;
    tq + 1.5 * iqr
  }

  // ------------------------------------------------------------ sums

  /** `Sum(values)`: the numbers added up, NaNs skipped. */
  method Sum(values: seq<Value>) returns (sum: real)
    ensures sum == SumReals(Cleaned(values))
  {
    sum := 0.0;
    for i := 0 to |values|
      invariant sum == SumReals(Cleaned(values[..i]))
    {
      CleanedStep(values, i);
      if values[i].Num? {
        SumConcat(Cleaned(values[..i]), [values[i].r]);
        sum := sum + values[i].r;
      }
    }
    assert values[..|values|] == values;
  }

  /** The arithmetic mean of a non-empty sequence of numbers. */
  function Average(t: seq<real>): real
    requires |t| > 0
  {
    SumReals(t) / |t| as real
  }

  /** `Mean(values)`: the sum of the numbers over their count; with no
      numbers this is 0/0, NaN. */
  method Mean(values: seq<Value>) returns (mean: Value)
    ensures mean.NaN? <==> |Cleaned(values)| == 0
    ensures mean.Num? ==> mean.r == Average(Cleaned(values))
  {
    var sum := 0.0;
    var count := 0;
    for i := 0 to |values|
      invariant sum == SumReals(Cleaned(values[..i]))
      invariant count == |Cleaned(values[..i])|
    {
      CleanedStep(values, i);
      if values[i].Num? {
        SumConcat(Cleaned(values[..i]), [values[i].r]);
        sum := sum + values[i].r;
        count := count + 1;
      }
    }
    assert values[..|values|] == values;
    if count == 0 {
      return NaN;
    }
    mean := Num(sum / count as real);
  }

  /** Numbers all within [lo, hi] sum to between n·lo and n·hi. */
  lemma {:induction false} SumWithin(t: seq<real>, lo: real, hi: real)
    requires forall k :: 0 <= k < |t| ==> lo <= t[k] <= hi
    ensures Product(|t| as real, lo) <= SumReals(t) <= Product(|t| as real, hi)
  {
    if |t| > 0 {
      SumWithin(t[..|t| - 1], lo, hi);
      assert Product(|t| as real, lo) == Product((|t| - 1) as real, lo) + lo;
      assert Product(|t| as real, hi) == Product((|t| - 1) as real, hi) + hi;
    }
  }

  /** The mean lies between the least and the greatest number. */
  lemma AverageWithin(t: seq<real>, lo: real, hi: real)
    requires |t| > 0
    requires forall k :: 0 <= k < |t| ==> lo <= t[k] <= hi
    ensures lo <= Average(t) <= hi
  {
    SumWithin(t, lo, hi);
    QuotientWithin(SumReals(t), |t| as real, lo, hi);
  }

  lemma QuotientWithin(s: real, n: real, lo: real, hi: real)
    requires n > 0.0 && Product(n, lo) <= s <= Product(n, hi)
    ensures lo <= s / n <= hi
  {
    assert s / n - lo == (s - Product(n, lo)) / n;
    assert hi - s / n == (Product(n, hi) - s) / n;
  }

  /** The mean of the numbers in `values` lies within their range. */
  lemma MeanWithinData(values: seq<Value>)
    requires |Cleaned(values)| > 0
    ensures SortedCopy(values)[0] <= Average(Cleaned(values)) <= SortedCopy(values)[|Cleaned(values)| - 1]
  {
    var c := Cleaned(values);
    var s := SortedCopy(values);
    SortedCopyEnds(values);
    CleanedMembers(values);
    forall k | 0 <= k < |c|
      ensures s[0] <= c[k] <= s[|s| - 1]
    {
      assert c[k] in c;
    }
    AverageWithin(c, s[0], s[|s| - 1]);
  }

  /** Dropping NaNs commutes with concatenation, so sums split over it. */
  lemma {:induction false} CleanedConcat(a: seq<Value>, b: seq<Value>)
    ensures Cleaned(a + b) == Cleaned(a) + Cleaned(b)
    decreases |b|
  {
    if |b| > 0 {
      var b' := b[..|b| - 1];
      assert (a + b)[..|a + b| - 1] == a + b';
      assert (a + b)[|a + b| - 1] == b[|b| - 1];
      CleanedConcat(a, b');
    } else {
      assert a + b == a;
    }
  }

  /** Sum is additive over concatenation of inputs: NaNs anywhere add nothing. */
  lemma SumSplits(a: seq<Value>, b: seq<Value>)
    ensures SumReals(Cleaned(a + b)) == SumReals(Cleaned(a)) + SumReals(Cleaned(b))
  {
    CleanedConcat(a, b);
    SumConcat(Cleaned(a), Cleaned(b));
  }
}
