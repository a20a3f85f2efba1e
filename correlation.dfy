/** The rank correlations built on `getRank`: the shared shape guard,
    Spearman's coefficient from the squared rank differences, and Kendall's
    exhaustive count of concordant pairs, discordant pairs and ties. */
module Correlation {
  import opened Values
  import opened Rank

  /** The guard every coefficient starts with: lengths differ, or fewer than
      three samples. */
  predicate BadShape(n: nat, m: nat) {
    n != m || n < 3
  }

  /** `PearsonCorrelation` up to its guard: NaN on a bad shape; otherwise the
      floating-point coefficient, which this model does not compute (None). */
  function PearsonCorrelation(x: seq<Value>, y: seq<Value>): (r: Option<Value>)
    ensures r == Some(NaN) <==> BadShape(|x|, |y|)
    ensures r.None? <==> !BadShape(|x|, |y|)
  {
    if |x| != |y| || |x| < 3 then Some(NaN) else None
  }

  // ---------------------------------------------------------------- Spearman

  /** Σ (rx[i] - ry[i])², accumulated from the front as the loop does. */
  function SumSqDiff(rx: seq<real>, ry: seq<real>): real
    requires |rx| == |ry|
  {
    if |rx| == 0 then 0.0
    else
      var d := rx[|rx| - 1] - ry[|ry| - 1];
      SumSqDiff(rx[..|rx| - 1], ry[..|ry| - 1]) + Square(d)
  }

  function Square(d: real): real {
    d * d
  }

  /** 1 − 6·Σd² / (n(n²−1)), the coefficient of two rankings of n ≥ 2 items. */
  function SpearmanCoefficient(rx: seq<real>, ry: seq<real>): real
    requires |rx| == |ry| >= 2
  {
    var n := |rx|;
    1.0 - (6.0 * SumSqDiff(rx, ry)) / (n * (n * n - 1)) as real
  }

  /** The squared differences vanish exactly when the rankings agree, and
      are positive otherwise. */
  lemma {:induction false} SumSqDiffZero(rx: seq<real>, ry: seq<real>)
    requires |rx| == |ry|
    ensures SumSqDiff(rx, ry) >= 0.0
    ensures rx == ry ==> SumSqDiff(rx, ry) == 0.0
    ensures rx != ry ==> SumSqDiff(rx, ry) > 0.0
  {
    if |rx| > 0 {
      var n := |rx|;
      SumSqDiffZero(rx[..n - 1], ry[..n - 1]);
      var d := rx[n - 1] - ry[n - 1];
      assert SumSqDiff(rx, ry) == SumSqDiff(rx[..n - 1], ry[..n - 1]) + Square(d);
      assert rx == rx[..n - 1] + [rx[n - 1]];
      assert ry == ry[..n - 1] + [ry[n - 1]];
      if d == 0.0 {
        assert Square(d) == 0.0;
      } else {
        assert rx[n - 1] != ry[n - 1];
        SquarePositive(d);
      }
    }
  }

  /** A non-zero difference has a positive square. */
  lemma SquarePositive(d: real)
    requires d != 0.0
    ensures Square(d) > 0.0
  {
    if d > 0.0 {
      ProductPositive(d, d);
      assert Square(d) == Product(d, d);
    } else {
      ProductPositive(-d, -d);
      assert Square(d) == Product(-d, -d);
    }
  }

  /** Spearman's coefficient never exceeds 1, and reaches it exactly when the
      two rankings coincide. */
  lemma SpearmanAtMostOne(rx: seq<real>, ry: seq<real>)
    requires |rx| == |ry| >= 2
    ensures SpearmanCoefficient(rx, ry) <= 1.0
    ensures SpearmanCoefficient(rx, ry) == 1.0 <==> rx == ry
  {
    var n := |rx|;
    SumSqDiffZero(rx, ry);
    var den := (n * (n * n - 1)) as real;
    DenominatorPositive(n);
    var q := (6.0 * SumSqDiff(rx, ry)) / den;
    assert q >= 0.0;
    if rx != ry {
      assert q > 0.0;
    }
  }

  /** ρ = 1 for a strictly increasing relation: when neither input has a
      NaN, x has no repeats, and y orders every pair of slots as x does,
      the two rankings coincide and the coefficient is exactly 1. */
  lemma SpearmanMonotone(x0: seq<Value>, sx: seq<Value>, px: seq<int>, rx: seq<real>,
                         y0: seq<Value>, sy: seq<Value>, py: seq<int>, ry: seq<real>)
    requires RankedBy(x0, sx, px, rx) && RankedBy(y0, sy, py, ry) && |x0| == |y0| >= 2
    requires forall p :: 0 <= p < |x0| ==> x0[p].Num? && y0[p].Num?
    requires forall p, q :: 0 <= p < q < |x0| ==> x0[p] != x0[q]
    requires forall p, q :: 0 <= p < |x0| && 0 <= q < |x0| ==> (Lt(x0[p], x0[q]) <==> Lt(y0[p], y0[q]))
    ensures rx == ry
    ensures SpearmanCoefficient(rx, ry) == 1.0
  {
    SameOrderSameRanks(x0, sx, px, rx, y0, sy, py, ry);
    SpearmanAtMostOne(rx, ry);
  }

  /** `SpearmanCorrelation(x, y)`. Both arrays are ranked through `getRank`,
      which sorts them in place. When `x` and `y` are one array, the second
      ranking sees the already sorted array: its ranks are those of the
      sorted values, not of the caller's original order. */
  method SpearmanCorrelation(x: array<Value>, y: array<Value>)
      returns (rho: Value, ghost rx: seq<real>, ghost ry: seq<real>, ghost px: seq<int>, ghost py: seq<int>)
    modifies x, y
    ensures rho.NaN? <==> BadShape(x.Length, y.Length)
    ensures BadShape(x.Length, y.Length) ==> x[..] == old(x[..]) && y[..] == old(y[..])
    ensures !BadShape(x.Length, y.Length) ==>
      && RankedBy(old(x[..]), x[..], px, rx)
      && RankedBy(if x == y then x[..] else old(y[..]), y[..], py, ry)
      && rho == Num(SpearmanCoefficient(rx, ry))
  {
    var n := x.Length;
    if n != y.Length || n < 3 {
      return NaN, [], [], [], [];
    }
    var rankX, rankY;
    rankX, rankY, px, py := RankBoth(x, y);
    var numerator := SquaredRankDistance(rankX, rankY);
    DenominatorPositive(n);
    rho := Num(1.0 - (6.0 * numerator) / (n * (n * n - 1)) as real);
    rx, ry := rankX, rankY;
  }

  /** The accumulation loop of `SpearmanCorrelation`: Σ (Rx[i] − Ry[i])². */
  method SquaredRankDistance(rx: seq<real>, ry: seq<real>) returns (numerator: real)
    requires |rx| == |ry|
    ensures numerator == SumSqDiff(rx, ry)
  {
    numerator := 0.0;
    for i := 0 to |rx|
      invariant numerator == SumSqDiff(rx[..i], ry[..i])
    {
      assert rx[..i + 1][..i] == rx[..i] && ry[..i + 1][..i] == ry[..i];
      numerator := numerator + (rx[i] - ry[i]) * (rx[i] - ry[i]);
    }
    assert rx[..|rx|] == rx && ry[..|ry|] == ry;
  }

  /** n(n² − 1) is positive once there are two items. */
  lemma DenominatorPositive(n: int)
    requires n >= 2
    ensures n * (n * n - 1) > 0
  {
    assert n * n >= 2 * n;
  }

  /** `Rx := getRank(x); Ry := getRank(y)`, the two calls both coefficients
      make. When `x` and `y` are one array, the second call re-sorts the
      already sorted values, which leaves them as they are. */
  method RankBoth(x: array<Value>, y: array<Value>)
      returns (rx: seq<real>, ry: seq<real>, ghost px: seq<int>, ghost py: seq<int>)
    modifies x, y
    ensures RankedBy(old(x[..]), x[..], px, rx)
    ensures RankedBy(if x == y then x[..] else old(y[..]), y[..], py, ry)
  {
    ghost var y0 := y[..];
    rx, px := GetRank(x);
    ghost var x1 := x[..];
    ry, py := GetRank(y);
    if x == y {
      SortedUnique(x1, x[..]);
    }
  }

  /** The aliasing edge: `SpearmanCorrelation(x, x)` on x = [3, 1, 2] ranks
      the original order as [2, 0, 1] but the sorted array as [0, 1, 2],
      so a series correlated with itself scores −0.5 rather than 1. */
  lemma SelfCorrelationExample(s1: seq<Value>, s2: seq<Value>, p1: seq<int>, p2: seq<int>, rx: seq<real>, ry: seq<real>)
    requires RankedBy([Num(3.0), Num(1.0), Num(2.0)], s1, p1, rx)
    requires RankedBy(s1, s2, p2, ry)
    ensures rx == [2.0, 0.0, 1.0] && ry == [0.0, 1.0, 2.0]
    ensures SpearmanCoefficient(rx, ry) == -0.5
  {
    SortedOfExample(s1);
    ExampleRanks(s1, p1, rx);
    SortedExampleRanks(s2, p2, ry);
    ExampleCoefficient(rx, ry);
  }

  lemma ExampleRanks(s: seq<Value>, p: seq<int>, r: seq<real>)
    requires RankedBy([Num(3.0), Num(1.0), Num(2.0)], s, p, r)
    ensures |r| == 3 && r[0] == 2.0 && r[1] == 0.0 && r[2] == 1.0
  {
    RankAmongThree([Num(3.0), Num(1.0), Num(2.0)], s, p, r, 0);
    RankAmongThree([Num(3.0), Num(1.0), Num(2.0)], s, p, r, 1);
    RankAmongThree([Num(3.0), Num(1.0), Num(2.0)], s, p, r, 2);
    assert r[0] == 2.0 && r[1] == 0.0 && r[2] == 1.0;
  }

  lemma SortedExampleRanks(s: seq<Value>, p: seq<int>, r: seq<real>)
    requires RankedBy([Num(1.0), Num(2.0), Num(3.0)], s, p, r)
    ensures |r| == 3 && r[0] == 0.0 && r[1] == 1.0 && r[2] == 2.0
  {
    RankAmongThree([Num(1.0), Num(2.0), Num(3.0)], s, p, r, 0);
    RankAmongThree([Num(1.0), Num(2.0), Num(3.0)], s, p, r, 1);
    RankAmongThree([Num(1.0), Num(2.0), Num(3.0)], s, p, r, 2);
    assert r[0] == 0.0 && r[1] == 1.0 && r[2] == 2.0;
  }

  lemma ExampleCoefficient(rx: seq<real>, ry: seq<real>)
    requires |rx| == 3 && rx[0] == 2.0 && rx[1] == 0.0 && rx[2] == 1.0
    requires |ry| == 3 && ry[0] == 0.0 && ry[1] == 1.0 && ry[2] == 2.0
    ensures rx == [2.0, 0.0, 1.0] && ry == [0.0, 1.0, 2.0]
    ensures SpearmanCoefficient(rx, ry) == -0.5
  {
    assert rx == [2.0, 0.0, 1.0] && ry == [0.0, 1.0, 2.0];
    assert rx[..2] == [2.0, 0.0] && ry[..2] == [0.0, 1.0];
    assert rx[..2][..1] == [2.0] && ry[..2][..1] == [0.0];
    assert [2.0][..0] == [] && [0.0][..0] == [];
    assert SumSqDiff([2.0], [0.0]) == 4.0;
    assert SumSqDiff([2.0, 0.0], [0.0, 1.0]) == 5.0;
    assert SumSqDiff(rx, ry) == 6.0;
  }

  /** Sorting [3, 1, 2] gives [1, 2, 3]. */
  lemma SortedOfExample(s: seq<Value>)
    requires Sorted(s) && multiset(s) == multiset([Num(3.0), Num(1.0), Num(2.0)])
    ensures s == [Num(1.0), Num(2.0), Num(3.0)]
  {
    var t := [Num(1.0), Num(2.0), Num(3.0)];
    assert multiset(t) == multiset([Num(3.0), Num(1.0), Num(2.0)]);
    SortedUnique(s, t);
  }

  /** 1 when x is ranked below v, else 0. */
  function Beats(x: Value, v: Value): real {
    if Less(x, v) then 1.0 else 0.0
  }

  /** Among three distinct numbers, each is ranked by how many of the
      three are smaller. */
  lemma RankAmongThree(x0: seq<Value>, s: seq<Value>, perm: seq<int>, r: seq<real>, i: nat)
    requires RankedBy(x0, s, perm, r) && |x0| == 3 && i < 3
    requires x0[0].Num? && x0[1].Num? && x0[2].Num?
    requires x0[0] != x0[1] && x0[1] != x0[2] && x0[0] != x0[2]
    ensures r[i] == Beats(x0[0], x0[i]) + Beats(x0[1], x0[i]) + Beats(x0[2], x0[i])
  {
    assert x0 == [x0[0], x0[1], x0[2]];
    Count3(x0[0], x0[1], x0[2], Equal, x0[i]);
    Count3(x0[0], x0[1], x0[2], Below, x0[i]);
    RankWithinTies(x0, s, perm, r, i);
  }

  lemma Count3(a: Value, b: Value, c: Value, rel: Relation, v: Value)
    ensures Count([a, b, c], rel, v)
      == (if Stands(a, rel, v) then 1 else 0) + (if Stands(b, rel, v) then 1 else 0) + (if Stands(c, rel, v) then 1 else 0)
  {
    assert [a, b, c][..2] == [a, b];
    assert [a, b][..1] == [a];
    assert [a][..0] == [];
    assert Count([a], rel, v) == if Stands(a, rel, v) then 1 else 0;
    assert Count([a, b], rel, v) == Count([a], rel, v) + if Stands(b, rel, v) then 1 else 0;
  }

  // ------------------------------------------------------------------ Kendall

  /** The counters of the pair loop, and the pairs tied in either ranking. */
  datatype Tally = Concordant | Discordant | XTie | YTie | Tied

  /** Whether the pair with rank differences xRel, yRel bumps counter t:
      ties are checked first (a pair tied in both rankings bumps both tie
      counters), then equal signs are concordant and opposite signs
      discordant. */
  predicate Bumps(t: Tally, xRel: real, yRel: real) {
    var tied := xRel == 0.0 || yRel == 0.0;
    match t
    case XTie => xRel == 0.0
    case YTie => yRel == 0.0
    case Tied => tied
    case Concordant => !tied && ((xRel > 0.0 && yRel > 0.0) || (xRel < 0.0 && yRel < 0.0))
    case Discordant => !tied && ((xRel > 0.0 && yRel < 0.0) || (xRel < 0.0 && yRel > 0.0))
  }

  predicate BumpsAt(rx: seq<real>, ry: seq<real>, t: Tally, i: nat, j: nat)
    requires |rx| == |ry| && i < j < |rx|
  {
    Bumps(t, rx[j] - rx[i], ry[j] - ry[i])
  }

  /** How many pairs (i, k), i < k < j, bump counter t. */
  function RowCount(rx: seq<real>, ry: seq<real>, t: Tally, i: nat, j: nat): nat
    requires |rx| == |ry| && i < j <= |rx|
    decreases j
  {
    if j == i + 1 then 0
    else RowCount(rx, ry, t, i, j - 1) + if BumpsAt(rx, ry, t, i, j - 1) then 1 else 0
  }

  /** How many pairs in rows 0 .. i-1 bump counter t. */
  function GridCount(rx: seq<real>, ry: seq<real>, t: Tally, i: nat): nat
    requires |rx| == |ry| && i <= |rx|
  {
    if i == 0 then 0 else GridCount(rx, ry, t, i - 1) + RowCount(rx, ry, t, i - 1, |rx|)
  }

  /** Every pair is concordant, discordant or tied, and tied exactly when
      tied in x or in y. */
  lemma PairClassified(xRel: real, yRel: real)
    ensures Bumps(Concordant, xRel, yRel) || Bumps(Discordant, xRel, yRel) || Bumps(Tied, xRel, yRel)
    ensures !(Bumps(Concordant, xRel, yRel) && Bumps(Discordant, xRel, yRel))
    ensures !(Bumps(Concordant, xRel, yRel) && Bumps(Tied, xRel, yRel))
    ensures !(Bumps(Discordant, xRel, yRel) && Bumps(Tied, xRel, yRel))
    ensures Bumps(Tied, xRel, yRel) <==> Bumps(XTie, xRel, yRel) || Bumps(YTie, xRel, yRel)
  {
  }

  /** The same, for the pair (i, j) of two rankings. */
  lemma PairAtClassified(rx: seq<real>, ry: seq<real>, i: nat, j: nat)
    requires |rx| == |ry| && i < j < |rx|
    ensures (if BumpsAt(rx, ry, Concordant, i, j) then 1 else 0) + (if BumpsAt(rx, ry, Discordant, i, j) then 1 else 0)
      + (if BumpsAt(rx, ry, Tied, i, j) then 1 else 0) == 1
    ensures BumpsAt(rx, ry, Tied, i, j) <==> BumpsAt(rx, ry, XTie, i, j) || BumpsAt(rx, ry, YTie, i, j)
  {
  }

  lemma {:induction false} RowBalanced(rx: seq<real>, ry: seq<real>, i: nat, j: nat)
    requires |rx| == |ry| && i < j <= |rx|
    ensures RowCount(rx, ry, Concordant, i, j) + RowCount(rx, ry, Discordant, i, j) + RowCount(rx, ry, Tied, i, j) == j - i - 1
    ensures RowCount(rx, ry, XTie, i, j) <= RowCount(rx, ry, Tied, i, j)
    ensures RowCount(rx, ry, YTie, i, j) <= RowCount(rx, ry, Tied, i, j)
    ensures RowCount(rx, ry, Tied, i, j) <= RowCount(rx, ry, XTie, i, j) + RowCount(rx, ry, YTie, i, j)
    decreases j
  {
    if j > i + 1 {
      RowBalanced(rx, ry, i, j - 1);
      PairAtClassified(rx, ry, i, j - 1);
    }
  }

  lemma {:induction false} GridBalanced(rx: seq<real>, ry: seq<real>, i: nat)
    requires |rx| == |ry| && i <= |rx|
    ensures GridCount(rx, ry, Concordant, i) + GridCount(rx, ry, Discordant, i) + GridCount(rx, ry, Tied, i) + Tri(|rx| - i) == Tri(|rx|)
    ensures GridCount(rx, ry, XTie, i) <= GridCount(rx, ry, Tied, i)
    ensures GridCount(rx, ry, YTie, i) <= GridCount(rx, ry, Tied, i)
    ensures GridCount(rx, ry, Tied, i) <= GridCount(rx, ry, XTie, i) + GridCount(rx, ry, YTie, i)
  {
    if i > 0 {
      GridBalanced(rx, ry, i - 1);
      RowBalanced(rx, ry, i - 1, |rx|);
      assert Tri(|rx| - i + 1) == Tri(|rx| - i) + (|rx| - i);
    }
  }

  /** A ranking against itself: no pair is discordant, and a tie in one
      ranking is a tie in the other. */
  lemma PairAtSelf(r: seq<real>, i: nat, j: nat)
    requires i < j < |r|
    ensures !BumpsAt(r, r, Discordant, i, j)
    ensures BumpsAt(r, r, XTie, i, j) == BumpsAt(r, r, YTie, i, j) == BumpsAt(r, r, Tied, i, j)
  {
  }

  lemma {:induction false} RowSelf(r: seq<real>, i: nat, j: nat)
    requires i < j <= |r|
    ensures RowCount(r, r, Discordant, i, j) == 0
    ensures RowCount(r, r, XTie, i, j) == RowCount(r, r, YTie, i, j) == RowCount(r, r, Tied, i, j)
    decreases j
  {
    if j > i + 1 {
      RowSelf(r, i, j - 1);
      PairAtSelf(r, i, j - 1);
    }
  }

  /** The counter that plays t's part when the two rankings are exchanged. */
  function Mirror(t: Tally): Tally {
    match t
    case XTie => YTie
    case YTie => XTie
    case _ => t
  }

  lemma PairAtMirror(rx: seq<real>, ry: seq<real>, t: Tally, i: nat, j: nat)
    requires |rx| == |ry| && i < j < |rx|
    ensures BumpsAt(ry, rx, t, i, j) == BumpsAt(rx, ry, Mirror(t), i, j)
  {
  }

  lemma {:induction false} RowMirror(rx: seq<real>, ry: seq<real>, t: Tally, i: nat, j: nat)
    requires |rx| == |ry| && i < j <= |rx|
    ensures RowCount(ry, rx, t, i, j) == RowCount(rx, ry, Mirror(t), i, j)
    decreases j
  {
    if j > i + 1 {
      RowMirror(rx, ry, t, i, j - 1);
      PairAtMirror(rx, ry, t, i, j - 1);
    }
  }

  /** Every pair i < j of two rankings that bumps counter t. */
  function KendallCount(rx: seq<real>, ry: seq<real>, t: Tally): nat
    requires |rx| == |ry|
  {
    GridCount(rx, ry, t, |rx|)
  }

  /** The loop visits n(n−1)/2 pairs, each concordant, discordant or tied,
      and a tied pair bumps xTies, yTies or both. */
  lemma KendallCounting(rx: seq<real>, ry: seq<real>)
    requires |rx| == |ry|
    ensures KendallCount(rx, ry, Concordant) + KendallCount(rx, ry, Discordant) + KendallCount(rx, ry, Tied) == Tri(|rx|)
    ensures KendallCount(rx, ry, XTie) <= KendallCount(rx, ry, Tied)
    ensures KendallCount(rx, ry, YTie) <= KendallCount(rx, ry, Tied)
    ensures KendallCount(rx, ry, Tied) <= KendallCount(rx, ry, XTie) + KendallCount(rx, ry, YTie)
  {
    GridBalanced(rx, ry, |rx|);
  }

  /** Hence both denominator terms n(n−1)/2 − T are at least the number of
      untied pairs, and so at least |concordant − discordant|: |τ| ≤ 1 once
      the square root is taken. */
  lemma KendallTermsBound(rx: seq<real>, ry: seq<real>)
    requires |rx| == |ry|
    ensures KendallCount(rx, ry, Concordant) + KendallCount(rx, ry, Discordant) <= Tri(|rx|) - KendallCount(rx, ry, XTie)
    ensures KendallCount(rx, ry, Concordant) + KendallCount(rx, ry, Discordant) <= Tri(|rx|) - KendallCount(rx, ry, YTie)
  {
    KendallCounting(rx, ry);
  }

  /** A radicand term is 0 only when every pair is tied in that ranking,
      and then no pair is concordant or discordant: the numerator is 0 too,
      so Go's quotient is 0/0 = NaN, never an infinity. */
  lemma KendallZeroTerm(rx: seq<real>, ry: seq<real>)
    requires |rx| == |ry|
    ensures Tri(|rx|) as real - KendallCount(rx, ry, XTie) as real == 0.0 ||
            Tri(|rx|) as real - KendallCount(rx, ry, YTie) as real == 0.0
      ==> KendallCount(rx, ry, Concordant) as real - KendallCount(rx, ry, Discordant) as real == 0.0
  {
    KendallTermsBound(rx, ry);
  }

  lemma {:induction false} GridSelf(r: seq<real>, i: nat)
    requires i <= |r|
    ensures GridCount(r, r, Discordant, i) == 0
    ensures GridCount(r, r, XTie, i) == GridCount(r, r, YTie, i) == GridCount(r, r, Tied, i)
  {
    if i > 0 {
      GridSelf(r, i - 1);
      RowSelf(r, i - 1, |r|);
    }
  }

  /** A ranking against itself: no discordant pair, equal tie counts, and
      every untied pair concordant, so numerator and both terms coincide and
      τ = 1 whenever it is defined. */
  lemma KendallSelf(r: seq<real>)
    ensures KendallCount(r, r, Discordant) == 0
    ensures KendallCount(r, r, XTie) == KendallCount(r, r, YTie)
    ensures KendallCount(r, r, Concordant) == Tri(|r|) - KendallCount(r, r, XTie)
  {
    GridSelf(r, |r|);
    KendallCounting(r, r);
  }

  /** A counter no pair of a row bumps stays at 0 over that row. */
  lemma {:induction false} RowNone(rx: seq<real>, ry: seq<real>, t: Tally, i: nat, j: nat)
    requires |rx| == |ry| && i < j <= |rx|
    requires forall k :: i < k < j ==> !BumpsAt(rx, ry, t, i, k)
    ensures RowCount(rx, ry, t, i, j) == 0
    decreases j
  {
    if j > i + 1 {
      RowNone(rx, ry, t, i, j - 1);
    }
  }

  /** A counter no pair bumps stays at 0 over the whole grid. */
  lemma {:induction false} GridNone(rx: seq<real>, ry: seq<real>, t: Tally, i: nat)
    requires |rx| == |ry| && i <= |rx|
    requires forall p, q :: 0 <= p < q < |rx| ==> !BumpsAt(rx, ry, t, p, q)
    ensures GridCount(rx, ry, t, i) == 0
  {
    if i > 0 {
      GridNone(rx, ry, t, i - 1);
      RowNone(rx, ry, t, i - 1, |rx|);
    }
  }

  /** Two rankings in which every pair is discordant: the loop counts no
      concordant pair and no tie, so concordant = xTies = yTies = 0 and
      discordant = n(n−1)/2. */
  lemma AllDiscordant(rx: seq<real>, ry: seq<real>)
    requires |rx| == |ry|
    requires forall p, q :: 0 <= p < q < |rx| ==> BumpsAt(rx, ry, Discordant, p, q)
    ensures KendallCount(rx, ry, Concordant) == 0
    ensures KendallCount(rx, ry, XTie) == 0 && KendallCount(rx, ry, YTie) == 0
    ensures KendallCount(rx, ry, Discordant) == Tri(|rx|)
  {
    forall p, q | 0 <= p < q < |rx|
      ensures !BumpsAt(rx, ry, Concordant, p, q) && !BumpsAt(rx, ry, Tied, p, q)
      ensures !BumpsAt(rx, ry, XTie, p, q) && !BumpsAt(rx, ry, YTie, p, q)
    {
      PairAtClassified(rx, ry, p, q);
    }
    GridNone(rx, ry, Concordant, |rx|);
    GridNone(rx, ry, XTie, |rx|);
    GridNone(rx, ry, YTie, |rx|);
    GridNone(rx, ry, Tied, |rx|);
    KendallCounting(rx, ry);
  }

  /** τ = −1 for a reversed relation: when neither input has a NaN, x has no
      repeats, and y orders every pair of slots opposite to x, the ranks move
      in opposite directions on every pair, so every pair is discordant and
      the numerator is minus each radicand term. */
  lemma KendallReversed(x0: seq<Value>, sx: seq<Value>, px: seq<int>, rx: seq<real>,
                        y0: seq<Value>, sy: seq<Value>, py: seq<int>, ry: seq<real>)
    requires RankedBy(x0, sx, px, rx) && RankedBy(y0, sy, py, ry) && |x0| == |y0|
    requires forall p :: 0 <= p < |x0| ==> x0[p].Num? && y0[p].Num?
    requires forall p, q :: 0 <= p < q < |x0| ==> x0[p] != x0[q]
    requires forall p, q :: 0 <= p < |x0| && 0 <= q < |x0| ==> (Lt(x0[p], x0[q]) <==> Lt(y0[q], y0[p]))
    ensures KendallCount(rx, ry, Concordant) == 0
    ensures KendallCount(rx, ry, XTie) == 0 && KendallCount(rx, ry, YTie) == 0
    ensures KendallCount(rx, ry, Discordant) == Tri(|x0|)
    ensures KendallCount(rx, ry, Concordant) as real - KendallCount(rx, ry, Discordant) as real
      == -(Tri(|x0|) as real - KendallCount(rx, ry, XTie) as real)
      == -(Tri(|x0|) as real - KendallCount(rx, ry, YTie) as real)
  {
    forall p, q | 0 <= p < q < |rx|
      ensures BumpsAt(rx, ry, Discordant, p, q)
    {
      if Lt(x0[p], x0[q]) {
        RankMonotone(x0, sx, px, rx, p, q);
        RankMonotone(y0, sy, py, ry, q, p);
      } else {
        assert x0[p] != x0[q];
        assert Lt(x0[q], x0[p]);
        RankMonotone(x0, sx, px, rx, q, p);
        RankMonotone(y0, sy, py, ry, p, q);
      }
    }
    AllDiscordant(rx, ry);
  }

  lemma {:induction false} GridMirror(rx: seq<real>, ry: seq<real>, t: Tally, i: nat)
    requires |rx| == |ry| && i <= |rx|
    ensures GridCount(ry, rx, t, i) == GridCount(rx, ry, Mirror(t), i)
  {
    if i > 0 {
      GridMirror(rx, ry, t, i - 1);
      RowMirror(rx, ry, t, i - 1, |rx|);
    }
  }

  /** Exchanging the two rankings exchanges xTies and yTies and leaves the
      concordant and discordant counts alone. */
  lemma KendallSymmetric(rx: seq<real>, ry: seq<real>, t: Tally)
    requires |rx| == |ry|
    ensures KendallCount(ry, rx, t) == KendallCount(rx, ry, Mirror(t))
  {
    GridMirror(rx, ry, t, |rx|);
  }

  /** The nested pair loop of `KendallCorrelation`: for i < n−1 and
      i < j < n, classify pair (i, j) by its rank differences. */
  method CountPairs(rx: seq<real>, ry: seq<real>)
      returns (concordant: nat, discordant: nat, xTies: nat, yTies: nat)
    requires |rx| == |ry|
    ensures concordant == KendallCount(rx, ry, Concordant)
    ensures discordant == KendallCount(rx, ry, Discordant)
    ensures xTies == KendallCount(rx, ry, XTie)
    ensures yTies == KendallCount(rx, ry, YTie)
  {
    var n := |rx|;
    concordant, discordant, xTies, yTies := 0, 0, 0, 0;
    var i := 0;
    while i + 1 < n
      invariant i <= n
      invariant concordant == GridCount(rx, ry, Concordant, i)
      invariant discordant == GridCount(rx, ry, Discordant, i)
      invariant xTies == GridCount(rx, ry, XTie, i)
      invariant yTies == GridCount(rx, ry, YTie, i)
    {
      for j := i + 1 to n
        invariant concordant == GridCount(rx, ry, Concordant, i) + RowCount(rx, ry, Concordant, i, j)
        invariant discordant == GridCount(rx, ry, Discordant, i) + RowCount(rx, ry, Discordant, i, j)
        invariant xTies == GridCount(rx, ry, XTie, i) + RowCount(rx, ry, XTie, i, j)
        invariant yTies == GridCount(rx, ry, YTie, i) + RowCount(rx, ry, YTie, i, j)
      {
        var xRel := rx[j] - rx[i];
        var yRel := ry[j] - ry[i];
        if xRel == 0.0 || yRel == 0.0 {
          if xRel == 0.0 {
            xTies := xTies + 1;
          }
          if yRel == 0.0 {
            yTies := yTies + 1;
          }
        } else if (xRel > 0.0 && yRel > 0.0) || (xRel < 0.0 && yRel < 0.0) {
          concordant := concordant + 1;
        } else if (xRel > 0.0 && yRel < 0.0) || (xRel < 0.0 && yRel > 0.0) {
          discordant := discordant + 1;
        }
      }
      i := i + 1;
    }
    if n > 0 {
      assert RowCount(rx, ry, Concordant, n - 1, n) == 0;
    }
  }

  /** The value `KendallCorrelation` returns: NaN from the shape guard, or
      (concordant − discordant) / sqrt((n(n−1)/2 − xTies)(n(n−1)/2 − yTies)),
      kept here as its three parts because the square root is not modelled. */
  datatype Tau = Undefined | Quotient(numerator: real, xTerm: real, yTerm: real)

  /** `KendallCorrelation(x, y)`: rank both arrays (sorting them in place,
      as in `SpearmanCorrelation`), then count the pairs. */
  method KendallCorrelation(x: array<Value>, y: array<Value>)
      returns (tau: Tau, ghost rx: seq<real>, ghost ry: seq<real>, ghost px: seq<int>, ghost py: seq<int>)
    modifies x, y
    ensures tau.Undefined? <==> BadShape(x.Length, y.Length)
    ensures BadShape(x.Length, y.Length) ==> x[..] == old(x[..]) && y[..] == old(y[..])
    ensures !BadShape(x.Length, y.Length) ==>
      && RankedBy(old(x[..]), x[..], px, rx)
      && RankedBy(if x == y then x[..] else old(y[..]), y[..], py, ry)
      && |rx| == |ry| == x.Length
      && tau.numerator == KendallCount(rx, ry, Concordant) as real - KendallCount(rx, ry, Discordant) as real
      && tau.xTerm == Tri(x.Length) as real - KendallCount(rx, ry, XTie) as real
      && tau.yTerm == Tri(x.Length) as real - KendallCount(rx, ry, YTie) as real
  {
    var n := x.Length;
    if n != y.Length || n < 3 {
      return Undefined, [], [], [], [];
    }
    var rankX, rankY;
    rankX, rankY, px, py := RankBoth(x, y);
    var concordant, discordant, xTies, yTies := CountPairs(rankX, rankY);
    var denominator := (n * (n - 1)) as real / 2.0;
    TriHalf(n);
    tau := Quotient(concordant as real - discordant as real, denominator - xTies as real, denominator - yTies as real);
    rx, ry := rankX, rankY;
  }
}
