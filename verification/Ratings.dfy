/** The owner's rolled-up rating: a count-weighted mean of averages that are already rounded.
    Averages are whole numbers of tenths; decimals are exact and round half to even. */
module Ratings {
  import opened Calendar

  type Score = s: int | 1 <= s <= 5 witness 1

  datatype Rating = Rating(resource: int, score: Score)

  /** avg is absent exactly when count is 0. */
  datatype Aggregate = Aggregate(avg: Option<int>, count: nat)

  // ---------- rounding to a tenth ----------

  function RoundHalfEven(p: int, q: nat): int
    requires q > 0
  {
    var f, rem := p / q, p % q;
    if 2 * rem < q then f
    else if 2 * rem > q then f + 1
    else if f % 2 == 0 then f else f + 1
  }

  // At most half a unit from p / q, and even when exactly half: this fixes the result.
  lemma RoundingError(p: int, q: nat)
    requires q > 0
    ensures var r := RoundHalfEven(p, q);
            && 2 * (q * r - p) <= q && 2 * (p - q * r) <= q
            && (2 * (q * r - p) == q || 2 * (p - q * r) == q ==> r % 2 == 0)
  {
    var f := p / q;
    assert p == q * f + p % q;
    assert q * (f + 1) == q * f + q;
  }

  lemma Scaled(q: nat, a: int, b: int)
    requires a < b
    ensures q * a + q <= q * b
  {
    var d := b - a - 1;
    assert q * d >= 0;
    assert q * b == q * (a + 1 + d) == q * a + q + q * d;
  }

  lemma ScaledWithin(q: nat, lo: int, a: int, hi: int)
    requires lo <= a <= hi
    ensures q * lo <= q * a <= q * hi
  {
    if lo < a { Scaled(q, lo, a); }
    if a < hi { Scaled(q, a, hi); }
  }

  // Rounding stays between whole bounds of the quotient.
  lemma RoundingStaysWithin(p: int, q: nat, lo: int, hi: int)
    requires q > 0 && q * lo <= p <= q * hi
    ensures lo <= RoundHalfEven(p, q) <= hi
  {
    var r := RoundHalfEven(p, q);
    RoundingError(p, q);
    if r < lo { Scaled(q, r, lo); }
    if hi < r { Scaled(q, hi, r); }
  }

  // ---------- per-resource aggregates ----------

  function CountOf(ratings: seq<Rating>, rid: int): nat {
    if ratings == [] then 0
    else (if ratings[0].resource == rid then 1 else 0) + CountOf(ratings[1..], rid)
  }

  function SumOf(ratings: seq<Rating>, rid: int): nat {
    if ratings == [] then 0
    else (if ratings[0].resource == rid then ratings[0].score else 0) + SumOf(ratings[1..], rid)
  }

  function AggregateOf(ratings: seq<Rating>, rid: int): Aggregate {
    var n := CountOf(ratings, rid);
    Aggregate(if n == 0 then None else Some(RoundHalfEven(10 * SumOf(ratings, rid), n)), n)
  }

  /** Every id starts with an empty aggregate, which the group of its ratings, if any, overwrites. */
  method GetAggregates(ratings: seq<Rating>, ids: seq<int>) returns (out: map<int, Aggregate>)
    ensures forall rid :: rid in out <==> rid in ids
    ensures forall rid :: rid in ids ==> out[rid] == AggregateOf(ratings, rid)
  {
    out := map[];
    for k := 0 to |ids|
      invariant forall rid :: rid in out <==> rid in ids[..k]
      invariant forall rid :: rid in out ==> out[rid] == Aggregate(None, 0)
    {
      out := out[ids[k] := Aggregate(None, 0)];
    }
    assert ids[..|ids|] == ids;
    for k := 0 to |ids|
      invariant forall rid :: rid in out <==> rid in ids
      invariant forall i :: 0 <= i < k ==> ids[i] in out && out[ids[i]] == AggregateOf(ratings, ids[i])
      invariant forall rid :: rid in out ==> out[rid] == Aggregate(None, 0) || out[rid] == AggregateOf(ratings, rid)
    {
      var count := CountOf(ratings, ids[k]);
      if count > 0 {
        out := out[ids[k] := Aggregate(Some(RoundHalfEven(10 * SumOf(ratings, ids[k]), count)), count)];
      }
    }
  }

  // ---------- the roll-up ----------

  function TotalCount(aggs: seq<Aggregate>): nat {
    if aggs == [] then 0 else aggs[0].count + TotalCount(aggs[1..])
  }

  function WeightedSum(aggs: seq<Aggregate>): int {
    if aggs == [] then 0
    else (if aggs[0].avg.Some? then aggs[0].avg.value * aggs[0].count else 0) + WeightedSum(aggs[1..])
  }

  function OwnerAverage(aggs: seq<Aggregate>): Option<int> {
    if TotalCount(aggs) == 0 then None
    else Some(RoundHalfEven(WeightedSum(aggs), TotalCount(aggs)))
  }

  function AggregatesOf(ratings: seq<Rating>, ids: seq<int>): seq<Aggregate> {
    if ids == [] then [] else [AggregateOf(ratings, ids[0])] + AggregatesOf(ratings, ids[1..])
  }

  /** The owner page: aggregates of the listed resources, then their weighted mean. */
  method OwnerRating(ratings: seq<Rating>, ids: seq<int>) returns (avg: Option<int>, count: nat)
    ensures avg == OwnerAverage(AggregatesOf(ratings, ids))
    ensures count == TotalCount(AggregatesOf(ratings, ids))
  {
    var out := GetAggregates(ratings, ids);
    var aggs: seq<Aggregate> := [];
    for k := 0 to |ids|
      invariant aggs + AggregatesOf(ratings, ids[k..]) == AggregatesOf(ratings, ids)
    {
      assert ids[k..][1..] == ids[k + 1..];
      aggs := aggs + [out[ids[k]]];
    }
    assert aggs + [] == aggs;
    count := TotalCount(aggs);
    avg := OwnerAverage(aggs);
  }

  // ---------- the true mean ----------

  function ScoreCount(ratings: seq<Rating>, ids: seq<int>): nat {
    if ratings == [] then 0
    else (if ratings[0].resource in ids then 1 else 0) + ScoreCount(ratings[1..], ids)
  }

  function ScoreSum(ratings: seq<Rating>, ids: seq<int>): nat {
    if ratings == [] then 0
    else (if ratings[0].resource in ids then ratings[0].score else 0) + ScoreSum(ratings[1..], ids)
  }

  ghost predicate Distinct(ids: seq<int>) {
    forall i, j :: 0 <= i < j < |ids| ==> ids[i] != ids[j]
  }

  function SumOver(ratings: seq<Rating>, ids: seq<int>): nat {
    if ids == [] then 0 else SumOf(ratings, ids[0]) + SumOver(ratings, ids[1..])
  }

  function CountOver(ratings: seq<Rating>, ids: seq<int>): nat {
    if ids == [] then 0 else CountOf(ratings, ids[0]) + CountOver(ratings, ids[1..])
  }

  // One more rating counts for the one listed resource it belongs to.
  lemma {:induction false} OneRatingCountsOnce(ratings: seq<Rating>, ids: seq<int>)
    requires ratings != [] && Distinct(ids)
    ensures SumOver(ratings, ids)
         == SumOver(ratings[1..], ids) + if ratings[0].resource in ids then ratings[0].score else 0
    ensures CountOver(ratings, ids)
         == CountOver(ratings[1..], ids) + if ratings[0].resource in ids then 1 else 0
  {
    if ids != [] {
      OneRatingCountsOnce(ratings, ids[1..]);
      assert ids == [ids[0]] + ids[1..];
      if ratings[0].resource == ids[0] {
        assert ratings[0].resource !in ids[1..];
      }
    }
  }

  lemma {:induction false} NoRatings(ids: seq<int>)
    ensures SumOver([], ids) == 0 && CountOver([], ids) == 0
  {
    if ids != [] {
      NoRatings(ids[1..]);
    }
  }

  lemma {:induction false} GroupsCoverAllScores(ratings: seq<Rating>, ids: seq<int>)
    requires Distinct(ids)
    ensures SumOver(ratings, ids) == ScoreSum(ratings, ids)
    ensures CountOver(ratings, ids) == ScoreCount(ratings, ids)
  {
    if ratings == [] {
      NoRatings(ids);
    } else {
      OneRatingCountsOnce(ratings, ids);
      GroupsCoverAllScores(ratings[1..], ids);
    }
  }

  lemma {:induction false} ScoresInRange(ratings: seq<Rating>, rid: int)
    ensures CountOf(ratings, rid) <= SumOf(ratings, rid) <= 5 * CountOf(ratings, rid)
  {
    if ratings != [] {
      ScoresInRange(ratings[1..], rid);
    }
  }

  lemma OneAggregateIsClose(ratings: seq<Rating>, rid: int)
    ensures var n, sum, w := CountOf(ratings, rid), SumOf(ratings, rid), WeightedSum([AggregateOf(ratings, rid)]);
            2 * (w - 10 * sum) <= n && 2 * (10 * sum - w) <= n && 10 * n <= w <= 50 * n
  {
    var n, sum := CountOf(ratings, rid), SumOf(ratings, rid);
    ScoresInRange(ratings, rid);
    assert [AggregateOf(ratings, rid)][1..] == [];
    if n > 0 {
      RoundingError(10 * sum, n);
      RoundingStaysWithin(10 * sum, n, 10, 50);
      var a := RoundHalfEven(10 * sum, n);
      ScaledWithin(n, 10, a, 50);
      assert WeightedSum([AggregateOf(ratings, rid)]) == a * n == n * a;
    }
  }

  // The weighted sum of the rounded averages is within half a tenth per rating of the exact sum, and
  // between 1.0 and 5.0 per rating.
  lemma {:induction false} WeightedSumIsClose(ratings: seq<Rating>, ids: seq<int>)
    ensures TotalCount(AggregatesOf(ratings, ids)) == CountOver(ratings, ids)
    ensures var n, sum, w := CountOver(ratings, ids), SumOver(ratings, ids), WeightedSum(AggregatesOf(ratings, ids));
            2 * (w - 10 * sum) <= n && 2 * (10 * sum - w) <= n && 10 * n <= w <= 50 * n
  {
    if ids != [] {
      WeightedSumIsClose(ratings, ids[1..]);
      OneAggregateIsClose(ratings, ids[0]);
      var first, aggs := AggregateOf(ratings, ids[0]), AggregatesOf(ratings, ids);
      assert aggs[1..] == AggregatesOf(ratings, ids[1..]);
      assert WeightedSum(aggs) == WeightedSum([first]) + WeightedSum(aggs[1..]);
    }
  }

  // The rolled-up rating avg / 10 is within 0.1 of the true mean sum / n of all scores of the listed
  // resources, lies in [1.0, 5.0], and is absent exactly when there are no scores.
  lemma OwnerRatingIsClose(ratings: seq<Rating>, ids: seq<int>)
    requires Distinct(ids)
    ensures var n, sum := ScoreCount(ratings, ids), ScoreSum(ratings, ids);
            var avg := OwnerAverage(AggregatesOf(ratings, ids));
            && TotalCount(AggregatesOf(ratings, ids)) == n
            && (avg == None <==> n == 0)
            && (n > 0 ==> 10 <= avg.value <= 50 && n * avg.value - 10 * sum <= n && 10 * sum - n * avg.value <= n)
  {
    GroupsCoverAllScores(ratings, ids);
    WeightedSumIsClose(ratings, ids);
    var n, w := TotalCount(AggregatesOf(ratings, ids)), WeightedSum(AggregatesOf(ratings, ids));
    if n > 0 {
      RoundingError(w, n);
      RoundingStaysWithin(w, n, 10, 50);
    }
  }

  // ---------- the rolled-up rating against the rounded mean ----------

  // The mean of all scores, rounded once.
  function RoundedMean(ratings: seq<Rating>, ids: seq<int>): Option<int> {
    var n := ScoreCount(ratings, ids);
    if n == 0 then None else Some(RoundHalfEven(10 * ScoreSum(ratings, ids), n))
  }

  // Rounding twice costs at most one tenth.
  lemma RollUpIsOneTenthOff(ratings: seq<Rating>, ids: seq<int>)
    requires Distinct(ids) && ScoreCount(ratings, ids) > 0
    ensures var avg, mean := OwnerAverage(AggregatesOf(ratings, ids)), RoundedMean(ratings, ids);
            avg.Some? && mean.Some? && -1 <= avg.value - mean.value <= 1
  {
    var n, sum := ScoreCount(ratings, ids), ScoreSum(ratings, ids);
    OwnerRatingIsClose(ratings, ids);
    RoundingError(10 * sum, n);
    var avg, mean := OwnerAverage(AggregatesOf(ratings, ids)).value, RoundHalfEven(10 * sum, n);
    if avg > mean + 1 {
      Scaled(n, mean, mean + 1);
      Scaled(n, mean + 1, avg);
    }
    if mean > avg + 1 {
      Scaled(n, avg, avg + 1);
      Scaled(n, avg + 1, mean);
    }
  }

  // The mean of a resource's scores is a whole number of tenths.
  predicate WholeTenths(ratings: seq<Rating>, rid: int) {
    CountOf(ratings, rid) > 0 ==> 10 * SumOf(ratings, rid) % CountOf(ratings, rid) == 0
  }

  lemma RoundingOfWhole(p: int, q: nat)
    requires q > 0 && p % q == 0
    ensures RoundHalfEven(p, q) * q == p
  {
    assert p == q * (p / q);
  }

  lemma ExactWeight(ratings: seq<Rating>, rid: int)
    requires WholeTenths(ratings, rid)
    ensures WeightedSum([AggregateOf(ratings, rid)]) == 10 * SumOf(ratings, rid)
  {
    var n, sum := CountOf(ratings, rid), SumOf(ratings, rid);
    ScoresInRange(ratings, rid);
    assert [AggregateOf(ratings, rid)][1..] == [];
    if n > 0 {
      RoundingOfWhole(10 * sum, n);
    }
  }

  lemma {:induction false} ExactWeights(ratings: seq<Rating>, ids: seq<int>)
    requires forall rid :: rid in ids ==> WholeTenths(ratings, rid)
    ensures WeightedSum(AggregatesOf(ratings, ids)) == 10 * SumOver(ratings, ids)
  {
    if ids != [] {
      ExactWeights(ratings, ids[1..]);
      ExactWeight(ratings, ids[0]);
      var first, aggs := AggregateOf(ratings, ids[0]), AggregatesOf(ratings, ids);
      assert aggs[1..] == AggregatesOf(ratings, ids[1..]);
      assert WeightedSum(aggs) == WeightedSum([first]) + WeightedSum(aggs[1..]);
    }
  }

  // When no resource's own mean needs rounding, the two agree.
  lemma WholeTenthsAgree(ratings: seq<Rating>, ids: seq<int>)
    requires Distinct(ids) && forall rid :: rid in ids ==> WholeTenths(ratings, rid)
    ensures OwnerAverage(AggregatesOf(ratings, ids)) == RoundedMean(ratings, ids)
  {
    ExactWeights(ratings, ids);
    WeightedSumIsClose(ratings, ids);
    GroupsCoverAllScores(ratings, ids);
  }

  lemma {:induction false} OnlyOneWeighs(ratings: seq<Rating>, ids: seq<int>, rid: int)
    requires Distinct(ids) && forall other :: other in ids && other != rid ==> CountOf(ratings, other) == 0
    ensures var n := if rid in ids then 1 else 0;
            && CountOver(ratings, ids) == n * CountOf(ratings, rid)
            && SumOver(ratings, ids) == n * SumOf(ratings, rid)
            && WeightedSum(AggregatesOf(ratings, ids)) == n * WeightedSum([AggregateOf(ratings, rid)])
  {
    if ids != [] {
      assert ids == [ids[0]] + ids[1..];
      OnlyOneWeighs(ratings, ids[1..], rid);
      ScoresInRange(ratings, ids[0]);
      var first, aggs := AggregateOf(ratings, ids[0]), AggregatesOf(ratings, ids);
      assert aggs[1..] == AggregatesOf(ratings, ids[1..]);
      assert [first][1..] == [];
      assert WeightedSum(aggs) == WeightedSum([first]) + WeightedSum(aggs[1..]);
      if ids[0] == rid {
        assert rid !in ids[1..];
      }
    }
  }

  // When at most one of the resources has been rated, the two agree.
  lemma OneRatedResourceAgrees(ratings: seq<Rating>, ids: seq<int>, rid: int)
    requires Distinct(ids) && forall other :: other in ids && other != rid ==> CountOf(ratings, other) == 0
    ensures OwnerAverage(AggregatesOf(ratings, ids)) == RoundedMean(ratings, ids)
  {
    OnlyOneWeighs(ratings, ids, rid);
    WeightedSumIsClose(ratings, ids);
    GroupsCoverAllScores(ratings, ids);
    var n := CountOf(ratings, rid);
    if rid in ids && n > 0 {
      var a := RoundHalfEven(10 * SumOf(ratings, rid), n);
      assert [AggregateOf(ratings, rid)][1..] == [];
      RoundingOfMultiple(a, n);
    }
  }

  lemma RoundingOfMultiple(a: int, n: nat)
    requires n > 0
    ensures RoundHalfEven(a * n, n) == a
  {
    SameRemainder(n, 0, a);
    assert a * n == n * a;
    assert a * n == n * (a * n / n);
    var d := a * n / n - a;
    assert n * d == 0;
  }

  // The two can differ: nine scores with mean 35 / 9, which rounds to 3.9, roll up to 3.8.
  lemma RollUpIsNotTheRoundedMean(ratings: seq<Rating>)
    requires CountOf(ratings, 1) == 4 && SumOf(ratings, 1) == 17
    requires CountOf(ratings, 2) == 4 && SumOf(ratings, 2) == 17
    requires CountOf(ratings, 3) == 1 && SumOf(ratings, 3) == 1
    ensures OwnerAverage(AggregatesOf(ratings, [1, 2, 3])) == Some(38)
    ensures ScoreCount(ratings, [1, 2, 3]) == 9
    ensures RoundHalfEven(10 * ScoreSum(ratings, [1, 2, 3]), 9) == 39
  {
    var ids := [1, 2, 3];
    GroupsCoverAllScores(ratings, ids);
    assert ids[1..] == [2, 3] && [2, 3][1..] == [3] && [3][1..] == [];
    assert SumOver(ratings, [3]) == 1 && CountOver(ratings, [3]) == 1;
    assert SumOver(ratings, [2, 3]) == 18 && CountOver(ratings, [2, 3]) == 5;
    assert AggregatesOf(ratings, [3]) == [Aggregate(Some(10), 1)];
    assert AggregatesOf(ratings, [2, 3]) == [Aggregate(Some(42), 4), Aggregate(Some(10), 1)];
    var aggs := AggregatesOf(ratings, ids);
    assert aggs == [Aggregate(Some(42), 4), Aggregate(Some(42), 4), Aggregate(Some(10), 1)];
    assert aggs[1..] == AggregatesOf(ratings, [2, 3]) && aggs[1..][1..] == AggregatesOf(ratings, [3]);
    assert AggregatesOf(ratings, [3])[1..] == [];
    assert WeightedSum(AggregatesOf(ratings, [3])) == 10 && TotalCount(AggregatesOf(ratings, [3])) == 1;
    assert WeightedSum(aggs[1..]) == 178 && TotalCount(aggs[1..]) == 5;
  }

  // Four scores of one resource with sum 17, twice, and a single one of a third.
  function FourScores(rid: int): seq<Rating> {
    [Rating(rid, 5), Rating(rid, 4), Rating(rid, 4), Rating(rid, 4)]
  }

  const NINE_SCORES: seq<Rating> := FourScores(1) + (FourScores(2) + [Rating(3, 1)])

  lemma {:induction false} JoinedCounts(a: seq<Rating>, b: seq<Rating>, rid: int)
    ensures CountOf(a + b, rid) == CountOf(a, rid) + CountOf(b, rid)
    ensures SumOf(a + b, rid) == SumOf(a, rid) + SumOf(b, rid)
  {
    if a == [] {
      assert a + b == b;
    } else {
      assert (a + b)[1..] == a[1..] + b;
      JoinedCounts(a[1..], b, rid);
    }
  }

  lemma CountsOfFour(rid: int, other: int)
    ensures CountOf(FourScores(rid), other) == if other == rid then 4 else 0
    ensures SumOf(FourScores(rid), other) == if other == rid then 17 else 0
  {
    var s := FourScores(rid);
    assert s[1..][1..] == s[2..] && s[2..][1..] == s[3..] && s[3..][1..] == [];
    assert CountOf(s[3..], other) == (if other == rid then 1 else 0);
    assert CountOf(s[2..], other) == (if other == rid then 2 else 0);
    assert SumOf(s[3..], other) == (if other == rid then 4 else 0);
    assert SumOf(s[2..], other) == (if other == rid then 8 else 0);
  }

  lemma NineScoresDiffer()
    ensures OwnerAverage(AggregatesOf(NINE_SCORES, [1, 2, 3])) == Some(38)
    ensures RoundedMean(NINE_SCORES, [1, 2, 3]) == Some(39)
  {
    forall rid ensures CountOf([Rating(3, 1)], rid) == (if rid == 3 then 1 else 0)
      ensures SumOf([Rating(3, 1)], rid) == (if rid == 3 then 1 else 0)
    {
      assert [Rating(3, 1)][1..] == [];
    }
    forall rid ensures CountOf(NINE_SCORES, rid) == (if rid == 1 || rid == 2 then 4 else if rid == 3 then 1 else 0)
      ensures SumOf(NINE_SCORES, rid) == (if rid == 1 || rid == 2 then 17 else if rid == 3 then 1 else 0)
    {
      JoinedCounts(FourScores(1), FourScores(2) + [Rating(3, 1)], rid);
      JoinedCounts(FourScores(2), [Rating(3, 1)], rid);
      CountsOfFour(1, rid);
      CountsOfFour(2, rid);
    }
    RollUpIsNotTheRoundedMean(NINE_SCORES);
  }
}
