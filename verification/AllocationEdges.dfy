/** Where the allocation leaves its intended range: the slack of the redistribution, the cap after
    positions were dropped, and exactly when an allocation fails. */
module AllocationEdges {
  import opened Wrappers
  import opened Sorting
  import opened WaterFill
  import opened Allocation
  import opened AllocationLaws

  // ---------- the slack ----------

  const SLIVER: real := 0.0000000000000005
  const LIGHT: real := (0.6 - SLIVER) / 49.0

  /** Forty-nine light scores and one a sliver above the cap; together they are 1. */
  function SliverScores(): (scores: seq<real>)
    ensures |scores| == 50
  {
    seq(50, i => if i < 49 then LIGHT else 0.40 + SLIVER)
  }

  /** The sum of a sequence that is constant up to its last element. */
  lemma SumButLast(ws: seq<real>, x: real)
    requires ws != [] && forall i | 0 <= i < |ws| - 1 :: ws[i] == x
    ensures Sum(ws) == Times((|ws| - 1) as real, x) + ws[|ws| - 1]
  {
    SumBounds(ws[..|ws| - 1], x, x);
  }

  lemma SliverShares()
    ensures Normalized(SliverScores()) == SliverScores() && Sum(SliverScores()) == 1.0
  {
    var scores := SliverScores();
    SumButLast(scores, LIGHT);
    assert forall i | 0 <= i < 50 :: scores[i] / 1.0 == scores[i];
  }

  /** At level 1 only the heavy one meets the cap, and what is left over is within the tolerance. */
  lemma SliverLevel()
    ensures Allocatable(SliverScores()) && Level(SliverScores(), 0.40) == 1.0
    ensures var raw := RawWeights(SliverScores(), 0.40, 1.0);
            raw == seq(50, i => if i < 49 then LIGHT else 0.40) && Sum(raw) == 1.0 - SLIVER
  {
    var scores := SliverScores();
    var raw := RawWeights(scores, 0.40, 1.0);
    SliverShares();
    EnoughCaps(scores);
    SumButLast(raw, LIGHT);
    MassIsRawSum(scores, 0.40, 1.0);
  }

  /** Fifty scores for which the deficit exceeds the capacity by less than the slack: the
      allocation is accepted, and the best score receives less than the floor and than any other. */
  lemma SliverBreaksFloor()
    ensures Allocatable(SliverScores()) && Weights(SliverScores()).Success?
    ensures var scores, final := SliverScores(), Weights(SliverScores()).value;
            && |final| == 50 && final[49] < MIN_WEIGHT
            && forall i | 0 <= i < 49 :: scores[i] < scores[49] && final[i] == MIN_WEIGHT
  {
    hide Level, Mass, Sum, Deficit, Available;
    SliverLevel();
    SliverShares();
    var raw := RawWeights(SliverScores(), 0.40, 1.0);
    SliverDeficit(raw);
    var floored := Floored(raw);
    var final := Adjusted(floored, Available(floored), Deficit(raw));
    RedistributionSound(raw, 0.40);
    assert Redistributed(raw) == Success(final);
    WholeShare(0.38);
    assert Times(1.0, 0.38 + SLIVER) == 0.38 + SLIVER;
    assert final[49] == MIN_WEIGHT - SLIVER;
    assert forall i | 0 <= i < 49 :: final[i] == MIN_WEIGHT;
  }

  lemma SliverDeficit(raw: seq<real>)
    requires raw == seq(50, i => if i < 49 then LIGHT else 0.40) && Sum(raw) == 1.0 - SLIVER
    ensures Available(Floored(raw)) == 0.38 && Deficit(raw) == 0.38 + SLIVER
  {
    var floored := Floored(raw);
    assert Positive(raw);
    assert forall i | 0 <= i < 49 :: floored[i] == MIN_WEIGHT;
    SumButLast(floored, MIN_WEIGHT);
    AllPositive(raw);
    FlooredSum(raw);
    FlooredSplit(raw);
  }

  // ---------- the cap after dropping ----------

  lemma QuotientExceeds(a: real, t: real, c: real)
    requires t > 0.0
    ensures a / t > c <==> a > Times(c, t)
  {
    var q := a / t;
    assert q * t == a;
    assert (q - c) * t == a - Times(c, t);
    SignOfProduct(q - c, t);
  }

  /** After dropping, the closing guard fires exactly when some weight exceeds what the cap allows
      of the mass that is kept; it never complains about the sum. */
  lemma DropGuardIff(floored: seq<real>, cap: real)
    requires cap <= 1.0 && Shareable(floored, cap)
    ensures Dropped(floored).Success?
    ensures var fits := forall i | 0 <= i < |floored| :: floored[i] <= Times(cap + 0.000001, KeptMass(floored));
            Guarded(Dropped(floored).value, cap)
              == if fits then Success(Dropped(floored).value) else Failure(ConstraintViolation)
  {
    hide KeptMass, Dropped, Sum;
    DroppingSound(floored);
    var final, total, most := Dropped(floored).value, KeptMass(floored), cap + SUM_TOLERANCE;
    forall i | 0 <= i < |floored|
      ensures floored[i] / total > most <==> floored[i] > Times(most, total)
    {
      QuotientExceeds(floored[i], total, most);
    }
    if i :| 0 <= i < |floored| && floored[i] > Times(most, total) {
      var k := SomeKept(final);
      assert final[k] == floored[k] / total;
      assert final[if final[i] == 0.0 then k else i] > most by {
        if final[i] == 0.0 {
          assert floored[i] <= floored[k];
        }
      }
      assert !WithinCap(final, cap);
    } else {
      assert WithinCap(final, cap);
    }
  }

  lemma {:induction false} SomeKept(final: seq<real>) returns (k: nat)
    requires Sum(final) > 0.0
    ensures k < |final| && final[k] > 0.0
  {
    var n := |final| - 1;
    if final[n] > 0.0 {
      k := n;
    } else {
      k := SomeKept(final[..n]);
    }
  }

  // ---------- when an allocation fails ----------

  lemma {:induction false} AvailableCovers(floored: seq<real>, i: nat)
    requires i < |floored|
    ensures Available(floored) >= Excess(floored[i]) && Available(floored) >= 0.0
  {
    var n := |floored| - 1;
    if i < n {
      AvailableCovers(floored[..n], i);
    } else if n > 0 {
      AvailableCovers(floored[..n], 0);
    }
  }

  /** The slack included, a weight that is reduced stays positive and loses something. */
  lemma ReducedWithin(x: real, available: real, deficit: real)
    requires x >= 0.0 && Excess(x) <= available && 0.0 < deficit <= available + SLACK && available > 0.0
    ensures 0.0 <= Reduced(x, available, deficit) <= x
  {
    if x > MIN_WEIGHT {
      var y := x - MIN_WEIGHT;
      var q := y / available;
      assert q * available == y;
      QuotientBounds(y, available, 1.0);
      TimesMonotone(deficit, available + SLACK, q);
      assert Times(q, available + SLACK) == y + q * SLACK;
      NonNegativeProduct(q, deficit);
    }
  }

  /** Weights that are not dropped pass the closing guard, with whatever sliver the slack admits. */
  lemma UndroppedPass(raw: seq<real>, cap: real)
    requires cap >= MIN_WEIGHT && forall i | 0 <= i < |raw| :: 0.0 <= raw[i] <= cap
    requires 1.0 - TOLERANCE <= Sum(raw) <= 1.0 + TOLERANCE
    requires Deficit(raw) <= Available(Floored(raw)) + SLACK
    ensures Redistributed(raw).Success? && |Redistributed(raw).value| == |raw|
    ensures Guarded(Redistributed(raw).value, cap) == Success(Redistributed(raw).value)
  {
    hide Sum, Deficit, Available;
    var floored := Floored(raw);
    var deficit, available := Deficit(raw), Available(floored);
    FlooredSum(raw);
    if available > 0.0 && deficit > 0.0 {
      AdjustedSum(floored, available, deficit);
      RatioTimes(available, deficit);
      forall i | 0 <= i < |raw|
        ensures 0.0 <= Adjusted(floored, available, deficit)[i] <= cap
      {
        AvailableCovers(floored, i);
        ReducedWithin(floored[i], available, deficit);
      }
    }
  }

  /** Redistributed weights fail the closing guard only after dropping, and only over the cap. */
  lemma RedistributedOutcome(raw: seq<real>, cap: real)
    requires MIN_WEIGHT <= cap <= 1.0 && forall i | 0 <= i < |raw| :: 0.0 <= raw[i] <= cap
    requires 1.0 - TOLERANCE <= Sum(raw) <= 1.0 + TOLERANCE
    ensures Redistributed(raw).Success?
    ensures Guarded(Redistributed(raw).value, cap)
              == if Overdrawn(raw, cap) then Failure(ConstraintViolation) else Success(Redistributed(raw).value)
  {
    hide Sum, Deficit, Available, Guarded, Dropped, KeptMass;
    DropsIff(raw);
    if Deficit(raw) > Available(Floored(raw)) + SLACK {
      FlooredShareable(raw, cap);
      DropGuardIff(Floored(raw), cap);
    } else {
      UndroppedPass(raw, cap);
    }
  }

  /** The weights cannot pay one floor for each that is not zero, and some floored weight exceeds what
      the cap allows of the mass that stays after dropping. */
  ghost predicate Overdrawn(raw: seq<real>, cap: real) {
    && Sum(raw) < 0.02 * Positives(raw) as real - 0.00000000000001
    && exists i :: 0 <= i < |raw| && Floored(raw)[i] > Times(cap + 0.000001, KeptMass(Floored(raw)))
  }

  lemma FlooredShareable(raw: seq<real>, cap: real)
    requires cap >= MIN_WEIGHT && Sum(raw) > 0.0 && forall i | 0 <= i < |raw| :: 0.0 <= raw[i] <= cap
    ensures Shareable(Floored(raw), cap)
  {
    var k := SomeKept(raw);
    assert Floored(raw)[k] > 0.0;
  }

  lemma WeightsOfFilled(scores: seq<real>)
    requires Allocatable(scores) && |scores| >= 2 && Redistributed(WaterFilled(scores)).Success?
    ensures Weights(scores) == Guarded(Redistributed(WaterFilled(scores)).value, CapFor(|scores|))
  {
    hide Mass, Level, Redistributed, RawWeights, Normalized, Guarded, Fillable, Sum;
  }

  lemma FewSucceed(scores: seq<real>)
    requires Allocatable(scores) && |scores| < 2
    ensures Weights(scores).Success?
  {
    if |scores| == 1 {
      assert [1.0][..0] == [];
    }
  }

  /** For any scores whose level exists the allocation fails in one case only: more than fifty
      positive scores whose filled weights are overdrawn, and then by the constraint violation. */
  lemma AllocationOutcome(scores: seq<real>)
    requires Allocatable(scores)
    ensures |scores| >= 2 && Overdrawn(WaterFilled(scores), if |scores| == 2 then 0.75 else 0.40) ==>
              Weights(scores) == Failure(ConstraintViolation) && Positives(scores) > 50
    ensures |scores| < 2 || !Overdrawn(WaterFilled(scores), if |scores| == 2 then 0.75 else 0.40) ==>
              Weights(scores).Success?
  {
    hide Allocatable, WaterFilled, Weights, Redistributed, Guarded, Overdrawn, Sum, OrderKept;
    if |scores| >= 2 {
      FilledSound(scores);
      Pow2Of64();
      RedistributedOutcome(WaterFilled(scores), CapFor(|scores|));
      WeightsOfFilled(scores);
      OverdrawnMany(WaterFilled(scores), CapFor(|scores|));
    } else {
      FewSucceed(scores);
    }
  }

  lemma OverdrawnMany(raw: seq<real>, cap: real)
    requires Overdrawn(raw, cap) ==> Sum(raw) >= 1.0 - TOLERANCE
    ensures Overdrawn(raw, cap) ==> Positives(raw) > 50
  {
  }

  // ---------- sixty scores that are refused ----------

  const SMALL: real := 0.21 / 58.0

  /** Fifty-eight small shares and two large ones; together they are 1. */
  function CrowdedScores(): (scores: seq<real>)
    ensures |scores| == 60
  {
    seq(60, i => if i < 58 then SMALL else if i == 58 then 0.39 else 0.40)
  }

  function CrowdedFloored(): (floored: seq<real>)
    ensures |floored| == 60
  {
    seq(60, i => if i < 58 then MIN_WEIGHT else if i == 58 then 0.39 else 0.40)
  }

  lemma SumButTwo(ws: seq<real>, x: real)
    requires |ws| == 60 && forall i | 0 <= i < 58 :: ws[i] == x
    ensures Sum(ws) == Times(58.0, x) + ws[58] + ws[59]
  {
    hide Times;
    SumButLast(ws[..59], x);
  }

  lemma CrowdedShares()
    ensures Normalized(CrowdedScores()) == CrowdedScores() && Sum(CrowdedScores()) == 1.0
  {
    var scores := CrowdedScores();
    SumButTwo(scores, SMALL);
    assert forall i | 0 <= i < 60 :: scores[i] / 1.0 == scores[i];
  }

  lemma CrowdedLevel()
    ensures Normalized(CrowdedScores()) == CrowdedScores()
    ensures Allocatable(CrowdedScores()) && Level(CrowdedScores(), 0.40) == 1.0
    ensures RawWeights(CrowdedScores(), 0.40, 1.0) == CrowdedScores()
    ensures Floored(CrowdedScores()) == CrowdedFloored()
  {
    hide Sum, Mass;
    CrowdedShares();
    EnoughCaps(CrowdedScores());
    assert RawWeights(CrowdedScores(), 0.40, 1.0) == CrowdedScores();
    MassIsRawSum(CrowdedScores(), 0.40, 1.0);
  }

  lemma CrowdedDeficit()
    ensures Available(CrowdedFloored()) == 0.75 && Deficit(CrowdedScores()) == 0.95
  {
    hide Sum, Available, Deficit;
    CrowdedLevel();
    CrowdedShares();
    SumButTwo(CrowdedFloored(), MIN_WEIGHT);
    AllPositive(CrowdedScores());
    FlooredSum(CrowdedScores());
    FlooredSplit(CrowdedScores());
  }

  /** The positions are already in ascending order, so sorting them changes nothing. */
  lemma CrowdedSorted()
    ensures Sort(BY_WEIGHT, Positions(CrowdedFloored())) == Positions(CrowdedFloored())
  {
    var all := Positions(CrowdedFloored());
    ByWeightIsTotal();
    SortSorts(BY_WEIGHT, all);
    forall x, y | x in Sort(BY_WEIGHT, all) && y in Sort(BY_WEIGHT, all) && BY_WEIGHT(x, y) && BY_WEIGHT(y, x)
      ensures x == y
    {
      assert x.weight == y.weight && x.index == y.index;
    }
    SortedUnique(BY_WEIGHT, Sort(BY_WEIGHT, all), all);
  }

  lemma {:induction false} CrowdedHeld(k: nat)
    requires k <= 58
    ensures Held(Positions(CrowdedFloored())[k..]) == Times((58 - k) as real, MIN_WEIGHT) + 0.79
    decreases 58 - k
  {
    var all := Positions(CrowdedFloored());
    assert all[k..][1..] == all[k + 1..];
    if k < 58 {
      CrowdedHeld(k + 1);
    } else {
      assert all[59..] == [all[59]];
      HeldOne(all[59]);
    }
  }

  lemma {:induction false} CrowdedKeep(k: nat)
    requires k <= 48
    ensures Keep(Positions(CrowdedFloored())[k..]) == Positions(CrowdedFloored())[48..]
    decreases 48 - k
  {
    var all := Positions(CrowdedFloored());
    CrowdedHeld(k);
    if k < 48 {
      assert all[k..][1..] == all[k + 1..];
      CrowdedKeep(k + 1);
    }
  }

  /** Ten positions are dropped, 0.99 is kept, and rescaling the largest share lifts it over the
      cap: the allocation of these scores is refused. */
  lemma CrowdedRefused()
    ensures Allocatable(CrowdedScores())
    ensures Weights(CrowdedScores()) == Failure(ConstraintViolation)
  {
    hide Level, Sum, Mass, Sort, Keep, Held, Positions, Deficit, Available, Floored, RawWeights, Dropped;
    CrowdedLevel();
    CrowdedShares();
    CrowdedDeficit();
    CrowdedSorted();
    CrowdedKeep(0);
    CrowdedHeld(48);
    var floored := CrowdedFloored();
    assert Positions(floored)[0..] == Positions(floored);
    assert KeptMass(floored) == 0.99;
    assert floored[59] > Times(0.40 + SUM_TOLERANCE, 0.99);
    DropGuardIff(floored, 0.40);
  }
}
