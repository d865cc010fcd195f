/** Capital weights for the selected candidates: capped water-filling, then a floor whose cost
    is taken from the weights above it, or, if that is not enough, from the weakest positions. */
module Allocation {
  import opened Wrappers
  import opened Sorting
  import opened Selection
  import opened WaterFill

  const MIN_WEIGHT: real := 0.02
  const SLACK: real := 0.00000000000001
  const SUM_TOLERANCE: real := 0.000001

  datatype AllocationError = SumInvalid | ConstraintViolation | NoValidWeights | ZeroTotal

  // ---------- floor and redistribution ----------

  function RawWeights(ws: seq<real>, cap: real, lam: real): seq<real> {
    seq(|ws|, i requires 0 <= i < |ws| => Min(cap, Times(lam, ws[i])))
  }

  function Floor(x: real): real {
    if 0.0 < x < MIN_WEIGHT then MIN_WEIGHT else x
  }

  function Shortfall(x: real): real {
    if 0.0 < x < MIN_WEIGHT then MIN_WEIGHT - x else 0.0
  }

  function Excess(x: real): real {
    if x > MIN_WEIGHT then x - MIN_WEIGHT else 0.0
  }

  function Floored(raw: seq<real>): seq<real> {
    seq(|raw|, i requires 0 <= i < |raw| => Floor(raw[i]))
  }

  function Deficit(raw: seq<real>): real {
    if raw == [] then 0.0 else Deficit(raw[..|raw| - 1]) + Shortfall(raw[|raw| - 1])
  }

  function Available(floored: seq<real>): real {
    if floored == [] then 0.0 else Available(floored[..|floored| - 1]) + Excess(floored[|floored| - 1])
  }

  function Reduced(x: real, available: real, deficit: real): real
    requires available > 0.0
  {
    if x > MIN_WEIGHT then x - Times((x - MIN_WEIGHT) / available, deficit) else x
  }

  function Adjusted(floored: seq<real>, available: real, deficit: real): seq<real>
    requires available > 0.0
  {
    seq(|floored|, i requires 0 <= i < |floored| => Reduced(floored[i], available, deficit))
  }

  // ---------- dropping the weakest ----------

  datatype Position = Position(index: nat, weight: real)

  const BY_WEIGHT := (a: Position, b: Position) => a.weight < b.weight || (a.weight == b.weight && a.index <= b.index)

  function Positions(floored: seq<real>): seq<Position> {
    seq(|floored|, i requires 0 <= i < |floored| => Position(i, floored[i]))
  }

  function Held(positions: seq<Position>): real {
    if positions == [] then 0.0 else positions[0].weight + Held(positions[1..])
  }

  function Keep(positions: seq<Position>): seq<Position> {
    if positions == [] || Held(positions) <= 1.0 then positions else Keep(positions[1..])
  }

  function Rebuild(kept: seq<Position>, total: real, n: nat): (ws: seq<real>)
    requires total > 0.0 && forall i | 0 <= i < |kept| :: kept[i].index < n
    ensures |ws| == n
  {
    if kept == [] then seq(n, _ => 0.0)
    else Rebuild(kept[..|kept| - 1], total, n)[kept[|kept| - 1].index := kept[|kept| - 1].weight / total]
  }

  function Dropped(floored: seq<real>): Result<seq<real>, AllocationError> {
    var kept := Keep(Sort(BY_WEIGHT, Positions(floored)));
    if kept == [] then Failure(NoValidWeights)
    else if Held(kept) <= 0.0 then Failure(ZeroTotal)
    else
      KeptIndices(floored);
      Success(Rebuild(kept, Held(kept), |floored|))
  }

  lemma ByWeightIsTotal()
    ensures TotalPreorder(BY_WEIGHT)
  {
  }

  lemma {:induction false} KeepIsSuffix(positions: seq<Position>)
    ensures |Keep(positions)| <= |positions| && Keep(positions) == positions[|positions| - |Keep(positions)|..]
  {
    if positions != [] && Held(positions) > 1.0 {
      KeepIsSuffix(positions[1..]);
    }
  }

  lemma KeptIndices(floored: seq<real>)
    ensures forall p | p in Keep(Sort(BY_WEIGHT, Positions(floored))) ::
              p.index < |floored| && floored[p.index] == p.weight
  {
    var sorted := Sort(BY_WEIGHT, Positions(floored));
    ByWeightIsTotal();
    SortSorts(BY_WEIGHT, Positions(floored));
    KeepIsSuffix(sorted);
    forall p | p in Keep(sorted)
      ensures p.index < |floored| && floored[p.index] == p.weight
    {
      assert p in multiset(sorted);
    }
  }

  // ---------- the whole allocation ----------

  function CapFor(n: nat): real {
    if n >= 3 then 0.40 else 0.75
  }

  function Redistributed(raw: seq<real>): Result<seq<real>, AllocationError> {
    var floored := Floored(raw);
    var deficit := Deficit(raw);
    var available := Available(floored);
    if available > 0.0 && deficit > 0.0 && deficit <= available + SLACK then
      Success(Adjusted(floored, available, deficit))
    else if deficit > available + SLACK then Dropped(floored)
    else Success(floored)
  }

  predicate WithinCap(ws: seq<real>, cap: real) {
    forall i | 0 <= i < |ws| :: 0.0 <= ws[i] <= cap + SUM_TOLERANCE
  }

  function Guarded(ws: seq<real>, cap: real): Result<seq<real>, AllocationError> {
    if Sum(ws) - 1.0 > SUM_TOLERANCE || 1.0 - Sum(ws) > SUM_TOLERANCE then Failure(SumInvalid)
    else if !WithinCap(ws, cap) then Failure(ConstraintViolation)
    else Success(ws)
  }

  function Normalized(scores: seq<real>): seq<real> {
    var total := Sum(scores);
    if total > 0.0 then seq(|scores|, i requires 0 <= i < |scores| => scores[i] / total) else seq(|scores|, _ => 0.0)
  }

  /** The scores the code can allocate: with two or more, the level it looks for exists. */
  predicate Allocatable(scores: seq<real>) {
    && (forall i | 0 <= i < |scores| :: scores[i] >= 0.0)
    && (|scores| >= 2 ==> Fillable(Normalized(scores), CapFor(|scores|)))
  }

  lemma {:induction false} SumNonNegative(ws: seq<real>)
    requires forall i | 0 <= i < |ws| :: ws[i] >= 0.0
    ensures Sum(ws) >= 0.0
    ensures forall i | 0 <= i < |ws| :: ws[i] <= Sum(ws)
  {
    if ws != [] {
      SumNonNegative(ws[..|ws| - 1]);
    }
  }

  lemma NormalizedNonNegative(scores: seq<real>)
    requires forall i | 0 <= i < |scores| :: scores[i] >= 0.0
    ensures NonNegative(Normalized(scores))
  {
  }

  ghost function Weights(scores: seq<real>): Result<seq<real>, AllocationError>
    requires Allocatable(scores)
  {
    var n := |scores|;
    if n == 1 then Guarded([1.0], 1.0)
    else if n == 0 then Success([])
    else
      NormalizedNonNegative(scores);
      var ws := Normalized(scores);
      var raw := RawWeights(ws, CapFor(n), Level(ws, CapFor(n)));
      var final :- Redistributed(raw);
      Guarded(final, CapFor(n))
  }
}
