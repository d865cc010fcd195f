/** What the allocation promises: the floor and its redistribution, the dropped positions, and
    the conditions under which the closing guards cannot fire. */
module AllocationLaws {
  import opened Wrappers
  import opened Sorting
  import opened WaterFill
  import opened Allocation

  ghost predicate Positive(ws: seq<real>) {
    forall i | 0 <= i < |ws| :: ws[i] > 0.0
  }

  // ---------- the floor ----------

  lemma {:induction false} FlooredSum(raw: seq<real>)
    ensures Sum(Floored(raw)) == Sum(raw) + Deficit(raw)
    ensures Deficit(raw) >= 0.0
  {
    if raw != [] {
      var n := |raw| - 1;
      FlooredSum(raw[..n]);
      assert Floored(raw)[..n] == Floored(raw[..n]);
    }
  }

  lemma {:induction false} FlooredSplit(raw: seq<real>)
    requires NonNegative(raw)
    ensures Sum(Floored(raw)) == Times(Positives(raw) as real, MIN_WEIGHT) + Available(Floored(raw))
    ensures Available(Floored(raw)) >= 0.0
  {
    if raw != [] {
      var n := |raw| - 1;
      FlooredSplit(raw[..n]);
      TimesSuccessor(Positives(raw[..n]), MIN_WEIGHT);
      assert Floored(raw)[..n] == Floored(raw[..n]);
    }
  }

  /** The capacity above the floor exceeds the deficit by what the weights hold beyond one floor for
      each that is not zero. */
  lemma CapacityBalance(raw: seq<real>)
    requires NonNegative(raw)
    ensures Available(Floored(raw)) - Deficit(raw) == Sum(raw) - MIN_WEIGHT * Positives(raw) as real
  {
    FlooredSum(raw);
    FlooredSplit(raw);
  }

  /** The weakest positions are dropped exactly when the weights cannot pay one floor each; that
      takes more than 50 positions, and at most 49 always leave capacity to spare. */
  lemma DropsIff(raw: seq<real>)
    requires NonNegative(raw)
    ensures Deficit(raw) > Available(Floored(raw)) + 0.00000000000001 <==>
            Sum(raw) < 0.02 * Positives(raw) as real - 0.00000000000001
    ensures Sum(raw) >= 1.0 - TOLERANCE && Positives(raw) <= 50 ==>
              Deficit(raw) <= Available(Floored(raw)) + 0.00000000000001
    ensures Sum(raw) >= 1.0 - TOLERANCE && Positives(raw) <= 49 ==> Deficit(raw) < Available(Floored(raw))
  {
    CapacityBalance(raw);
  }

  // ---------- redistribution ----------

  lemma ReducedScales(x: real, available: real, deficit: real)
    requires available > 0.0
    ensures Reduced(x, available, deficit) == x - Times(Excess(x), deficit / available)
  {
    var y := Excess(x);
    if x > MIN_WEIGHT {
      var q := y / available;
      var r := deficit / available;
      assert q * available == y && r * available == deficit;
      assert q * deficit == q * (r * available) == (q * available) * r == y * r;
    } else {
      TimesZero(deficit / available);
    }
  }

  lemma TimesZero(r: real)
    ensures Times(0.0, r) == 0.0
  {
  }

  lemma {:induction false} AdjustedSum(floored: seq<real>, available: real, deficit: real)
    requires available > 0.0
    ensures Sum(Adjusted(floored, available, deficit)) == Sum(floored) - Times(Available(floored), deficit / available)
  {
    var r := deficit / available;
    if floored == [] {
      TimesZero(r);
    } else {
      var n := |floored| - 1;
      AdjustedSum(floored[..n], available, deficit);
      ReducedScales(floored[n], available, deficit);
      SumTimes(Available(floored[..n]), Excess(floored[n]), r);
      assert Adjusted(floored, available, deficit)[..n] == Adjusted(floored[..n], available, deficit);
    }
  }

  lemma SumTimes(a: real, b: real, r: real)
    ensures Times(a + b, r) == Times(a, r) + Times(b, r)
  {
  }

  lemma RatioTimes(a: real, d: real)
    requires a > 0.0
    ensures Times(a, d / a) == d
    ensures d <= a <==> d / a <= 1.0
    ensures d > 0.0 ==> d / a > 0.0
  {
    var r := d / a;
    assert r * a == d && Times(a, r) == r * a;
    if r > 1.0 {
      assert (r - 1.0) * a > 0.0;
      assert (r - 1.0) * a == d - a;
    } else {
      assert (1.0 - r) * a >= 0.0;
      assert (1.0 - r) * a == a - d;
    }
    if r <= 0.0 {
      assert (-r) * a >= 0.0;
      assert (-r) * a == -d;
    }
  }

  /** One weight above the floor: it stays at or above the floor, below its old value and in
      order, exactly while the deficit fits the capacity. */
  lemma ReducedBounds(x: real, y: real, available: real, deficit: real)
    requires available > 0.0 && deficit > 0.0 && MIN_WEIGHT <= x <= y
    ensures deficit <= available ==> MIN_WEIGHT <= Reduced(x, available, deficit) <= Reduced(y, available, deficit) <= y
    ensures deficit > available && x > MIN_WEIGHT ==> Reduced(x, available, deficit) < MIN_WEIGHT
  {
    var r := deficit / available;
    var a, b := Excess(x), Excess(y);
    RatioTimes(available, deficit);
    ReducedScales(x, available, deficit);
    ReducedScales(y, available, deficit);
    assert x == MIN_WEIGHT + a && y == MIN_WEIGHT + b;
    RatioStep(a, b, r);
  }

  lemma NonNegativeProduct(x: real, y: real)
    requires x >= 0.0 && y >= 0.0
    ensures x * y >= 0.0
  {
  }

  lemma RatioStep(a: real, b: real, r: real)
    requires 0.0 <= a <= b && r > 0.0
    ensures r <= 1.0 ==> a - Times(a, r) <= b - Times(b, r) && Times(a, r) <= a && Times(b, r) >= 0.0
    ensures r > 1.0 && a > 0.0 ==> Times(a, r) > a
  {
    NonNegativeProduct(b, r);
    if r <= 1.0 {
      NonNegativeProduct(b - a, 1.0 - r);
      NonNegativeProduct(a, 1.0 - r);
      assert (b - a) * (1.0 - r) == (b - b * r) - (a - a * r);
      assert a * (1.0 - r) == a - a * r;
    } else if a > 0.0 {
      NonNegativeProduct(a, r - 1.0);
      assert a * (r - 1.0) == a * r - a;
      NonZeroProduct(r - 1.0, a);
    }
  }

  lemma {:induction false} AvailableWitness(floored: seq<real>) returns (k: nat)
    requires Available(floored) > 0.0
    ensures k < |floored| && floored[k] > MIN_WEIGHT
  {
    var n := |floored| - 1;
    if floored[n] > MIN_WEIGHT {
      k := n;
    } else {
      k := AvailableWitness(floored[..n]);
    }
  }

  lemma {:induction false} DeficitWitness(raw: seq<real>) returns (k: nat)
    requires Deficit(raw) > 0.0
    ensures k < |raw| && 0.0 < raw[k] < MIN_WEIGHT
  {
    var n := |raw| - 1;
    if 0.0 < raw[n] < MIN_WEIGHT {
      k := n;
    } else {
      k := DeficitWitness(raw[..n]);
    }
  }

  ghost predicate FloorKept(final: seq<real>, cap: real) {
    forall i | 0 <= i < |final| :: 0.02 <= final[i] <= cap
  }

  ghost predicate OrderKept(raw: seq<real>, final: seq<real>)
    requires |raw| == |final|
  {
    forall i, j | 0 <= i < |raw| && 0 <= j < |raw| && raw[i] <= raw[j] :: final[i] <= final[j]
  }

  /** Taking the deficit from the weights above the floor keeps the sum.  It also keeps every
      weight between the floor and the cap, and the weights in order, if and only if the deficit
      is at most the capacity; the branch lets it exceed that by a slack. */
  lemma RedistributionSound(raw: seq<real>, cap: real)
    requires cap >= MIN_WEIGHT && forall i | 0 <= i < |raw| :: 0.0 < raw[i] <= cap
    requires Available(Floored(raw)) > 0.0 && 0.0 < Deficit(raw) <= Available(Floored(raw)) + SLACK
    ensures Redistributed(raw).Success? && |Redistributed(raw).value| == |raw|
    ensures Sum(Redistributed(raw).value) == Sum(raw)
    ensures FloorKept(Redistributed(raw).value, cap) <==> Deficit(raw) <= Available(Floored(raw))
    ensures OrderKept(raw, Redistributed(raw).value) <==> Deficit(raw) <= Available(Floored(raw))
  {
    var floored := Floored(raw);
    var deficit, available := Deficit(raw), Available(floored);
    var final := Redistributed(raw).value;
    assert final == Adjusted(floored, available, deficit);
    FlooredSum(raw);
    AdjustedSum(floored, available, deficit);
    RatioTimes(available, deficit);
    if deficit <= available {
      forall i | 0 <= i < |raw|
        ensures MIN_WEIGHT <= final[i] <= cap
      {
        ReducedBounds(floored[i], floored[i], available, deficit);
      }
      forall i, j | 0 <= i < |raw| && 0 <= j < |raw| && raw[i] <= raw[j]
        ensures final[i] <= final[j]
      {
        ReducedBounds(floored[i], floored[j], available, deficit);
      }
    } else {
      var k := AvailableWitness(floored);
      var low := DeficitWitness(raw);
      ReducedBounds(floored[k], floored[k], available, deficit);
      assert final[k] < MIN_WEIGHT && final[low] == MIN_WEIGHT;
      assert raw[low] <= raw[k];
    }
  }

  // ---------- dropping ----------

  lemma {:induction false} HeldConcat(a: seq<Position>, b: seq<Position>)
    ensures Held(a + b) == Held(a) + Held(b)
  {
    if a == [] {
      assert a + b == b;
    } else {
      HeldConcat(a[1..], b);
      assert (a + b)[1..] == a[1..] + b;
    }
  }

  lemma {:induction false} KeepStops(positions: seq<Position>)
    requires positions != [] && positions[|positions| - 1].weight > 0.0
    requires forall p | p in positions :: 0.0 <= p.weight <= 1.0
    ensures Keep(positions) != [] && 0.0 < Held(Keep(positions)) <= 1.0
  {
    HeldAtLeast(positions);
    if |positions| == 1 {
      assert positions[1..] == [];
      assert Held(positions) == positions[0].weight;
      assert positions[0] in positions;
    } else if Held(positions) > 1.0 {
      KeepStops(positions[1..]);
    }
  }

  lemma {:induction false} HeldAtLeast(positions: seq<Position>)
    requires positions != [] && forall p | p in positions :: p.weight >= 0.0
    ensures Held(positions) >= positions[|positions| - 1].weight
  {
    assert positions[0] in positions;
    if |positions| > 1 {
      HeldAtLeast(positions[1..]);
    } else {
      assert positions[1..] == [];
    }
  }

  lemma {:induction false} UpdateSum(ws: seq<real>, i: nat, x: real)
    requires i < |ws|
    ensures Sum(ws[i := x]) == Sum(ws) - ws[i] + x
  {
    var n := |ws| - 1;
    if i < n {
      UpdateSum(ws[..n], i, x);
      assert ws[i := x][..n] == ws[..n][i := x];
    } else {
      assert ws[i := x][..n] == ws[..n];
    }
  }

  lemma {:induction false} ZeroSum(n: nat)
    ensures Sum(seq(n, _ => 0.0)) == 0.0
  {
    if n > 0 {
      ZeroSum(n - 1);
      assert seq(n, _ => 0.0)[..n - 1] == seq(n - 1, _ => 0.0);
    }
  }

  ghost predicate DistinctIndices(kept: seq<Position>) {
    forall i, j | 0 <= i < j < |kept| :: kept[i].index != kept[j].index
  }

  /** Each kept position holds its share and the others nothing. */
  ghost predicate Shares(kept: seq<Position>, total: real, final: seq<real>)
    requires total > 0.0
  {
    && (forall i | 0 <= i < |kept| :: kept[i].index < |final| && final[kept[i].index] == kept[i].weight / total)
    && (forall x | 0 <= x < |final| && (forall i | 0 <= i < |kept| :: kept[i].index != x) :: final[x] == 0.0)
  }

  lemma {:induction false} RebuildShares(kept: seq<Position>, total: real, n: nat)
    requires total > 0.0 && DistinctIndices(kept) && forall i | 0 <= i < |kept| :: kept[i].index < n
    ensures Shares(kept, total, Rebuild(kept, total, n))
  {
    if kept != [] {
      hide Shares;
      var m := |kept| - 1;
      RebuildShares(kept[..m], total, n);
      ShareAdded(kept, total, Rebuild(kept[..m], total, n));
    }
  }

  lemma ShareAdded(kept: seq<Position>, total: real, before: seq<real>)
    requires total > 0.0 && kept != [] && DistinctIndices(kept) && kept[|kept| - 1].index < |before|
    requires Shares(kept[..|kept| - 1], total, before)
    ensures var last := kept[|kept| - 1]; Shares(kept, total, before[last.index := last.weight / total])
  {
    var m := |kept| - 1;
    var after := before[kept[m].index := kept[m].weight / total];
    assert forall i | 0 <= i < m :: kept[..m][i] == kept[i];
    forall x | 0 <= x < |before| && (forall i | 0 <= i < |kept| :: kept[i].index != x)
      ensures after[x] == 0.0
    {
      assert x != kept[m].index && before[x] == 0.0;
    }
    forall i | 0 <= i < |kept|
      ensures kept[i].index < |after| && after[kept[i].index] == kept[i].weight / total
    {
      if i < m {
        assert before[kept[..m][i].index] == kept[i].weight / total;
      }
    }
  }

  lemma {:induction false} RebuildSum(kept: seq<Position>, total: real, n: nat)
    requires total > 0.0 && DistinctIndices(kept) && forall i | 0 <= i < |kept| :: kept[i].index < n
    ensures Sum(Rebuild(kept, total, n)) == Held(kept) / total
  {
    if kept == [] {
      ZeroSum(n);
      assert 0.0 / total == 0.0;
    } else {
      var m := |kept| - 1;
      var before := Rebuild(kept[..m], total, n);
      RebuildSum(kept[..m], total, n);
      LastIsFresh(kept, total, n);
      UpdateSum(before, kept[m].index, kept[m].weight / total);
      HeldConcat(kept[..m], [kept[m]]);
      assert kept == kept[..m] + [kept[m]];
      SharesAdd(Held(kept[..m]), kept[m].weight, total);
      HeldOne(kept[m]);
    }
  }

  lemma LastIsFresh(kept: seq<Position>, total: real, n: nat)
    requires total > 0.0 && kept != [] && DistinctIndices(kept) && forall i | 0 <= i < |kept| :: kept[i].index < n
    ensures Rebuild(kept[..|kept| - 1], total, n)[kept[|kept| - 1].index] == 0.0
  {
    var m := |kept| - 1;
    RebuildShares(kept[..m], total, n);
    assert forall i | 0 <= i < m :: kept[..m][i].index != kept[m].index;
  }

  lemma HeldOne(p: Position)
    ensures Held([p]) == p.weight
  {
    assert [p][1..] == [];
  }

  lemma SharesAdd(a: real, b: real, total: real)
    requires total > 0.0
    ensures a / total + b / total == (a + b) / total
  {
    var p, q, r := a / total, b / total, (a + b) / total;
    assert p * total == a && q * total == b && r * total == a + b;
    assert (p + q - r) * total == 0.0;
    if p + q != r {
      NonZeroProduct(p + q - r, total);
    }
  }

  lemma NonZeroProduct(x: real, t: real)
    requires t > 0.0 && x != 0.0
    ensures x * t != 0.0
  {
  }

  /** What the positions that stay hold together before they are rescaled. */
  function KeptMass(floored: seq<real>): real {
    Held(Keep(Sort(BY_WEIGHT, Positions(floored))))
  }

  /** Weights up to a cap, not all of them zero. */
  ghost predicate Shareable(floored: seq<real>, cap: real) {
    && (forall i | 0 <= i < |floored| :: 0.0 <= floored[i] <= cap)
    && exists i :: 0 <= i < |floored| && floored[i] > 0.0
  }

  /** Dropping ends with a position left, so neither of its failures can happen; the weights it
      leaves are the kept ones in proportion, they sum to 1, and a dropped position is no heavier
      than a kept one. */
  lemma DroppingSound(floored: seq<real>)
    requires Shareable(floored, 1.0)
    ensures Dropped(floored).Success? && |Dropped(floored).value| == |floored|
    ensures Sum(Dropped(floored).value) == 1.0
    ensures 0.0 < KeptMass(floored) <= 1.0
    ensures forall i | 0 <= i < |floored| ::
              Dropped(floored).value[i] == 0.0 || Dropped(floored).value[i] == floored[i] / KeptMass(floored) > 0.0
    ensures forall i, j | 0 <= i < |floored| && 0 <= j < |floored|
              && Dropped(floored).value[i] == 0.0 < Dropped(floored).value[j] ::
              floored[i] <= floored[j]
  {
    hide Keep, Rebuild, Sort, Held, Shares, DistinctIndices, Sum;
    var kept := Keep(Sort(BY_WEIGHT, Positions(floored)));
    KeptFacts(floored);
    KeptIndices(floored);
    var final := Dropped(floored).value;
    RebuildShares(kept, Held(kept), |floored|);
    RebuildSum(kept, Held(kept), |floored|);
    WholeShare(Held(kept));
    forall x | 0 <= x < |floored|
      ensures final[x] > 0.0 <==> Position(x, floored[x]) in kept && floored[x] > 0.0
      ensures final[x] == 0.0 || final[x] == floored[x] / KeptMass(floored) > 0.0
    {
      DroppedShare(floored, kept, final, x);
    }
    forall i, j | 0 <= i < |floored| && 0 <= j < |floored| && final[i] == 0.0 < final[j]
      ensures floored[i] <= floored[j]
    {
      if Position(i, floored[i]) !in kept {
        SortSorts(BY_WEIGHT, Positions(floored));
        WeakerDropped(floored, Sort(BY_WEIGHT, Positions(floored)), kept, i, j);
      }
    }
  }

  /** What is kept: a non-empty suffix of the sorted positions, without repeated indices. */
  lemma KeptFacts(floored: seq<real>)
    requires Shareable(floored, 1.0)
    ensures TotalPreorder(BY_WEIGHT)
    ensures var sorted := Sort(BY_WEIGHT, Positions(floored));
            var kept := Keep(sorted);
            && kept != [] && 0.0 < Held(kept) <= 1.0
            && |kept| <= |sorted| && kept == sorted[|sorted| - |kept|..]
            && DistinctIndices(kept)
            && forall p | p in kept :: p.weight >= 0.0
  {
    hide Keep, Sort;
    var all := Positions(floored);
    var sorted := Sort(BY_WEIGHT, all);
    ByWeightIsTotal();
    SortSorts(BY_WEIGHT, all);
    KeepIsSuffix(sorted);
    forall p | p in sorted
      ensures p in all && 0.0 <= p.weight <= 1.0
    {
      assert p in multiset(sorted);
    }
    LastIsPositive(floored, sorted);
    KeepStops(sorted);
    DistinctUnderPermutation(all, sorted, (p: Position) => p.index);
    var kept := Keep(sorted);
    var s := |sorted| - |kept|;
    assert forall i | 0 <= i < |kept| :: kept[i] == sorted[s + i];
  }

  lemma LastIsPositive(floored: seq<real>, sorted: seq<Position>)
    requires Shareable(floored, 1.0) && Sorted(BY_WEIGHT, sorted) && multiset(sorted) == multiset(Positions(floored))
    ensures sorted != [] && sorted[|sorted| - 1].weight > 0.0
  {
    var i :| 0 <= i < |floored| && floored[i] > 0.0;
    var p, n := Positions(floored)[i], |sorted| - 1;
    SameMembers(Positions(floored), sorted, p);
    var k :| 0 <= k < |sorted| && sorted[k] == p;
    assert k < n ==> BY_WEIGHT(sorted[k], sorted[n]);
  }

  lemma DroppedShare(floored: seq<real>, kept: seq<Position>, final: seq<real>, x: nat)
    requires x < |floored| == |final| && Held(kept) > 0.0
    requires forall p | p in kept :: p.index < |floored| && floored[p.index] == p.weight && p.weight >= 0.0
    requires Shares(kept, Held(kept), final)
    ensures final[x] > 0.0 <==> Position(x, floored[x]) in kept && floored[x] > 0.0
    ensures final[x] == 0.0 || final[x] == floored[x] / Held(kept) > 0.0
  {
    if i :| 0 <= i < |kept| && kept[i].index == x {
      assert kept[i] in kept && kept[i] == Position(x, floored[x]);
      if kept[i].weight > 0.0 {
        PositiveShare(kept[i].weight, Held(kept));
      } else {
        assert 0.0 / Held(kept) == 0.0;
      }
    }
  }

  lemma WholeShare(total: real)
    requires total > 0.0
    ensures total / total == 1.0
  {
  }

  lemma PositiveShare(w: real, total: real)
    requires w > 0.0 && total > 0.0
    ensures w / total > 0.0
  {
    assert (w / total) * total == w;
  }

  lemma WeakerDropped(floored: seq<real>, sorted: seq<Position>, kept: seq<Position>, i: nat, j: nat)
    requires i < |floored| && j < |floored| && Sorted(BY_WEIGHT, sorted)
    requires multiset(sorted) == multiset(Positions(floored))
    requires |kept| <= |sorted| && kept == sorted[|sorted| - |kept|..]
    requires Position(i, floored[i]) !in kept && Position(j, floored[j]) in kept
    ensures floored[i] <= floored[j]
  {
    var p, q := Position(i, floored[i]), Position(j, floored[j]);
    assert Positions(floored)[i] == p;
    SameMembers(Positions(floored), sorted, p);
    SuffixOrdered(sorted, |sorted| - |kept|, p, q);
  }

  lemma SuffixOrdered(sorted: seq<Position>, s: nat, p: Position, q: Position)
    requires s <= |sorted| && Sorted(BY_WEIGHT, sorted)
    requires p in sorted && p !in sorted[s..] && q in sorted[s..]
    ensures p.weight <= q.weight
  {
    var a :| 0 <= a < |sorted| && sorted[a] == p;
    var b :| 0 <= b < |sorted[s..]| && sorted[s..][b] == q;
    assert forall k | s <= k < |sorted| :: sorted[k] == sorted[s..][k - s];
    assert sorted[s + b] == q && a < s;
    assert BY_WEIGHT(sorted[a], sorted[s + b]);
  }

  // ---------- the closing guards ----------

  lemma {:induction false} MassIsRawSum(ws: seq<real>, cap: real, lam: real)
    ensures Sum(RawWeights(ws, cap, lam)) == Mass(ws, cap, lam)
  {
    if ws != [] {
      var n := |ws| - 1;
      MassIsRawSum(ws[..n], cap, lam);
      assert RawWeights(ws, cap, lam)[..n] == RawWeights(ws[..n], cap, lam);
    }
  }

  function Divided(scores: seq<real>, total: real): seq<real>
    requires total > 0.0
  {
    seq(|scores|, i requires 0 <= i < |scores| => scores[i] / total)
  }

  lemma {:induction false} DividedSum(scores: seq<real>, total: real)
    requires total > 0.0
    ensures Sum(Divided(scores, total)) == Sum(scores) / total
  {
    if scores == [] {
      assert 0.0 / total == 0.0;
    } else {
      var n := |scores| - 1;
      DividedSum(scores[..n], total);
      SharesAdd(Sum(scores[..n]), scores[n], total);
      assert Divided(scores, total)[..n] == Divided(scores[..n], total);
    }
  }

  lemma {:induction false} SumBounds(ws: seq<real>, lo: real, hi: real)
    requires forall i | 0 <= i < |ws| :: lo <= ws[i] <= hi
    ensures Times(|ws| as real, lo) <= Sum(ws) <= Times(|ws| as real, hi)
  {
    if ws != [] {
      var n := |ws| - 1;
      SumBounds(ws[..n], lo, hi);
      TimesSuccessor(n, lo);
      TimesSuccessor(n, hi);
    }
  }

  lemma {:induction false} AllPositive(ws: seq<real>)
    requires Positive(ws)
    ensures Positives(ws) == |ws|
  {
    if ws != [] {
      AllPositive(ws[..|ws| - 1]);
    }
  }

  lemma {:induction false} Pow2Add(a: nat, b: nat)
    ensures Pow2(a + b) == Pow2(a) * Pow2(b)
  {
    if a > 0 {
      Pow2Add(a - 1, b);
      assert 2.0 * (Pow2(a - 1) * Pow2(b)) == (2.0 * Pow2(a - 1)) * Pow2(b);
    }
  }

  lemma Pow2Of64()
    ensures Pow2(BISECTIONS) == 18446744073709551616.0 && Pow2(BISECTIONS - 1) == 9223372036854775808.0
    ensures 0.0 < 1.0 / Pow2(BISECTIONS - 1) < 0.000000000000000001
  {
    assert Pow2(4) == 16.0 by { assert Pow2(2) == 4.0; }
    Pow2Add(4, 4);
    Pow2Add(8, 8);
    Pow2Add(16, 16);
    Pow2Add(32, 32);
  }

  lemma SignOfProduct(x: real, t: real)
    requires t > 0.0
    ensures x > 0.0 ==> x * t > 0.0
    ensures x < 0.0 ==> x * t < 0.0
  {
  }

  lemma QuotientBounds(a: real, t: real, c: real)
    requires t > 0.0
    ensures a <= c * t ==> a / t <= c
    ensures a >= c * t ==> a / t >= c
    ensures a > 0.0 ==> a / t > 0.0
  {
    var q := a / t;
    assert q * t == a;
    assert (q - c) * t == a - c * t;
    SignOfProduct(q - c, t);
    SignOfProduct(q, t);
  }

  lemma DivisionMonotone(a: real, b: real, t: real)
    requires t > 0.0 && a <= b
    ensures a / t <= b / t
  {
    var q := b / t;
    assert q * t == b;
    QuotientBounds(a, t, q);
  }

  /** Scores divided by their sum: they are 1 together, in order, and zero where the scores are. */
  lemma NormalizedShares(scores: seq<real>)
    requires NonNegative(scores) && Sum(scores) > 0.0
    ensures var ws := Normalized(scores);
            && |ws| == |scores| && NonNegative(ws) && Sum(ws) == 1.0
            && OrderKept(scores, ws)
            && forall i | 0 <= i < |ws| :: ws[i] > 0.0 <==> scores[i] > 0.0
  {
    var n, total, ws := |scores|, Sum(scores), Normalized(scores);
    assert ws == Divided(scores, total);
    DividedSum(scores, total);
    WholeShare(total);
    forall i, j | 0 <= i < n && 0 <= j < n && scores[i] <= scores[j]
      ensures ws[i] <= ws[j]
    {
      DivisionMonotone(scores[i], scores[j], total);
    }
    forall i | 0 <= i < n
      ensures ws[i] >= 0.0 && (ws[i] > 0.0 <==> scores[i] > 0.0)
    {
      QuotientBounds(scores[i], total, 0.0);
      assert scores[i] == 0.0 ==> scores[i] / total == 0.0;
    }
  }

  lemma EnoughCaps(ws: seq<real>)
    requires |ws| >= 2 && Positive(ws)
    ensures Fillable(ws, CapFor(|ws|))
  {
    AllPositive(ws);
    TimesMonotone(2.0, |ws| as real, 0.75);
    TimesMonotone(2.0, |ws| as real, 0.40);
    if |ws| >= 3 {
      TimesMonotone(3.0, |ws| as real, 0.40);
    }
  }

  lemma {:induction false} PositivesAgree(a: seq<real>, b: seq<real>)
    requires |a| == |b| && forall i | 0 <= i < |a| :: a[i] > 0.0 <==> b[i] > 0.0
    ensures Positives(a) == Positives(b) <= |a|
  {
    if a != [] {
      PositivesAgree(a[..|a| - 1], b[..|b| - 1]);
    }
  }

  /** Scores of which the level exists are not all zero. */
  lemma AllocatableTotal(scores: seq<real>)
    requires Allocatable(scores) && |scores| >= 2
    ensures Sum(scores) > 0.0
  {
    SumNonNegative(scores);
    if Sum(scores) == 0.0 {
      NonePositive(Normalized(scores));
      TimesZero(CapFor(|scores|));
    }
  }

  lemma {:induction false} NonePositive(ws: seq<real>)
    requires forall i | 0 <= i < |ws| :: ws[i] <= 0.0
    ensures Positives(ws) == 0
  {
    if ws != [] {
      NonePositive(ws[..|ws| - 1]);
    }
  }

  /** Raw weights of a positive level: capped, in the order of the weights, and zero where they are. */
  lemma RawBounds(ws: seq<real>, cap: real, lam: real)
    requires NonNegative(ws) && cap > 0.0 && lam > 0.0
    ensures forall i | 0 <= i < |ws| :: 0.0 <= RawWeights(ws, cap, lam)[i] <= cap
    ensures forall i | 0 <= i < |ws| :: RawWeights(ws, cap, lam)[i] > 0.0 <==> ws[i] > 0.0
    ensures OrderKept(ws, RawWeights(ws, cap, lam))
  {
    forall i | 0 <= i < |ws|
      ensures 0.0 <= RawWeights(ws, cap, lam)[i] && (RawWeights(ws, cap, lam)[i] > 0.0 <==> ws[i] > 0.0)
    {
      NonNegativeProduct(lam, ws[i]);
      if ws[i] > 0.0 {
        NonZeroProduct(lam, ws[i]);
      } else {
        assert lam * 0.0 == 0.0;
      }
    }
    forall i, j | 0 <= i < |ws| && 0 <= j < |ws| && ws[i] <= ws[j]
      ensures RawWeights(ws, cap, lam)[i] <= RawWeights(ws, cap, lam)[j]
    {
      TimesMonotone(ws[i], ws[j], lam);
    }
  }

  /** What the water filling gives each score before the floor. */
  ghost function WaterFilled(scores: seq<real>): (raw: seq<real>)
    requires Allocatable(scores) && |scores| >= 2
    ensures |raw| == |scores|
  {
    NormalizedNonNegative(scores);
    RawWeights(Normalized(scores), CapFor(|scores|), Level(Normalized(scores), CapFor(|scores|)))
  }

  /** Weights between zero and the cap, in the order of the scores, as many of them positive, and 1
      together to within the tolerance below and the 63rd negative power of two above. */
  lemma FilledSound(scores: seq<real>)
    requires Allocatable(scores) && |scores| >= 2
    ensures var raw := WaterFilled(scores);
            && (forall i | 0 <= i < |raw| :: 0.0 <= raw[i] <= CapFor(|scores|))
            && (forall i | 0 <= i < |raw| :: raw[i] > 0.0 <==> scores[i] > 0.0)
            && Positives(raw) == Positives(scores) && OrderKept(scores, raw)
            && 1.0 - TOLERANCE <= Sum(raw) < 1.0 + 1.0 / Pow2(BISECTIONS - 1)
  {
    hide Mass, Level, RawWeights, Normalized, Sum, Fillable;
    AllocatableTotal(scores);
    NormalizedShares(scores);
    var ws, cap := Normalized(scores), CapFor(|scores|);
    LevelFillsTarget(ws, cap);
    RawBounds(ws, cap, Level(ws, cap));
    MassIsRawSum(ws, cap, Level(ws, cap));
    PositivesAgree(WaterFilled(scores), scores);
  }

  /** The filled weights are the scores in proportion, each cut at the cap: 75 percent of two
      positions, 40 percent of more. */
  lemma FilledInProportion(scores: seq<real>) returns (lam: real)
    requires Allocatable(scores) && |scores| >= 2
    ensures Sum(scores) > 0.0 && lam > 0.0
    ensures forall i | 0 <= i < |scores| ::
              WaterFilled(scores)[i] == Min(if |scores| == 2 then 0.75 else 0.40, Times(lam, scores[i] / Sum(scores)))
  {
    hide Mass, Level, Sum, Fillable;
    AllocatableTotal(scores);
    NormalizedShares(scores);
    LevelFillsTarget(Normalized(scores), CapFor(|scores|));
    lam := Level(Normalized(scores), CapFor(|scores|));
  }

  /** If no filled weight lies between zero and the floor, they are the weights. */
  lemma LargeWeightsStand(scores: seq<real>)
    requires Allocatable(scores) && |scores| >= 2
    requires forall i | 0 <= i < |scores| :: WaterFilled(scores)[i] == 0.0 || WaterFilled(scores)[i] >= 0.02
    ensures Weights(scores) == Success(WaterFilled(scores))
  {
    hide Mass, Level, RawWeights, Normalized, Sum, Fillable;
    FilledSound(scores);
    Pow2Of64();
    var raw := WaterFilled(scores);
    NoDeficit(raw);
    assert Floored(raw) == raw;
    FlooredSum(raw);
    AvailableSum(raw);
  }

  lemma {:induction false} NoDeficit(raw: seq<real>)
    requires forall i | 0 <= i < |raw| :: raw[i] == 0.0 || raw[i] >= 0.02
    ensures Deficit(raw) == 0.0
  {
    if raw != [] {
      NoDeficit(raw[..|raw| - 1]);
    }
  }

  lemma {:induction false} AvailableSum(ws: seq<real>)
    ensures Available(ws) >= 0.0
  {
    if ws != [] {
      AvailableSum(ws[..|ws| - 1]);
    }
  }

  /** Redistribution of at most 49 positive weights never drops a position: it keeps the sum, the
      floor, the cap and the order. */
  lemma SmallPortfolioRedistributes(raw: seq<real>, cap: real)
    requires |raw| <= 49 && cap >= MIN_WEIGHT && Sum(raw) >= 1.0 - TOLERANCE
    requires forall i | 0 <= i < |raw| :: 0.0 < raw[i] <= cap
    ensures Redistributed(raw).Success? && |Redistributed(raw).value| == |raw|
    ensures Sum(Redistributed(raw).value) == Sum(raw)
    ensures FloorKept(Redistributed(raw).value, cap) && OrderKept(raw, Redistributed(raw).value)
  {
    AllPositive(raw);
    DropsIff(raw);
    FlooredSum(raw);
    if Deficit(raw) > 0.0 {
      RedistributionSound(raw, cap);
    }
  }

  /** Up to 49 positive scores, however far apart: the allocation succeeds, sums to 1 within the
      tolerance below and the 63rd negative power of two above, keeps every weight of two or more
      positions between the floor and the cap, and never gives a higher score a smaller weight. */
  lemma AllocationSucceeds(scores: seq<real>)
    requires |scores| <= 49 && Positive(scores)
    ensures Allocatable(scores) && Weights(scores).Success? && |Weights(scores).value| == |scores|
    ensures scores != [] ==> 0.999999999999999 <= Sum(Weights(scores).value) < 1.0 + 1.0 / Pow2(63)
    ensures |scores| >= 2 ==> FloorKept(Weights(scores).value, if |scores| == 2 then 0.75 else 0.40)
    ensures OrderKept(scores, Weights(scores).value)
  {
    hide Mass, Level, Redistributed, RawWeights, Normalized;
    Pow2Of64();
    if |scores| >= 2 {
      PositiveAllocatable(scores);
      FilledSound(scores);
      hide Sum;
      SmallPortfolioRedistributes(WaterFilled(scores), CapFor(|scores|));
    } else if |scores| == 1 {
      assert [1.0][..0] == [];
    }
  }

  lemma PositiveAllocatable(scores: seq<real>)
    requires Positive(scores)
    ensures Allocatable(scores)
  {
    if |scores| >= 2 {
      SumNonNegative(scores);
      NormalizedShares(scores);
      hide Normalized, Fillable;
      EnoughCaps(Normalized(scores));
    }
  }
}
