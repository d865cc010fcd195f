/** The portfolio engine: the hard gate, selection, allocation, and the scaling of trades. */
module PortfolioEngine {
  import opened Wrappers
  import opened Sorting
  import opened Selection
  import opened WaterFill
  import opened Allocation
  import opened AllocationLaws
  import opened AllocationEdges

  // ---------- allocation, as loops ----------

  method FloorWeights(raw: seq<real>) returns (floored: seq<real>, deficit: real)
    ensures floored == Floored(raw) && deficit == Deficit(raw)
  {
    floored, deficit := [], 0.0;
    for i := 0 to |raw|
      invariant floored == Floored(raw)[..i] && deficit == Deficit(raw[..i])
    {
      var x := raw[i];
      assert raw[..i + 1][..i] == raw[..i];
      if 0.0 < x < MIN_WEIGHT {
        deficit := deficit + (MIN_WEIGHT - x);
        floored := floored + [MIN_WEIGHT];
      } else {
        floored := floored + [x];
      }
    }
    assert raw[..|raw|] == raw;
  }

  method ComputeAvailable(floored: seq<real>) returns (available: real)
    ensures available == Available(floored)
  {
    available := 0.0;
    for i := 0 to |floored|
      invariant available == Available(floored[..i])
    {
      assert floored[..i + 1][..i] == floored[..i];
      if floored[i] > MIN_WEIGHT {
        available := available + (floored[i] - MIN_WEIGHT);
      }
    }
    assert floored[..|floored|] == floored;
  }

  method ReduceWeights(floored: seq<real>, available: real, deficit: real) returns (adjusted: seq<real>)
    requires available > 0.0
    ensures adjusted == Adjusted(floored, available, deficit)
  {
    adjusted := [];
    for i := 0 to |floored|
      invariant adjusted == Adjusted(floored, available, deficit)[..i]
    {
      var x := floored[i];
      if x > MIN_WEIGHT {
        var reduction := Times((x - MIN_WEIGHT) / available, deficit);
        adjusted := adjusted + [x - reduction];
      } else {
        adjusted := adjusted + [x];
      }
    }
  }

  method DropWeakest(floored: seq<real>) returns (r: Result<seq<real>, AllocationError>)
    requires floored != []
    ensures r == Dropped(floored)
  {
    var sorted := Sort(BY_WEIGHT, Positions(floored));
    var remaining := sorted;
    while true
      invariant Keep(remaining) == Keep(sorted)
      decreases |remaining|
    {
      if Held(remaining) <= 1.0 {
        break;
      }
      remaining := remaining[1..];
      if remaining == [] {
        break;
      }
    }
    assert remaining == Keep(sorted);
    if remaining == [] {
      return Failure(NoValidWeights);
    }
    var total := Held(remaining);
    if total <= 0.0 {
      return Failure(ZeroTotal);
    }
    KeptIndices(floored);
    var final: seq<real> := seq(|floored|, _ => 0.0);
    for i := 0 to |remaining|
      invariant |final| == |floored| && final == Rebuild(remaining[..i], total, |floored|)
    {
      assert remaining[..i + 1][..i] == remaining[..i];
      final := final[remaining[i].index := remaining[i].weight / total];
    }
    assert remaining[..|remaining|] == remaining;
    r := Success(final);
  }

  method Redistribute(raw: seq<real>) returns (r: Result<seq<real>, AllocationError>)
    requires raw != []
    ensures r == Redistributed(raw)
  {
    var floored, deficit := FloorWeights(raw);
    var available := ComputeAvailable(floored);
    if available > 0.0 && deficit > 0.0 && deficit <= available + SLACK {
      var adjusted := ReduceWeights(floored, available, deficit);
      r := Success(adjusted);
    } else if deficit > available + SLACK {
      r := DropWeakest(floored);
    } else {
      r := Success(floored);
    }
  }

  method ComputeWeights(scores: seq<real>) returns (r: Result<seq<real>, AllocationError>)
    requires Allocatable(scores)
    ensures r == Weights(scores)
  {
    var n := |scores|;
    if n == 0 {
      return Success([]);
    }
    if n == 1 {
      return Guarded([1.0], 1.0);
    }
    NormalizedNonNegative(scores);
    var ws := Normalized(scores);
    var cap := CapFor(n);
    var lam := ComputeLevel(ws, cap);
    var redistributed := Redistribute(RawWeights(ws, cap, lam));
    match redistributed
    case Failure(e) => r := Failure(e);
    case Success(final) => r := Guarded(final, cap);
  }

  // ---------- candidates and their allocation ----------

  /** A candidate's capital score; `pow` stands for raising an edge to the power 2.2. */
  function RawScore(pow: real -> real, c: Candidate): real {
    Times(pow(c.edge), 0.3 + 0.7 * c.confidence)
  }

  function RawScores(pow: real -> real, selected: seq<Candidate>): seq<real> {
    seq(|selected|, i requires 0 <= i < |selected| => RawScore(pow, selected[i]))
  }

  datatype Share = Share(symbol: string, weight: real)

  lemma RedistributedLength(raw: seq<real>)
    ensures Redistributed(raw).Success? ==> |Redistributed(raw).value| == |raw|
  {
  }

  lemma WeightsLength(scores: seq<real>)
    requires Allocatable(scores)
    ensures Weights(scores).Success? ==> |Weights(scores).value| == |scores|
  {
    if |scores| >= 2 {
      NormalizedNonNegative(scores);
      RedistributedLength(RawWeights(Normalized(scores), CapFor(|scores|),
                                     Level(Normalized(scores), CapFor(|scores|))));
    }
  }

  method ComputeScores(pow: real -> real, selected: seq<Candidate>) returns (scores: seq<real>)
    ensures scores == RawScores(pow, selected)
  {
    scores := [];
    for i := 0 to |selected|
      invariant scores == RawScores(pow, selected)[..i]
    {
      scores := scores + [RawScore(pow, selected[i])];
    }
  }

  method PairShares(selected: seq<Candidate>, ws: seq<real>) returns (shares: seq<Share>)
    requires |ws| == |selected|
    ensures |shares| == |selected|
    ensures forall i | 0 <= i < |selected| :: shares[i].symbol == selected[i].symbol && shares[i].weight == ws[i]
  {
    shares := [];
    for i := 0 to |selected|
      invariant |shares| == i
      invariant forall j | 0 <= j < i :: shares[j].symbol == selected[j].symbol && shares[j].weight == ws[j]
    {
      shares := shares + [Share(selected[i].symbol, ws[i])];
    }
  }

  method ComputePortfolioAllocation(candidates: seq<Candidate>, maxPositions: int, pow: real -> real)
      returns (r: Result<seq<Share>, AllocationError>)
    requires Allocatable(RawScores(pow, Select(candidates, maxPositions)))
    ensures var selected := Select(candidates, maxPositions);
            var ws := Weights(RawScores(pow, selected));
            if ws.Failure? then r == Failure(ws.error)
            else
              && r.Success? && |r.value| == |selected| == |ws.value|
              && forall i | 0 <= i < |selected| ::
                   r.value[i].symbol == selected[i].symbol && r.value[i].weight == ws.value[i]
  {
    var selected := SelectCandidates(candidates, maxPositions);
    var scores := ComputeScores(pow, selected);
    var weights := ComputeWeights(scores);
    WeightsLength(scores);
    match weights
    case Failure(e) => r := Failure(e);
    case Success(ws) =>
      var shares := PairShares(selected, ws);
      r := Success(shares);
  }

  // ---------- the hard gate ----------

  const HARD_EDGE_MIN: real := 0.60
  const HARD_CONF_MIN: real := 0.55

  /** What a row holds where a number is expected. */
  datatype Reading = Missing | Unreadable | NotANumber | Number(value: real)

  /** The confidence of a row; that it is not a number is left out. */
  type Confidence = c: Reading | !c.NotANumber? witness Missing

  datatype ScanRow = NotARow | ScanRow(symbol: string, edge: Reading, confidence: Confidence, sector: string)

  datatype EngineError = EdgeViolation | ConfidenceMissing | AllocationFailed(error: AllocationError)

  /** Why a row stops everything, if it does.  An edge that is absent or unreadable is noticed before
      the confidence is looked up, an edge that is not a number only after it was. */
  function Objection(row: ScanRow): Option<EngineError> {
    if row.NotARow? || row.symbol == "" then None
    else if row.edge.Missing? || row.edge.Unreadable? then Some(EdgeViolation)
    else if row.confidence.Missing? then Some(ConfidenceMissing)
    else if row.edge.NotANumber? || row.confidence.Unreadable? then Some(EdgeViolation)
    else None
  }

  predicate Acceptable(rows: seq<ScanRow>) {
    forall i | 0 <= i < |rows| :: Objection(rows[i]).None?
  }

  /** `error` is what the first row that stops everything is refused with. */
  ghost predicate FirstObjection(rows: seq<ScanRow>, error: EngineError) {
    exists i :: 0 <= i < |rows| && Objection(rows[i]) == Some(error) && Acceptable(rows[..i])
  }

  /** Rows are acceptable exactly when every one with a symbol has a number for its edge and one for its
      confidence; the error is that of a confidence that is absent behind an edge that was readable, or
      that of the edge. */
  lemma AcceptableIff(rows: seq<ScanRow>)
    ensures Acceptable(rows) <==>
            forall row | row in rows && row.ScanRow? && row.symbol != "" :: row.edge.Number? && row.confidence.Number?
    ensures forall row | row in rows :: Objection(row) == Some(ConfidenceMissing) <==>
              && row.ScanRow? && row.symbol != "" && (row.edge.NotANumber? || row.edge.Number?)
              && row.confidence.Missing?
    ensures forall row | row in rows :: Objection(row) in {None, Some(ConfidenceMissing), Some(EdgeViolation)}
  {
  }

  lemma BeforeObjection(rows: seq<ScanRow>, i: nat, j: nat)
    requires i < |rows| && j <= |rows| && Acceptable(rows[..j])
    ensures i < j ==> Objection(rows[i]).None?
  {
    hide Objection;
    if i < j {
      assert rows[..j][i] == rows[i];
    }
  }

  /** There is one first objection at most, and only where rows are not acceptable. */
  lemma FirstObjectionUnique(rows: seq<ScanRow>, a: EngineError, b: EngineError)
    requires FirstObjection(rows, a) && FirstObjection(rows, b)
    ensures a == b && !Acceptable(rows)
  {
    hide Objection;
    var i :| 0 <= i < |rows| && Objection(rows[i]) == Some(a) && Acceptable(rows[..i]);
    var j :| 0 <= j < |rows| && Objection(rows[j]) == Some(b) && Acceptable(rows[..j]);
    BeforeObjection(rows, i, j);
    BeforeObjection(rows, j, i);
  }

  predicate Passes(row: ScanRow) {
    row.ScanRow? && row.symbol != "" && row.edge.Number? && row.confidence.Number?
    && row.edge.value >= 0.60 && row.confidence.value >= 0.55
  }

  /** The rows that pass the gate, in order. */
  function Gated(rows: seq<ScanRow>): seq<Candidate> {
    if rows == [] then []
    else
      var row := rows[|rows| - 1];
      Gated(rows[..|rows| - 1])
      + if Passes(row) then [Candidate(row.symbol, row.edge.value, row.confidence.value, row.sector)] else []
  }

  /** The gate stops at the first row whose edge or confidence it cannot use, with that row's error,
      and otherwise lets through, in order, exactly the rows at or above both floors. */
  method BuildCandidates(rows: seq<ScanRow>) returns (r: Result<seq<Candidate>, EngineError>)
    ensures r.Success? <==> Acceptable(rows)
    ensures r.Success? ==> r.value == Gated(rows)
    ensures r.Failure? ==> FirstObjection(rows, r.error)
  {
    var candidates: seq<Candidate> := [];
    for i := 0 to |rows|
      invariant candidates == Gated(rows[..i])
      invariant Acceptable(rows[..i])
    {
      assert rows[..i + 1][..i] == rows[..i];
      var row := rows[i];
      if row.NotARow? || row.symbol == "" {
        continue;
      }
      if row.edge.Missing? || row.edge.Unreadable? {
        return Failure(EdgeViolation);
      }
      if row.confidence.Missing? {
        return Failure(ConfidenceMissing);
      }
      if row.confidence.Unreadable? || row.edge.NotANumber? {
        return Failure(EdgeViolation);
      }
      if row.edge.value < HARD_EDGE_MIN || row.confidence.value < HARD_CONF_MIN {
        continue;
      }
      candidates := candidates + [Candidate(row.symbol, row.edge.value, row.confidence.value, row.sector)];
    }
    assert rows[..|rows|] == rows;
    r := Success(candidates);
  }

  /** A candidate is the reading of a row with a symbol, at least 60 percent edge and 55 percent
      confidence, and every such row is one. */
  lemma {:induction false} GatedIff(rows: seq<ScanRow>, c: Candidate)
    ensures c in Gated(rows) <==>
            && c.symbol != "" && c.edge >= 0.60 && c.confidence >= 0.55
            && exists i ::
                 0 <= i < |rows| && rows[i] == ScanRow(c.symbol, Number(c.edge), Number(c.confidence), c.sector)
  {
    if rows != [] {
      var n := |rows| - 1;
      GatedIff(rows[..n], c);
      assert forall i | 0 <= i < n :: rows[..n][i] == rows[i];
      var row := ScanRow(c.symbol, Number(c.edge), Number(c.confidence), c.sector);
      assert (exists i :: 0 <= i < |rows| && rows[i] == row) <==>
             rows[n] == row || exists i :: 0 <= i < n && rows[..n][i] == row;
    }
  }

  // ---------- what the gate buys ----------

  lemma PickFromCandidates(scored: seq<Candidate>, selected: seq<Candidate>, maxPositions: int)
    requires maxPositions <= 0 && selected == []
    ensures |Pick(scored, selected, maxPositions)| <= 1
    ensures forall c | c in Pick(scored, selected, maxPositions) :: c in scored
  {
  }

  lemma SelectedFromCandidates(candidates: seq<Candidate>, maxPositions: int)
    ensures forall c | c in Select(candidates, maxPositions) :: c in candidates
    ensures |Select(candidates, maxPositions)| <= if maxPositions >= 1 then maxPositions else 1
  {
    var selected, scored := Select(candidates, maxPositions), Sort(BY_SCORE, candidates);
    if maxPositions >= 1 {
      SelectionOptimalIff(candidates, maxPositions);
    } else {
      PickFromCandidates(scored, [], maxPositions);
      SortSorts(BY_SCORE, candidates);
    }
    forall c | c in selected
      ensures c in candidates
    {
      if maxPositions >= 1 {
        assert c in multiset(selected);
      } else {
        SameMembers(scored, candidates, c);
      }
    }
  }

  lemma ScorePositive(pow: real -> real, c: Candidate)
    requires pow(c.edge) > 0.0 && c.confidence >= 0.55
    ensures RawScore(pow, c) > 0.0
  {
    NonNegativeProduct(pow(c.edge), 0.3 + 0.7 * c.confidence);
    NonZeroProduct(pow(c.edge), 0.3 + 0.7 * c.confidence);
  }

  /** Candidates that passed the gate, whatever their edges and confidences: the allocation never
      loops forever, and can only fail by the constraint violation, with more than fifty positions
      that are overdrawn. Up to 49 positions it succeeds: the weights sum to 1 within the tolerance,
      and with two or more positions each is between the floor and the cap and follows the order of
      the scores. A limit of zero or less counts as one. */
  lemma GateMakesAllocationSucceed(rows: seq<ScanRow>, maxPositions: int, pow: real -> real)
    requires forall c | c in Gated(rows) :: pow(c.edge) > 0.0
    ensures var scores := RawScores(pow, Select(Gated(rows), maxPositions));
            && Allocatable(scores)
            && (Weights(scores).Success? || (maxPositions > 50 && Weights(scores) == Failure(ConstraintViolation)))
    ensures var scores := RawScores(pow, Select(Gated(rows), maxPositions));
            maxPositions <= 49 ==>
              && Weights(scores).Success? && |Weights(scores).value| == |scores|
              && (scores != [] ==> 0.999999999999999 <= Sum(Weights(scores).value) < 1.0 + 1.0 / Pow2(63))
              && (|scores| >= 2 ==> FloorKept(Weights(scores).value, if |scores| == 2 then 0.75 else 0.40))
    ensures var selected := Select(Gated(rows), maxPositions);
            var weights := Weights(RawScores(pow, selected));
            maxPositions <= 49 ==>
              forall i, j | 0 <= i < |selected| && 0 <= j < |selected|
                && pow(selected[i].edge) * (0.3 + 0.7 * selected[i].confidence)
                     <= pow(selected[j].edge) * (0.3 + 0.7 * selected[j].confidence) ::
                weights.Success? && |weights.value| == |selected| && weights.value[i] <= weights.value[j]
  {
    hide Weights, Allocatable, Select, Gated, Sum, WaterFilled, Overdrawn;
    var candidates := Gated(rows);
    var selected := Select(candidates, maxPositions);
    var scores := RawScores(pow, selected);
    SelectedFromCandidates(candidates, maxPositions);
    forall i | 0 <= i < |scores|
      ensures scores[i] > 0.0
    {
      assert selected[i] in selected;
      GatedIff(rows, selected[i]);
      ScorePositive(pow, selected[i]);
    }
    PositiveAllocatable(scores);
    AllPositive(scores);
    AllocationOutcome(scores);
    if maxPositions <= 49 {
      AllocationSucceeds(scores);
    }
  }

  // ---------- scaling trades ----------

  class Trade {
    const symbol: string
    var size: real
    var scaled: bool

    constructor (symbol: string, size: real)
      ensures this.symbol == symbol && this.size == size && !scaled
    {
      this.symbol, this.size, scaled := symbol, size, false;
    }
  }

  function WeightMap(shares: seq<Share>): map<string, real> {
    if shares == [] then map[]
    else
      var s := shares[|shares| - 1];
      WeightMap(shares[..|shares| - 1])[s.symbol := s.weight]
  }

  /** The weight a symbol is listed with, the last one if it is listed twice. */
  function LastShare(shares: seq<Share>, symbol: string): Option<real> {
    if shares == [] then None
    else if shares[|shares| - 1].symbol == symbol then Some(shares[|shares| - 1].weight)
    else LastShare(shares[..|shares| - 1], symbol)
  }

  lemma {:induction false} WeightMapIsLast(shares: seq<Share>, symbol: string)
    ensures LastShare(shares, symbol)
              == if symbol in WeightMap(shares) then Some(WeightMap(shares)[symbol]) else None
  {
    if shares != [] {
      WeightMapIsLast(shares[..|shares| - 1], symbol);
    }
  }

  lemma WeightMapIsLasts(shares: seq<Share>)
    ensures forall symbol ::
              LastShare(shares, symbol) == if symbol in WeightMap(shares) then Some(WeightMap(shares)[symbol]) else None
  {
    hide LastShare, WeightMap;
    forall symbol
      ensures LastShare(shares, symbol) == if symbol in WeightMap(shares) then Some(WeightMap(shares)[symbol]) else None
    {
      WeightMapIsLast(shares, symbol);
    }
  }

  /** With distinct symbols that is the weight of the one share. */
  lemma {:induction false} LastShareOfOne(shares: seq<Share>, i: nat)
    requires i < |shares| && forall j | 0 <= j < |shares| && j != i :: shares[j].symbol != shares[i].symbol
    ensures LastShare(shares, shares[i].symbol) == Some(shares[i].weight)
  {
    if i < |shares| - 1 {
      LastShareOfOne(shares[..|shares| - 1], i);
    }
  }

  function ScaledSize(weights: map<string, real>, symbol: string, size: real, scaled: bool): real {
    if symbol !in weights then 0.0 else if scaled then size else size * weights[symbol]
  }

  /** Each trade of an allocated symbol is scaled once, however often it is listed or the scaling
      is repeated; every other trade is zeroed. */
  method ScaleTrades(trades: seq<Trade>, weights: map<string, real>)
    modifies trades
    ensures forall t | t in trades && t.symbol !in weights :: t.size == 0.0 && t.scaled == old(t.scaled)
    ensures forall t | t in trades && t.symbol in weights && old(t.scaled) :: t.size == old(t.size) && t.scaled
    ensures forall t | t in trades && t.symbol in weights && !old(t.scaled) ::
              t.size == old(t.size) * weights[t.symbol] && t.scaled
  {
    for i := 0 to |trades|
      invariant forall t | t in trades[..i] :: t.size == ScaledSize(weights, t.symbol, old(t.size), old(t.scaled))
      invariant forall t | t in trades[..i] :: t.scaled == (old(t.scaled) || t.symbol in weights)
      invariant forall t | t in trades && t !in trades[..i] :: t.size == old(t.size) && t.scaled == old(t.scaled)
    {
      var trade := trades[i];
      assert trades[..i + 1] == trades[..i] + [trade];
      if trade.symbol in weights {
        if !trade.scaled {
          trade.size := trade.size * weights[trade.symbol];
          trade.scaled := true;
        }
      } else {
        trade.size := 0.0;
      }
    }
    assert trades[..|trades|] == trades;
  }

  method ApplyPortfolio(rows: seq<ScanRow>, trades: seq<Trade>, maxPositions: int, pow: real -> real)
      returns (r: Result<seq<Share>, EngineError>)
    requires Acceptable(rows) ==> Allocatable(RawScores(pow, Select(Gated(rows), maxPositions)))
    modifies trades
    ensures !Acceptable(rows) ==> r.Failure? && FirstObjection(rows, r.error)
    ensures r.Failure? ==> forall t | t in trades :: t.size == old(t.size) && t.scaled == old(t.scaled)
    ensures r.Success? ==>
              var selected := Select(Gated(rows), maxPositions);
              var ws := Weights(RawScores(pow, selected));
              && ws.Success? && |r.value| == |selected| == |ws.value|
              && forall i | 0 <= i < |selected| ::
                   r.value[i].symbol == selected[i].symbol && r.value[i].weight == ws.value[i]
    ensures r.Success? ==> forall t | t in trades ::
              match LastShare(r.value, t.symbol)
              case None => t.size == 0.0 && t.scaled == old(t.scaled)
              case Some(weight) => t.scaled && t.size == if old(t.scaled) then old(t.size) else old(t.size) * weight
    ensures Acceptable(rows) && r.Failure? ==>
              var ws := Weights(RawScores(pow, Select(Gated(rows), maxPositions)));
              ws.Failure? && r == Failure(AllocationFailed(ws.error))
  {
    hide LastShare, WeightMap, RawScores, Weights, Allocatable, Select, Gated, Acceptable;
    var candidates := BuildCandidates(rows);
    if candidates.Failure? {
      return Failure(candidates.error);
    }
    var outcome := ComputePortfolioAllocation(candidates.value, maxPositions, pow);
    match outcome
    case Failure(e) => r := Failure(AllocationFailed(e));
    case Success(shares) =>
      ScaleTrades(trades, WeightMap(shares));
      WeightMapIsLasts(shares);
      r := Success(shares);
  }
}
