/** What the intraday replay records and risks, said of prices, sizes and times directly. */
module IntradayLaws {
  import opened Wrappers
  import opened IntradayReplay

  /** No rounding at all. */
  ghost predicate Exact(round: Rounding) {
    (forall x: real :: round.money(x) == x) && (forall x: real :: round.ratio(x) == x)
  }

  lemma ProductDifference(a: real, b: real, size: real)
    ensures Product(b, size) - Product(a, size) == (b - a) * size
  {
  }

  lemma ProductOfZero(size: real)
    ensures Product(0.0, size) == 0.0
  {
  }

  // ---------- what a closed position earned ----------

  /** Each unit of price is worth the size to a long position and costs it to a short one. */
  lemma ProfitOfMove(p: PositionState, a: real, b: real, timestamp: int, reason: Reason, exact: Rounding)
    requires Exact(exact)
    ensures Closed(p, b, timestamp, reason, exact).pnl - Closed(p, a, timestamp, reason, exact).pnl
              == (if p.direction == Long then (b - a) else (a - b)) * p.fillSize as real
  {
    var size := p.fillSize as real;
    ProductDifference(a - p.entryPrice, b - p.entryPrice, size);
    ProductDifference(p.entryPrice - a, p.entryPrice - b, size);
    assert (b - p.entryPrice) - (a - p.entryPrice) == b - a && (p.entryPrice - b) - (p.entryPrice - a) == a - b;
    hide Product;
  }

  /** Closed at its entry price, a position loses exactly its costs: basis points of what was bought. */
  lemma FlatTradeCosts(p: PositionState, timestamp: int, reason: Reason, exact: Rounding)
    requires Exact(exact)
    ensures Closed(p, p.entryPrice, timestamp, reason, exact).pnl
              == -(p.entryPrice * p.fillSize as real * ((p.slippageBps + p.costBps) / 10000.0))
  {
    ProductOfZero(p.fillSize as real);
  }

  /** The recorded profit is the exact one, rounded; the multiple is its share of what was at risk. */
  lemma RecordedProfit(p: PositionState, price: real, timestamp: int, reason: Reason, round: Rounding, exact: Rounding)
    requires Exact(exact)
    ensures var q := Closed(p, price, timestamp, reason, round);
            && q.pnl == round.money(Closed(p, price, timestamp, reason, exact).pnl)
            && q.closed && q.exitPrice == price && q.exitTimestamp == timestamp && q.reason == reason
            && q == p.(exitPrice := price, exitTimestamp := timestamp, reason := reason, closed := true,
                       pnl := q.pnl, rMultiple := q.rMultiple)
  {
    hide Product;
  }

  lemma Quotient(x: real, d: real)
    requires d > 0.0
    ensures (x / d) * d == x
  {
  }

  lemma PositiveRisk(gap: real, size: real)
    requires size > 0.0
    ensures gap > 0.0 ==> Product(gap, size) > 0.0
    ensures gap == 0.0 ==> Product(gap, size) == 0.0
  {
  }

  function Distance(p: PositionState): real {
    if p.entryPrice >= p.stopPrice then p.entryPrice - p.stopPrice else p.stopPrice - p.entryPrice
  }

  lemma MultipleOfRisk(p: PositionState, price: real, timestamp: int, reason: Reason, exact: Rounding)
    requires Exact(exact) && p.fillSize > 0
    ensures var q := Closed(p, price, timestamp, reason, exact);
            if p.entryPrice == p.stopPrice then q.rMultiple == p.rMultiple
            else q.rMultiple * (Distance(p) * p.fillSize as real) == q.pnl
  {
    var size := p.fillSize as real;
    var distance := Distance(p);
    PositiveRisk(distance, size);
    assert Product(distance, size) == distance * size;
    var q := Closed(p, price, timestamp, reason, exact);
    hide Product;
    if distance > 0.0 {
      Quotient(q.pnl, Product(distance, size));
    }
  }

  // ---------- one bar ----------

  /** The high follows the bar, and the stop trails it in units of the initial risk; the thresholds
      are met without a division. */
  lemma TrailingRule(p: PositionState, bar: Bar, t: Trailing)
    requires p.direction == Long
    ensures var q := Trailed(p, bar, t);
            var from := if p.trailingHigh == 0.0 then p.entryPrice else p.trailingHigh;
            var risk, gain := p.entryPrice - p.stopPrice, q.trailingHigh - p.entryPrice;
            && q.trailingHigh >= from && q.trailingHigh >= bar.high && q.trailingHigh in {from, bar.high}
            && q.barsHeld == p.barsHeld + 1
            && var trail := q.trailingHigh - t.distance * risk;
               q.stopPrice == if risk > 0.0 && gain >= t.start * risk && trail > p.stopPrice then trail
                              else if risk > 0.0 && t.breakeven * risk <= gain < t.start * risk then p.entryPrice
                              else p.stopPrice
  {
    var q := Trailed(p, bar, t);
    var risk, gain := p.entryPrice - p.stopPrice, q.trailingHigh - p.entryPrice;
    if risk > 0.0 {
      Threshold(gain, risk, t.start);
      Threshold(gain, risk, t.breakeven);
      assert Product(risk, t.distance) == t.distance * risk;
    }
    hide Product;
  }

  lemma Threshold(gain: real, risk: real, t: real)
    requires risk > 0.0
    ensures gain / risk >= t <==> gain >= t * risk
  {
    var r := gain / risk;
    assert r * risk == gain;
    assert (r - t) * risk == gain - t * risk;
    if r < t {
      assert (t - r) * risk > 0.0;
    } else {
      assert (r - t) * risk >= 0.0;
    }
  }

  /** A long position leaves at its stop, or at its target, or not at all; a gap fills at the open. Any
      position leaves at the close of a bar in the last minute of the session, or later, once 999 days
      have passed. */
  lemma ExitRule(p: PositionState, bar: Bar, rules: Rules)
    requires !p.closed
    ensures var q := Tracked(p, bar, rules);
            var stop := q.stopPrice;
            var local := bar.timestamp + 10800;
            var expired := local / 86400 >= p.entryDay + 999 && local % 86400 >= 64740;
            if p.direction == Long && bar.low <= stop then
              && q.closed && q.reason == (if stop > p.entryPrice then TrailingStop else Stop)
              && q.exitPrice == (if bar.open < stop then bar.open else stop) && q.exitTimestamp == bar.timestamp
            else if p.direction == Long && bar.high >= p.targetPrice then
              && q.closed && q.reason == Target && q.exitTimestamp == bar.timestamp
              && q.exitPrice == (if bar.open > p.targetPrice then bar.open else p.targetPrice)
            else if expired then
              q.closed && q.reason == MaxHold && q.exitPrice == bar.close && q.exitTimestamp == bar.timestamp
            else !q.closed
  {
    TrailedKeeps(p, bar, rules.trailing);
    hide Trailed, Product;
  }

  // ---------- entering ----------

  lemma WholePart(x: real)
    ensures Truncated(x) > 0 <==> x >= 1.0
    ensures x >= 1.0 ==> Truncated(x) as real <= x < Truncated(x) as real + 1.0
  {
  }

  lemma SizeLimit(equity: real, signal: Signal)
    requires signal.entryPrice > 0.0
    ensures MaxSize(equity, signal) > 0 <==> equity * 0.10 >= signal.entryPrice
    ensures MaxSize(equity, signal) > 0 ==>
              && MaxSize(equity, signal) as real * signal.entryPrice <= equity * 0.10
              && equity * 0.10 < (MaxSize(equity, signal) + 1) as real * signal.entryPrice
  {
    var x, price := equity * 0.10 / signal.entryPrice, signal.entryPrice;
    WholePart(x);
    Quotient(equity * 0.10, price);
    Threshold(equity * 0.10, price, 1.0);
    var n := Truncated(x);
    assert MaxSize(equity, signal) == n;
    Threshold(equity * 0.10, price, n as real);
    Threshold(equity * 0.10, price, (n + 1) as real);
  }

  /** A pending signal is executed exactly when there is room, a tenth of the equity buys one unit at
      the signal's price, and the fill is not rejected; the position takes its terms from the fill and
      no more units than the fill offers or a tenth of the equity buys. It is rejected otherwise. */
  lemma EntryRule(s: State, bar: Bar, m: Market)
    requires s.pending.Some? && s.pending.value.entryPrice > 0.0
    ensures var signal, after := s.pending.value, Entries(s, bar, m);
            var fill := m.execute(signal, bar, s.buffer);
            && after.pending.None? && after.equity == s.equity && after.trades == s.trades
            && if |s.positions| < m.maxPositions && s.equity * 0.10 >= signal.entryPrice && fill.Filled? then
                 && after.executed == s.executed + 1 && after.rejected == s.rejected
                 && |after.positions| == |s.positions| + 1 && after.positions[..|s.positions|] == s.positions
                 && var p := after.positions[|s.positions|];
                    && p.direction == fill.direction && p.entryPrice == fill.price
                    && p.stopPrice == fill.stop && p.targetPrice == fill.target
                    && p.slippageBps == fill.slippageBps && p.costBps == fill.costBps
                    && p.entryDay == (fill.timestamp + 10800) / 86400
                    && !p.closed && p.barsHeld == 0 && p.trailingHigh == 0.0
                    && p.fillSize <= fill.size && p.fillSize as real * signal.entryPrice <= s.equity * 0.10
                    && (p.fillSize == fill.size || (p.fillSize + 1) as real * signal.entryPrice > s.equity * 0.10)
               else
                 after.positions == s.positions && after.executed == s.executed && after.rejected == s.rejected + 1
  {
    var signal, after := s.pending.value, Entries(s, bar, m);
    var fill := m.execute(signal, bar, s.buffer);
    SizeLimit(s.equity, signal);
    if |s.positions| < m.maxPositions && s.equity * 0.10 >= signal.entryPrice && fill.Filled? {
      var limit := MaxSize(s.equity, signal);
      if fill.size <= limit {
        SmallerSize(fill.size, limit, signal.entryPrice);
      }
    }
    hide MaxSize;
  }

  lemma SmallerSize(a: int, b: int, price: real)
    requires a <= b && price > 0.0
    ensures a as real * price <= b as real * price
  {
    assert (b - a) as real * price >= 0.0;
    assert (b - a) as real == b as real - a as real;
  }

  /** A signal without a positive price is rejected. */
  lemma UnpricedRejected(s: State, bar: Bar, m: Market)
    requires s.pending.Some? && s.pending.value.entryPrice <= 0.0
    ensures Entries(s, bar, m) == s.(pending := None, rejected := s.rejected + 1)
  {
  }

  // ---------- what open positions are worth ----------

  function ClosedAll(ps: seq<PositionState>, price: real, timestamp: int, exact: Rounding): seq<PositionState> {
    seq(|ps|, i requires 0 <= i < |ps| => Closed(ps[i], price, timestamp, BacktestEnd, exact))
  }

  /** Open long positions without costs are worth what closing them at once would earn; open short ones
      count for nothing until they are closed. */
  lemma {:induction false} WorthIsClosingProfit(ps: seq<PositionState>, close: real, timestamp: int, exact: Rounding)
    requires Exact(exact) && forall i | 0 <= i < |ps| :: !ps[i].closed && ps[i].slippageBps + ps[i].costBps == 0.0
    ensures (forall i | 0 <= i < |ps| :: ps[i].direction == Long) ==>
              Unrealized(ps, close) == Profit(ClosedAll(ps, close, timestamp, exact))
    ensures (forall i | 0 <= i < |ps| :: ps[i].direction == Short) ==> Unrealized(ps, close) == 0.0
  {
    if ps != [] {
      var n := |ps| - 1;
      WorthIsClosingProfit(ps[..n], close, timestamp, exact);
      var all := ClosedAll(ps, close, timestamp, exact);
      assert all[..n] == ClosedAll(ps[..n], close, timestamp, exact);
      NoCost(ps[n]);
      hide Product;
    }
  }

  lemma NoCost(p: PositionState)
    requires p.slippageBps + p.costBps == 0.0
    ensures Product(Product(p.entryPrice, p.fillSize as real), (p.slippageBps + p.costBps) / 10000.0) == 0.0
  {
  }

  // ---------- the order of a bar ----------

  /** The state when the exits of a bar are through. */
  function LeftOver(s: State, bar: Bar, m: Market): State {
    var tracked := TrackedAll(s.positions, bar, m.rules);
    s.(positions := Kept(tracked, Flags(tracked)), trades := s.trades + Gone(tracked, Flags(tracked)),
       equity := s.equity + Profit(tracked))
  }

  /** Exits come first and free room and equity, then the signal of the bar before is executed on the
      bars before, then the scanner looks at those bars, and last the bar itself is remembered. */
  lemma BarOrder(s: State, i: nat, bar: Bar, m: Market)
    ensures var left, after := LeftOver(s, bar, m), OnBar(s, i, bar, m);
            var entered, signal := Entries(left, bar, m), m.scan(i, s.buffer);
            var wanted := signal.Some? && (m.edges.None? || signal.value.edge in m.edges.value);
            && after.positions == entered.positions && after.equity == left.equity && after.trades == left.trades
            && after.executed == entered.executed && after.rejected == entered.rejected
            && after.pending == (if wanted then signal else entered.pending)
            && after.generated == s.generated + (if wanted then 1 else 0)
            && after.buffer == (if |s.buffer| >= 200 then (s.buffer + [bar])[|s.buffer| - 199..] else s.buffer + [bar])
  {
    hide Kept, Gone, Flags, TrackedAll, Profit, Unrealized, Drawdown, Entries, LastBars, Max;
    EntryKeeps(LeftOver(s, bar, m), bar, m);
    LastTwoHundred(s.buffer, bar);
  }

  /** A share of the peak, or nothing when there is no peak to lose. */
  lemma DrawdownIsShare(peak: real, current: real)
    ensures if peak > 0.0 then Drawdown(peak, current) * peak == peak - current else Drawdown(peak, current) == 0.0
  {
    if peak > 0.0 {
      Quotient(peak - current, peak);
    }
  }

  /** The bar marks the account at its close: the peak follows, and one point joins the curve. */
  lemma BarMarks(s: State, i: nat, bar: Bar, m: Market)
    ensures var after := OnBar(s, i, bar, m);
            var current := after.equity + Unrealized(after.positions, bar.close);
            && after.peak == (if current > s.peak then current else s.peak)
            && |after.curve| == |s.curve| + 1 && after.curve[..|s.curve|] == s.curve
            && after.curve[|s.curve|] == CurvePoint(bar.timestamp, m.rules.round.money(current),
                                                    m.rules.round.ratio(Drawdown(after.peak, current)),
                                                    |after.positions|)
  {
    hide Kept, Gone, Flags, TrackedAll, Profit, Unrealized, Drawdown, Entries, LastBars;
    EntryKeeps(LeftOver(s, bar, m), bar, m);
  }

  lemma EntryKeeps(s: State, bar: Bar, m: Market)
    ensures var after := Entries(s, bar, m);
            && after.buffer == s.buffer && after.generated == s.generated && after.equity == s.equity
            && after.trades == s.trades && after.peak == s.peak && after.curve == s.curve
  {
    hide MaxSize;
  }

  lemma LastTwoHundred(buffer: seq<Bar>, bar: Bar)
    ensures LastBars(buffer + [bar])
              == if |buffer| >= 200 then (buffer + [bar])[|buffer| - 199..] else buffer + [bar]
  {
  }

  /** At the end every position still open is closed at the close of the last bar remembered, in order. */
  lemma EndRule(s: State, m: Market, i: nat)
    requires s.buffer != [] && i < |s.positions|
    ensures var last, after := s.buffer[|s.buffer| - 1], Finished(s, m);
            && |after.trades| == |s.trades| + |s.positions| && after.trades[..|s.trades|] == s.trades
            && var p, q := s.positions[i], after.trades[|s.trades| + i];
               && q.closed && q.exitPrice == last.close && q.exitTimestamp == last.timestamp && q.reason == BacktestEnd
               && q.number == p.number && q.direction == p.direction && q.entryPrice == p.entryPrice
               && q.fillSize == p.fillSize && q.stopPrice == p.stopPrice && q.barsHeld == p.barsHeld
  {
    hide Product, Profit;
  }
}
