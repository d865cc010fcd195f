/** The event-driven intraday replay of one symbol: exits, next-bar execution, scanning and the
    equity account, bar by bar. */
module IntradayReplay {
  import opened Wrappers

  const MAX_POSITION_PCT: real := 0.10
  const SESSION_CLOSE_SEC: int := 18 * 3600
  const MAX_HOLD_DAYS: int := 999
  const BUFFER: nat := 200

  datatype Bar = Bar(timestamp: int, open: real, high: real, low: real, close: real)

  datatype Direction = Long | Short

  datatype Reason = Open | Stop | TrailingStop | Target | MaxHold | BacktestEnd

  datatype Signal = Signal(edge: string, entryPrice: real, payload: string)

  datatype Fill = Rejected | Filled(direction: Direction, price: real, size: int, stop: real, target: real,
                                    timestamp: int, slippageBps: real, costBps: real)

  /** What a position holds; `number` counts the executed signals. */
  datatype PositionState = PositionState(
    number: nat, direction: Direction, entryPrice: real, fillSize: int, targetPrice: real, slippageBps: real,
    costBps: real, entryDay: int, stopPrice: real, trailingHigh: real, barsHeld: nat,
    exitPrice: real, exitTimestamp: int, pnl: real, rMultiple: real, reason: Reason, closed: bool)

  /** The two roundings of the engine: money to two places, ratios to more. */
  datatype Rounding = Rounding(money: real -> real, ratio: real -> real)

  /** When the stop moves to break-even, when it starts to trail, and how far behind, all in units of
      the initial risk. */
  datatype Trailing = Trailing(breakeven: real, start: real, distance: real)

  const SHIPPED: Trailing := Trailing(999.0, 999.0, 1.0)

  datatype Rules = Rules(round: Rounding, trailing: Trailing)

  function Product(a: real, b: real): real {
    a * b
  }

  // ---------- one position ----------

  function Closed(p: PositionState, price: real, timestamp: int, reason: Reason, round: Rounding): (q: PositionState) {
    var size := p.fillSize as real;
    var raw := if p.direction.Long? then Product(price - p.entryPrice, size) else Product(p.entryPrice - price, size);
    var cost := Product(Product(p.entryPrice, size), (p.slippageBps + p.costBps) / 10000.0);
    var pnl := round.money(raw - cost);
    var gap := p.entryPrice - p.stopPrice;
    var risk := Product(if gap >= 0.0 then gap else -gap, size);
    p.(exitPrice := price, exitTimestamp := timestamp, reason := reason, closed := true, pnl := pnl,
       rMultiple := if risk > 0.0 then round.ratio(pnl / risk) else p.rMultiple)
  }

  function Max(a: real, b: real): real {
    if b > a then b else a
  }

  function Min(a: real, b: real): real {
    if b < a then b else a
  }

  /** The bar is counted, and a long position's high and trailing stop follow it. */
  function Trailed(p: PositionState, bar: Bar, t: Trailing): PositionState {
    if !p.direction.Long? then p.(barsHeld := p.barsHeld + 1)
    else
      var high := Max(if p.trailingHigh == 0.0 then p.entryPrice else p.trailingHigh, bar.high);
      var risk := p.entryPrice - p.stopPrice;
      var stop :=
        if risk <= 0.0 then p.stopPrice
        else if (high - p.entryPrice) / risk >= t.start then Max(p.stopPrice, high - Product(risk, t.distance))
        else if (high - p.entryPrice) / risk >= t.breakeven then Max(p.stopPrice, p.entryPrice)
        else p.stopPrice;
      p.(barsHeld := p.barsHeld + 1, trailingHigh := high, stopPrice := stop)
  }

  function StopFill(p: PositionState, bar: Bar): real {
    if bar.open < p.stopPrice then Min(p.stopPrice, bar.open) else p.stopPrice
  }

  function TargetFill(p: PositionState, bar: Bar): real {
    if bar.open > p.targetPrice then Max(p.targetPrice, bar.open) else p.targetPrice
  }

  function PriceExit(p: PositionState, bar: Bar, round: Rounding): PositionState {
    if !p.direction.Long? then p
    else if bar.low <= p.stopPrice then
      Closed(p, StopFill(p, bar), bar.timestamp, if p.stopPrice > p.entryPrice then TrailingStop else Stop, round)
    else if bar.high >= p.targetPrice then Closed(p, TargetFill(p, bar), bar.timestamp, Target, round)
    else p
  }

  predicate HoldExpired(p: PositionState, bar: Bar) {
    var local := bar.timestamp + 3 * 3600;
    local / 86400 - p.entryDay >= MAX_HOLD_DAYS && local % 86400 >= SESSION_CLOSE_SEC - 60
  }

  /** What one bar does to an open position. */
  function Tracked(p: PositionState, bar: Bar, rules: Rules): PositionState {
    var q := PriceExit(Trailed(p, bar, rules.trailing), bar, rules.round);
    if HoldExpired(p, bar) && !q.closed then Closed(q, bar.close, bar.timestamp, MaxHold, rules.round) else q
  }

  class Position {
    const number: nat
    const direction: Direction
    const entryPrice: real
    const fillSize: int
    const targetPrice: real
    const slippageBps: real
    const costBps: real
    const entryDay: int
    var stopPrice: real
    var trailingHigh: real
    var barsHeld: nat
    var exitPrice: real
    var exitTimestamp: int
    var pnl: real
    var rMultiple: real
    var reason: Reason
    var closed: bool

    function View(): PositionState
      reads this
    {
      PositionState(number, direction, entryPrice, fillSize, targetPrice, slippageBps, costBps, entryDay, stopPrice,
                    trailingHigh, barsHeld, exitPrice, exitTimestamp, pnl, rMultiple, reason, closed)
    }

    constructor (number: nat, fill: Fill, size: int)
      requires fill.Filled?
      ensures View() == Opened(number, fill, size)
    {
      this.number, direction, entryPrice, fillSize := number, fill.direction, fill.price, size;
      targetPrice, slippageBps, costBps := fill.target, fill.slippageBps, fill.costBps;
      entryDay := (fill.timestamp + 3 * 3600) / 86400;
      stopPrice, trailingHigh, barsHeld := fill.stop, 0.0, 0;
      exitPrice, exitTimestamp, pnl, rMultiple, reason, closed := 0.0, 0, 0.0, 0.0, Open, false;
    }

    method Close(price: real, timestamp: int, reason: Reason, round: Rounding)
      modifies this
      ensures View() == Closed(old(View()), price, timestamp, reason, round)
    {
      hide Product;
      exitPrice := price;
      exitTimestamp := timestamp;
      this.reason := reason;
      closed := true;
      var size := fillSize as real;
      var raw;
      if direction.Long? {
        raw := Product(price - entryPrice, size);
      } else {
        raw := Product(entryPrice - price, size);
      }
      var cost := Product(Product(entryPrice, size), (slippageBps + costBps) / 10000.0);
      pnl := round.money(raw - cost);
      var gap := entryPrice - stopPrice;
      var risk := Product(if gap >= 0.0 then gap else -gap, size);
      if risk > 0.0 {
        rMultiple := round.ratio(pnl / risk);
      }
    }

    method Trail(bar: Bar, t: Trailing)
      modifies this
      ensures View() == Trailed(old(View()), bar, t)
    {
      barsHeld := barsHeld + 1;
      if direction.Long? {
        if trailingHigh == 0.0 {
          trailingHigh := entryPrice;
        }
        trailingHigh := Max(trailingHigh, bar.high);
        var initialRisk := entryPrice - stopPrice;
        if initialRisk > 0.0 {
          var profit := (trailingHigh - entryPrice) / initialRisk;
          if profit >= t.start {
            stopPrice := Max(stopPrice, trailingHigh - Product(initialRisk, t.distance));
          } else if profit >= t.breakeven {
            stopPrice := Max(stopPrice, entryPrice);
          }
        }
      }
    }

    /** One bar; the engine adds the profit of a position closed here to the account. */
    method Track(bar: Bar, rules: Rules)
      requires !closed
      modifies this
      ensures View() == Tracked(old(View()), bar, rules)
    {
      hide Closed, Trailed;
      ghost var before := View();
      Trail(bar, rules.trailing);
      TrailedKeeps(before, bar, rules.trailing);
      if direction.Long? {
        if bar.low <= stopPrice {
          var fillAt := stopPrice;
          if bar.open < stopPrice {
            fillAt := Min(stopPrice, bar.open);
          }
          var why := if stopPrice > entryPrice then TrailingStop else Stop;
          Close(fillAt, bar.timestamp, why, rules.round);
        } else if bar.high >= targetPrice {
          var fillAt := targetPrice;
          if bar.open > targetPrice {
            fillAt := Max(targetPrice, bar.open);
          }
          Close(fillAt, bar.timestamp, Target, rules.round);
        }
      }
      var local := bar.timestamp + 3 * 3600;
      if local / 86400 - entryDay >= MAX_HOLD_DAYS && local % 86400 >= SESSION_CLOSE_SEC - 60 && !closed {
        Close(bar.close, bar.timestamp, MaxHold, rules.round);
      }
    }
  }

  function Opened(number: nat, fill: Fill, size: int): PositionState
    requires fill.Filled?
  {
    PositionState(number, fill.direction, fill.price, size, fill.target, fill.slippageBps, fill.costBps,
                  (fill.timestamp + 3 * 3600) / 86400, fill.stop, 0.0, 0, 0.0, 0, 0.0, 0.0, Open, false)
  }

  /** Trailing moves only the stop, the high and the count of bars. */
  lemma TrailedKeeps(p: PositionState, bar: Bar, t: Trailing)
    ensures var q := Trailed(p, bar, t);
            q == p.(barsHeld := p.barsHeld + 1, trailingHigh := q.trailingHigh, stopPrice := q.stopPrice)
  {
  }

  // ---------- the stop of one position ----------

  lemma TrailingLevel(entry: real, high: real, risk: real, t: Trailing)
    requires risk > 0.0 && (high - entry) / risk >= t.start && t.start >= t.distance
    ensures high - Product(risk, t.distance) >= entry
  {
    var r := (high - entry) / risk;
    assert r * risk == high - entry;
    assert (r - t.distance) * risk >= 0.0;
    assert (r - t.distance) * risk == r * risk - risk * t.distance;
  }

  /** A stop never falls; where trailing starts no closer than it trails, a stop that has moved is at
      or above the entry price. */
  lemma TrailedStop(p: PositionState, bar: Bar, t: Trailing)
    ensures var q := Trailed(p, bar, t);
            && q.stopPrice >= p.stopPrice
            && (t.start >= t.distance ==>
                  q.stopPrice == p.stopPrice || (p.direction.Long? && p.stopPrice < p.entryPrice <= q.stopPrice))
  {
    hide Product;
    var high := Max(if p.trailingHigh == 0.0 then p.entryPrice else p.trailingHigh, bar.high);
    var risk := p.entryPrice - p.stopPrice;
    if p.direction.Long? && risk > 0.0 && (high - p.entryPrice) / risk >= t.start >= t.distance {
      TrailingLevel(p.entryPrice, high, risk, t);
    }
  }

  /** A position held over some bars, left alone once it is closed. */
  function Held(p: PositionState, bars: seq<Bar>, rules: Rules): PositionState {
    if bars == [] then p
    else
      var q := Held(p, bars[..|bars| - 1], rules);
      if q.closed then q else Tracked(q, bars[|bars| - 1], rules)
  }

  lemma TrackedStop(p: PositionState, bar: Bar, rules: Rules)
    ensures Tracked(p, bar, rules).stopPrice == Trailed(p, bar, rules.trailing).stopPrice
    ensures Tracked(p, bar, rules).entryPrice == p.entryPrice && Tracked(p, bar, rules).direction == p.direction
  {
    hide Product, HoldExpired;
  }

  /** Over a whole holding period the stop never falls. Where trailing starts no closer than it trails,
      it moves at most once: its first move takes it to the entry price or beyond, where the trailing
      rule no longer applies. */
  lemma {:induction false} StopMovesOnce(p: PositionState, bars: seq<Bar>, rules: Rules, k: nat)
    requires k <= |bars|
    ensures var mid, end := Held(p, bars[..k], rules), Held(p, bars, rules);
            && p.stopPrice <= mid.stopPrice <= end.stopPrice
            && (rules.trailing.start >= rules.trailing.distance && mid.stopPrice != p.stopPrice ==>
                  end.stopPrice == mid.stopPrice && end.stopPrice >= p.entryPrice)
            && end.entryPrice == mid.entryPrice == p.entryPrice
    decreases |bars|
  {
    hide Tracked, Trailed;
    var n := |bars| - 1;
    if k == |bars| {
      assert bars[..k] == bars;
      if bars != [] {
        StopMovesOnce(p, bars[..n], rules, n);
        assert bars[..n][..n] == bars[..n];
      }
    } else {
      StopMovesOnce(p, bars[..n], rules, k);
      assert bars[..n][..k] == bars[..k];
    }
    if bars != [] {
      var q := Held(p, bars[..n], rules);
      TrackedStop(q, bars[n], rules);
      TrailedStop(q, bars[n], rules.trailing);
    }
  }

  /** With a trailing threshold no higher than the break-even one, as shipped, the break-even
      threshold has no effect at all. */
  lemma BreakevenNeverTaken(p: PositionState, bar: Bar, t: Trailing, other: real)
    requires t.start <= t.breakeven && t.start <= other
    ensures Trailed(p, bar, t) == Trailed(p, bar, t.(breakeven := other))
  {
  }

  /** As shipped: one move of the stop at most, and the break-even threshold might as well be any
      other that is not below the trailing one. */
  lemma ShippedTrailing(p: PositionState, bars: seq<Bar>, bar: Bar, rules: Rules, k: nat, other: real)
    requires rules.trailing == SHIPPED && k <= |bars| && SHIPPED.start <= other
    ensures var mid, end := Held(p, bars[..k], rules), Held(p, bars, rules);
            mid.stopPrice != p.stopPrice ==> end.stopPrice == mid.stopPrice && end.stopPrice >= p.entryPrice
    ensures Trailed(p, bar, SHIPPED) == Trailed(p, bar, SHIPPED.(breakeven := other))
  {
    StopMovesOnce(p, bars, rules, k);
    BreakevenNeverTaken(p, bar, SHIPPED, other);
  }

  /** Before rounding, a long and a short position entered and closed alike lose the costs of both and
      nothing else: what one gains on the price the other loses. */
  lemma OppositePositionsLoseCosts(p: PositionState, price: real, timestamp: int, reason: Reason, exact: Rounding)
    requires p.direction.Long? && forall x: real :: exact.money(x) == x
    ensures Closed(p, price, timestamp, reason, exact).pnl
              + Closed(p.(direction := Short), price, timestamp, reason, exact).pnl
            == -2.0 * Product(Product(p.entryPrice, p.fillSize as real), (p.slippageBps + p.costBps) / 10000.0)
  {
    var size := p.fillSize as real;
    OppositeProducts(price - p.entryPrice, p.entryPrice - price, size);
    hide Product;
  }

  lemma OppositeProducts(a: real, b: real, c: real)
    requires a + b == 0.0
    ensures Product(a, c) + Product(b, c) == 0.0
  {
    assert (a + b) * c == a * c + b * c;
  }

  predicate Ordered(bar: Bar) {
    bar.low <= bar.open <= bar.high
  }

  /** Stops and targets fill inside the bar that triggers them, if its open lies inside it: a stop
      never above the stop price, a target never below the target price, the stop looked at first. */
  lemma ExitFillsInBar(p: PositionState, bar: Bar, rules: Rules)
    requires !p.closed
    ensures var q := Tracked(p, bar, rules);
            q.closed && q.reason != MaxHold ==>
              && q.direction.Long? && q.exitTimestamp == bar.timestamp && q.reason in {Stop, TrailingStop, Target}
              && (Ordered(bar) ==> bar.low <= q.exitPrice <= bar.high)
              && (q.reason == Target <==> bar.low > q.stopPrice)
              && (q.reason == Target ==> q.exitPrice >= q.targetPrice)
              && (q.reason != Target ==> q.exitPrice <= q.stopPrice)
              && (q.reason == TrailingStop ==> q.stopPrice > q.entryPrice)
  {
    hide Product;
    TrailedKeeps(p, bar, rules.trailing);
    hide Trailed, HoldExpired;
  }

  // ---------- removing closed positions ----------

  function Kept<T>(s: seq<T>, gone: seq<bool>): (r: seq<T>)
    requires |s| == |gone|
  {
    if s == [] then [] else (if gone[0] then [] else [s[0]]) + Kept(s[1..], gone[1..])
  }

  /** The removed elements, last first. */
  function Gone<T>(s: seq<T>, gone: seq<bool>): (r: seq<T>)
    requires |s| == |gone|
  {
    if s == [] then [] else Gone(s[1..], gone[1..]) + if gone[0] then [s[0]] else []
  }

  /** The indices of the elements to remove, ascending. */
  ghost predicate Marks(indices: seq<nat>, gone: seq<bool>) {
    && (forall k | 0 <= k < |indices| :: indices[k] < |gone| && gone[indices[k]])
    && (forall k, m | 0 <= k < m < |indices| :: indices[k] < indices[m])
    && (forall i | 0 <= i < |gone| && gone[i] :: i in indices)
  }

  lemma {:induction false} KeptNone<T>(s: seq<T>, gone: seq<bool>)
    requires |s| == |gone| && forall i | 0 <= i < |gone| :: !gone[i]
    ensures Kept(s, gone) == s && Gone(s, gone) == []
  {
    if s != [] {
      KeptNone(s[1..], gone[1..]);
      assert s == [s[0]] + s[1..];
    }
  }

  lemma SplitTail<T>(s: seq<T>, c: nat)
    requires 0 < c <= |s|
    ensures s[1..][..c - 1] == s[..c][1..] && s[1..][c - 1..] == s[c..]
  {
  }

  lemma {:induction false} KeptSplit<T>(s: seq<T>, gone: seq<bool>, c: nat)
    requires |s| == |gone| && c <= |s|
    ensures Kept(s, gone) == Kept(s[..c], gone[..c]) + Kept(s[c..], gone[c..])
    ensures Gone(s, gone) == Gone(s[c..], gone[c..]) + Gone(s[..c], gone[..c])
  {
    if c == 0 {
      assert s[0..] == s && gone[0..] == gone;
    } else {
      SplitTail(s, c);
      SplitTail(gone, c);
      KeptSplit(s[1..], gone[1..], c - 1);
      KeptFront(s, gone);
      KeptFront(s[..c], gone[..c]);
      hide Kept, Gone;
    }
  }

  lemma KeptFront<T>(s: seq<T>, gone: seq<bool>)
    requires |s| == |gone| && s != []
    ensures Kept(s, gone) == (if gone[0] then [] else [s[0]]) + Kept(s[1..], gone[1..])
    ensures Gone(s, gone) == Gone(s[1..], gone[1..]) + if gone[0] then [s[0]] else []
  {
  }

  /** Popping the recorded indices from the highest down leaves exactly what was not to be removed,
      in order, and yields the rest, last first. */
  method PopAll<T>(s: seq<T>, indices: seq<nat>, ghost gone: seq<bool>) returns (kept: seq<T>, popped: seq<T>)
    requires |s| == |gone| && Marks(indices, gone)
    ensures kept == Kept(s, gone) && popped == Gone(s, gone)
  {
    hide Kept, Gone;
    kept, popped := s, [];
    ghost var c: nat := |s|;
    KeptNone<T>([], []);
    assert s[..c] == s && s[c..] == [] && gone[c..] == [];
    var k := |indices|;
    while k > 0
      invariant 0 <= k <= |indices| && c <= |s|
      invariant forall m | 0 <= m < k :: indices[m] < c
      invariant forall i | 0 <= i < c && gone[i] :: i in indices[..k]
      invariant kept == s[..c] + Kept(s[c..], gone[c..])
      invariant popped == Gone(s[c..], gone[c..])
    {
      k := k - 1;
      var idx := indices[k];
      assert kept[idx] == s[idx];
      assert indices[..k + 1] == indices[..k] + [idx];
      assert forall i | idx < i < c :: i !in indices[..k] && i != idx;
      PopOne(s, gone, idx, c, kept);
      popped := popped + [kept[idx]];
      kept := kept[..idx] + kept[idx + 1..];
      c := idx;
    }
    KeptNone(s[..c], gone[..c]);
    KeptSplit(s, gone, c);
  }

  lemma RunOfKept<T>(s: seq<T>, gone: seq<bool>, lo: nat, hi: nat)
    requires |s| == |gone| && lo <= hi <= |s| && forall i | lo <= i < hi :: !gone[i]
    ensures Kept(s[lo..], gone[lo..]) == s[lo..hi] + Kept(s[hi..], gone[hi..])
    ensures Gone(s[lo..], gone[lo..]) == Gone(s[hi..], gone[hi..])
  {
    KeptNone(s[lo..hi], gone[lo..hi]);
    KeptSplit(s[lo..], gone[lo..], hi - lo);
    assert s[lo..][..hi - lo] == s[lo..hi] && gone[lo..][..hi - lo] == gone[lo..hi];
    assert s[lo..][hi - lo..] == s[hi..] && gone[lo..][hi - lo..] == gone[hi..];
  }

  lemma FirstGone<T>(s: seq<T>, gone: seq<bool>, idx: nat)
    requires |s| == |gone| && idx < |s| && gone[idx]
    ensures Kept(s[idx..], gone[idx..]) == Kept(s[idx + 1..], gone[idx + 1..])
    ensures Gone(s[idx..], gone[idx..]) == Gone(s[idx + 1..], gone[idx + 1..]) + [s[idx]]
  {
    assert s[idx..][1..] == s[idx + 1..] && gone[idx..][1..] == gone[idx + 1..];
  }

  lemma PopOne<T>(s: seq<T>, gone: seq<bool>, idx: nat, c: nat, kept: seq<T>)
    requires |s| == |gone| && idx < c <= |s| && gone[idx] && forall i | idx < i < c :: !gone[i]
    requires kept == s[..c] + Kept(s[c..], gone[c..])
    ensures kept[..idx] + kept[idx + 1..] == s[..idx] + Kept(s[idx..], gone[idx..])
    ensures Gone(s[idx..], gone[idx..]) == Gone(s[c..], gone[c..]) + [s[idx]]
  {
    hide Kept, Gone;
    FirstGone(s, gone, idx);
    RunOfKept(s, gone, idx + 1, c);
    Splice(s, Kept(s[c..], gone[c..]), idx, c);
  }

  lemma Splice<T>(s: seq<T>, rest: seq<T>, idx: nat, c: nat)
    requires idx < c <= |s|
    ensures (s[..c] + rest)[..idx] + (s[..c] + rest)[idx + 1..] == s[..idx] + (s[idx + 1..c] + rest)
  {
  }

  // ---------- the replay on values ----------

  datatype CurvePoint = CurvePoint(timestamp: int, equity: real, drawdown: real, open: nat)

  /** Everything the replay is given: the account, the limits, and the parts outside this model. */
  datatype Market = Market(rules: Rules, initial: real, maxPositions: int, edges: Option<set<string>>,
                           execute: (Signal, Bar, seq<Bar>) -> Fill, scan: (nat, seq<Bar>) -> Option<Signal>)

  datatype State = State(equity: real, peak: real, positions: seq<PositionState>, pending: Option<Signal>,
                         buffer: seq<Bar>, trades: seq<PositionState>, generated: nat, executed: nat,
                         rejected: nat, curve: seq<CurvePoint>)

  function TrackedAll(ps: seq<PositionState>, bar: Bar, rules: Rules): (r: seq<PositionState>)
    ensures |r| == |ps| && forall i | 0 <= i < |ps| :: r[i] == Tracked(ps[i], bar, rules)
  {
    seq(|ps|, i requires 0 <= i < |ps| => Tracked(ps[i], bar, rules))
  }

  function Flags(ps: seq<PositionState>): (r: seq<bool>)
    ensures |r| == |ps| && forall i | 0 <= i < |ps| :: r[i] == ps[i].closed
  {
    seq(|ps|, i requires 0 <= i < |ps| => ps[i].closed)
  }

  function Profit(ps: seq<PositionState>): real {
    if ps == [] then 0.0
    else Profit(ps[..|ps| - 1]) + if ps[|ps| - 1].closed then ps[|ps| - 1].pnl else 0.0
  }

  /** Closed positions leave, last first, and the account takes their profit. */
  function Exits(s: State, bar: Bar, m: Market): State {
    var tracked := TrackedAll(s.positions, bar, m.rules);
    s.(positions := Kept(tracked, Flags(tracked)), trades := s.trades + Gone(tracked, Flags(tracked)),
       equity := s.equity + Profit(tracked))
  }

  /** The whole part, towards zero. */
  function Truncated(x: real): int {
    if x >= 0.0 then x.Floor else -((-x).Floor)
  }

  function MaxSize(equity: real, signal: Signal): int {
    if signal.entryPrice > 0.0 then Truncated(equity * MAX_POSITION_PCT / signal.entryPrice) else 0
  }

  /** A signal of the previous bar is executed on this one, or rejected; it never waits. */
  function Entries(s: State, bar: Bar, m: Market): State {
    if s.pending.None? then s
    else
      var signal, done := s.pending.value, s.(pending := None);
      var fill := m.execute(signal, bar, s.buffer);
      if |s.positions| < m.maxPositions && MaxSize(s.equity, signal) > 0 && fill.Filled? then
        var size := if MaxSize(s.equity, signal) < fill.size then MaxSize(s.equity, signal) else fill.size;
        done.(positions := s.positions + [Opened(s.executed, fill, size)], executed := s.executed + 1)
      else done.(rejected := s.rejected + 1)
  }

  predicate Enabled(signal: Signal, m: Market) {
    m.edges.None? || signal.edge in m.edges.value
  }

  function Scans(s: State, i: nat, m: Market): State {
    var signal := m.scan(i, s.buffer);
    if signal.Some? && Enabled(signal.value, m) then s.(pending := signal, generated := s.generated + 1) else s
  }

  function LastBars(bars: seq<Bar>): (r: seq<Bar>)
    ensures |r| <= BUFFER && |r| <= |bars| && r == bars[|bars| - |r|..]
  {
    if |bars| > BUFFER then bars[|bars| - BUFFER..] else bars
  }

  function Unrealized(ps: seq<PositionState>, close: real): real {
    if ps == [] then 0.0
    else
      var p := ps[|ps| - 1];
      Unrealized(ps[..|ps| - 1], close)
      + if !p.closed && p.direction.Long? then Product(close - p.entryPrice, p.fillSize as real) else 0.0
  }

  /** How far an account lies below its peak, as a share of the peak. */
  function Drawdown(peak: real, current: real): real {
    if peak > 0.0 then (peak - current) / peak else 0.0
  }

  /** Open positions are valued at the close, and the peak and the drawdown follow. */
  function MarkToMarket(s: State, bar: Bar, m: Market): State {
    var current := s.equity + Unrealized(s.positions, bar.close);
    var peak := Max(s.peak, current);
    s.(peak := peak,
       curve := s.curve + [CurvePoint(bar.timestamp, m.rules.round.money(current),
                                      m.rules.round.ratio(Drawdown(peak, current)), |s.positions|)])
  }

  function OnBar(s: State, i: nat, bar: Bar, m: Market): State {
    var scanned := Scans(Entries(Exits(s, bar, m), bar, m), i, m);
    MarkToMarket(scanned.(buffer := LastBars(scanned.buffer + [bar])), bar, m)
  }

  function Start(m: Market): State {
    State(m.initial, m.initial, [], None, [], [], 0, 0, 0, [])
  }

  function After(m: Market, bars: seq<Bar>): State {
    if bars == [] then Start(m)
    else OnBar(After(m, bars[..|bars| - 1]), |bars| - 1, bars[|bars| - 1], m)
  }

  function Ended(ps: seq<PositionState>, last: Bar, round: Rounding): (r: seq<PositionState>)
    ensures |r| == |ps| && forall i | 0 <= i < |ps| ::
              r[i] == Closed(ps[i], last.close, last.timestamp, BacktestEnd, round)
  {
    seq(|ps|, i requires 0 <= i < |ps| => Closed(ps[i], last.close, last.timestamp, BacktestEnd, round))
  }

  /** What is still open is closed at the last bar. */
  function Finished(s: State, m: Market): State {
    if s.buffer == [] then s
    else
      var ended := Ended(s.positions, s.buffer[|s.buffer| - 1], m.rules.round);
      s.(positions := ended, trades := s.trades + ended, equity := s.equity + Profit(ended))
  }

  // ---------- the replay on objects ----------

  function Views(ps: seq<Position>): (r: seq<PositionState>)
    reads ps
    ensures |r| == |ps| && forall i | 0 <= i < |ps| :: r[i] == ps[i].View()
  {
    if ps == [] then [] else [ps[0].View()] + Views(ps[1..])
  }

  ghost predicate Separate(ps: seq<Position>) {
    forall i, j | 0 <= i < j < |ps| :: ps[i] != ps[j]
  }

  /** Removing commutes with looking the elements up. */
  lemma {:induction false} KeptLookup<T, U>(a: seq<T>, b: seq<U>, at: map<T, U>, gone: seq<bool>)
    requires |a| == |b| == |gone| && forall i | 0 <= i < |a| :: a[i] in at && at[a[i]] == b[i]
    ensures |Kept(a, gone)| == |Kept(b, gone)| && |Gone(a, gone)| == |Gone(b, gone)|
    ensures forall i | 0 <= i < |Kept(a, gone)| :: Kept(a, gone)[i] in at && at[Kept(a, gone)[i]] == Kept(b, gone)[i]
    ensures forall i | 0 <= i < |Gone(a, gone)| :: Gone(a, gone)[i] in at && at[Gone(a, gone)[i]] == Gone(b, gone)[i]
  {
    if a != [] {
      KeptLookup(a[1..], b[1..], at, gone[1..]);
    }
  }

  lemma {:induction false} ViewsKept(ps: seq<Position>, gone: seq<bool>)
    requires |ps| == |gone|
    ensures Views(Kept(ps, gone)) == Kept(Views(ps), gone)
    ensures Views(Gone(ps, gone)) == Gone(Views(ps), gone)
  {
    hide Views, Kept, Gone, Position.View;
    var at := map p | p in ps :: p.View();
    KeptLookup(ps, Views(ps), at, gone);
  }

  lemma {:induction false} KeptSeparate(ps: seq<Position>, gone: seq<bool>)
    requires |ps| == |gone|
    ensures forall p | p in Kept(ps, gone) :: p in ps
    ensures Separate(ps) ==> Separate(Kept(ps, gone))
  {
    if ps != [] {
      KeptSeparate(ps[1..], gone[1..]);
      assert ps == [ps[0]] + ps[1..];
      if Separate(ps) {
        assert Separate(ps[1..]);
        assert ps[0] !in ps[1..];
      }
    }
  }

  class Replay {
    const market: Market
    var equity: real
    var peak: real
    var positions: seq<Position>
    var pending: Option<Signal>
    var buffer: seq<Bar>
    var trades: seq<PositionState>
    var generated: nat
    var executed: nat
    var rejected: nat
    var curve: seq<CurvePoint>

    function View(): State
      reads this, positions
    {
      State(equity, peak, Views(positions), pending, buffer, trades, generated, executed, rejected, curve)
    }

    ghost predicate Valid()
      reads this, positions
    {
      Separate(positions) && forall i | 0 <= i < |positions| :: !positions[i].closed
    }

    constructor (market: Market)
      ensures Valid() && View() == Start(market) && this.market == market && positions == []
    {
      this.market := market;
      equity, peak := market.initial, market.initial;
      positions, pending, buffer, trades := [], None, [], [];
      generated, executed, rejected, curve := 0, 0, 0, [];
    }

    /** Stops, targets and the holding limit, position by position; the account takes the profit of
        those closed, and their indices are noted. */
    method TrackPositions(bar: Bar) returns (indices: seq<nat>)
      requires Valid()
      modifies this`equity, positions
      ensures Views(positions) == TrackedAll(old(Views(positions)), bar, market.rules)
      ensures equity == old(equity) + Profit(Views(positions))
      ensures Marks(indices, Flags(Views(positions)))
    {
      hide Tracked, Position.View, Views, Marks, Profit, TrackedAll, Flags;
      ghost var was := Views(positions);
      ghost var tracked := TrackedAll(was, bar, market.rules);
      indices := [];
      NothingMarked();
      NoProfit();
      for i := 0 to |positions|
        invariant forall j | 0 <= j < i :: positions[j].View() == tracked[j]
        invariant forall j | i <= j < |positions| :: positions[j].View() == was[j] && !positions[j].closed
        invariant equity == old(equity) + Profit(tracked[..i])
        invariant Marks(indices, Flags(tracked[..i]))
      {
        var p := positions[i];
        p.Track(bar, market.rules);
        ClosedView(p);
        MarkNext(indices, tracked, i);
        ProfitNext(tracked, i);
        if p.closed {
          equity := equity + p.pnl;
          indices := indices + [i];
        }
      }
      assert tracked[..|positions|] == tracked && Views(positions) == tracked;
    }

    /** Closed positions are popped from the highest index down and recorded. */
    method CheckExits(bar: Bar)
      requires Valid()
      modifies this, positions
      ensures Valid() && View() == Exits(old(View()), bar, market)
      ensures forall p | p in positions :: p in old(positions)
    {
      hide Tracked, TrackedAll, Position.View, Views, Marks, Profit, Kept, Gone, Flags;
      var indices := TrackPositions(bar);
      ghost var tracked := Views(positions);
      var kept, popped := PopAll(positions, indices, Flags(tracked));
      ViewsKept(positions, Flags(tracked));
      KeptSeparate(positions, Flags(tracked));
      KeptOpen(positions, tracked);
      positions := kept;
      trades := trades + Views(popped);
    }

    /** The signal of the previous bar is executed on this one, or counted as rejected. */
    method ExecutePending(bar: Bar)
      requires Valid()
      modifies this
      ensures Valid() && View() == Entries(old(View()), bar, market)
      ensures forall p | p in positions :: p in old(positions) || fresh(p)
    {
      hide Views, Position.View;
      if pending.Some? {
        var signal := pending.value;
        if |positions| < market.maxPositions {
          var maxSize := MaxSize(equity, signal);
          if maxSize > 0 {
            var fill := market.execute(signal, bar, buffer);
            if fill.Filled? {
              var p := new Position(executed, fill, if maxSize < fill.size then maxSize else fill.size);
              ClosedView(p);
              ViewsAppend(positions, p);
              positions := positions + [p];
              executed := executed + 1;
            } else {
              rejected := rejected + 1;
            }
          } else {
            rejected := rejected + 1;
          }
        } else {
          rejected := rejected + 1;
        }
        pending := None;
      }
    }

    method ScanSignals(i: nat)
      requires Valid()
      modifies this`pending, this`generated
      ensures Valid() && View() == Scans(old(View()), i, market)
    {
      var signal := market.scan(i, buffer);
      if signal.Some? && (market.edges.None? || signal.value.edge in market.edges.value) {
        pending := signal;
        generated := generated + 1;
      }
    }

    method AppendBar(bar: Bar)
      requires Valid()
      modifies this`buffer
      ensures Valid() && View() == old(View()).(buffer := LastBars(old(buffer) + [bar]))
    {
      buffer := buffer + [bar];
      if |buffer| > BUFFER {
        buffer := buffer[|buffer| - BUFFER..];
      }
    }

    method UnrealizedProfit(bar: Bar) returns (unrealized: real)
      ensures unrealized == Unrealized(Views(positions), bar.close)
    {
      hide Views, Product;
      unrealized := 0.0;
      for i := 0 to |positions|
        invariant unrealized == Unrealized(Views(positions)[..i], bar.close)
      {
        assert Views(positions)[..i + 1][..i] == Views(positions)[..i];
        var p := positions[i];
        if !p.closed && p.direction.Long? {
          unrealized := unrealized + Product(bar.close - p.entryPrice, p.fillSize as real);
        }
      }
      assert Views(positions)[..|positions|] == Views(positions);
    }

    method UpdateCurve(bar: Bar)
      requires Valid()
      modifies this`peak, this`curve
      ensures Valid() && View() == MarkToMarket(old(View()), bar, market)
    {
      hide Views, Unrealized;
      var unrealized := UnrealizedProfit(bar);
      var current := equity + unrealized;
      if current > peak {
        peak := current;
      }
      var drawdown := if peak > 0.0 then (peak - current) / peak else 0.0;
      curve := curve + [CurvePoint(bar.timestamp, market.rules.round.money(current),
                                   market.rules.round.ratio(drawdown), |positions|)];
    }

    /** One bar: exits, the pending entry, the scan of prior bars, the buffer, the curve. */
    method ProcessBar(i: nat, bar: Bar)
      requires Valid()
      modifies this, positions
      ensures Valid() && View() == OnBar(old(View()), i, bar, market)
      ensures forall p | p in positions :: p in old(positions) || fresh(p)
    {
      hide Valid, View, Exits, Entries, Scans, MarkToMarket;
      CheckExits(bar);
      ExecutePending(bar);
      ScanSignals(i);
      ghost var scanned := View();
      SameBuffer();
      AppendBar(bar);
      UpdateCurve(bar);
    }

    lemma SameBuffer()
      ensures View().buffer == buffer && View().positions == Views(positions)
    {
    }

    /** Open positions are closed at the last bar the buffer holds. */
    method Finish()
      requires Valid()
      modifies this, positions
      ensures View() == Finished(old(View()), market)
    {
      hide Closed, Position.View, Views, Profit;
      if buffer != [] {
        var last := buffer[|buffer| - 1];
        ghost var was := Views(positions);
        ghost var ended := Ended(was, last, market.rules.round);
        NoProfit();
        for i := 0 to |positions|
          invariant unchanged(this`positions) && unchanged(this`peak) && unchanged(this`pending)
                      && unchanged(this`buffer)
          invariant unchanged(this`generated) && unchanged(this`executed) && unchanged(this`rejected)
                      && unchanged(this`curve)
          invariant forall j | 0 <= j < i :: positions[j].View() == ended[j]
          invariant forall j | i <= j < |positions| :: positions[j].View() == was[j] && !positions[j].closed
          invariant equity == old(equity) + Profit(ended[..i]) && trades == old(trades) + ended[..i]
        {
          var p := positions[i];
          p.Close(last.close, last.timestamp, BacktestEnd, market.rules.round);
          ClosedIsClosed(was[i], last, market.rules.round);
          ClosedView(p);
          ProfitNext(ended, i);
          equity := equity + p.pnl;
          trades := trades + [p.View()];
        }
        assert ended[..|positions|] == ended && Views(positions) == ended;
      }
    }
  }

  lemma ClosedIsClosed(p: PositionState, bar: Bar, round: Rounding)
    ensures Closed(p, bar.close, bar.timestamp, BacktestEnd, round).closed
  {
  }

  lemma ViewsAppend(ps: seq<Position>, p: Position)
    ensures Views(ps + [p]) == Views(ps) + [p.View()]
  {
    hide Views, Position.View;
  }

  /** The whole replay over one symbol's bars. */
  method Run(market: Market, bars: seq<Bar>) returns (replay: Replay)
    ensures fresh(replay) && replay.market == market
    ensures replay.View() == Finished(After(market, bars), market)
  {
    hide OnBar, Replay.View, Replay.Valid;
    replay := new Replay(market);
    for i := 0 to |bars|
      invariant fresh(replay) && replay.market == market && replay.Valid()
      invariant fresh(replay.positions)
      invariant replay.View() == After(market, bars[..i])
    {
      assert bars[..i + 1][..i] == bars[..i];
      ghost var before := replay.positions;
      replay.ProcessBar(i, bars[i]);
      forall k | 0 <= k < |replay.positions|
        ensures fresh(replay.positions[k])
      {
        var p := replay.positions[k];
        assert p in replay.positions;
        if p in before {
          var j :| 0 <= j < |before| && before[j] == p;
          assert fresh(before[j]);
        }
      }
    }
    assert bars[..|bars|] == bars;
    replay.Finish();
  }

  lemma NothingMarked()
    ensures Marks([], Flags([]))
  {
  }

  lemma ProfitNext(ps: seq<PositionState>, i: nat)
    requires i < |ps|
    ensures Profit(ps[..i + 1]) == Profit(ps[..i]) + if ps[i].closed then ps[i].pnl else 0.0
  {
    assert ps[..i + 1][..i] == ps[..i];
  }

  lemma ClosedView(p: Position)
    ensures p.closed == p.View().closed && p.pnl == p.View().pnl
  {
  }

  lemma MarkNext(indices: seq<nat>, tracked: seq<PositionState>, i: nat)
    requires i < |tracked| && Marks(indices, Flags(tracked[..i]))
    ensures Marks(if tracked[i].closed then indices + [i] else indices, Flags(tracked[..i + 1]))
  {
    var before, after := Flags(tracked[..i]), Flags(tracked[..i + 1]);
    assert forall j | 0 <= j < i :: after[j] == before[j];
  }

  /** What is left after popping is open. */
  lemma KeptOpen(ps: seq<Position>, views: seq<PositionState>)
    requires Views(ps) == views
    ensures forall p | p in Kept(ps, Flags(views)) :: !p.closed
  {
    forall i | 0 <= i < |ps|
      ensures ps[i].closed == Flags(views)[i]
    {
    }
    KeptUnflagged(ps, Flags(views));
  }

  lemma {:induction false} KeptUnflagged<T>(s: seq<T>, gone: seq<bool>)
    requires |s| == |gone|
    ensures forall x | x in Kept(s, gone) :: exists i :: 0 <= i < |s| && s[i] == x && !gone[i]
  {
    if s != [] {
      KeptUnflagged(s[1..], gone[1..]);
      forall x | x in Kept(s, gone)
        ensures exists i :: 0 <= i < |s| && s[i] == x && !gone[i]
      {
        if x in Kept(s[1..], gone[1..]) {
          var i :| 0 <= i < |s[1..]| && s[1..][i] == x && !gone[1..][i];
          assert s[i + 1] == x && !gone[i + 1];
        }
      }
    }
  }

  // ---------- what every replay keeps ----------

  lemma {:induction false} ProfitAdds(a: seq<PositionState>, b: seq<PositionState>)
    ensures Profit(a + b) == Profit(a) + Profit(b)
  {
    if b == [] {
      assert a + b == a;
    } else {
      var n := |b| - 1;
      ProfitAdds(a, b[..n]);
      assert (a + b)[..|a| + n] == a + b[..n];
    }
  }

  /** How many of some positions carry serial number `k`. */
  function Records(ps: seq<PositionState>, k: nat): nat {
    if ps == [] then 0 else Records(ps[..|ps| - 1], k) + if ps[|ps| - 1].number == k then 1 else 0
  }

  lemma {:induction false} RecordsAdd(a: seq<PositionState>, b: seq<PositionState>, k: nat)
    ensures Records(a + b, k) == Records(a, k) + Records(b, k)
  {
    if b == [] {
      assert a + b == a;
    } else {
      var n := |b| - 1;
      RecordsAdd(a, b[..n], k);
      assert (a + b)[..|a| + n] == a + b[..n];
    }
  }

  lemma {:induction false} SameRecords(a: seq<PositionState>, b: seq<PositionState>, k: nat)
    requires |a| == |b| && forall i | 0 <= i < |a| :: a[i].number == b[i].number
    ensures Records(a, k) == Records(b, k)
  {
    if a != [] {
      SameRecords(a[..|a| - 1], b[..|b| - 1], k);
    }
  }

  lemma KeptCons<T>(s: seq<T>, gone: seq<bool>)
    requires |s| == |gone| && s != []
    ensures Kept(s, gone) == if gone[0] then Kept(s[1..], gone[1..]) else [s[0]] + Kept(s[1..], gone[1..])
    ensures Gone(s, gone) == if gone[0] then Gone(s[1..], gone[1..]) + [s[0]] else Gone(s[1..], gone[1..])
  {
  }

  /** Popping splits the positions: nothing is lost or doubled. */
  lemma {:induction false} PoppedRecords(ps: seq<PositionState>, flags: seq<bool>, k: nat)
    requires |ps| == |flags|
    ensures |Kept(ps, flags)| + |Gone(ps, flags)| == |ps|
    ensures Records(Kept(ps, flags), k) + Records(Gone(ps, flags), k) == Records(ps, k)
  {
    if ps == [] {
    } else {
      hide Records, Kept, Gone;
      var rest, more := ps[1..], flags[1..];
      PoppedRecords(rest, more, k);
      KeptCons(ps, flags);
      assert ps == [ps[0]] + rest;
      RecordsAdd([ps[0]], rest, k);
      RecordsAdd([ps[0]], Kept(rest, more), k);
      RecordsAdd(Gone(rest, more), [ps[0]], k);
    }
  }

  lemma NoProfit()
    ensures Profit([]) == 0.0
  {
  }

  /** The account takes the profit of exactly the popped positions. */
  lemma {:induction false} PoppedProfit(ps: seq<PositionState>, flags: seq<bool>)
    requires |ps| == |flags| && forall i | 0 <= i < |ps| :: flags[i] == ps[i].closed
    ensures Profit(Gone(ps, flags)) == Profit(ps)
  {
    if ps == [] {
      NoProfit();
    } else {
      hide Profit, Gone;
      var rest, more := ps[1..], flags[1..];
      PoppedProfit(rest, more);
      KeptCons(ps, flags);
      assert ps == [ps[0]] + rest;
      SplitOne(ps[0]);
      ProfitAdds([ps[0]], rest);
      ProfitAdds(Gone(rest, more), [ps[0]]);
    }
  }

  lemma {:induction false} PoppedMembers(ps: seq<PositionState>, flags: seq<bool>)
    requires |ps| == |flags| && forall i | 0 <= i < |ps| :: flags[i] == ps[i].closed
    ensures forall p | p in Kept(ps, flags) :: !p.closed && p in ps
    ensures forall p | p in Gone(ps, flags) :: p.closed && p in ps
  {
    if ps != [] {
      PoppedMembers(ps[1..], flags[1..]);
      assert ps == [ps[0]] + ps[1..];
    }
  }

  lemma SplitOne(p: PositionState)
    ensures Profit([p]) == if p.closed then p.pnl else 0.0
  {
    assert [p][..0] == [];
  }

  /** A recorded exit happened at some bar: stops and targets only for long positions and inside the
      range of the bar, if its open is; everything else at its close. */
  predicate ExitsAt(t: PositionState, bar: Bar) {
    && t.closed && t.exitTimestamp == bar.timestamp
    && (if t.reason in {Stop, TrailingStop, Target} then
          t.direction.Long? && (Ordered(bar) ==> bar.low <= t.exitPrice <= bar.high)
        else t.reason in {MaxHold, BacktestEnd} && t.exitPrice == bar.close)
  }

  ghost predicate Explained(trades: seq<PositionState>, bars: seq<Bar>) {
    forall t | t in trades :: SomeBar(t, bars)
  }

  predicate SomeBar(t: PositionState, bars: seq<Bar>) {
    exists j | 0 <= j < |bars| :: ExitsAt(t, bars[j])
  }

  ghost predicate Conserved(s: State, m: Market, bars: seq<Bar>) {
    && s.equity == m.initial + Profit(s.trades)
    && s.generated == s.executed + s.rejected + (if s.pending.Some? then 1 else 0)
    && |s.trades| + |s.positions| == s.executed
    && (forall k: nat :: Records(s.trades, k) + Records(s.positions, k) == if k < s.executed then 1 else 0)
    && |s.positions| <= (if m.maxPositions > 0 then m.maxPositions else 0)
    && (forall i | 0 <= i < |s.positions| :: !s.positions[i].closed)
    && Explained(s.trades, bars)
  }

  lemma TrackedExit(p: PositionState, bar: Bar, rules: Rules)
    requires !p.closed
    ensures Tracked(p, bar, rules).number == p.number
    ensures Tracked(p, bar, rules).closed ==> ExitsAt(Tracked(p, bar, rules), bar)
  {
    ExitFillsInBar(p, bar, rules);
    TrailedKeeps(p, bar, rules.trailing);
    hide Product, Trailed, HoldExpired;
  }

  lemma ExplainedMore(trades: seq<PositionState>, more: seq<PositionState>, bars: seq<Bar>, bar: Bar)
    requires Explained(trades, bars) && forall t | t in more :: ExitsAt(t, bar)
    ensures Explained(trades + more, bars + [bar])
  {
    hide ExitsAt;
    var after := bars + [bar];
    forall t | t in trades
      ensures SomeBar(t, after)
    {
      var j :| 0 <= j < |bars| && ExitsAt(t, bars[j]);
      assert ExitsAt(t, after[j]);
    }
    forall t | t in more
      ensures SomeBar(t, after)
    {
      assert ExitsAt(t, after[|bars|]);
    }
  }

  lemma {:induction false} ExitsKeep(s: State, m: Market, bars: seq<Bar>, bar: Bar)
    requires Conserved(s, m, bars)
    ensures Conserved(Exits(s, bar, m), m, bars + [bar])
  {
    hide Tracked, Profit, Records, Kept, Gone, ExitsAt, Explained;
    var tracked := TrackedAll(s.positions, bar, m.rules);
    var flags := Flags(tracked);
    forall i | 0 <= i < |tracked|
      ensures tracked[i].number == s.positions[i].number && (tracked[i].closed ==> ExitsAt(tracked[i], bar))
    {
      TrackedExit(s.positions[i], bar, m.rules);
    }
    forall k: nat
      ensures |Kept(tracked, flags)| + |Gone(tracked, flags)| == |tracked|
      ensures Records(s.trades + Gone(tracked, flags), k) + Records(Kept(tracked, flags), k)
              == Records(s.trades, k) + Records(s.positions, k)
    {
      SameRecords(tracked, s.positions, k);
      PoppedRecords(tracked, flags, k);
      RecordsAdd(s.trades, Gone(tracked, flags), k);
    }
    PoppedRecords(tracked, flags, 0);
    PoppedProfit(tracked, flags);
    PoppedMembers(tracked, flags);
    ProfitAdds(s.trades, Gone(tracked, flags));
    ExplainedMore(s.trades, Gone(tracked, flags), bars, bar);
  }

  lemma {:induction false} EntriesKeep(s: State, m: Market, bars: seq<Bar>, bar: Bar)
    requires Conserved(s, m, bars)
    ensures Conserved(Entries(s, bar, m), m, bars)
  {
    hide Profit, Explained, MaxSize, Records, Opened;
    if s.pending.Some? {
      var signal := s.pending.value;
      var fill := m.execute(signal, bar, s.buffer);
      if |s.positions| < m.maxPositions && MaxSize(s.equity, signal) > 0 && fill.Filled? {
        var size := if MaxSize(s.equity, signal) < fill.size then MaxSize(s.equity, signal) else fill.size;
        var p := Opened(s.executed, fill, size);
        OpenedFacts(s.executed, fill, size);
        forall k: nat
          ensures Records(s.positions + [p], k) == Records(s.positions, k) + if k == s.executed then 1 else 0
        {
          RecordsAdd(s.positions, [p], k);
          RecordOne(p, k);
        }
      }
    }
  }

  lemma RecordOne(p: PositionState, k: nat)
    ensures Records([p], k) == if p.number == k then 1 else 0
  {
    assert [p][..0] == [];
  }

  lemma OpenedFacts(number: nat, fill: Fill, size: int)
    requires fill.Filled?
    ensures Opened(number, fill, size).number == number && !Opened(number, fill, size).closed
  {
  }

  /** Scanning, the buffer and the curve leave the account and the positions alone. */
  lemma {:induction false} OnBarKeeps(s: State, i: nat, m: Market, bars: seq<Bar>, bar: Bar)
    requires Conserved(s, m, bars)
    ensures Conserved(OnBar(s, i, bar, m), m, bars + [bar])
  {
    hide Exits, Entries, Explained, Profit, Records, Unrealized, LastBars;
    ExitsKeep(s, m, bars, bar);
    EntriesKeep(Exits(s, bar, m), m, bars + [bar], bar);
    EntriesDecide(Exits(s, bar, m), bar, m);
  }

  lemma EntriesDecide(s: State, bar: Bar, m: Market)
    ensures Entries(s, bar, m).pending == None && Entries(s, bar, m).buffer == s.buffer
  {
    hide MaxSize;
  }

  /** After every bar: the account is the initial one plus the recorded profits; every generated
      signal was executed, rejected or is pending; every executed one is either recorded once or
      still open, within the limit; and every recorded exit happened at a bar. The bars may be anything. */
  lemma {:induction false} ReplayKeeps(m: Market, bars: seq<Bar>)
    ensures Conserved(After(m, bars), m, bars)
  {
    hide OnBar, Conserved;
    if bars == [] {
      EmptyReplay(m);
    } else {
      var n := |bars| - 1;
      ReplayKeeps(m, bars[..n]);
      OnBarKeeps(After(m, bars[..n]), n, m, bars[..n], bars[n]);
      assert bars[..n] + [bars[n]] == bars;
    }
  }

  /** At the end every executed signal has exactly one record, and the account is conserved. */
  lemma {:induction false} FinishedKeeps(m: Market, bars: seq<Bar>)
    ensures var end := Finished(After(m, bars), m);
            && end.equity == m.initial + Profit(end.trades)
            && end.generated == end.executed + end.rejected + (if end.pending.Some? then 1 else 0)
            && |end.trades| == end.executed
            && (forall k: nat :: Records(end.trades, k) == if k < end.executed then 1 else 0)
            && (forall i | 0 <= i < |end.positions| :: end.positions[i].closed)
            && Explained(end.trades, bars)
  {
    var s := After(m, bars);
    ReplayKeeps(m, bars);
    BufferIsLastBars(m, bars);
    hide After, Explained, Closed, Profit, Records, ExitsAt, Ordered;
    if bars != [] {
      var last := bars[|bars| - 1];
      var ended := Ended(s.positions, last, m.rules.round);
      forall i | 0 <= i < |ended|
        ensures ExitsAt(ended[i], last) && ended[i].number == s.positions[i].number && ended[i].closed
      {
        EndedExits(s.positions[i], last, m.rules.round);
      }
      ProfitAdds(s.trades, ended);
      forall k: nat
        ensures Records(s.trades + ended, k) == Records(s.trades, k) + Records(s.positions, k)
      {
        SameRecords(ended, s.positions, k);
        RecordsAdd(s.trades, ended, k);
      }
      ExplainedAtLast(s.trades, ended, bars);
    } else {
      EmptyReplay(m);
    }
  }

  lemma EmptyReplay(m: Market)
    ensures After(m, []) == Start(m) && Explained([], []) && Conserved(Start(m), m, [])
  {
  }

  lemma EndedExits(p: PositionState, last: Bar, round: Rounding)
    ensures var q := Closed(p, last.close, last.timestamp, BacktestEnd, round);
            ExitsAt(q, last) && q.number == p.number && q.closed
  {
    hide Product;
  }

  lemma ExplainedAtLast(trades: seq<PositionState>, more: seq<PositionState>, bars: seq<Bar>)
    requires bars != [] && Explained(trades, bars) && forall i | 0 <= i < |more| :: ExitsAt(more[i], bars[|bars| - 1])
    ensures Explained(trades + more, bars)
  {
    hide ExitsAt;
  }

  lemma LastBarsOfLastBars(bars: seq<Bar>, bar: Bar)
    ensures LastBars(LastBars(bars) + [bar]) == LastBars(bars + [bar])
  {
  }

  lemma OnBarBuffer(s: State, i: nat, bar: Bar, m: Market)
    ensures var after := OnBar(s, i, bar, m);
            var signal := m.scan(i, s.buffer);
            && after.buffer == LastBars(s.buffer + [bar])
            && after.pending == if signal.Some? && Enabled(signal.value, m) then signal else None
  {
    hide Entries, LastBars, Unrealized, TrackedAll, Flags;
    EntriesDecide(Exits(s, bar, m), bar, m);
  }

  /** The scanner never sees the current bar: the buffer is the last 200 bars already processed, and
      what is pending after a bar is what the scan of that bar said. */
  lemma {:induction false} BufferIsLastBars(m: Market, bars: seq<Bar>)
    ensures After(m, bars).buffer == LastBars(bars)
    ensures bars != [] ==>
              var n := |bars| - 1;
              var signal := m.scan(n, LastBars(bars[..n]));
              After(m, bars).pending == if signal.Some? && Enabled(signal.value, m) then signal else None
  {
    hide OnBar, LastBars;
    if bars != [] {
      var n := |bars| - 1;
      BufferIsLastBars(m, bars[..n]);
      OnBarBuffer(After(m, bars[..n]), n, bars[n], m);
      LastBarsOfLastBars(bars[..n], bars[n]);
      assert bars[..n] + [bars[n]] == bars;
    }
  }

  lemma OnBarPeak(s: State, i: nat, bar: Bar, m: Market)
    ensures var after := OnBar(s, i, bar, m);
            var current := after.equity + Unrealized(after.positions, bar.close);
            && after.peak >= s.peak && after.peak >= current && Drawdown(after.peak, current) >= 0.0
            && after.curve != []
            && after.curve[|after.curve| - 1].drawdown == m.rules.round.ratio(Drawdown(after.peak, current))
  {
    hide Exits, Entries, LastBars, Unrealized;
    ExitsPeak(s, bar, m);
    EntriesPeak(Exits(s, bar, m), bar, m);
    var after := OnBar(s, i, bar, m);
    var current := after.equity + Unrealized(after.positions, bar.close);
    assert Drawdown(after.peak, current) >= 0.0;
  }

  lemma ExitsPeak(s: State, bar: Bar, m: Market)
    ensures Exits(s, bar, m).peak == s.peak
  {
  }

  lemma EntriesPeak(s: State, bar: Bar, m: Market)
    ensures Entries(s, bar, m).peak == s.peak
  {
    hide MaxSize;
  }

  /** The peak never falls and is never below the marked account; the recorded drawdown is the rounded
      distance between the two, which is never negative. */
  lemma {:induction false} PeakNeverFalls(m: Market, bars: seq<Bar>, k: nat)
    requires k <= |bars|
    ensures m.initial <= After(m, bars[..k]).peak <= After(m, bars).peak
    ensures bars != [] ==>
              var s := After(m, bars);
              var current := s.equity + Unrealized(s.positions, bars[|bars| - 1].close);
              && s.peak >= current && Drawdown(s.peak, current) >= 0.0
              && s.curve != []
              && s.curve[|s.curve| - 1].drawdown == m.rules.round.ratio(Drawdown(s.peak, current))
    decreases |bars|
  {
    hide OnBar, Unrealized;
    var n := |bars| - 1;
    if bars == [] {
      assert bars[..k] == [];
    } else {
      OnBarPeak(After(m, bars[..n]), n, bars[n], m);
      if k < |bars| {
        PeakNeverFalls(m, bars[..n], k);
        assert bars[..n][..k] == bars[..k];
      } else {
        PeakNeverFalls(m, bars[..n], n);
        assert bars[..k] == bars && bars[..n][..n] == bars[..n];
      }
    }
  }
}
