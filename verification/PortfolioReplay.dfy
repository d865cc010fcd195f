/** Phase two of the portfolio backtest: every trade of every symbol, replayed in entry order
    through the portfolio's limits. */
module PortfolioReplay {
  import opened Sorting

  const MAX_PER_SYMBOL := 2
  const MAX_SECTOR_EXPOSURE: real := 0.35
  const MAX_TOTAL_EXPOSURE: real := 0.80
  const MAX_POSITION_PCT: real := 0.15
  const SECONDS_PER_DAY := 86400

  datatype RawTrade = RawTrade(symbol: string, entryTs: int, exitTs: int, entryPrice: real, exitPrice: real,
                               stopPrice: real, pnl: real, shares: int, edge: string, long: bool)

  datatype OpenPosition = OpenPosition(symbol: string, sector: string, notional: real, risk: real, entryTs: int,
                                       exitTs: int)

  datatype Sizing = Sizing(shares: int, notional: real, risk: real)

  /** What the replay takes from the other engines: sectors, correlation, risk limits, sizing and
      rounding, each an arbitrary function of what it is given. */
  datatype Engines = Engines(
    maxPositions: int,
    sector: string -> string,
    correlated: (string, string) -> bool,
    entriesAllowed: (real, real) -> bool,
    dailyHalted: (real, real) -> bool,
    riskCapped: (real, real) -> bool,
    sizing: (RawTrade, real, real, nat) -> Sizing,
    round: real -> real)

  datatype Reason = NoReason | MaxPositions | MaxPerSymbol | SectorExposure | TotalExposure | Correlation
                  | DrawdownBlocked | DailyLossLimit | TotalRiskCap | ZeroSize

  datatype Accepted = Accepted(trade: RawTrade, pnl: real, position: OpenPosition)
  datatype Rejected = Rejected(trade: RawTrade, reason: Reason)

  datatype State = State(equity: real, peak: real, day: int, dayStart: real, dailyPnl: real,
                         open: seq<OpenPosition>, accepted: seq<Accepted>, rejected: seq<Rejected>)

  // ---------- the constraint check ----------

  function SymbolCount(open: seq<OpenPosition>, symbol: string): nat {
    if open == [] then 0
    else SymbolCount(open[..|open| - 1], symbol) + if open[|open| - 1].symbol == symbol then 1 else 0
  }

  function SectorNotional(open: seq<OpenPosition>, sector: string): real {
    if open == [] then 0.0
    else
      var last := open[|open| - 1];
      SectorNotional(open[..|open| - 1], sector) + if last.sector == sector then last.notional else 0.0
  }

  function TotalNotional(open: seq<OpenPosition>): real {
    if open == [] then 0.0 else TotalNotional(open[..|open| - 1]) + open[|open| - 1].notional
  }

  function TotalRisk(open: seq<OpenPosition>): real {
    if open == [] then 0.0 else TotalRisk(open[..|open| - 1]) + open[|open| - 1].risk
  }

  predicate Exceeds(notional: real, equity: real, limit: real) {
    equity > 0.0 && (notional + equity * MAX_POSITION_PCT) / equity > limit
  }

  function ConstraintReason(e: Engines, open: seq<OpenPosition>, symbol: string, equity: real): Reason {
    if |open| >= e.maxPositions then MaxPositions
    else if SymbolCount(open, symbol) >= MAX_PER_SYMBOL then MaxPerSymbol
    else if Exceeds(SectorNotional(open, e.sector(symbol)), equity, MAX_SECTOR_EXPOSURE) then SectorExposure
    else if Exceeds(TotalNotional(open), equity, MAX_TOTAL_EXPOSURE) then TotalExposure
    else if exists i :: 0 <= i < |open| && e.correlated(symbol, open[i].symbol) then Correlation
    else NoReason
  }

  method CheckConstraints(e: Engines, open: seq<OpenPosition>, symbol: string, equity: real) returns (r: Reason)
    ensures r == ConstraintReason(e, open, symbol, equity)
  {
    if |open| >= e.maxPositions {
      return MaxPositions;
    }
    var count, sectorNotional, total := 0, 0.0, 0.0;
    for i := 0 to |open|
      invariant count == SymbolCount(open[..i], symbol)
      invariant sectorNotional == SectorNotional(open[..i], e.sector(symbol))
      invariant total == TotalNotional(open[..i])
    {
      assert open[..i + 1][..i] == open[..i];
      count := count + if open[i].symbol == symbol then 1 else 0;
      sectorNotional := sectorNotional + if open[i].sector == e.sector(symbol) then open[i].notional else 0.0;
      total := total + open[i].notional;
    }
    assert open[..|open|] == open;
    if count >= MAX_PER_SYMBOL {
      return MaxPerSymbol;
    }
    if Exceeds(sectorNotional, equity, MAX_SECTOR_EXPOSURE) {
      return SectorExposure;
    }
    if Exceeds(total, equity, MAX_TOTAL_EXPOSURE) {
      return TotalExposure;
    }
    for i := 0 to |open|
      invariant forall j | 0 <= j < i :: !e.correlated(symbol, open[j].symbol)
    {
      if e.correlated(symbol, open[i].symbol) {
        return Correlation;
      }
    }
    r := NoReason;
  }

  /** The sums over open positions are additive, and of one position are its own figures. */
  lemma {:induction false} FiguresAdd(a: seq<OpenPosition>, b: seq<OpenPosition>, symbol: string, sector: string)
    ensures SymbolCount(a + b, symbol) == SymbolCount(a, symbol) + SymbolCount(b, symbol)
    ensures SectorNotional(a + b, sector) == SectorNotional(a, sector) + SectorNotional(b, sector)
    ensures TotalNotional(a + b) == TotalNotional(a) + TotalNotional(b)
    ensures TotalRisk(a + b) == TotalRisk(a) + TotalRisk(b)
  {
    if b == [] {
      assert a + b == a;
    } else {
      var n := |b| - 1;
      FiguresAdd(a, b[..n], symbol, sector);
      assert (a + b)[..|a + b| - 1] == a + b[..n];
    }
  }

  lemma FiguresOfOne(p: OpenPosition, symbol: string, sector: string)
    ensures SymbolCount([p], symbol) == (if p.symbol == symbol then 1 else 0)
    ensures SectorNotional([p], sector) == (if p.sector == sector then p.notional else 0.0)
    ensures TotalNotional([p]) == p.notional && TotalRisk([p]) == p.risk
  {
    assert [p][..0] == [];
  }

  // ---------- one step ----------

  /** The positions still open at `ts`. */
  function Still(open: seq<OpenPosition>, ts: int): seq<OpenPosition> {
    if open == [] then []
    else Still(open[..|open| - 1], ts) + if open[|open| - 1].exitTs <= ts then [] else [open[|open| - 1]]
  }

  function PortfolioPnl(e: Engines, trade: RawTrade, shares: int): real {
    if trade.shares > 0 && trade.pnl != 0.0 then e.round(trade.pnl * (shares as real / trade.shares as real))
    else if trade.entryPrice > 0.0 && trade.exitPrice > 0.0 then
      var raw := (if trade.long then trade.exitPrice - trade.entryPrice
                  else trade.entryPrice - trade.exitPrice) * shares as real;
      e.round(raw - trade.entryPrice * shares as real * 0.0072)
    else 0.0
  }

  function Rolled(s: State, trade: RawTrade): State {
    var day := trade.entryTs / SECONDS_PER_DAY;
    var open := Still(s.open, trade.entryTs);
    if day != s.day then s.(open := open, day := day, dayStart := s.equity, dailyPnl := 0.0) else s.(open := open)
  }

  function RejectReason(e: Engines, s: State, trade: RawTrade): Reason {
    var constraint := ConstraintReason(e, s.open, trade.symbol, s.equity);
    if constraint != NoReason then constraint
    else if !e.entriesAllowed(s.equity, s.peak) then DrawdownBlocked
    else if e.dailyHalted(s.dailyPnl, s.dayStart) then DailyLossLimit
    else if e.riskCapped(TotalRisk(s.open), s.equity) then TotalRiskCap
    else if e.sizing(trade, s.equity, s.peak, |s.open|).shares <= 0 then ZeroSize
    else NoReason
  }

  function Opened(e: Engines, s: State, trade: RawTrade): OpenPosition {
    var sizing := e.sizing(trade, s.equity, s.peak, |s.open|);
    OpenPosition(trade.symbol, e.sector(trade.symbol), sizing.notional, sizing.risk, trade.entryTs, trade.exitTs)
  }

  function Step(e: Engines, before: State, trade: RawTrade): State {
    var s := Rolled(before, trade);
    var reason := RejectReason(e, s, trade);
    if reason != NoReason then s.(rejected := s.rejected + [Rejected(trade, reason)])
    else
      var pnl := PortfolioPnl(e, trade, e.sizing(trade, s.equity, s.peak, |s.open|).shares);
      var equity := s.equity + pnl;
      s.(equity := equity, peak := if equity > s.peak then equity else s.peak, dailyPnl := s.dailyPnl + pnl,
         open := s.open + [Opened(e, s, trade)], accepted := s.accepted + [Accepted(trade, pnl, Opened(e, s, trade))])
  }

  function Initial(equity: real): State {
    State(equity, equity, 0, equity, 0.0, [], [], [])
  }

  function After(e: Engines, initial: real, trades: seq<RawTrade>): State {
    if trades == [] then Initial(initial) else Step(e, After(e, initial, trades[..|trades| - 1]), trades[|trades| - 1])
  }

  const BY_ENTRY := (a: RawTrade, b: RawTrade) => a.entryTs <= b.entryTs

  // ---------- the replay ----------

  method CloseExited(open: seq<OpenPosition>, ts: int) returns (still: seq<OpenPosition>)
    ensures still == Still(open, ts)
  {
    still := [];
    for i := 0 to |open|
      invariant still == Still(open[..i], ts)
    {
      assert open[..i + 1][..i] == open[..i];
      if open[i].exitTs > ts {
        still := still + [open[i]];
      }
    }
    assert open[..|open|] == open;
  }

  method ComputeRisk(open: seq<OpenPosition>) returns (risk: real)
    ensures risk == TotalRisk(open)
  {
    risk := 0.0;
    for i := 0 to |open|
      invariant risk == TotalRisk(open[..i])
    {
      assert open[..i + 1][..i] == open[..i];
      risk := risk + open[i].risk;
    }
    assert open[..|open|] == open;
  }

  /** The replay's running state, updated trade by trade. */
  class Replay {
    const engines: Engines
    var equity: real
    var peak: real
    var day: int
    var dayStart: real
    var dailyPnl: real
    var open: seq<OpenPosition>
    var accepted: seq<Accepted>
    var rejected: seq<Rejected>

    function Now(): State
      reads this
    {
      State(equity, peak, day, dayStart, dailyPnl, open, accepted, rejected)
    }

    constructor (engines: Engines, initial: real)
      ensures this.engines == engines && Now() == Initial(initial)
    {
      this.engines := engines;
      equity, peak, day, dayStart, dailyPnl := initial, initial, 0, initial, 0.0;
      open, accepted, rejected := [], [], [];
    }

    /** Lets go of the positions that have exited and starts a new day when the entry is in one. */
    method Roll(trade: RawTrade)
      modifies this
      ensures Now() == Rolled(old(Now()), trade)
    {
      open := CloseExited(open, trade.entryTs);
      var tradeDay := trade.entryTs / SECONDS_PER_DAY;
      if tradeDay != day {
        day := tradeDay;
        dayStart := equity;
        dailyPnl := 0.0;
      }
    }

    method Take(trade: RawTrade)
      modifies this
      ensures Now() == Step(engines, old(Now()), trade)
    {
      hide ConstraintReason, TotalRisk, PortfolioPnl, Rolled;
      Roll(trade);
      var allowed := engines.entriesAllowed(equity, peak);
      var halted := engines.dailyHalted(dailyPnl, dayStart);
      var risk := ComputeRisk(open);
      var capped := engines.riskCapped(risk, equity);
      var reason := CheckConstraints(engines, open, trade.symbol, equity);
      if reason != NoReason || !allowed || halted || capped {
        if reason == NoReason {
          reason := if !allowed then DrawdownBlocked else if halted then DailyLossLimit else TotalRiskCap;
        }
        rejected := rejected + [Rejected(trade, reason)];
        return;
      }
      var sizing := engines.sizing(trade, equity, peak, |open|);
      if sizing.shares <= 0 {
        rejected := rejected + [Rejected(trade, ZeroSize)];
        return;
      }
      var pnl := PortfolioPnl(engines, trade, sizing.shares);
      var position := OpenPosition(trade.symbol, engines.sector(trade.symbol), sizing.notional, sizing.risk,
                                   trade.entryTs, trade.exitTs);
      accepted := accepted + [Accepted(trade, pnl, position)];
      equity := equity + pnl;
      dailyPnl := dailyPnl + pnl;
      if equity > peak {
        peak := equity;
      }
      open := open + [position];
    }
  }

  /** The whole of phase two. */
  function Outcome(e: Engines, initial: real, raw: seq<RawTrade>): State {
    After(e, initial, Sort(BY_ENTRY, raw))
  }

  method Run(e: Engines, initial: real, raw: seq<RawTrade>) returns (result: State)
    ensures result == Outcome(e, initial, raw)
  {
    var trades := Sort(BY_ENTRY, raw);
    var replay := new Replay(e, initial);
    for i := 0 to |trades|
      invariant replay.engines == e && replay.Now() == After(e, initial, trades[..i])
    {
      assert trades[..i + 1][..i] == trades[..i];
      replay.Take(trades[i]);
    }
    assert trades[..|trades|] == trades;
    result := replay.Now();
  }

  // ---------- the open positions are exactly the accepted trades still running ----------

  function Running(accepted: seq<Accepted>, ts: int): seq<OpenPosition> {
    if accepted == [] then []
    else
      Running(accepted[..|accepted| - 1], ts)
      + if accepted[|accepted| - 1].position.exitTs <= ts then [] else [accepted[|accepted| - 1].position]
  }

  lemma {:induction false} StillTwice(open: seq<OpenPosition>, early: int, late: int)
    requires early <= late
    ensures Still(Still(open, early), late) == Still(open, late)
  {
    if open != [] {
      StillTwice(open[..|open| - 1], early, late);
      var last := open[|open| - 1];
      var rest := Still(open[..|open| - 1], early);
      if last.exitTs > early {
        assert (rest + [last])[..|rest|] == rest;
      } else {
        assert rest + [] == rest;
        assert Still(open[..|open| - 1], late) + [] == Still(open[..|open| - 1], late);
      }
    }
  }

  /** Nothing open is forgotten and nothing closed is kept: from the last entry on, the positions
      held open and still running are the accepted trades still running, in order. */
  lemma {:induction false} OpenIsRunning(e: Engines, initial: real, trades: seq<RawTrade>, ts: int)
    requires Sorted(BY_ENTRY, trades) && forall i | 0 <= i < |trades| :: trades[i].entryTs <= ts
    ensures Still(After(e, initial, trades).open, ts) == Running(After(e, initial, trades).accepted, ts)
  {
    hide RejectReason, PortfolioPnl;
    if trades != [] {
      var n := |trades| - 1;
      var trade := trades[n];
      var before, after := After(e, initial, trades[..n]), After(e, initial, trades);
      OpenIsRunning(e, initial, trades[..n], ts);
      StillTwice(before.open, trade.entryTs, ts);
      var s := Rolled(before, trade);
      if after.open != s.open {
        assert after.open[..|s.open|] == s.open;
        assert after.accepted[..|s.accepted|] == s.accepted;
      }
    }
  }

  // ---------- concurrency ----------

  predicate ActiveAt(a: Accepted, t: int) {
    a.trade.entryTs <= t < a.trade.exitTs
  }

  /** Accepted trades running at instant `t`, all of them or those of one symbol. */
  function Active(accepted: seq<Accepted>, t: int): nat {
    if accepted == [] then 0
    else Active(accepted[..|accepted| - 1], t) + if ActiveAt(accepted[|accepted| - 1], t) then 1 else 0
  }

  function ActiveIn(accepted: seq<Accepted>, symbol: string, t: int): nat {
    if accepted == [] then 0
    else
      ActiveIn(accepted[..|accepted| - 1], symbol, t)
      + if ActiveAt(accepted[|accepted| - 1], t) && accepted[|accepted| - 1].trade.symbol == symbol then 1 else 0
  }

  ghost predicate Recorded(a: Accepted, limit: int) {
    a.position.symbol == a.trade.symbol && a.position.exitTs == a.trade.exitTs && a.trade.entryTs <= limit
  }

  lemma {:induction false} AcceptedRecorded(e: Engines, initial: real, trades: seq<RawTrade>, limit: int)
    requires forall i | 0 <= i < |trades| :: trades[i].entryTs <= limit
    ensures forall i | 0 <= i < |After(e, initial, trades).accepted| ::
              Recorded(After(e, initial, trades).accepted[i], limit)
  {
    hide RejectReason, PortfolioPnl;
    if trades != [] {
      AcceptedRecorded(e, initial, trades[..|trades| - 1], limit);
    }
  }

  /** From an instant no earlier than every entry, what is active later is among what runs now. */
  lemma {:induction false} ActiveAmongRunning(accepted: seq<Accepted>, symbol: string, now: int, t: int)
    requires now <= t && forall i | 0 <= i < |accepted| :: Recorded(accepted[i], now)
    ensures Active(accepted, t) <= |Running(accepted, now)|
    ensures ActiveIn(accepted, symbol, t) <= SymbolCount(Running(accepted, now), symbol)
  {
    if accepted != [] {
      var n := |accepted| - 1;
      ActiveAmongRunning(accepted[..n], symbol, now, t);
      var rest, last := Running(accepted[..n], now), accepted[n];
      assert Recorded(last, now);
      if last.position.exitTs > now {
        assert (rest + [last.position])[..|rest|] == rest;
      } else {
        assert rest + [] == rest;
      }
    }
  }

  /** A step accepts nothing, or this trade with room among the positions still open. */
  lemma StepAccepts(e: Engines, before: State, trade: RawTrade) returns (a: Accepted)
    ensures a.trade == trade
    ensures Step(e, before, trade).accepted == before.accepted
            || (Step(e, before, trade).accepted == before.accepted + [a]
                && |Still(before.open, trade.entryTs)| < e.maxPositions
                && SymbolCount(Still(before.open, trade.entryTs), trade.symbol) < MAX_PER_SYMBOL)
  {
    hide Exceeds, PortfolioPnl, Still;
    var s := Rolled(before, trade);
    a := Accepted(trade, PortfolioPnl(e, trade, e.sizing(trade, s.equity, s.peak, |s.open|).shares),
                  Opened(e, s, trade));
  }

  lemma NothingActive(symbol: string, t: int)
    ensures Active([], t) == 0 && ActiveIn([], symbol, t) == 0
  {
  }

  lemma AppendActive(accepted: seq<Accepted>, a: Accepted, symbol: string, t: int)
    ensures Active(accepted + [a], t) == Active(accepted, t) + if ActiveAt(a, t) then 1 else 0
    ensures ActiveIn(accepted + [a], symbol, t)
              == ActiveIn(accepted, symbol, t) + if ActiveAt(a, t) && a.trade.symbol == symbol then 1 else 0
  {
    assert (accepted + [a])[..|accepted|] == accepted;
  }

  /** At every instant, at most the limit of accepted trades run, and at most two of a symbol. */
  lemma {:induction false} ConcurrencyBound(e: Engines, initial: real, trades: seq<RawTrade>, symbol: string, t: int)
    requires Sorted(BY_ENTRY, trades)
    ensures Active(After(e, initial, trades).accepted, t) <= if e.maxPositions > 0 then e.maxPositions else 0
    ensures ActiveIn(After(e, initial, trades).accepted, symbol, t) <= MAX_PER_SYMBOL
  {
    hide Step, Active, ActiveIn, Still, Running, SymbolCount;
    if trades == [] {
      NothingActive(symbol, t);
    } else {
      var n := |trades| - 1;
      var trade := trades[n];
      var before := After(e, initial, trades[..n]);
      ConcurrencyBound(e, initial, trades[..n], symbol, t);
      var a := StepAccepts(e, before, trade);
      if Step(e, before, trade).accepted != before.accepted {
        AppendActive(before.accepted, a, symbol, t);
        if ActiveAt(a, t) {
          OpenIsRunning(e, initial, trades[..n], trade.entryTs);
          AcceptedRecorded(e, initial, trades[..n], trade.entryTs);
          ActiveAmongRunning(before.accepted, symbol, trade.entryTs, t);
        }
      }
    }
  }

  /** The concurrency bound over whole runs, whatever order the trades arrive in. */
  lemma ReplayConcurrencyBound(e: Engines, initial: real, raw: seq<RawTrade>, symbol: string, t: int)
    ensures Active(Outcome(e, initial, raw).accepted, t) <= if e.maxPositions > 0 then e.maxPositions else 0
    ensures ActiveIn(Outcome(e, initial, raw).accepted, symbol, t) <= MAX_PER_SYMBOL
  {
    SortSorts(BY_ENTRY, raw);
    ConcurrencyBound(e, initial, Sort(BY_ENTRY, raw), symbol, t);
  }

  // ---------- accounting ----------

  function TotalPnl(accepted: seq<Accepted>): real {
    if accepted == [] then 0.0 else TotalPnl(accepted[..|accepted| - 1]) + accepted[|accepted| - 1].pnl
  }

  function DayPnl(accepted: seq<Accepted>, day: int): real {
    if accepted == [] then 0.0
    else
      DayPnl(accepted[..|accepted| - 1], day)
      + if accepted[|accepted| - 1].trade.entryTs / SECONDS_PER_DAY == day then accepted[|accepted| - 1].pnl else 0.0
  }

  function PeakOf(initial: real, accepted: seq<Accepted>): real {
    if accepted == [] then initial
    else
      var p, e := PeakOf(initial, accepted[..|accepted| - 1]), initial + TotalPnl(accepted);
      if e > p then e else p
  }

  function Trades(accepted: seq<Accepted>): seq<RawTrade> {
    seq(|accepted|, i requires 0 <= i < |accepted| => accepted[i].trade)
  }

  function RejectedTrades(rejected: seq<Rejected>): seq<RawTrade> {
    seq(|rejected|, i requires 0 <= i < |rejected| => rejected[i].trade)
  }

  ghost predicate Balanced(initial: real, s: State) {
    && s.equity == initial + TotalPnl(s.accepted)
    && s.peak == PeakOf(initial, s.accepted)
    && s.dailyPnl == DayPnl(s.accepted, s.day)
    && s.dayStart == s.equity - s.dailyPnl
    && (forall i | 0 <= i < |s.accepted| :: s.accepted[i].trade.entryTs / SECONDS_PER_DAY <= s.day)
  }

  /** An empty account of accepted trades has no profit on any day. */
  ghost predicate QuietStart(s: State) {
    s.accepted == [] ==> s.dailyPnl == 0.0 && s.dayStart == s.equity
  }

  lemma RollBalanced(initial: real, before: State, trade: RawTrade)
    requires Balanced(initial, before) && QuietStart(before)
    requires before.accepted != [] ==> before.day <= trade.entryTs / SECONDS_PER_DAY
    ensures Balanced(initial, Rolled(before, trade)) && QuietStart(Rolled(before, trade))
    ensures Rolled(before, trade).day == trade.entryTs / SECONDS_PER_DAY
  {
    hide Still;
    if trade.entryTs / SECONDS_PER_DAY != before.day && before.accepted != [] {
      NoPnlOn(before.accepted, before.day, trade.entryTs / SECONDS_PER_DAY);
    }
  }

  lemma AcceptBalanced(initial: real, s: State, a: Accepted, open: seq<OpenPosition>)
    requires Balanced(initial, s) && a.trade.entryTs / SECONDS_PER_DAY == s.day
    ensures var equity := s.equity + a.pnl;
            Balanced(initial, s.(equity := equity, peak := if equity > s.peak then equity else s.peak,
                                 dailyPnl := s.dailyPnl + a.pnl, open := open, accepted := s.accepted + [a]))
  {
    assert (s.accepted + [a])[..|s.accepted|] == s.accepted;
  }

  lemma StepBalanced(e: Engines, initial: real, before: State, trade: RawTrade)
    requires Balanced(initial, before) && QuietStart(before)
    requires before.accepted != [] ==> before.day <= trade.entryTs / SECONDS_PER_DAY
    ensures Balanced(initial, Step(e, before, trade)) && QuietStart(Step(e, before, trade))
    ensures Step(e, before, trade).day == trade.entryTs / SECONDS_PER_DAY
  {
    hide RejectReason, PortfolioPnl, Rolled;
    var s := Rolled(before, trade);
    RollBalanced(initial, before, trade);
    var pnl := PortfolioPnl(e, trade, e.sizing(trade, s.equity, s.peak, |s.open|).shares);
    AcceptBalanced(initial, s, Accepted(trade, pnl, Opened(e, s, trade)), s.open + [Opened(e, s, trade)]);
  }

  lemma {:induction false} NoPnlOn(accepted: seq<Accepted>, limit: int, day: int)
    requires limit < day && forall i | 0 <= i < |accepted| :: accepted[i].trade.entryTs / SECONDS_PER_DAY <= limit
    ensures DayPnl(accepted, day) == 0.0
  {
    if accepted != [] {
      NoPnlOn(accepted[..|accepted| - 1], limit, day);
    }
  }

  lemma {:induction false} ReplayBalancesSorted(e: Engines, initial: real, trades: seq<RawTrade>)
    requires Sorted(BY_ENTRY, trades)
    ensures Balanced(initial, After(e, initial, trades))
    ensures trades != [] ==> After(e, initial, trades).day == trades[|trades| - 1].entryTs / SECONDS_PER_DAY
    ensures QuietStart(After(e, initial, trades))
  {
    hide Step, Balanced;
    if trades != [] {
      var n := |trades| - 1;
      ReplayBalancesSorted(e, initial, trades[..n]);
      if n > 0 {
        assert BY_ENTRY(trades[n - 1], trades[n]);
      }
      DayMonotone(e, initial, trades);
      StepBalanced(e, initial, After(e, initial, trades[..n]), trades[n]);
    } else {
      InitialBalanced(initial);
    }
  }

  lemma InitialBalanced(initial: real)
    ensures Balanced(initial, Initial(initial))
  {
  }

  lemma DayMonotone(e: Engines, initial: real, trades: seq<RawTrade>)
    requires trades != [] && Sorted(BY_ENTRY, trades)
    ensures |trades| > 1 ==>
              trades[|trades| - 2].entryTs / SECONDS_PER_DAY <= trades[|trades| - 1].entryTs / SECONDS_PER_DAY
    ensures |trades| == 1 ==> After(e, initial, trades[..0]).accepted == []
  {
    if |trades| > 1 {
      assert BY_ENTRY(trades[|trades| - 2], trades[|trades| - 1]);
    }
  }

  lemma StepRecords(e: Engines, before: State, trade: RawTrade)
    ensures multiset(Trades(Step(e, before, trade).accepted))
              + multiset(RejectedTrades(Step(e, before, trade).rejected))
         == multiset(Trades(before.accepted)) + multiset(RejectedTrades(before.rejected)) + multiset{trade}
  {
    hide RejectReason, ConstraintReason, Still;
    var after := Step(e, before, trade);
    if after.accepted != before.accepted {
      assert Trades(after.accepted) == Trades(before.accepted) + [trade];
    } else {
      assert RejectedTrades(after.rejected) == RejectedTrades(before.rejected) + [trade];
    }
  }

  /** Every trade of the run is accepted or rejected, exactly once. */
  lemma {:induction false} EveryTradeDecided(e: Engines, initial: real, trades: seq<RawTrade>)
    ensures multiset(Trades(After(e, initial, trades).accepted))
              + multiset(RejectedTrades(After(e, initial, trades).rejected))
         == multiset(trades)
  {
    hide Step, Trades, RejectedTrades;
    if trades != [] {
      var n := |trades| - 1;
      EveryTradeDecided(e, initial, trades[..n]);
      StepRecords(e, After(e, initial, trades[..n]), trades[n]);
      assert trades == trades[..n] + [trades[n]];
    } else {
      NothingDecided(initial);
    }
  }

  lemma NothingDecided(initial: real)
    ensures Trades(Initial(initial).accepted) == [] && RejectedTrades(Initial(initial).rejected) == []
  {
  }

  /** At the end of a run equity is the initial equity and all accepted profit, the peak is the
      highest equity on the way, the day's profit is that of the last day's accepted trades, and
      every trade that came in is decided once. */
  lemma ReplayBalances(e: Engines, initial: real, raw: seq<RawTrade>)
    ensures Balanced(initial, Outcome(e, initial, raw))
    ensures multiset(Trades(Outcome(e, initial, raw).accepted))
              + multiset(RejectedTrades(Outcome(e, initial, raw).rejected))
         == multiset(raw)
  {
    hide Balanced, Trades, RejectedTrades, After;
    SortSorts(BY_ENTRY, raw);
    ReplayBalancesSorted(e, initial, Sort(BY_ENTRY, raw));
    EveryTradeDecided(e, initial, Sort(BY_ENTRY, raw));
  }

  // ---------- exposure ----------

  /** What the exposure limits leave for everything else when room for one full position is set aside. */
  lemma ExposureLeft(notional: real, equity: real, limit: real)
    requires equity > 0.0 && !Exceeds(notional, equity, limit)
    ensures notional <= (limit - MAX_POSITION_PCT) * equity
  {
    var q := (notional + equity * MAX_POSITION_PCT) / equity;
    assert q * equity == notional + equity * MAX_POSITION_PCT;
    assert (limit - q) * equity >= 0.0;
  }

  /** When a trade is accepted, the others still running hold at most 0.65 of the equity, and those of
      its sector at most 0.20. */
  lemma StepExposure(e: Engines, before: State, trade: RawTrade)
    requires Step(e, before, trade).accepted != before.accepted && before.equity > 0.0
    ensures var open := Still(before.open, trade.entryTs);
            && TotalNotional(open) <= 0.65 * before.equity
            && SectorNotional(open, e.sector(trade.symbol)) <= 0.20 * before.equity
  {
    hide Exceeds, PortfolioPnl, Still, TotalNotional, SectorNotional;
    var open := Still(before.open, trade.entryTs);
    ExposureLeft(TotalNotional(open), before.equity, MAX_TOTAL_EXPOSURE);
    ExposureLeft(SectorNotional(open, e.sector(trade.symbol)), before.equity, MAX_SECTOR_EXPOSURE);
  }

  /** The exposure limits at the acceptance of one trade, `before` being those accepted earlier: what
      still runs then, alone and with a new position of at most 15 percent of the equity. */
  ghost predicate WithinExposure(initial: real, before: seq<Accepted>, a: Accepted) {
    var equity := initial + TotalPnl(before);
    var open := Running(before, a.trade.entryTs);
    equity > 0.0 ==>
      && TotalNotional(open) <= 0.65 * equity && SectorNotional(open, a.position.sector) <= 0.20 * equity
      && (a.position.notional <= MAX_POSITION_PCT * equity ==>
            && TotalNotional(open) + a.position.notional <= MAX_TOTAL_EXPOSURE * equity
            && SectorNotional(open, a.position.sector) + a.position.notional <= MAX_SECTOR_EXPOSURE * equity)
  }

  lemma {:induction false} ExposureBound(e: Engines, initial: real, trades: seq<RawTrade>, i: nat)
    requires Sorted(BY_ENTRY, trades) && i < |After(e, initial, trades).accepted|
    ensures var accepted := After(e, initial, trades).accepted; WithinExposure(initial, accepted[..i], accepted[i])
  {
    hide TotalPnl, Running, TotalNotional, SectorNotional, WithinExposure, Still;
    assert trades != [];
    var n := |trades| - 1;
    var before, trade, after := After(e, initial, trades[..n]), trades[n], After(e, initial, trades);
    var a := StepAccepts(e, before, trade);
    if i < |before.accepted| {
      ExposureBound(e, initial, trades[..n], i);
      assert after.accepted[..i] == before.accepted[..i] && after.accepted[i] == before.accepted[i];
    } else {
      LatestExposure(e, initial, trades[..n], trade);
      assert after.accepted[..i] == before.accepted;
    }
  }

  lemma LatestExposure(e: Engines, initial: real, trades: seq<RawTrade>, trade: RawTrade)
    requires Sorted(BY_ENTRY, trades) && forall i | 0 <= i < |trades| :: trades[i].entryTs <= trade.entryTs
    requires Step(e, After(e, initial, trades), trade).accepted != After(e, initial, trades).accepted
    ensures var before := After(e, initial, trades).accepted;
            var accepted := Step(e, After(e, initial, trades), trade).accepted;
            |accepted| == |before| + 1 && WithinExposure(initial, before, accepted[|before|])
  {
    hide TotalPnl, Running, TotalNotional, SectorNotional, RejectReason, PortfolioPnl, After, PeakOf, DayPnl;
    var before := After(e, initial, trades);
    ReplayBalancesSorted(e, initial, trades);
    OpenIsRunning(e, initial, trades, trade.entryTs);
    if before.equity > 0.0 {
      StepExposure(e, before, trade);
    }
  }

  /** The exposure limits over whole runs, whatever order the trades arrive in. */
  lemma ReplayExposureBound(e: Engines, initial: real, raw: seq<RawTrade>, i: nat)
    requires i < |Outcome(e, initial, raw).accepted|
    ensures var accepted := Outcome(e, initial, raw).accepted; WithinExposure(initial, accepted[..i], accepted[i])
  {
    SortSorts(BY_ENTRY, raw);
    ExposureBound(e, initial, Sort(BY_ENTRY, raw), i);
  }

  // ---------- the profit of a resized trade ----------

  lemma ProportionAdds(x: real, a: real, b: real, n: real)
    requires n > 0.0
    ensures x * ((a + b) / n) == x * (a / n) + x * (b / n)
    ensures x * (n / n) == x
  {
    var p, q := a / n, b / n;
    assert (a + b) / n == p + q by {
      assert (p + q) * n == a + b;
    }
    assert x * (p + q) == x * p + x * q;
    assert n / n == 1.0;
  }

  lemma PriceAdds(gain: real, price: real, a: real, b: real)
    ensures gain * (a + b) - price * (a + b) * 0.0072
              == (gain * a - price * a * 0.0072) + (gain * b - price * b * 0.0072)
  {
  }

  /** Without rounding the profit of a trade is additive in the shares it is given, and at the shares it
      was recorded with it is the recorded profit. */
  lemma PnlInShares(e: Engines, trade: RawTrade, a: int, b: int)
    requires forall x: real :: e.round(x) == x
    ensures PortfolioPnl(e, trade, a + b) == PortfolioPnl(e, trade, a) + PortfolioPnl(e, trade, b)
    ensures trade.shares > 0 && trade.pnl != 0.0 ==> PortfolioPnl(e, trade, trade.shares) == trade.pnl
  {
    assert (a + b) as real == a as real + b as real;
    if trade.shares > 0 && trade.pnl != 0.0 {
      ProportionAdds(trade.pnl, a as real, b as real, trade.shares as real);
    } else if trade.entryPrice > 0.0 && trade.exitPrice > 0.0 {
      PriceAdds(if trade.long then trade.exitPrice - trade.entryPrice else trade.entryPrice - trade.exitPrice,
                trade.entryPrice, a as real, b as real);
    }
  }

  /** A trade recorded without shares or profit earns its move in price less 0.72 percent of what was
      bought, per share; without prices it earns nothing. */
  lemma PnlFromPrices(e: Engines, trade: RawTrade)
    requires trade.shares <= 0 || trade.pnl == 0.0
    ensures PortfolioPnl(e, trade, 1)
              == if trade.entryPrice <= 0.0 || trade.exitPrice <= 0.0 then 0.0
                 else if trade.long then e.round(trade.exitPrice - 1.0072 * trade.entryPrice)
                 else e.round(0.9928 * trade.entryPrice - trade.exitPrice)
  {
  }

  /** Rounding comes last, and once. */
  lemma PnlRounded(e: Engines, exact: Engines, trade: RawTrade, shares: int)
    requires exact == e.(round := exact.round) && forall x: real :: exact.round(x) == x
    requires e.round(0.0) == 0.0
    ensures PortfolioPnl(e, trade, shares) == e.round(PortfolioPnl(exact, trade, shares))
  {
  }

  // ---------- when a trade is accepted ----------

  lemma ExceedsIff(notional: real, equity: real, limit: real)
    ensures Exceeds(notional, equity, limit) <==> equity > 0.0 && notional + 0.15 * equity > limit * equity
  {
    if equity > 0.0 {
      var q := (notional + equity * 0.15) / equity;
      assert q * equity == notional + equity * 0.15;
      if q > limit {
        assert (q - limit) * equity > 0.0;
      } else {
        assert (limit - q) * equity >= 0.0;
      }
    }
  }

  /** A trade is accepted exactly when there is a position left, fewer than two of its symbol, room for 15
      percent of positive equity under 35 percent in its sector and 80 percent in all, no correlated
      position, no block by drawdown, daily loss or risk, and a positive size; the losses counted are
      those of its own day. The state then takes it with its profit, and otherwise only records it. */
  lemma AcceptedIff(e: Engines, before: State, trade: RawTrade)
    ensures var open := Still(before.open, trade.entryTs);
            var equity := before.equity;
            var sameDay := trade.entryTs / 86400 == before.day;
            var sizing := e.sizing(trade, equity, before.peak, |open|);
            var after := Step(e, before, trade);
            var pnl := PortfolioPnl(e, trade, sizing.shares);
            if && |open| < e.maxPositions && SymbolCount(open, trade.symbol) < 2
               && (equity > 0.0 ==>
                     && SectorNotional(open, e.sector(trade.symbol)) + 0.15 * equity <= 0.35 * equity
                     && TotalNotional(open) + 0.15 * equity <= 0.80 * equity)
               && (forall i | 0 <= i < |open| :: !e.correlated(trade.symbol, open[i].symbol))
               && e.entriesAllowed(equity, before.peak)
               && !e.dailyHalted(if sameDay then before.dailyPnl else 0.0, if sameDay then before.dayStart else equity)
               && !e.riskCapped(TotalRisk(open), equity) && sizing.shares > 0
            then
              && |after.accepted| == |before.accepted| + 1 && after.accepted[..|before.accepted|] == before.accepted
              && after.rejected == before.rejected && after.equity == equity + pnl
              && var a := after.accepted[|before.accepted|];
                 && a.trade == trade && a.pnl == pnl && after.open == open + [a.position]
                 && a.position.symbol == trade.symbol && a.position.sector == e.sector(trade.symbol)
                 && a.position.notional == sizing.notional && a.position.risk == sizing.risk
                 && a.position.entryTs == trade.entryTs && a.position.exitTs == trade.exitTs
            else
              && after.accepted == before.accepted && after.open == open && after.equity == equity
              && |after.rejected| == |before.rejected| + 1 && after.rejected[..|before.rejected|] == before.rejected
              && after.rejected[|before.rejected|] == Rejected(trade,
                   if |open| >= e.maxPositions then MaxPositions
                   else if SymbolCount(open, trade.symbol) >= 2 then MaxPerSymbol
                   else if equity > 0.0 && SectorNotional(open, e.sector(trade.symbol)) + 0.15 * equity > 0.35 * equity
                   then SectorExposure
                   else if equity > 0.0 && TotalNotional(open) + 0.15 * equity > 0.80 * equity then TotalExposure
                   else if exists i :: 0 <= i < |open| && e.correlated(trade.symbol, open[i].symbol) then Correlation
                   else if !e.entriesAllowed(equity, before.peak) then DrawdownBlocked
                   else if e.dailyHalted(if sameDay then before.dailyPnl else 0.0,
                                         if sameDay then before.dayStart else equity) then DailyLossLimit
                   else if e.riskCapped(TotalRisk(open), equity) then TotalRiskCap
                   else ZeroSize)
  {
    hide Exceeds, PortfolioPnl, Still, TotalNotional, SectorNotional, SymbolCount, TotalRisk;
    var open := Still(before.open, trade.entryTs);
    ExceedsIff(SectorNotional(open, e.sector(trade.symbol)), before.equity, MAX_SECTOR_EXPOSURE);
    ExceedsIff(TotalNotional(open), before.equity, MAX_TOTAL_EXPOSURE);
  }
}
