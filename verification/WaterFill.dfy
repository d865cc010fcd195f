/** The water level of a capped allocation: doubling to bracket it, then 64 bisections. */
module WaterFill {

  const TOLERANCE: real := 0.000000000000001
  const BISECTIONS: nat := 64

  function Min(a: real, b: real): real {
    if a <= b then a else b
  }

  /** Products are kept behind a name, so that the proofs below stay linear. */
  function Times(a: real, b: real): real {
    a * b
  }

  lemma TimesMonotone(a: real, b: real, w: real)
    requires a <= b && w >= 0.0
    ensures Times(a, w) <= Times(b, w) && Times(w, a) <= Times(w, b)
    ensures Times(b, w) - Times(a, w) == Times(b - a, w)
  {
    assert (b - a) * w >= 0.0;
    assert w * (b - a) >= 0.0;
  }

  lemma TimesDistributes(x: real, s: real, w: real)
    ensures Times(x, s + w) == Times(x, s) + Times(x, w)
  {
  }

  lemma TimesSuccessor(n: nat, x: real)
    ensures Times((n + 1) as real, x) == Times(n as real, x) + x
  {
    assert (n + 1) as real == n as real + 1.0;
  }

  lemma QuotientTimes(cap: real, m: real)
    requires m > 0.0
    ensures Times(cap / m, m) == cap
  {
  }

  function Sum(ws: seq<real>): real {
    if ws == [] then 0.0 else Sum(ws[..|ws| - 1]) + ws[|ws| - 1]
  }

  /** What the weights hold at level `lam`, each capped. */
  function Mass(ws: seq<real>, cap: real, lam: real): real {
    if ws == [] then 0.0 else Mass(ws[..|ws| - 1], cap, lam) + Min(cap, Times(lam, ws[|ws| - 1]))
  }

  ghost predicate NonNegative(ws: seq<real>) {
    forall i | 0 <= i < |ws| :: ws[i] >= 0.0
  }

  function Positives(ws: seq<real>): nat {
    if ws == [] then 0 else Positives(ws[..|ws| - 1]) + if ws[|ws| - 1] > 0.0 then 1 else 0
  }

  /** The caps of the positive weights together reach the target. */
  predicate Fillable(ws: seq<real>, cap: real) {
    cap > 0.0 && Times(Positives(ws) as real, cap) >= 1.0 - TOLERANCE
  }

  // ---------- the mass function ----------

  /** The mass grows with the level, and no faster than the weights' sum. */
  lemma {:induction false} MassMonotoneLipschitz(ws: seq<real>, cap: real, a: real, b: real)
    requires NonNegative(ws) && a <= b
    ensures 0.0 <= Mass(ws, cap, b) - Mass(ws, cap, a) <= Times(b - a, Sum(ws))
  {
    hide Times;
    if ws != [] {
      var n := |ws| - 1;
      MassMonotoneLipschitz(ws[..n], cap, a, b);
      TimesMonotone(a, b, ws[n]);
      TimesDistributes(b - a, Sum(ws[..n]), ws[n]);
    } else {
      TimesDistributes(b - a, 0.0, 0.0);
    }
  }

  lemma TermConcave(w: real, cap: real, a: real, b: real)
    requires w >= 0.0 && cap >= 0.0 && 0.0 < a <= b
    ensures Times(a, Min(cap, Times(b, w))) <= Times(b, Min(cap, Times(a, w)))
  {
    var x, y := Times(a, w), Times(b, w);
    TimesMonotone(a, b, w);
    if x <= cap {
      TimesMonotone(Min(cap, y), y, a);
      assert a * (b * w) == b * (a * w);
    } else {
      TimesMonotone(a, b, cap);
    }
  }

  /** The mass is concave: a larger level holds at most proportionally more. */
  lemma {:induction false} MassConcave(ws: seq<real>, cap: real, a: real, b: real)
    requires NonNegative(ws) && cap >= 0.0 && 0.0 < a <= b
    ensures Times(a, Mass(ws, cap, b)) <= Times(b, Mass(ws, cap, a))
  {
    if ws == [] {
      assert a * 0.0 == 0.0 && b * 0.0 == 0.0;
    } else {
      hide Times;
      var n := |ws| - 1;
      MassConcave(ws[..n], cap, a, b);
      TermConcave(ws[n], cap, a, b);
      TimesDistributes(a, Mass(ws[..n], cap, b), Min(cap, Times(b, ws[n])));
      TimesDistributes(b, Mass(ws[..n], cap, a), Min(cap, Times(a, ws[n])));
    }
  }

  lemma {:induction false} MassAtZero(ws: seq<real>, cap: real)
    requires cap >= 0.0
    ensures Mass(ws, cap, 0.0) == 0.0
  {
    if ws != [] {
      MassAtZero(ws[..|ws| - 1], cap);
    }
  }

  lemma {:induction false} MassBounded(ws: seq<real>, cap: real, lam: real)
    requires NonNegative(ws) && cap > 0.0
    ensures Mass(ws, cap, lam) <= Times(Positives(ws) as real, cap)
  {
    if ws != [] {
      var n := |ws| - 1;
      MassBounded(ws[..n], cap, lam);
      TimesSuccessor(Positives(ws[..n]), cap);
      TermBounded(cap, lam, ws[n]);
    }
  }

  lemma TermBounded(cap: real, lam: real, w: real)
    requires cap > 0.0 && w >= 0.0
    ensures Min(cap, Times(lam, w)) <= if w > 0.0 then cap else 0.0
  {
  }

  predicate Filled(w: real, cap: real, lam: real) {
    w > 0.0 ==> Times(lam, w) >= cap
  }

  /** At a level that fills every positive weight, the mass is all their caps. */
  lemma {:induction false} MassSaturated(ws: seq<real>, cap: real, lam: real)
    requires NonNegative(ws) && cap > 0.0
    requires forall i | 0 <= i < |ws| :: Filled(ws[i], cap, lam)
    ensures Mass(ws, cap, lam) == Times(Positives(ws) as real, cap)
  {
    if ws != [] {
      var n := |ws| - 1;
      MassSaturated(ws[..n], cap, lam);
      TimesSuccessor(Positives(ws[..n]), cap);
      assert Filled(ws[n], cap, lam);
    }
  }

  // ---------- doubling ----------

  /** The least positive weight, or 1 if there is none. */
  function LeastPositive(ws: seq<real>): (m: real)
    ensures m > 0.0
    ensures forall i | 0 <= i < |ws| && ws[i] > 0.0 :: m <= ws[i]
  {
    if ws == [] then 1.0
    else
      var m := LeastPositive(ws[..|ws| - 1]);
      var w := ws[|ws| - 1];
      if 0.0 < w && w < m then w else m
  }

  /** A level at which some positive weight is below its cap is below `cap / LeastPositive`. */
  lemma UnfilledBounded(w: real, m: real, cap: real, hi: real)
    requires 0.0 < m <= w && hi >= 1.0 && !Filled(w, cap, hi)
    ensures hi < cap / m
  {
    var q := cap / m;
    TimesMonotone(m, w, hi);
    QuotientTimes(cap, m);
    if hi >= q {
      TimesMonotone(q, hi, m);
    }
  }

  /** A level whose mass is short of the target is below `cap / LeastPositive`. */
  lemma ShortLevelBounded(ws: seq<real>, cap: real, hi: real)
    requires NonNegative(ws) && Fillable(ws, cap) && hi >= 1.0
    requires Mass(ws, cap, hi) < 1.0 - TOLERANCE
    ensures hi < cap / LeastPositive(ws)
  {
    if i :| 0 <= i < |ws| && !Filled(ws[i], cap, hi) {
      hide Mass, Fillable, Times;
      UnfilledBounded(ws[i], LeastPositive(ws), cap, hi);
    } else {
      hide Filled, Times;
      MassSaturated(ws, cap, hi);
    }
  }

  function DoublingsLeft(ws: seq<real>, cap: real, hi: real): int {
    (cap / LeastPositive(ws) - hi).Floor
  }

  /** The upper bracket: `hi` doubled until its mass reaches the target. */
  ghost function DoubleUntil(ws: seq<real>, cap: real, hi: real): (r: real)
    requires NonNegative(ws) && Fillable(ws, cap) && hi >= 1.0
    ensures r >= hi && Mass(ws, cap, r) >= 1.0 - TOLERANCE
    ensures r == hi || (r >= 2.0 * hi && Mass(ws, cap, r * 0.5) < 1.0 - TOLERANCE)
    decreases DoublingsLeft(ws, cap, hi)
  {
    if Mass(ws, cap, hi) >= 1.0 - TOLERANCE then hi
    else
      ShortLevelBounded(ws, cap, hi);
      DoubleUntil(ws, cap, hi * 2.0)
  }

  function Pow2(k: nat): (p: real)
    ensures p >= 1.0
  {
    if k == 0 then 1.0 else 2.0 * Pow2(k - 1)
  }

  lemma Pow2Exceeds(x: real) returns (k: nat)
    ensures Pow2(k) >= x
  {
    k := if x <= 1.0 then 0 else x.Floor + 1;
    Pow2Linear(k);
  }

  lemma {:induction false} Pow2Linear(k: nat)
    ensures Pow2(k) >= k as real
  {
    if k > 0 {
      Pow2Linear(k - 1);
    }
  }

  /** Doubling from 1 ever reaches the target exactly when the positive weights' caps can. */
  lemma DoublingTerminatesIff(ws: seq<real>, cap: real)
    requires NonNegative(ws) && cap > 0.0
    ensures (exists k :: Mass(ws, cap, Pow2(k)) >= 0.999999999999999) <==> Fillable(ws, cap)
  {
    hide Times, Mass;
    if Fillable(ws, cap) {
      var m := LeastPositive(ws);
      var k := Pow2Exceeds(cap / m);
      TimesMonotone(cap / m, Pow2(k), m);
      QuotientTimes(cap, m);
      forall i | 0 <= i < |ws|
        ensures Filled(ws[i], cap, Pow2(k))
      {
        if ws[i] > 0.0 {
          TimesMonotone(m, ws[i], Pow2(k));
        }
      }
      MassSaturated(ws, cap, Pow2(k));
    }
    forall k: nat
      ensures Mass(ws, cap, Pow2(k)) <= Times(Positives(ws) as real, cap)
    {
      MassBounded(ws, cap, Pow2(k));
    }
  }

  // ---------- bisection ----------

  function Bisect(ws: seq<real>, cap: real, lo: real, hi: real, n: nat): real
    decreases n
  {
    if n == 0 then hi
    else
      var mid := (lo + hi) * 0.5;
      if Mass(ws, cap, mid) < 1.0 then Bisect(ws, cap, mid, hi, n - 1) else Bisect(ws, cap, lo, mid, n - 1)
  }

  /** Bisection keeps a level of less mass than 1 below the one it returns; after `n` halvings the
      two are the 2 to the `n`-th part of the bracket apart. */
  lemma {:induction false} BisectBrackets(ws: seq<real>, cap: real, lo: real, hi: real, n: nat) returns (below: real)
    requires lo <= hi && Mass(ws, cap, lo) < 1.0 && Mass(ws, cap, hi) >= 1.0 - TOLERANCE
    ensures lo <= below <= Bisect(ws, cap, lo, hi, n) <= hi && Mass(ws, cap, below) < 1.0
    ensures Mass(ws, cap, Bisect(ws, cap, lo, hi, n)) >= 1.0 - TOLERANCE
    ensures Bisect(ws, cap, lo, hi, n) - below == (hi - lo) / Pow2(n)
    decreases n
  {
    if n == 0 {
      below := lo;
      assert (hi - lo) / 1.0 == hi - lo;
    } else {
      var mid := (lo + hi) * 0.5;
      HalfOver(hi - lo, Pow2(n - 1));
      if Mass(ws, cap, mid) < 1.0 {
        below := BisectBrackets(ws, cap, mid, hi, n - 1);
      } else {
        below := BisectBrackets(ws, cap, lo, mid, n - 1);
      }
    }
  }

  lemma HalfOver(x: real, p: real)
    requires p > 0.0
    ensures (x * 0.5) / p == x / (2.0 * p)
  {
    var q := x / (2.0 * p);
    assert q * (2.0 * p) == x;
    assert (q * p) * 2.0 == x;
    assert x * 0.5 == q * p;
    assert (q * p) / p == q;
  }

  // ---------- the level ----------

  /** The level the code settles on for weights that sum to 1. */
  ghost function Level(ws: seq<real>, cap: real): real
    requires NonNegative(ws) && Fillable(ws, cap)
  {
    if Mass(ws, cap, 1.0) >= 1.0 - TOLERANCE then 1.0
    else Bisect(ws, cap, 0.0, DoubleUntil(ws, cap, 1.0), BISECTIONS)
  }

  method ComputeLevel(ws: seq<real>, cap: real) returns (lam: real)
    requires NonNegative(ws) && Fillable(ws, cap)
    ensures lam == Level(ws, cap)
  {
    var capSum := ComputeMass(ws, cap, 1.0);
    if capSum >= 1.0 - TOLERANCE {
      return 1.0;
    }
    var hi := 1.0;
    var mass := capSum;
    while mass < 1.0 - TOLERANCE
      invariant hi >= 1.0 && mass == Mass(ws, cap, hi)
      invariant DoubleUntil(ws, cap, hi) == DoubleUntil(ws, cap, 1.0)
      decreases DoublingsLeft(ws, cap, hi)
    {
      ShortLevelBounded(ws, cap, hi);
      hi := hi * 2.0;
      mass := ComputeMass(ws, cap, hi);
    }
    var lo := 0.0;
    ghost var top := hi;
    for i := 0 to BISECTIONS
      invariant Bisect(ws, cap, lo, hi, BISECTIONS - i) == Bisect(ws, cap, 0.0, top, BISECTIONS)
    {
      var mid := (lo + hi) * 0.5;
      mass := ComputeMass(ws, cap, mid);
      if mass < 1.0 {
        lo := mid;
      } else {
        hi := mid;
      }
    }
    lam := hi;
  }

  method ComputeMass(ws: seq<real>, cap: real, lam: real) returns (mass: real)
    ensures mass == Mass(ws, cap, lam)
  {
    mass := 0.0;
    for i := 0 to |ws|
      invariant mass == Mass(ws[..i], cap, lam)
    {
      assert ws[..i + 1][..i] == ws[..i];
      mass := mass + Min(cap, Times(lam, ws[i]));
    }
    assert ws[..|ws|] == ws;
  }

  lemma TimesLess(x: real, m: real)
    requires x > 0.0 && m < 1.0
    ensures Times(x, m) < x
  {
    assert x * (1.0 - m) > 0.0;
  }

  lemma TimesOnePlus(x: real, y: real)
    ensures Times(x, 1.0 + y) == x + Times(y, x)
  {
  }

  /** Between a level short of the target and one not much above it, the mass cannot jump. */
  lemma OvershootBelow(ws: seq<real>, cap: real, below: real, lam: real, part: real)
    requires NonNegative(ws) && cap >= 0.0 && 0.0 < below <= lam && part > 0.0
    requires Mass(ws, cap, below) < 1.0 && lam - below <= Times(part, below)
    ensures Mass(ws, cap, lam) < 1.0 + part
  {
    hide Times, Mass, NonNegative;
    var mass := Mass(ws, cap, lam);
    MassConcave(ws, cap, below, lam);
    TimesLess(lam, Mass(ws, cap, below));
    if mass >= 1.0 + part {
      TimesMonotone(1.0 + part, mass, below);
      TimesOnePlus(below, part);
    }
  }

  /** The chosen level fills the target to within the tolerance. If the weights fill it at level 1,
      nothing overshoots; otherwise what overshoots is less than the 63rd negative power of two,
      whatever the weights are. */
  lemma LevelFillsTarget(ws: seq<real>, cap: real)
    requires NonNegative(ws) && Fillable(ws, cap) && Sum(ws) == 1.0
    ensures 0.999999999999999 <= Mass(ws, cap, Level(ws, cap)) < 1.0 + 1.0 / Pow2(63)
    ensures Mass(ws, cap, 1.0) >= 0.999999999999999 ==>
              Level(ws, cap) == 1.0 && Mass(ws, cap, Level(ws, cap)) <= 1.0
    ensures 0.0 < Level(ws, cap) <= DoubleUntil(ws, cap, 1.0)
  {
    hide Mass;
    var top, part := DoubleUntil(ws, cap, 1.0), 1.0 / Pow2(BISECTIONS - 1);
    MassAtZero(ws, cap);
    assert part > 0.0;
    if Mass(ws, cap, 1.0) >= 1.0 - TOLERANCE {
      MassMonotoneLipschitz(ws, cap, 0.0, 1.0);
    } else {
      var half := top * 0.5;
      assert (0.0 + top) * 0.5 == half;
      assert Bisect(ws, cap, 0.0, top, BISECTIONS) == Bisect(ws, cap, half, top, BISECTIONS - 1);
      var below := BisectBrackets(ws, cap, half, top, BISECTIONS - 1);
      ShareOf(half, Pow2(BISECTIONS - 1), below);
      OvershootBelow(ws, cap, below, Level(ws, cap), part);
    }
  }

  lemma ShareOf(x: real, p: real, y: real)
    requires p > 0.0 && x <= y
    ensures x / p <= Times(1.0 / p, y)
  {
    assert x / p == (1.0 / p) * x;
    TimesMonotone(x, y, 1.0 / p);
  }
}
