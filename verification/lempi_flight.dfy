/** The flight curve of games/lempi-crash/src/outcome.ts: displayed multiplier at an elapsed time,
    and the elapsed time scheduled for a multiplier. Math.exp and Math.log are any increasing
    inverse pair with exp(0) = 1; clocks are whole milliseconds. */
module LempiFlight {
  import opened RealFacts
  import opened CrashOutcome
  import opened CrashSettlement
  import opened Wrappers

  datatype Curve = Curve(exp: real -> real, log: real -> real)

  ghost predicate IsExpLog(curve: Curve) {
    && curve.exp(0.0) == 1.0
    && (forall x, y :: x < y ==> curve.exp(x) < curve.exp(y))
    && (forall y :: y > 0.0 ==> curve.exp(curve.log(y)) == y)
  }

  /** Such a pair exists: 1 + x from 0 on and 1 / (1 - x) below, with its inverse. */
  lemma SomeCurve() returns (curve: Curve)
    ensures IsExpLog(curve)
  {
    curve := Curve(x => if x >= 0.0 then 1.0 + x else 1.0 / (1.0 - x),
                   y => if y >= 1.0 then y - 1.0 else if y > 0.0 then 1.0 - 1.0 / y else 0.0);
    forall x: real, y: real | x < y
      ensures curve.exp(x) < curve.exp(y)
    {
      Reciprocals(1.0 - x, 1.0 - y);
    }
    forall y: real | y > 0.0
      ensures curve.exp(curve.log(y)) == y
    {
      if y < 1.0 {
        Reciprocals(1.0, y);
        ReciprocalTwice(y);
      }
    }
  }

  lemma Reciprocals(a: real, b: real)
    requires b < a
    ensures 0.0 < b ==> 1.0 / a < 1.0 / b
    ensures 1.0 <= a ==> 0.0 < 1.0 / a <= 1.0
  {
    if a > 0.0 {
      QuotientTimes(1.0, a);
      QuotientAtLeast(1.0, a, 1.0);
      QuotientAtLeast(1.0, a, 0.0);
    }
    if b > 0.0 {
      QuotientTimes(1.0, b);
      QuotientAtLeast(1.0, a, 1.0 / b);
      MulLess(b, a, 1.0 / b);
    }
  }

  lemma ReciprocalTwice(y: real)
    requires y > 0.0
    ensures 1.0 / y > 0.0 && 1.0 / (1.0 / y) == y
  {
    QuotientTimes(1.0, y);
    QuotientTimes(1.0, 1.0 / y);
  }

  datatype FlightConfig = FlightConfig(growthRate: real, maxMultiplier: real, minFlightMs: int, maxFlightMs: int)

  predicate ValidFlight(config: FlightConfig) {
    config.growthRate > 0.0 && config.maxMultiplier >= 1.01
  }

  function MaxInt(a: int, b: int): int {
    if a >= b then a else b
  }

  function MinInt(a: int, b: int): int {
    if a <= b then a else b
  }

  function MultiplierAtElapsedMs(elapsedMs: int, curve: Curve, config: FlightConfig): real {
    var raw := curve.exp(MaxInt(0, elapsedMs) as real * config.growthRate);
    Min(config.maxMultiplier, Max(1.0, (raw * 100.0).Floor as real / 100.0))
  }

  function ElapsedMsForMultiplier(multiplier: real, curve: Curve, config: FlightConfig): int
    requires config.growthRate > 0.0
  {
    if multiplier <= 1.0 then config.minFlightMs
    else
      var elapsed := Ceil(curve.log(multiplier) / config.growthRate);
      MaxInt(config.minFlightMs, MinInt(config.maxFlightMs, elapsed))
  }

  // ----- exp and log as an inverse pair -----

  lemma ExpAtLeast(curve: Curve, x: real, y: real)
    requires IsExpLog(curve) && y > 0.0
    ensures curve.exp(x) >= y <==> x >= curve.log(y)
  {
    var l := curve.log(y);
    assert curve.exp(l) == y;
    assert x < l ==> curve.exp(x) < curve.exp(l);
    assert l < x ==> curve.exp(l) < curve.exp(x);
  }

  lemma LogMonotone(curve: Curve, x: real, y: real)
    requires IsExpLog(curve) && 0.0 < x <= y
    ensures curve.log(x) <= curve.log(y)
  {
    ExpAtLeast(curve, curve.log(y), x);
  }

  // ----- When the display reaches a multiplier -----

  /** The first whole millisecond at which the unclamped curve shows at least m. */
  function FirstMs(m: real, curve: Curve, config: FlightConfig): int
    requires config.growthRate > 0.0
  {
    Ceil(curve.log(Ceil(100.0 * m) as real / 100.0) / config.growthRate)
  }

  lemma CeilAtMost(x: real, n: int)
    ensures Ceil(x) <= n <==> x <= n as real
  {
  }

  lemma TimeReaches(t: int, curve: Curve, config: FlightConfig, shown: real)
    requires IsExpLog(curve) && ValidFlight(config) && shown > 1.0
    ensures curve.exp(MaxInt(0, t) as real * config.growthRate) >= shown
       <==> t >= Ceil(curve.log(shown) / config.growthRate)
  {
    ExpAtLeast(curve, MaxInt(0, t) as real * config.growthRate, shown);
    ExpAtLeast(curve, 0.0, shown);
    TimeAtLeast(t, curve.log(shown), config.growthRate);
  }

  lemma TimeAtLeast(t: int, l: real, rate: real)
    requires l > 0.0 && rate > 0.0
    ensures MaxInt(0, t) as real * rate >= l <==> t >= Ceil(l / rate)
  {
    var q := l / rate;
    QuotientAtLeast(l, rate, 0.0);
    assert q * rate == l;
    assert q != 0.0;
    TimesAtLeast(MaxInt(0, t) as real, q, rate);
    CeilAtMost(q, t);
    CeilAtMost(q, MaxInt(0, t));
    CeilAtMost(q, 0);
  }

  lemma TimesAtLeast(a: real, b: real, rate: real)
    requires rate > 0.0
    ensures a * rate >= b * rate <==> a >= b
  {
    if a >= b {
      MulAtMost(b, a, rate);
    } else {
      MulLess(a, b, rate);
    }
  }

  /** The display shows at least m from FirstMs(m) on and never before, for every real m in (1, cap]. */
  lemma DisplayReaches(t: int, m: real, curve: Curve, config: FlightConfig)
    requires IsExpLog(curve) && ValidFlight(config) && 1.0 < m <= config.maxMultiplier
    ensures MultiplierAtElapsedMs(t, curve, config) >= m <==> t >= FirstMs(m, curve, config)
  {
    var k := Ceil(100.0 * m);
    var raw := curve.exp(MaxInt(0, t) as real * config.growthRate);
    HundredthsReach((raw * 100.0).Floor, m);
    FloorAtLeast(raw * 100.0, k);
    TimeReaches(t, curve, config, k as real / 100.0);
  }

  /** Scheduling and display are adjoint -- the display has reached m exactly from the scheduled
      time on -- if and only if the schedule is the first such millisecond. */
  lemma AdjointIff(m: real, curve: Curve, config: FlightConfig)
    requires IsExpLog(curve) && ValidFlight(config) && 1.0 < m <= config.maxMultiplier
    ensures (forall t: int ::
               MultiplierAtElapsedMs(t, curve, config) >= m <==> t >= ElapsedMsForMultiplier(m, curve, config))
       <==> ElapsedMsForMultiplier(m, curve, config) == FirstMs(m, curve, config)
  {
    forall t: int
      ensures MultiplierAtElapsedMs(t, curve, config) >= m <==> t >= FirstMs(m, curve, config)
    {
      DisplayReaches(t, m, curve, config);
    }
    var e, f := ElapsedMsForMultiplier(m, curve, config), FirstMs(m, curve, config);
    assert MultiplierAtElapsedMs(e, curve, config) >= m <==> e >= f;
    assert MultiplierAtElapsedMs(f, curve, config) >= m;
  }

  /** For a two-decimal multiplier that holds exactly when the flight clamps leave the time alone. */
  lemma TwoDecimalAdjointIff(m: real, t0: int, curve: Curve, config: FlightConfig)
    requires IsExpLog(curve) && ValidFlight(config) && 1.0 < m <= config.maxMultiplier && IsHundredths(m)
    requires t0 == Ceil(curve.log(m) / config.growthRate)
    ensures (forall t: int ::
               MultiplierAtElapsedMs(t, curve, config) >= m <==> t >= ElapsedMsForMultiplier(m, curve, config))
       <==> config.minFlightMs <= t0 && (t0 <= config.maxFlightMs || t0 == config.minFlightMs)
  {
    AdjointIff(m, curve, config);
    WholeTarget((100.0 * m).Floor, m);
    assert Ceil(100.0 * m) as real / 100.0 == m;
  }

  /** The schedule within its clamps, for every multiplier and every configuration: up to 1.00 the shortest
      flight; above it, a time t is not before the schedule iff it is not before the shortest flight and
      either not before the longest one or the unclamped curve has reached the multiplier. */
  lemma ScheduledIff(t: int, m: real, curve: Curve, config: FlightConfig)
    requires IsExpLog(curve) && ValidFlight(config)
    ensures m <= 1.0 ==> ElapsedMsForMultiplier(m, curve, config) == config.minFlightMs
    ensures m > 1.0 ==>
              (t >= ElapsedMsForMultiplier(m, curve, config) <==>
               t >= config.minFlightMs &&
               (t >= config.maxFlightMs || curve.exp(MaxInt(0, t) as real * config.growthRate) >= m))
  {
    if m > 1.0 {
      TimeReaches(t, curve, config, m);
    }
  }

  // ----- Both directions are monotone -----

  lemma ScheduleMonotone(m1: real, m2: real, curve: Curve, config: FlightConfig)
    requires IsExpLog(curve) && ValidFlight(config) && m1 <= m2
    ensures ElapsedMsForMultiplier(m1, curve, config) <= ElapsedMsForMultiplier(m2, curve, config)
  {
    if m1 > 1.0 {
      LogMonotone(curve, m1, m2);
      hide IsExpLog;
      QuotientMonotone(curve.log(m1), curve.log(m2), config.growthRate);
      CeilAtMost(curve.log(m1) / config.growthRate, Ceil(curve.log(m2) / config.growthRate));
    }
  }

  lemma DisplayMonotone(t1: int, t2: int, curve: Curve, config: FlightConfig)
    requires IsExpLog(curve) && ValidFlight(config) && t1 <= t2
    ensures 1.0 <= MultiplierAtElapsedMs(t1, curve, config)
    ensures MultiplierAtElapsedMs(t1, curve, config) <= MultiplierAtElapsedMs(t2, curve, config) <= config.maxMultiplier
  {
    var x1, x2 := MaxInt(0, t1) as real * config.growthRate, MaxInt(0, t2) as real * config.growthRate;
    ScaledTimeMonotone(t1, t2, config.growthRate);
    hide IsExpLog, Min, Max, MaxInt;
    ExpMonotone(curve, x1, x2);
    ClampMonotone(curve.exp(x1), curve.exp(x2), config.maxMultiplier);
  }

  lemma ScaledTimeMonotone(t1: int, t2: int, rate: real)
    requires t1 <= t2 && rate > 0.0
    ensures MaxInt(0, t1) as real * rate <= MaxInt(0, t2) as real * rate
  {
    TimesAtLeast(MaxInt(0, t2) as real, MaxInt(0, t1) as real, rate);
  }

  lemma ExpMonotone(curve: Curve, x1: real, x2: real)
    requires IsExpLog(curve) && x1 <= x2
    ensures curve.exp(x1) <= curve.exp(x2)
  {
    assert x1 == x2 || curve.exp(x1) < curve.exp(x2);
  }

  lemma ClampMonotone(raw1: real, raw2: real, cap: real)
    requires raw1 <= raw2 && cap >= 1.0
    ensures var m1 := Min(cap, Max(1.0, (raw1 * 100.0).Floor as real / 100.0));
            var m2 := Min(cap, Max(1.0, (raw2 * 100.0).Floor as real / 100.0));
            1.0 <= m1 <= m2 <= cap
  {
    FloorAtLeast(raw2 * 100.0, (raw1 * 100.0).Floor);
    var h1, h2 := (raw1 * 100.0).Floor as real, (raw2 * 100.0).Floor as real;
    QuotientMonotone(h1, h2, 100.0);
  }

  /** An automatic cashout that the round pays is never scheduled after the crash. */
  lemma PaidCashoutIsInTime(target: real, outcome: CrashOutcomeData, amountMicro: int, commissionMicro: int,
                            curve: Curve, config: FlightConfig)
    requires IsExpLog(curve) && ValidFlight(config)
    requires SettleLempiCrashBet(Some(target), amountMicro, outcome, commissionMicro).won
    ensures ElapsedMsForMultiplier(target, curve, config)
         <= ElapsedMsForMultiplier(outcome.crashMultiplier, curve, config)
  {
    ScheduleMonotone(target, outcome.crashMultiplier, curve, config);
  }

  /** Waiting never pays less: a manual cashout at a later displayed multiplier pays at least as much. */
  lemma WaitingNeverPaysLess(t1: int, t2: int, amountMicro: nat, commissionMicro: int, curve: Curve,
                             config: FlightConfig)
    requires IsExpLog(curve) && ValidFlight(config) && t1 <= t2
    ensures SettleLempiCrashCashout(amountMicro, MultiplierAtElapsedMs(t1, curve, config), commissionMicro).payoutMicro
         <= SettleLempiCrashCashout(amountMicro, MultiplierAtElapsedMs(t2, curve, config), commissionMicro).payoutMicro
  {
    DisplayMonotone(t1, t2, curve, config);
    PayoutMonotone(amountMicro, MultiplierAtElapsedMs(t1, curve, config), MultiplierAtElapsedMs(t2, curve, config),
                   commissionMicro);
  }

  /** A manual cashout wins and is paid stake times the displayed multiplier, which with a two-decimal
      cap has two decimals, rounded down and net of the commission. */
  lemma ManualCashoutPaysTheDisplay(t: int, amountMicro: nat, commissionMicro: nat, curve: Curve, config: FlightConfig)
    requires IsExpLog(curve) && ValidFlight(config) && IsHundredths(config.maxMultiplier)
    ensures var shown := MultiplierAtElapsedMs(t, curve, config);
            var k, cashout := (100.0 * shown).Floor, SettleLempiCrashCashout(amountMicro, shown, commissionMicro);
            shown == k as real / 100.0 && k >= 100 && cashout.won &&
            PaidNet(cashout.payoutMicro, amountMicro, k, commissionMicro)
  {
    var shown := MultiplierAtElapsedMs(t, curve, config);
    DisplayMonotone(t, t, curve, config);
    ClampIsHundredths((curve.exp(MaxInt(0, t) as real * config.growthRate) * 100.0).Floor, config.maxMultiplier);
    hide IsExpLog, MultiplierAtElapsedMs, PaidNet;
    var k := (100.0 * shown).Floor;
    SettledCashoutIs(amountMicro, shown, commissionMicro, k);
  }

  lemma ClampIsHundredths(h: int, cap: real)
    requires IsHundredths(cap)
    ensures IsHundredths(Min(cap, Max(1.0, h as real / 100.0)))
  {
    assert 100.0 * (h as real / 100.0) == h as real;
  }

  lemma PayoutMonotone(amountMicro: nat, m1: real, m2: real, commissionMicro: int)
    requires 0.0 <= m1 <= m2
    ensures PayoutAtMultiplier(amountMicro, m1, commissionMicro) <= PayoutAtMultiplier(amountMicro, m2, commissionMicro)
  {
    var h1, h2 := MathRound(m1 * 100.0), MathRound(m2 * 100.0);
    assert 0 <= h1 <= h2;
    GrossBounds(amountMicro, h1);
    GrossBounds(amountMicro, h2);
    ProductAtMost(amountMicro, h1, h2);
  }
}
