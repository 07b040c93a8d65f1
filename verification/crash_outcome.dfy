/** The crash mapping of games/crash-minimal/src/outcome.ts (games/lempi-crash/src/outcome.ts
    carries the same code): bust, rescale, floor to hundredths, clamp. Multipliers, the house
    edge and u are exact reals; IEEE rounding is not modelled. */
module CrashOutcome {
  import opened RealFacts
  import opened RngCore

  const DRAWS: nat := 0x10_0000_0000_0000  // 2^52 equally likely draws

  datatype CrashConfig = CrashConfig(houseEdge: real, maxMultiplier: real)

  datatype CrashOutcomeData = CrashOutcomeData(crashMultiplier: real, u: real)

  datatype OutcomeError = BadHouseEdge | BadMaxMultiplier

  datatype OutcomeResult = Determined(outcome: CrashOutcomeData) | Rejected(error: OutcomeError)

  datatype Verification = Verdict(accepted: bool) | Throws(error: OutcomeError)

  predicate ValidConfig(config: CrashConfig) {
    0.0 <= config.houseEdge < 1.0 && config.maxMultiplier >= 1.01
  }

  function Min(a: real, b: real): real {
    if a <= b then a else b
  }

  function Max(a: real, b: real): real {
    if a >= b then a else b
  }

  /** uRaw = draw / draws, rescaled by the house edge to [0, 1). */
  function Rescaled(draw: nat, draws: nat, houseEdge: real): (u: real)
    requires draw < draws && 0.0 <= houseEdge < 1.0
    ensures u < 1.0
    ensures 100.0 / (1.0 - u) == 100.0 * ((1.0 - houseEdge) * draws as real) / (draws - draw) as real
  {
    var u := (draw as real / draws as real - houseEdge) / (1.0 - houseEdge);
    RescaleFacts(draw as real, draws as real, houseEdge, u);
    u
  }

  lemma RescaleFacts(d: real, n: real, h: real, u: real)
    requires 0.0 <= d < n && 0.0 <= h < 1.0
    requires u == (d / n - h) / (1.0 - h)
    ensures u < 1.0
    ensures 100.0 / (1.0 - u) == 100.0 * ((1.0 - h) * n) / (n - d)
  {
    var g := 1.0 - h;
    assert u * g == d / n - h;
    assert (1.0 - u) * g == 1.0 - d / n;
    assert n * (d / n) == d;
    var r := (1.0 - u) * g;
    assert r * n == n - d;
    var w := 1.0 - u;
    assert r > 0.0 by { if r <= 0.0 { MulAtMost(r, 0.0, n); } }
    assert w > 0.0 by { if w <= 0.0 { MulAtMost(w, 0.0, g); } }
    assert w * g * n == n - d;
    assert 100.0 * (g * n) / (n - d) == 100.0 / w by {
      var x := 100.0 / w;
      assert x * w == 100.0;
      assert x * (n - d) == x * (w * g * n) == (x * w) * (g * n) == 100.0 * (g * n);
    }
  }

  function OutcomeOfDraw(draw: nat, draws: nat, config: CrashConfig): CrashOutcomeData
    requires draw < draws && ValidConfig(config)
  {
    var uRaw := draw as real / draws as real;
    if uRaw < config.houseEdge then
      CrashOutcomeData(1.0, uRaw)
    else
      var u := Rescaled(draw, draws, config.houseEdge);
      var rawMultiplier := (100.0 / (1.0 - u)).Floor as real / 100.0;
      CrashOutcomeData(Min(Max(1.0, rawMultiplier), config.maxMultiplier), uRaw)
  }

  function DetermineCrashOutcome(hmac: string, config: CrashConfig): OutcomeResult
    requires IsHmac(hmac)
  {
    if config.houseEdge < 0.0 || config.houseEdge >= 1.0 then Rejected(BadHouseEdge)
    else if config.maxMultiplier < 1.01 then Rejected(BadMaxMultiplier)
    else Determined(OutcomeOfDraw(Bits52(hmac), DRAWS, config))
  }

  function Abs(x: real): real {
    if x < 0.0 then -x else x
  }

  /** The check a player or a dispute pack runs on a claimed outcome; it throws
      exactly when the recomputation throws. */
  function VerifyCrashOutcome(hmac: string, config: CrashConfig, claimed: CrashOutcomeData): Verification
    requires IsHmac(hmac)
  {
    match DetermineCrashOutcome(hmac, config)
    case Rejected(error) => Throws(error)
    case Determined(recomputed) =>
      Verdict(Abs(recomputed.crashMultiplier - claimed.crashMultiplier) < 0.000000001 &&
              Abs(recomputed.u - claimed.u) < 0.000000000001)
  }

  predicate IsHundredths(x: real) {
    (100.0 * x).Floor as real == 100.0 * x
  }

  // ----- When a draw reaches a target -----

  /** 100 n (1 - h) / k: the real number of draws that k hundredths leave to the players. */
  function Share(draws: nat, keep: real, k: int): real
    requires k > 0
  {
    100.0 * (keep * draws as real) / k as real
  }

  /** How many draws, counted down from the top of the range, crash at k hundredths or more. */
  function WinningDraws(draws: nat, keep: real, k: int): int
    requires k > 0
  {
    Share(draws, keep, k).Floor
  }

  /** Bust, rescale, floor and clamp together are one comparison on the draw, for every real
      target above 1: only the next whole hundredth of the target matters. */
  lemma ReachesTarget(draw: nat, draws: nat, config: CrashConfig, target: real)
    requires draw < draws && ValidConfig(config) && target > 1.0
    ensures OutcomeOfDraw(draw, draws, config).crashMultiplier >= target
       <==> target <= config.maxMultiplier &&
            draws - draw <= WinningDraws(draws, 1.0 - config.houseEdge, Ceil(100.0 * target))
  {
    var k, h := Ceil(100.0 * target), config.houseEdge;
    if draw as real / draws as real < h {
      BustMisses(draw, draws, 1.0 - h, k);
    } else {
      var hundredths := (100.0 / (1.0 - Rescaled(draw, draws, h))).Floor;
      HundredthsReached(draw, draws, h, k);
      HundredthsReach(hundredths, target);
      ClampReaches(hundredths as real / 100.0, config.maxMultiplier, target);
    }
  }

  lemma ClampReaches(raw: real, cap: real, target: real)
    requires target > 1.0
    ensures Min(Max(1.0, raw), cap) >= target <==> target <= cap && raw >= target
  {
  }

  lemma HundredthsReached(draw: nat, draws: nat, h: real, k: int)
    requires draw < draws && 0.0 <= h < 1.0 && k > 0
    ensures (100.0 / (1.0 - Rescaled(draw, draws, h))).Floor >= k
       <==> draws - draw <= WinningDraws(draws, 1.0 - h, k)
  {
    var top := 100.0 * ((1.0 - h) * draws as real);
    Exchange(top, (draws - draw) as real, k as real);
    assert Share(draws, 1.0 - h, k) == top / k as real;
    FloorAtLeast(top / (draws - draw) as real, k);
  }

  lemma Exchange(a: real, b: real, c: real)
    requires b > 0.0 && c > 0.0
    ensures a / b >= c <==> a / c >= b
  {
    QuotientAtLeast(a, b, c);
    QuotientAtLeast(a, c, b);
  }

  lemma HundredthsReach(n: int, target: real)
    ensures n as real / 100.0 >= target <==> n >= Ceil(100.0 * target)
  {
  }

  /** A bust draw is never among the winning ones. */
  lemma BustMisses(draw: nat, draws: nat, keep: real, k: int)
    requires draw < draws && 0.0 < keep <= 1.0 && draw as real / draws as real < 1.0 - keep && k >= 101
    ensures draws - draw > WinningDraws(draws, keep, k)
  {
    var n, y := draws as real, Share(draws, keep, k);
    MulLess(draw as real / n, 1.0 - keep, n);
    MulPositive(keep, n);
    ShareBelow(draws, keep, k);
    FloorAtLeast(y, draws - draw);
  }

  lemma ShareBelow(draws: nat, keep: real, k: int)
    requires k >= 101 && 0.0 <= keep
    ensures 0.0 <= Share(draws, keep, k) <= keep * draws as real
    ensures keep > 0.0 && draws > 0 ==> Share(draws, keep, k) < keep * draws as real
  {
    MulAtMost(0.0, draws as real, keep);
    if keep > 0.0 && draws > 0 {
      MulPositive(keep, draws as real);
    }
    ShrunkBelow(Share(draws, keep, k), k as real, keep * draws as real);
  }

  lemma ShrunkBelow(y: real, k: real, g: real)
    requires k >= 101.0 && g >= 0.0 && y == 100.0 * g / k
    ensures 0.0 <= y <= g && (g > 0.0 ==> y < g)
  {
    QuotientAtLeast(100.0 * g, k, 0.0);
    MulAtMost(101.0, k, g);
    QuotientAtLeast(100.0 * g, k, g);
    assert y * k == 100.0 * g;
    if y > g {
      MulLess(g, y, k);
    }
  }

  /** Number of draws below m whose crash reaches the target. */
  function CountReaching(m: nat, draws: nat, config: CrashConfig, target: real): nat
    requires m <= draws && ValidConfig(config)
  {
    if m == 0 then 0
    else CountReaching(m - 1, draws, config, target) +
         if OutcomeOfDraw(m - 1, draws, config).crashMultiplier >= target then 1 else 0
  }

  lemma {:induction false} CountOfTopDraws(m: nat, draws: nat, config: CrashConfig, target: real, c: int)
    requires m <= draws && ValidConfig(config) && 0 <= c
    requires forall d: nat :: d < draws ==>
               (OutcomeOfDraw(d, draws, config).crashMultiplier >= target <==> draws - d <= c)
    ensures CountReaching(m, draws, config, target) ==
            if m <= draws - c then 0 else if c <= draws then m - (draws - c) else m
  {
    if m > 0 {
      CountOfTopDraws(m - 1, draws, config, target, c);
    }
  }

  lemma WinningDrawsInRange(draws: nat, keep: real, k: int)
    requires 0.0 < keep <= 1.0 && k >= 101
    ensures 0 <= WinningDraws(draws, keep, k) <= draws
  {
    PartOf(keep, draws as real);
    ShareBelow(draws, keep, k);
    FloorBetween(Share(draws, keep, k), draws);
  }

  lemma PartOf(keep: real, n: real)
    requires 0.0 <= keep <= 1.0 && n >= 0.0
    ensures 0.0 <= keep * n <= n
  {
    MulAtMost(keep, 1.0, n);
  }

  lemma FloorBetween(x: real, n: int)
    requires 0.0 <= x <= n as real
    ensures 0 <= x.Floor <= n
  {
  }

  /** The exact number of draws that reach a target, for every real target, every edge and cap:
      all of them up to 1.00, none above the cap, and floor(100 n (1 - h) / k) in between, where
      k is the target in hundredths, rounded up. */
  lemma ExactReachCount(draws: nat, config: CrashConfig, target: real)
    requires ValidConfig(config)
    ensures CountReaching(draws, draws, config, target) ==
            if target <= 1.0 then draws
            else if target > config.maxMultiplier then 0
            else WinningDraws(draws, 1.0 - config.houseEdge, Ceil(100.0 * target))
  {
    if target <= 1.0 {
      CountOfTopDraws(draws, draws, config, target, draws);
    } else {
      var k := Ceil(100.0 * target);
      assert k >= 101;
      WinningDrawsInRange(draws, 1.0 - config.houseEdge, k);
      var c := if target > config.maxMultiplier then 0 else WinningDraws(draws, 1.0 - config.houseEdge, k);
      forall d: nat | d < draws
        ensures OutcomeOfDraw(d, draws, config).crashMultiplier >= target <==> draws - d <= c
      {
        ReachesTarget(d, draws, config, target);
      }
      CountOfTopDraws(draws, draws, config, target, c);
    }
  }

  /** The share of all stakes that bets on one target get back, before rounding and commission. */
  function ReturnRate(target: real, winning: nat, draws: nat): real
    requires draws > 0
  {
    target * winning as real / draws as real
  }

  /** The documented return to player, with its error bound: a target of k hundredths within the
      cap returns between 1 - h - K/n (exclusive) and 1 - h (inclusive) of the stakes. */
  lemma ReturnToPlayer(draws: nat, config: CrashConfig, k: int, target: real)
    requires draws > 0 && ValidConfig(config)
    requires k >= 101 && target == k as real / 100.0 <= config.maxMultiplier
    ensures 1.0 - config.houseEdge - target / draws as real
          < ReturnRate(target, CountReaching(draws, draws, config, target), draws)
         <= 1.0 - config.houseEdge
  {
    ExactReachCount(draws, config, target);
    WholeTarget(k, target);
    WinningDrawsInRange(draws, 1.0 - config.houseEdge, k);
    RateOfWinningDraws(draws, 1.0 - config.houseEdge, k, target);
  }

  /** The documented "identical for every target": every real target within the cap returns at most 1 - h,
      and exactly that iff it has two decimals and the players' share is a whole number of draws. */
  lemma ReturnIsExactIff(draws: nat, config: CrashConfig, target: real)
    requires draws > 0 && ValidConfig(config) && 1.0 < target <= config.maxMultiplier
    ensures var k, keep := Ceil(100.0 * target), 1.0 - config.houseEdge;
            var rate := ReturnRate(target, CountReaching(draws, draws, config, target), draws);
            rate <= keep && (rate == keep <==> IsHundredths(target) && IsWhole(Share(draws, keep, k)))
  {
    var k := Ceil(100.0 * target);
    ExactReachCount(draws, config, target);
    WinningDrawsInRange(draws, 1.0 - config.houseEdge, k);
    RateIsExactIff(draws, 1.0 - config.houseEdge, k, target);
    HundredthsIffCeil(target);
  }

  predicate IsWhole(x: real) {
    x.Floor as real == x
  }

  lemma HundredthsIffCeil(target: real)
    ensures IsHundredths(target) <==> target == Ceil(100.0 * target) as real / 100.0
  {
    WholeIffCeil(100.0 * target);
    TimesHundred(target, Ceil(100.0 * target) as real);
    hide Ceil;
  }

  lemma WholeIffCeil(x: real)
    ensures x.Floor as real == x <==> x == Ceil(x) as real
  {
    var n := Ceil(x);
    hide Ceil;
    if x.Floor as real == x {
      assert n - 1 < x.Floor <= n;
    }
  }

  lemma TimesHundred(target: real, x: real)
    ensures target == x / 100.0 <==> 100.0 * target == x
  {
  }

  lemma RateIsExactIff(draws: nat, keep: real, k: int, target: real)
    requires draws > 0 && keep > 0.0 && k >= 101 && 0.0 < target <= k as real / 100.0
    requires WinningDraws(draws, keep, k) >= 0
    ensures var rate := ReturnRate(target, WinningDraws(draws, keep, k), draws);
            rate <= keep && (rate == keep <==> target == k as real / 100.0 && IsWhole(Share(draws, keep, k)))
  {
    var n, c, x := draws as real, WinningDraws(draws, keep, k) as real, Share(draws, keep, k);
    TargetTimesQuotient(k as real / 100.0, k as real, keep * n, x);
    MulPositive(keep, n);
    hide Share;
    ProductIsExactIff(target, k as real / 100.0, c, x, keep * n);
    QuotientIsExactIff(target * c, keep, n);
    assert ReturnRate(target, WinningDraws(draws, keep, k), draws) == target * c / n;
  }

  lemma QuotientIsExactIff(a: real, keep: real, n: real)
    requires n > 0.0 && a <= keep * n
    ensures a / n <= keep && (a / n == keep <==> a == keep * n)
  {
    QuotientTimes(a, n);
    if a / n > keep {
      MulLess(keep, a / n, n);
    }
  }

  /** A product of two factors at most t and x reaches t x iff both factors do. */
  lemma ProductIsExactIff(target: real, t: real, c: real, x: real, g: real)
    requires 0.0 < target <= t && 0.0 <= c <= x && t * x == g && g > 0.0
    ensures target * c <= g && (target * c == g <==> target == t && c == x)
  {
    if c < x {
      TimesLess(c, x, target);
    }
    if target < t && x > 0.0 {
      TimesLess(target, t, x);
    }
    assert x != 0.0;
    assert Times(c, target) == target * c && Times(x, target) == Times(target, x) == target * x && Times(t, x) == g;
  }

  /** The two halves fail: at 3.00 without a house edge the share is not whole, and at 1.015 the target has
      three decimals; both return less than 1. */
  lemma ReturnDiffers()
    ensures ReturnRate(3.0, CountReaching(DRAWS, DRAWS, CrashConfig(0.0, 10000.0), 3.0), DRAWS) < 1.0
    ensures ReturnRate(1.015, CountReaching(DRAWS, DRAWS, CrashConfig(0.0, 10000.0), 1.015), DRAWS) < 1.0
  {
    hide CountReaching, ReturnRate;
    var config := CrashConfig(0.0, 10000.0);
    ReturnIsExactIff(DRAWS, config, 3.0);
    ReturnIsExactIff(DRAWS, config, 1.015);
    assert Ceil(100.0 * 3.0) == 300 && Share(DRAWS, 1.0, 300).Floor == 0x5_5555_5555_5555;
    assert !IsHundredths(1.015);
  }

  lemma RateOfWinningDraws(draws: nat, keep: real, k: int, target: real)
    requires draws > 0 && 0.0 < keep <= 1.0 && k >= 101 && target == k as real / 100.0
    requires WinningDraws(draws, keep, k) >= 0
    ensures keep - target / draws as real < ReturnRate(target, WinningDraws(draws, keep, k), draws) <= keep
  {
    var n, c, x := draws as real, WinningDraws(draws, keep, k) as real, Share(draws, keep, k);
    TargetTimesQuotient(target, k as real, keep * n, x);
    RtpBounds(keep * n, target, x, c);
    QuotientBetween(target * c, keep * n - target, keep * n, n);
    ShareOfStakes(keep * n, keep, n, target);
    assert ReturnRate(target, WinningDraws(draws, keep, k), draws) == target * c / n;
  }

  lemma TargetTimesQuotient(target: real, k: real, stakes: real, x: real)
    requires k > 0.0 && x == 100.0 * stakes / k && target == k / 100.0
    ensures target * x == stakes
  {
    assert x * k == 100.0 * stakes;
  }

  lemma RtpBounds(stakes: real, target: real, x: real, c: real)
    requires target > 0.0 && target * x == stakes && x - 1.0 < c <= x
    ensures stakes - target < target * c <= stakes
  {
    TimesLess(x - 1.0, c, target);
    TimesSum(x, -1.0, target);
    if c < x {
      TimesLess(c, x, target);
    }
    assert Times(c, target) == target * c && Times(x, target) == target * x && Times(-1.0, target) == -target;
  }

  lemma ShareOfStakes(stakes: real, g: real, n: real, target: real)
    requires n > 0.0 && stakes == g * n
    ensures stakes / n == g && (stakes - target) / n == g - target / n
  {
    assert (g - target / n) * n == stakes - target;
  }

  lemma WholeTarget(k: int, target: real)
    requires target == k as real / 100.0
    ensures Ceil(100.0 * target) == k
  {
  }

  // ----- From the digest to the outcome -----

  /** When the configuration is refused, and with which error; otherwise the outcome is that of the draw in the
      digest, which it carries as u. */
  lemma OutcomeOfDigest(hmac: string, config: CrashConfig)
    requires IsHmac(hmac)
    ensures var r := DetermineCrashOutcome(hmac, config);
            (r == Rejected(BadHouseEdge) <==> config.houseEdge < 0.0 || config.houseEdge >= 1.0) &&
            (r == Rejected(BadMaxMultiplier) <==> 0.0 <= config.houseEdge < 1.0 && config.maxMultiplier < 1.01) &&
            (r.Determined? ==>
               var draw := Bits52(hmac);
               ValidConfig(config) && r.outcome == OutcomeOfDraw(draw, DRAWS, config) &&
               Times(r.outcome.u, DRAWS as real) == draw as real)
  {
    hide Rescaled, Bits52;
    QuotientTimes(Bits52(hmac) as real, DRAWS as real);
  }

  /** Verification throws exactly what the recomputation throws, and otherwise accepts what lies within both
      tolerances. */
  lemma VerifyFollowsOutcome(hmac: string, config: CrashConfig, claimed: CrashOutcomeData)
    requires IsHmac(hmac)
    ensures match DetermineCrashOutcome(hmac, config)
            case Rejected(error) => VerifyCrashOutcome(hmac, config, claimed) == Throws(error)
            case Determined(o) =>
              VerifyCrashOutcome(hmac, config, claimed) == Verdict(true) <==>
              -0.000000001 < o.crashMultiplier - claimed.crashMultiplier < 0.000000001 &&
              -0.000000000001 < o.u - claimed.u < 0.000000000001
  {
    hide DetermineCrashOutcome;
  }

  // ----- Verification accepts exactly the recomputed outcome -----

  /** Outcomes stay within [1, cap], and are two-decimal unless the cap is not. */
  lemma OutcomeShape(draw: nat, draws: nat, config: CrashConfig)
    requires draw < draws && ValidConfig(config)
    ensures var m := OutcomeOfDraw(draw, draws, config).crashMultiplier;
            1.0 <= m <= config.maxMultiplier && (IsHundredths(m) || m == config.maxMultiplier)
  {
    if !(draw as real / draws as real < config.houseEdge) {
      var x := (100.0 / (1.0 - Rescaled(draw, draws, config.houseEdge))).Floor;
      assert 100.0 * (x as real / 100.0) == x as real;
    }
  }

  lemma HundredthsApart(a: real, b: real)
    requires IsHundredths(a) && IsHundredths(b) && Abs(a - b) < 0.000000001
    ensures a == b
  {
    var m, n := (100.0 * a).Floor, (100.0 * b).Floor;
    assert (m - n) as real == 100.0 * a - 100.0 * b;
    assert m == n;
  }

  /** With a two-decimal cap the published tolerance admits no other two-decimal multiplier:
      a claim is accepted iff its multiplier is the recomputed one and its u is within 1e-12,
      so an accepted claim settles every bet as the true outcome does. */
  lemma VerifyIsExact(hmac: string, config: CrashConfig, claimed: CrashOutcomeData)
    requires IsHmac(hmac) && ValidConfig(config) && IsHundredths(config.maxMultiplier)
    requires IsHundredths(claimed.crashMultiplier)
    ensures VerifyCrashOutcome(hmac, config, claimed) == Verdict(
              claimed.crashMultiplier == OutcomeOfDraw(Bits52(hmac), DRAWS, config).crashMultiplier &&
              Abs(Bits52(hmac) as real / DRAWS as real - claimed.u) < 0.000000000001)
  {
    var m := OutcomeOfDraw(Bits52(hmac), DRAWS, config).crashMultiplier;
    OutcomeShape(Bits52(hmac), DRAWS, config);
    if Abs(m - claimed.crashMultiplier) < 0.000000001 {
      HundredthsApart(m, claimed.crashMultiplier);
    }
  }
}
