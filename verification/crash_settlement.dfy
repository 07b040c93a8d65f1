/** Settlement of crash bets (games/crash-minimal/src/settle.ts, games/lempi-crash/src/settle.ts)
    composed with the crash mapping: what one bet is paid over all equally likely draws. */
module CrashSettlement {
  import opened GameContract
  import opened RealFacts
  import opened CrashOutcome
  import opened Wrappers

  /** A bet with an automatic cashout, as the two plugins take it. */
  datatype Selection =
    | CrashMinimal(cashoutMultiplier: real)
    | LempiCrash(autoCashoutMultiplier: Option<real>)

  /** BigInt division: truncates toward zero. */
  function BigIntDiv(a: int, b: int): int
    requires b > 0
  {
    if a >= 0 then a / b else -((-a) / b)
  }

  /** Math.round: ties go up. */
  function MathRound(x: real): int {
    (x + 0.5).Floor
  }

  function PayoutAtMultiplier(amountMicro: int, multiplier: real, commissionMicro: int): int {
    var hundredths := MathRound(multiplier * 100.0);
    var gross := BigIntDiv(amountMicro * hundredths, 100);
    if gross > commissionMicro then gross - commissionMicro else 0
  }

  function SettleCrashMinimalBet(cashoutMultiplier: real, amountMicro: int, outcome: CrashOutcomeData,
                                 commissionMicro: int): Settlement
  {
    if outcome.crashMultiplier >= cashoutMultiplier then
      Settlement(true, PayoutAtMultiplier(amountMicro, cashoutMultiplier, commissionMicro))
    else
      Settlement(false, 0)
  }

  function SettleLempiCrashBet(target: Option<real>, amountMicro: int, outcome: CrashOutcomeData,
                               commissionMicro: int): Settlement
  {
    if target.None? || outcome.crashMultiplier < target.value then
      Settlement(false, 0)
    else
      Settlement(true, PayoutAtMultiplier(amountMicro, target.value, commissionMicro))
  }

  function SettleLempiCrashCashout(amountMicro: int, cashoutMultiplier: real, commissionMicro: int): Settlement {
    Settlement(true, PayoutAtMultiplier(amountMicro, cashoutMultiplier, commissionMicro))
  }

  function SettleBet(selection: Selection, amountMicro: int, outcome: CrashOutcomeData,
                     commissionMicro: int): Settlement
  {
    match selection
    case CrashMinimal(target) => SettleCrashMinimalBet(target, amountMicro, outcome, commissionMicro)
    case LempiCrash(target) => SettleLempiCrashBet(target, amountMicro, outcome, commissionMicro)
  }

  // ----- What one settled bet is -----

  /** The nearest hundredth of a multiplier, ties up. */
  predicate IsHundredthsOf(k: int, multiplier: real) {
    k as real - 0.5 <= 100.0 * multiplier < k as real + 0.5
  }

  /** The commission is charged in full: what is paid and the commission together are stake times k hundredths,
      rounded down -- or nothing is paid, where they leave nothing over the commission. */
  predicate PaidNet(payoutMicro: int, amountMicro: nat, k: nat, commissionMicro: nat) {
    if 100 * (commissionMicro + 1) <= amountMicro * k
    then amountMicro * k - 100 < 100 * (payoutMicro + commissionMicro) <= amountMicro * k
    else payoutMicro == 0
  }

  lemma PayoutIsNet(amountMicro: nat, multiplier: real, commissionMicro: nat, k: nat)
    requires IsHundredthsOf(k, multiplier)
    ensures PaidNet(PayoutAtMultiplier(amountMicro, multiplier, commissionMicro), amountMicro, k, commissionMicro)
  {
    assert MathRound(multiplier * 100.0) == k;
    GrossBounds(amountMicro, k);
  }

  /** For every stake, target, commission and outcome, in either game: a bet wins iff its target is reached,
      then it is paid net of the commission, and otherwise nothing. */
  lemma SettledBetIs(selection: Selection, amountMicro: nat, outcome: CrashOutcomeData, commissionMicro: nat, k: nat)
    requires Target(selection).Some? ==> IsHundredthsOf(k, Target(selection).value)
    ensures var s := SettleBet(selection, amountMicro, outcome, commissionMicro);
            var target := if selection.CrashMinimal? then Some(selection.cashoutMultiplier)
                          else selection.autoCashoutMultiplier;
            (s.won <==> target.Some? && outcome.crashMultiplier >= target.value) &&
            (if s.won then PaidNet(s.payoutMicro, amountMicro, k, commissionMicro) else s.payoutMicro == 0)
  {
    hide PayoutAtMultiplier, PaidNet, IsHundredthsOf;
    if Target(selection).Some? {
      PayoutIsNet(amountMicro, Target(selection).value, commissionMicro, k);
    }
  }

  /** A manual cashout always wins and is paid net at its multiplier. */
  lemma SettledCashoutIs(amountMicro: nat, multiplier: real, commissionMicro: nat, k: nat)
    requires IsHundredthsOf(k, multiplier)
    ensures var s := SettleLempiCrashCashout(amountMicro, multiplier, commissionMicro);
            s.won && PaidNet(s.payoutMicro, amountMicro, k, commissionMicro)
  {
    PayoutIsNet(amountMicro, multiplier, commissionMicro, k);
  }

  /** The target a bet cashes out at; a Lempi bet without one is never settled as a win. */
  function Target(selection: Selection): Option<real> {
    match selection
    case CrashMinimal(target) => Some(target)
    case LempiCrash(target) => target
  }

  /** What the bet is paid in total over the draws below m. */
  function TotalPayout(m: nat, draws: nat, config: CrashConfig, selection: Selection, amountMicro: int,
                       commissionMicro: int): int
    requires m <= draws && ValidConfig(config)
  {
    if m == 0 then 0
    else TotalPayout(m - 1, draws, config, selection, amountMicro, commissionMicro) +
         SettleBet(selection, amountMicro, OutcomeOfDraw(m - 1, draws, config), commissionMicro).payoutMicro
  }

  lemma {:induction false} TotalIsCountTimesPayout(m: nat, draws: nat, config: CrashConfig, selection: Selection,
                                                   amountMicro: int, commissionMicro: int)
    requires m <= draws && ValidConfig(config)
    ensures TotalPayout(m, draws, config, selection, amountMicro, commissionMicro) ==
            match Target(selection)
            case None => 0
            case Some(t) => CountReaching(m, draws, config, t) * PayoutAtMultiplier(amountMicro, t, commissionMicro)
  {
    if m > 0 {
      TotalIsCountTimesPayout(m - 1, draws, config, selection, amountMicro, commissionMicro);
      if Target(selection).Some? {
        var t := Target(selection).value;
        OneMore(CountReaching(m - 1, draws, config, t), PayoutAtMultiplier(amountMicro, t, commissionMicro));
      }
    }
  }

  lemma OneMore(count: int, payout: int)
    ensures (count + 1) * payout == count * payout + payout && (count + 0) * payout == count * payout
  {
  }

  // ----- Bounds on one payout -----

  lemma GrossBounds(amountMicro: nat, hundredths: nat)
    ensures var gross := BigIntDiv(amountMicro * hundredths, 100);
            0 <= gross && amountMicro * hundredths - 100 < 100 * gross <= amountMicro * hundredths
  {
    assert amountMicro * hundredths >= 0;
  }

  /** One winning bet is paid at most stake times the next whole hundredth of its target, and at
      most one micro-unit and the commission less than stake times the rounded target. */
  lemma PayoutBounds(amountMicro: nat, target: real, commissionMicro: nat)
    requires target > 1.0
    ensures var payout := PayoutAtMultiplier(amountMicro, target, commissionMicro);
            0 <= payout && 100 * payout <= amountMicro * Ceil(100.0 * target) &&
            amountMicro * MathRound(target * 100.0) - 100 - 100 * commissionMicro < 100 * payout
  {
    var rounded, k := MathRound(target * 100.0), Ceil(100.0 * target);
    assert 100 <= rounded <= k;
    GrossBounds(amountMicro, rounded);
    ProductAtMost(amountMicro, rounded, k);
  }

  lemma ProductAtMost(a: nat, b: int, c: int)
    requires b <= c
    ensures a * b <= a * c
  {
  }

  // ----- The house never overpays on average -----

  /** For every stake, commission, cap and target above 1.00 (two-decimal or not), in either game,
      the payouts over all draws sum to at most stake * (1 - houseEdge) * draws. */
  lemma HouseNeverOverpays(draws: nat, config: CrashConfig, selection: Selection, amountMicro: nat,
                           commissionMicro: nat)
    requires ValidConfig(config)
    requires Target(selection).Some? ==> Target(selection).value > 1.0
    ensures TotalPayout(draws, draws, config, selection, amountMicro, commissionMicro) as real
         <= PlayersShare(draws, 1.0 - config.houseEdge, amountMicro)
  {
    TotalIsCountTimesPayout(draws, draws, config, selection, amountMicro, commissionMicro);
    match Target(selection)
    case None =>
      WinningDrawsInRange(draws, 1.0 - config.houseEdge, 101);
      WinnersAtMost(draws, 1.0 - config.houseEdge, 101, amountMicro, 0, 0);
    case Some(target) =>
      var k := Ceil(100.0 * target);
      ExactReachCount(draws, config, target);
      PayoutBounds(amountMicro, target, commissionMicro);
      WinningDrawsInRange(draws, 1.0 - config.houseEdge, k);
      WinnersAtMost(draws, 1.0 - config.houseEdge, k, amountMicro, CountReaching(draws, draws, config, target),
                    PayoutAtMultiplier(amountMicro, target, commissionMicro));
  }

  /** stake * (1 - h) * n */
  function PlayersShare(draws: nat, keep: real, amountMicro: nat): real {
    amountMicro as real * (keep * draws as real)
  }

  lemma WinnersAtMost(draws: nat, keep: real, k: int, amountMicro: nat, count: nat, payout: nat)
    requires 0.0 < keep <= 1.0 && k >= 101
    requires 0 <= WinningDraws(draws, keep, k) && count <= WinningDraws(draws, keep, k)
    requires 100 * payout <= amountMicro * k
    ensures (count * payout) as real <= PlayersShare(draws, keep, amountMicro)
  {
    assert Share(draws, keep, k) * k as real == 100.0 * (keep * draws as real);
    Compose(count, payout, amountMicro, k, Share(draws, keep, k), keep * draws as real);
  }

  lemma Compose(count: nat, payout: nat, amount: nat, k: int, x: real, stakes: real)
    requires k > 0 && 100 * payout <= amount * k && count as real <= x && x * k as real == 100.0 * stakes
    ensures (count * payout) as real <= amount as real * stakes
  {
    var c, p, a := count as real, payout as real, amount as real;
    CastProduct(count, payout);
    CastProduct(amount, k);
    MulAtMost(100.0 * p, a * k as real, c);
    MulAtMost(c, x, a * k as real);
    ScaledProduct(x, a, k as real, stakes);
  }

  lemma CastProduct(a: int, b: int)
    ensures (a * b) as real == a as real * b as real
  {
  }

  lemma ScaledProduct(x: real, a: real, k: real, stakes: real)
    requires x * k == 100.0 * stakes
    ensures x * (a * k) == 100.0 * (a * stakes)
  {
    assert x * (a * k) == a * (x * k);
  }

  // ----- The players get their share, up to rounding -----

  /** For a two-decimal target within the cap the total falls short of the players' share by less
      than one target payout plus, on each win, one micro-unit and the commission. */
  lemma PlayersGetTheirShare(draws: nat, config: CrashConfig, selection: Selection, amountMicro: nat,
                             commissionMicro: nat, k: int)
    requires ValidConfig(config) && k >= 101
    requires Target(selection) == Some(k as real / 100.0) && k as real / 100.0 <= config.maxMultiplier
    ensures TotalPayout(draws, draws, config, selection, amountMicro, commissionMicro) as real
         >= PlayersShare(draws, 1.0 - config.houseEdge, amountMicro)
            - amountMicro as real * k as real / 100.0
            - (CountReaching(draws, draws, config, k as real / 100.0) * (1 + commissionMicro)) as real
  {
    var target, keep := k as real / 100.0, 1.0 - config.houseEdge;
    TotalIsCountTimesPayout(draws, draws, config, selection, amountMicro, commissionMicro);
    ExactReachCount(draws, config, target);
    WholeTarget(k, target);
    PayoutBounds(amountMicro, target, commissionMicro);
    RoundedWhole(k, target);
    WinnersAtLeast(draws, keep, k, amountMicro, CountReaching(draws, draws, config, target),
                   PayoutAtMultiplier(amountMicro, target, commissionMicro), 1 + commissionMicro);
  }

  lemma RoundedWhole(k: int, target: real)
    requires target == k as real / 100.0
    ensures MathRound(target * 100.0) == k
  {
    assert target * 100.0 == k as real;
  }

  lemma WinnersAtLeast(draws: nat, keep: real, k: int, amountMicro: nat, count: nat, payout: nat, fee: nat)
    requires k >= 101 && count == WinningDraws(draws, keep, k)
    requires amountMicro * k - 100 * fee <= 100 * payout
    ensures (count * payout) as real
         >= PlayersShare(draws, keep, amountMicro) - amountMicro as real * k as real / 100.0 - (count * fee) as real
  {
    var x, c, a, kr := Share(draws, keep, k), count as real, amountMicro as real, k as real;
    assert x * kr == 100.0 * (keep * draws as real);
    CastProduct(count, payout);
    CastProduct(count, fee);
    CastProduct(amountMicro, k);
    LowerProduct(c, payout as real, a, kr, fee as real, x, keep * draws as real);
  }

  lemma LowerProduct(c: real, p: real, a: real, k: real, fee: real, x: real, stakes: real)
    requires c >= 0.0 && a >= 0.0 && k >= 0.0
    requires a * k - 100.0 * fee <= 100.0 * p && x - 1.0 < c && x * k == 100.0 * stakes
    ensures c * p >= a * stakes - a * k / 100.0 - c * fee
  {
    MulAtMost(a * k - 100.0 * fee, 100.0 * p, c);
    MulAtMost(0.0, a, k);
    MulAtMost(x - 1.0, c, a * k);
    ScaledProduct(x, a, k, stakes);
    assert (x - 1.0) * (a * k) == x * (a * k) - a * k;
    assert (a * k - 100.0 * fee) * c == c * (a * k) - 100.0 * (c * fee);
  }

  // ----- Why targets up to 1.00 are refused -----

  /** A target of 1.00 or less wins on every draw, bust included; at exactly 1.00 and without a
      commission it returns the whole stake every time, whatever the house edge. */
  lemma TargetOfOneIsRiskless(draws: nat, config: CrashConfig, selection: Selection, amountMicro: nat,
                              commissionMicro: nat)
    requires ValidConfig(config) && Target(selection).Some? && Target(selection).value <= 1.0
    ensures TotalPayout(draws, draws, config, selection, amountMicro, commissionMicro)
         == draws * PayoutAtMultiplier(amountMicro, Target(selection).value, commissionMicro)
    ensures PayoutAtMultiplier(amountMicro, 1.0, 0) == amountMicro
  {
    TotalIsCountTimesPayout(draws, draws, config, selection, amountMicro, commissionMicro);
    ExactReachCount(draws, config, Target(selection).value);
    RoundedWhole(100, 1.0);
  }
}
