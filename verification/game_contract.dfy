/** What every game plugin returns for a settled bet (SettlementResult of packages/game-contract). */
module GameContract {
  datatype Settlement = Settlement(won: bool, payoutMicro: int)
}
