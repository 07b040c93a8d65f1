# Yantra: verified model of the payout, wallet, allow-list and listing logic

A Dafny 4.11 model of the parts of the Yantra gaming platform in which a small mistake costs money or
lets the wrong request through, with proofs of what those parts promise. `dafny verify dfyconfig.toml`
checks everything.

| Component | Modules |
|---|---|
| Crash outcome and return to player | `RngCore`, `GameContract`, `CrashOutcome`, `CrashSettlement` |
| Lempi flight curve | `LempiFlight` |
| Ketapola Dice, server and browser | `KetapolaDice` |
| Seamless wallet of the mock operator | `WalletStore`, `WalletRouter`, `WalletPlayers`, `WalletDeterminism`, `WalletIdempotency` |
| IP allow-list | `Bits`, `Cidr`, `Ipv4Text`, `Ipv6Text`, `AllowList` |
| Canonical JSON | `JsonText`, `CanonicalJson` |
| Key case | `KeyCase` |
| Money texts | `Money` |
| Lempi client | `LempiHistory`, `LempiClient` |
| Idempotency cache | `IdempotencyCache` |
| Cursor paging | `Paging` |
| Shared facts | `Wrappers`, `Text`, `Numerals`, `Hexadecimal`, `RealFacts`, `IntFacts` |

## Main results

* **Crash.** For every house edge, cap and real target, the number of draws that crash at or above the
  target is known exactly (`ExactReachCount`); a two-decimal target within the cap returns between
  `1 - h - K/N` (exclusive) and `1 - h` (inclusive) of the stakes (`ReturnToPlayer`); any real target within
  the cap returns exactly `1 - h` if and only if it has two decimals and the players' share is a whole number
  of draws, and less otherwise (`ReturnIsExactIff`). Composed with rounding, floor division and commission,
  the total paid over all draws never exceeds `stake * (1 - h) * N`, in both games (`HouseNeverOverpays`).
  A single bet is won exactly when its target is reached, and payout and commission together are then the
  stake times the target in hundredths, rounded down (`SettledBetIs`, `SettledCashoutIs`).
* **Wallet.** Over every schedule of bet, win and rollback requests each balance is the seed, less standing
  bets, plus standing wins, plus what the clamp at zero forgave (`RunConserves`). An accepted request that
  is delivered again at any later time, under any request UUID, is accepted and moves nothing
  (`AtMostOnce`). Accepted schedules of the same requests end in the same ledger, and in the same balance
  of a wallet exactly when the clamp forgave it the same amount (`SchedulesAgree`). No delivery for one player
  touches the balance or a booking of another player of that operator, over every schedule
  (`RunLeavesOthers`).
* **Allow-list.** The mask code and the byte loop mean agreement on the leading bits, for every prefix
  length, and `::` expands to the run of zero groups it replaced. From the texts to the verdict: an IPv4
  client, plain or mapped, and an IPv6 client in full or any compressed form, in either letter case, matches a
  pattern written in any such form exactly when the leading bits agree (`Ipv4PatternMeansPrefix`,
  `Ipv6PatternMeansPrefix`, `ExpanderUndoesCompression`). Client and pattern must be of one family; across
  families nothing matches, not even `::/0` (`FamiliesNeverMatch`). An entry without a slash matches exactly
  the same IPv4 address, plain or mapped (`ExactIpv4PatternIff`), or the same IPv6 text up to letter case
  (`ExactIpv6PatternIff`).
* **Idempotent replay.** Once a response is stored, every duplicate judged before it expires gets its very
  status and body, on every continuation in which no lookup of the key fails, if and only if every request of
  the key that is under way at that moment is inert (`ReplayedUntilExpiryIff`, `OriginalIsRepeatedIff`).
* **Canonical JSON.** Two values have the same canonical text if and only if they mean the same document,
  with objects as unordered maps (`SameTextIff`); a reader for the RFC 8259 grammar recovers that document
  (`ReadUndoesPrint`). Keys print in the order of their code units (`KeysPrintInOrder`).
* **Dice.** The first digits of the digest decide the side by its weight, the next ones the sum (`OutcomeIs`);
  with the rest of the digest fixed, each of the three sums of a side has the same number of face words up to
  one (`SumsAreEven`).
* **Lempi client.** Over every interleaving of events each field of a slot, and of the result written for it,
  is what the last event that sets it said (`StateReadsOffEvents`, `ResultReadsOffEvents`).
* **Key case, money, Lempi flight and history, paging.** Exact conditions for every round trip and promise that
  the code keeps only in part; see the table.

## How the source is modelled

* Multipliers, house edges, weights and `u` are exact reals; IEEE-754 rounding is abstracted. `Math.exp` and
  `Math.log` are any increasing inverse pair with `exp(0) = 1`. Amounts are unbounded integers, as BigInt is.
* The HMAC is an arbitrary string of 64 lowercase hex digits. `Hexadecimal.NumberOfDigits` and
  `Hexadecimal.DigitsOfNumber` show that counting words is counting numbers, so counts over draws are
  counts over digests.
* The two crash plugins contain the same outcome code and it is modelled once. The same goes for the two
  modelled copies of `canonicalJson` (packages/webhook-spec/src/index.ts:113-127 and
  apps/rgs-server/src/routes/rounds.ts:19-34) and for the list handlers that page in the same way.
* Objects that are updated in place are classes (`WalletStore.Store`, `LempiClient.LempiStore`,
  `IdempotencyCache.Middleware`); each method is proved equal to a step of a specification, and the
  properties over whole runs are proved about the steps. Loops are methods with invariants, proved equal
  to a function (`MatchBytes`, `FillBytes`, `Ipv4ToIntLoop`, `ToHex`, `VerifyServerSeed`, `MergeHistory`,
  `TransformEntriesLoop`).
* Events that JavaScript may interleave are steps in an arbitrary list: a bet acknowledgement arrives as an
  event of its own, and a request passes the idempotency middleware in the pieces between its awaits.

## Where the code differs from its documentation

* The comment on the crash outcome gives the same return for every target. It is exactly `1 - h` only for
  two-decimal targets with `100 N (1 - h) / k` whole, at most one draw per target below it for the other
  two-decimal ones, less for targets with more decimals, and 0 above `maxMultiplier` (`ExactReachCount`,
  `ReturnToPlayer`, `ReturnIsExactIff`, `ReturnDiffers`).
* The idempotency middleware says a processed request is replayed. That holds if and only if the requests of
  the same key that are under way when the response is stored are inert -- they read that response already,
  will store nothing, or will store the same response for as long -- and no later lookup fails
  (`ReplayedUntilExpiryIff`, `FailedLookupBreaks`). Otherwise an overlapping request overwrites the stored
  response (`OverwriteIsReached`), or a delayed write shortens its life although both responses are the same
  (`ShorteningIsReached`). Both take a second handler, and a handler runs if and only if its lookup failed,
  found no row, or found one that has expired when it is judged (`HandlerRunsIff`).
* "Same requestUuid, same balance reply" holds, but the memory is shared by the three mutating endpoints, so
  a win that reuses the UUID of an accepted bet is answered RS_OK and not booked
  (`SharedMemorySwallowsWin`). Where a request UUID names one request, an RS_OK bet
  or win is booked and the UUID of an RS_OK rollback is known (`OkRecordsUnderNaming`).
* An RS_OK rollback need not have reversed what it references: a rollback UUID that was seen before, or a
  request UUID in the shared memory, is enough for RS_OK. It leaves its reference reversed exactly when both
  UUIDs were new, or the reference was reversed before (`OkRollbackReversesIff`); a reused rollback UUID is
  reached although every request UUID names one request (`ReusedRollbackIsReached`). Where in addition each
  rollback UUID names one reference, every RS_OK rollback has its reference reversed for good
  (`OkRollbackReversesUnderNaming`).
* Wallets are keyed by operator and player with a colon between them, so two different pairs share a wallet
  exactly when a colon inside one of the names can be taken for that separator (`SameKeyIff`); within one
  operator they never do (`SamePlayerIff`).
* The clamp at zero is not flagged anywhere in the state, although a comment says so.
* The paged listings use the extra row they pop as the cursor, so every row at a 1-based multiple of
  `limit + 1` is in no page (`WalkOmitsExactly`); a listing is complete if and only if it fits on one page
  (`WalkIsCompleteIff`). With the last returned row as the cursor it always is (`WalkByLastIsComplete`).
* `toMicro` adds the fraction of a negative text with a plus sign, so it undoes `fromMicro` exactly on
  non-negative and whole amounts (`ToMicroRoundTripIff`); `hnlToMicro` drops the sign
  (`HnlToMicroReadsAbsolute`).
* The key-case middleware is described as a mechanical renaming. A response body, converted to snake case, is
  undone by the camel conversion exactly when no visited key has an underscore before a lowercase letter and
  none is `_Proto__`, which the loop would assign to `__proto__` and lose (`ThereAndBackIff`). A request body,
  converted to camel case, is undone by the snake conversion exactly when no visited key has a capital and
  none is `__proto__` (`BackAndThereIff`). One conversion loses no entry exactly when no two keys of an object
  convert alike and none converts to `__proto__` (`NothingLostIff`). Objects with an own `constructor`
  property are not visited.
* Undocumented: an accepted acknowledgement that arrives after a cashout makes the Lempi client record the bet as a LOSS
  (`ResultIsWinIff`).

## Model

| member | source | states |
|---|---|---|
| `CrashOutcome.ReachesTarget` | games/crash-minimal/src/outcome.ts:42-73 | bust, rescale, floor and clamp together are one comparison: a draw crashes at or above a real target above 1 iff the target is within the cap and the draw is among the top `WinningDraws` |
| `CrashOutcome.ExactReachCount` | games/crash-minimal/src/outcome.ts:42-73 | for every edge, cap and real target the exact number of draws that reach it: all up to 1.00, none above the cap, else the floor of 100 N (1-h) / k with k the target in hundredths rounded up |
| `CrashOutcome.ReturnToPlayer` | games/crash-minimal/src/outcome.ts:35-36 | documented return with its error bound: in (1-h-K/N, 1-h] for every two-decimal target K from 1.01 to the cap |
| `CrashOutcome.ReturnIsExactIff` | games/crash-minimal/src/outcome.ts:35-36 | every real target within the cap returns at most 1-h, and exactly 1-h iff it has two decimals and 100 N (1-h) / k is whole, k the target in hundredths |
| `CrashOutcome.ReturnDiffers` | games/crash-minimal/src/outcome.ts:35-36 | targets 3.00 and 1.015 return less than 1 without a house edge |
| `CrashOutcome.OutcomeShape` | games/crash-minimal/src/outcome.ts:60-72 | every outcome lies in [1, cap] and has two decimals unless it is the cap |
| `CrashOutcome.VerifyIsExact` | games/crash-minimal/src/outcome.ts:75-85 | with a two-decimal cap the published tolerance accepts a two-decimal claim iff it is the recomputed multiplier and u is within 1e-12 |
| `CrashOutcome.OutcomeOfDigest` | games/crash-minimal/src/outcome.ts:42-73 | which configurations are refused, with which error, and otherwise the outcome is that of the draw in the digest, carried as u |
| `CrashOutcome.VerifyFollowsOutcome` | games/crash-minimal/src/outcome.ts:75-85 | verification throws what the recomputation throws and otherwise accepts exactly within both tolerances |
| `CrashSettlement.SettledBetIs` | games/crash-minimal/src/settle.ts:15-36 | for every stake, target, commission and outcome, in either game: won iff the target is reached; then payout plus commission is the stake times the target's nearest hundredth rounded down, or nothing is paid where that leaves nothing over the commission |
| `CrashSettlement.SettledCashoutIs` | games/lempi-crash/src/settle.ts:42-62 | a manual cashout always wins and is paid net of the commission in the same way |
| `CrashSettlement.TotalIsCountTimesPayout` | games/crash-minimal/src/settle.ts:15-36 | the sum of the settled payouts over draws is the number of winning draws times the one net payout of `SettledBetIs`, and 0 without a target |
| `CrashSettlement.PayoutBounds` | games/lempi-crash/src/settle.ts:6-14 | the net payout of `SettledBetIs` never exceeds the stake times the target's next hundredth, and loses less than one unit and the commission to rounding |
| `CrashSettlement.HouseNeverOverpays` | games/crash-minimal/src/settle.ts:22-27 | for every stake, commission, cap and target above 1.00, two-decimal or not, the total paid over all draws is at most stake (1-h) N; for Lempi auto-cashout too |
| `CrashSettlement.PlayersGetTheirShare` | games/lempi-crash/src/settle.ts:16-40 | the other side: for a two-decimal target the total falls short of stake (1-h) N by at most one winner's gross plus one unit and the commission per winner |
| `CrashSettlement.TargetOfOneIsRiskless` | games/crash-minimal/src/selection.ts:3-13 | why the minimum is 1.01: a target up to 1.00 wins on every draw, and 1.00 without commission returns the stake |
| `LempiFlight.SomeCurve` | games/lempi-crash/src/outcome.ts:46-61 | an increasing inverse pair with exp(0) = 1 exists, so the flight results are about something |
| `LempiFlight.DisplayReaches` | games/lempi-crash/src/outcome.ts:42-51 | the display shows at least m from one first millisecond on and never before, for every real m in (1, cap] |
| `LempiFlight.AdjointIff` | games/lempi-crash/src/outcome.ts:42-63 | display and schedule are adjoint at m iff the schedule is that first millisecond |
| `LempiFlight.TwoDecimalAdjointIff` | games/lempi-crash/src/outcome.ts:42-63 | for two-decimal m they are adjoint iff the flight clamps leave the time alone |
| `LempiFlight.ScheduleMonotone` | games/lempi-crash/src/outcome.ts:53-63 | a smaller target is never scheduled later, clamps included |
| `LempiFlight.ScheduledIff` | games/lempi-crash/src/outcome.ts:53-63 | the clamped schedule for every multiplier: the shortest flight up to 1.00, and above it a time is not before the schedule iff it is not before the shortest flight and either not before the longest one or the curve has reached the multiplier |
| `LempiFlight.DisplayMonotone` | games/lempi-crash/src/outcome.ts:42-51 | the displayed multiplier never falls and stays in [1, cap] |
| `LempiFlight.PaidCashoutIsInTime` | games/lempi-crash/src/settle.ts:16-40 | an automatic cashout that is paid is never scheduled after the crash |
| `LempiFlight.WaitingNeverPaysLess` | games/lempi-crash/src/settle.ts:42-62 | a manual cashout at a later time pays at least as much |
| `LempiFlight.ManualCashoutPaysTheDisplay` | games/lempi-crash/src/settle.ts:42-62 | a manual cashout wins and its payout plus the commission is the stake times the displayed multiplier, rounded down, or nothing is paid where that leaves nothing over the commission |
| `KetapolaDice.LowWordCount` | games/ketapola-dice/src/outcome.ts:51-54 | the number c of LOW side words satisfies -L <= c (L+H) - L W < H for all positive weights |
| `KetapolaDice.EqualWeightsAreFair` | games/ketapola-dice/src/outcome.ts:51-54 | equal weights split the words exactly in half |
| `KetapolaDice.FaceWordCount` | games/ketapola-dice/src/outcome.ts:56-58 | how many words leave each remainder modulo 3, which picks the face (`OutcomeIs`) |
| `KetapolaDice.FacesAreEven` | games/ketapola-dice/src/outcome.ts:56-58 | the remainders differ by at most one word, and every word has one; `SumsAreEven` says so of the outcomes |
| `KetapolaDice.OutcomeIs` | games/ketapola-dice/src/outcome.ts:37-61 | when weights or nonce are refused, and what is rolled otherwise: LOW iff the first eight digits are below their weight share, the sum 3, 6, 9 or 12, 15, 18 by the remainder of the next eight, and below 10 exactly on the LOW side |
| `KetapolaDice.SumsAreEven` | games/ketapola-dice/src/outcome.ts:56-60 | with everything else in the digest fixed, the outcome has each of the three sums of its side for the same number of face words up to one, and for all of them together |
| `KetapolaDice.SettledBetIs` | games/ketapola-dice/src/settle.ts:10-23 | won iff the side was rolled; then twice the stake less the commission is paid, or nothing where that is not positive |
| `KetapolaDice.TotalIsCountTimesPayout` | games/ketapola-dice/src/settle.ts:10-23 | the sum of the settled payouts over side words is the winning words times one net payout |
| `KetapolaDice.EqualWeightsReturnStakes` | games/ketapola-dice/src/settle.ts:5-23 | with equal weights the 2x payout returns every stake less the winners' commission |
| `KetapolaDice.ToHex` | apps/operator-portal/src/utils/proof.ts:22-30 | the loop prints two lowercase digits per byte |
| `KetapolaDice.HexOfBytesReadsBack` | apps/operator-portal/src/utils/proof.ts:22-30 | each pair of printed digits reads back as its byte |
| `KetapolaDice.DetermineOutcomeBrowser` | apps/operator-portal/src/utils/proof.ts:56-81 | for every digest the browser verifier returns the server's side and sum, those of `OutcomeIs`, and fails on the same inputs; only the order of its two input checks differs |
| `KetapolaDice.VerifyServerSeed` | apps/operator-portal/src/utils/proof.ts:83-93 | the comparison without early exit accepts iff the hashes are equal |
| `RngCore.Uint32At` | packages/rng-core/src/index.ts:56-58 | eight hex digits are a 32-bit word |
| `RngCore.WordIsSlice` | packages/rng-core/src/index.ts:56-58 | a word is the part of the digest's number that its place says: what follows divided away, what precedes dropped |
| `RngCore.DrawIsTopBits` | games/crash-minimal/src/outcome.ts:53-58 | the draw is the number that the first 52 of the 256 bits denote |
| `Hexadecimal.NumberOfDigits` | packages/rng-core/src/index.ts:56-58 | every number below 16^n is the value of an n-digit word |
| `Hexadecimal.DigitsOfNumber` | packages/rng-core/src/index.ts:56-58 | every lowercase word is the digits of its value: words and numbers are in bijection |
| `Hexadecimal.DigitsAre` | apps/rgs-server/src/middleware/ip-allow-list.ts:136 | the sixteen hex digits with their values, letters in either case |
| `WalletStore.LedgerNetTake` | apps/mock-operator/src/wallet/store.ts:45-47 | the sum over a ledger does not depend on the order of its entries |
| `WalletStore.StepConserves` | apps/mock-operator/src/wallet/store.ts:94-206 | every store call moves each balance by what it does to the ledger, plus what the clamp forgives |
| `WalletStore.StepKeepsNonNegative` | apps/mock-operator/src/wallet/store.ts:94-206 | no call overdraws a wallet |
| `WalletStore.StepKeepsConserved` | apps/mock-operator/src/wallet/store.ts:94-206 | conservation with the forgiven amounts on account is kept by every call |
| `WalletStore.AcceptedIff` | apps/mock-operator/src/wallet/store.ts:94-206 | when exactly a call is answered RS_OK; a refusal leaves ledger and balances alone; the reply carries the new balance |
| `WalletStore.RefusedIff` | apps/mock-operator/src/wallet/store.ts:94-206 | why exactly a call is refused, status by status -- the UUID books something else, a bad amount, too little money, no such transaction of this wallet -- and that it then changes nothing but that the wallet exists |
| `WalletStore.FreshCallMoves` | apps/mock-operator/src/wallet/store.ts:94-206 | what an accepted call that is no replay moves: a bet takes its amount, a win adds it, a rollback returns a standing bet or takes a standing win down to zero at most |
| `WalletStore.AcceptedRollbackReversesIff` | apps/mock-operator/src/wallet/store.ts:162-206 | an accepted rollback leaves its reference reversed iff its own UUID was new or the reference was reversed before |
| `WalletStore.AcceptedEffect` | apps/mock-operator/src/wallet/store.ts:94-206 | what an accepted call adds to ledger and rollback UUIDs, and that it changes nothing else |
| `WalletStore.EffectExtends` | apps/mock-operator/src/wallet/store.ts:45-54 | bookings, rollback UUIDs and remembered requests are never lost; a booking changes at most to rolled back |
| `WalletStore.Store.constructor` | apps/mock-operator/src/wallet/store.ts:56-60 | the seeded players, each with a wallet of their own (`FreshWallets`), and nothing else; conserved with nothing forgiven |
| `WalletStore.Store.GetOrInit` | apps/mock-operator/src/wallet/store.ts:68-75 | looking a wallet up creates it with the seed balance |
| `WalletStore.Store.Balance` | apps/mock-operator/src/wallet/store.ts:78-80 | returns the balance of the named player's wallet (`SamePlayerIff`); reading a balance changes none |
| `WalletStore.Store.PlaceBet` | apps/mock-operator/src/wallet/store.ts:94-124 | the bet method is the bet step on the named player's wallet (`SamePlayerIff`), keeps conservation and forgives nothing |
| `WalletStore.Store.CreditWin` | apps/mock-operator/src/wallet/store.ts:132-156 | the win method is the win step on the named player's wallet (`SamePlayerIff`), keeps conservation and forgives nothing |
| `WalletStore.Store.RollBack` | apps/mock-operator/src/wallet/store.ts:162-206 | the rollback method is the rollback step on the named player's wallet (`SamePlayerIff`) and keeps conservation; only the clamp adds to the forgiven amount |
| `WalletStore.Store.RememberRequest` | apps/mock-operator/src/wallet/store.ts:209-211 | records the balance of an answered request |
| `WalletStore.Store.RecallRequest` | apps/mock-operator/src/wallet/store.ts:213-215 | returns the recorded balance, if any |
| `WalletRouter.HandleBet` | apps/mock-operator/src/wallet/router.ts:126-173 | the handler is the delivery step of `DeliverAnswers`: missing fields, replay from memory, bad amount, store call for the named player, remembering |
| `WalletRouter.HandleWin` | apps/mock-operator/src/wallet/router.ts:176-221 | likewise for wins |
| `WalletRouter.HandleRollback` | apps/mock-operator/src/wallet/router.ts:224-266 | likewise for rollbacks |
| `WalletRouter.DeliverAnswers` | apps/mock-operator/src/wallet/router.ts:126-266 | every delivery case by case: an absent field, a remembered UUID, an amount that is no integer, and otherwise the store's answer for the operator the request names or else the configured one |
| `WalletRouter.RunConserves` | apps/mock-operator/src/wallet/router.ts:126-266 | over every schedule of requests each balance is seed - standing bets + standing wins + forgiven, and never negative |
| `WalletPlayers.SamePlayerIff` | apps/mock-operator/src/wallet/store.ts:17-19 | two players of one operator share a wallet iff they are the same player |
| `WalletPlayers.SameKeyIff` | apps/mock-operator/src/wallet/store.ts:17-19 | two operator and player pairs share a wallet iff they are the same pair or a colon inside a name can be taken for the separator |
| `WalletPlayers.ColonFreeOperators` | apps/mock-operator/src/wallet/store.ts:17-19 | operators whose names hold no colon never share a wallet |
| `WalletPlayers.FreshWallets` | apps/mock-operator/src/wallet/store.ts:56-60 | the fresh store holds three different wallets, one a seeded player, each with 1 000 000 000, and no booking |
| `WalletPlayers.DeliverLeavesOthers` | apps/mock-operator/src/wallet/router.ts:126-266 | a delivery for one player changes neither the balance nor the bookings of any other player of that operator |
| `WalletPlayers.RunLeavesOthers` | apps/mock-operator/src/wallet/router.ts:126-266 | nor does any schedule of deliveries for other players, refusals and replays included |
| `WalletPlayers.BetIsCharged` | apps/mock-operator/src/wallet/router.ts:126-173 | an accepted fresh bet is charged to the very player it names |
| `WalletDeterminism.EffectDetermined` | apps/mock-operator/src/wallet/store.ts:94-206 | one more accepted operation keeps the state described by the set of accepted operations alone |
| `WalletDeterminism.DeterminedIsUnique` | apps/mock-operator/src/wallet/store.ts:45-54 | that description fixes ledger, rollback UUIDs and wallets |
| `WalletIdempotency.RecordedReplays` | apps/mock-operator/src/wallet/store.ts:103-112 | a recorded request delivered again under any UUID is RS_OK and moves nothing |
| `WalletIdempotency.OkMeansRecordedIff` | apps/mock-operator/src/wallet/router.ts:142-165 | an RS_OK means the request is recorded -- a bet or win booked, a rollback UUID known -- iff its request UUID was new to the shared memory or it was recorded before |
| `WalletIdempotency.OkIsRemembered` | apps/mock-operator/src/wallet/router.ts:162-165 | every RS_OK is remembered with the balance it carried |
| `WalletIdempotency.RepeatedUuidRepeatsBalance` | apps/mock-operator/src/wallet/store.ts:208-215 | a repeated request UUID always carries the balance of its first RS_OK reply, whatever came between |
| `WalletIdempotency.OkRecordsUnderNaming` | apps/mock-operator/src/wallet/router.ts:126-266 | where a UUID names one request, an RS_OK bet or win is booked and the UUID of an RS_OK rollback is known |
| `WalletIdempotency.AtMostOnce` | apps/mock-operator/src/wallet/router.ts:126-266 | once RS_OK, redelivery at any later point under any UUID is RS_OK and changes no balance or booking, even after a rollback of it |
| `WalletIdempotency.SharedMemorySwallowsWin` | apps/mock-operator/src/wallet/router.ts:192-201 | without that naming rule, in every state, a fresh win under a remembered UUID is RS_OK and not booked, and sending it again under a fresh UUID books it and credits its amount |
| `WalletIdempotency.SharedMemoryIsReached` | apps/mock-operator/src/wallet/router.ts:162-165 | one accepted bet reaches such a state |
| `WalletIdempotency.OkRollbackReversesIff` | apps/mock-operator/src/wallet/router.ts:224-266 | an RS_OK rollback request leaves its reference reversed iff both its UUIDs were new or the reference was reversed before |
| `WalletIdempotency.ReusedRollbackMovesNothing` | apps/mock-operator/src/wallet/store.ts:171-174 | in every state a reused rollback UUID is RS_OK, recorded, and moves nothing, whatever it references |
| `WalletIdempotency.ReusedRollbackIsReached` | apps/mock-operator/src/wallet/store.ts:171-174 | two bets and a rollback lead to an RS_OK rollback whose reference still stands |
| `WalletIdempotency.OkRollbackReversesUnderNaming` | apps/mock-operator/src/wallet/router.ts:224-266 | over every run, where a request UUID names one request and a rollback UUID one reference, an RS_OK rollback's reference is reversed and stays so |
| `WalletIdempotency.RunDetermined` | apps/mock-operator/src/wallet/router.ts:126-266 | after a fully accepted schedule the store is described by the set of requests |
| `WalletIdempotency.SchedulesAgree` | apps/mock-operator/src/wallet/router.ts:126-266 | reordered or duplicated accepted schedules of the same requests leave equal ledgers, and equal balances iff the clamp forgave equal amounts |
| `Bits.MaskedEqualIff` | apps/rgs-server/src/middleware/ip-allow-list.ts:84-85 | equal under a mask that clears the low bits iff equal after shifting them out |
| `Bits.OrIsSum` | apps/rgs-server/src/middleware/ip-allow-list.ts:95 | or-ing into shifted-in zeros is addition |
| `Bits.BitwiseAt` | apps/rgs-server/src/middleware/ip-allow-list.ts:84-95 | the bitwise operators combine their operands bit by bit |
| `Cidr.SamePrefixIsDivision` | apps/rgs-server/src/middleware/ip-allow-list.ts:78-117 | agreeing on leading bits is equality after division by 2^(width-bits), hence an equivalence |
| `Cidr.LongerPrefixImpliesShorter` | apps/rgs-server/src/middleware/ip-allow-list.ts:78-117 | a longer prefix match implies every shorter one (section 3.1 of RFC 4632) |
| `Cidr.PrefixExtremes` | apps/rgs-server/src/middleware/ip-allow-list.ts:78-117 | the full prefix is equality, the empty one always matches |
| `Cidr.MasksAgreeIff` | apps/rgs-server/src/middleware/ip-allow-list.ts:83-85 | the 32-bit shift and mask code means prefix agreement for every length 0 to 32 |
| `Cidr.ByteDecides` | apps/rgs-server/src/middleware/ip-allow-list.ts:106-115 | after equal bytes, only the next byte's high bits decide a prefix that ends inside it |
| `Cidr.ByteMaskAgrees` | apps/rgs-server/src/middleware/ip-allow-list.ts:111-112 | the partial-byte mask compares exactly the remaining high bits |
| `Cidr.MatchBytes` | apps/rgs-server/src/middleware/ip-allow-list.ts:105-116 | the byte loop means prefix agreement for every length 0 to 128 |
| `Ipv4Text.MatchCidrIPv4Iff` | apps/rgs-server/src/middleware/ip-allow-list.ts:78-86 | matches iff the length is at most 32, both texts are addresses and their prefixes agree |
| `Ipv4Text.Ipv4ToIntLoop` | apps/rgs-server/src/middleware/ip-allow-list.ts:88-98 | the shift-and-or loop computes the base-256 value, or fails on a malformed part |
| `Ipv4Text.DottedReadsBack` | apps/rgs-server/src/middleware/ip-allow-list.ts:88-98 | every address reads back from its dotted form |
| `Ipv4Text.OctetReads` | apps/rgs-server/src/middleware/ip-allow-list.ts:92-94 | what follows the digits of a part is ignored, and a part above 255 spoils the address |
| `Ipv6Text.FillBytes` | apps/rgs-server/src/middleware/ip-allow-list.ts:134-141 | the loop writes two bytes per group, or fails on a malformed group |
| `Ipv6Text.Ipv6ToBytesLoop` | apps/rgs-server/src/middleware/ip-allow-list.ts:119-142 | the expander with its loop is the specification function |
| `Ipv6Text.MatchCidrIPv6Loop` | apps/rgs-server/src/middleware/ip-allow-list.ts:100-117 | matches iff the length is at most 128, both texts expand and their prefixes agree |
| `Ipv6Text.ExpanderUndoesCompression` | apps/rgs-server/src/middleware/ip-allow-list.ts:119-142 | replacing any non-empty run of zero groups by `::` expands to the same 16 bytes (section 2.2 of RFC 4291) |
| `Ipv6Text.FullFormReads` | apps/rgs-server/src/middleware/ip-allow-list.ts:134-141 | every full text is an address and byte pair i is the value of group i |
| `Ipv6Text.AnyGroupReads` | apps/rgs-server/src/middleware/ip-allow-list.ts:136-139 | an empty group reads as 0, what follows the digits of a group is ignored, and a group above 0xffff spoils the address |
| `Ipv6Text.GroupsAround` | apps/rgs-server/src/middleware/ip-allow-list.ts:121-132 | `::` is filled up to eight groups with zeros, or refused where eight or more stand around it |
| `Ipv6Text.MalformedIsRefused` | apps/rgs-server/src/middleware/ip-allow-list.ts:121-132 | refused: another number of groups than eight without `::`, eight or more with it, and `::` twice |
| `AllowList.PatternHalves` | apps/rgs-server/src/middleware/ip-allow-list.ts:66-76 | a CIDR pattern goes to the matcher of its address family with its length |
| `AllowList.CidrPatternIff` | apps/rgs-server/src/middleware/ip-allow-list.ts:66-76 | every pattern with a slash: both halves there, a length that reads as a non-negative number, and then the matcher of its family decides; a further slash and what follows is ignored |
| `AllowList.MappedIff` | apps/rgs-server/src/middleware/ip-allow-list.ts:59-64 | the IPv4-mapped form is recognised exactly where four runs of one to three digits follow `::ffff:` |
| `AllowList.ExactIpv4PatternIff` | apps/rgs-server/src/middleware/ip-allow-list.ts:52-55 | exact IPv4: client and pattern, each plain or IPv4-mapped, match iff they are the same address |
| `AllowList.ExactFamiliesNeverMatch` | apps/rgs-server/src/middleware/ip-allow-list.ts:52-55 | an exact entry of one family never matches a client of the other |
| `AllowList.Ipv4PatternMeansPrefix` | apps/rgs-server/src/middleware/ip-allow-list.ts:51-98 | from the texts to the verdict: an IPv4 client, plain or IPv4-mapped, matches a pattern iff the leading bits agree |
| `AllowList.Ipv6PatternMeansPrefix` | apps/rgs-server/src/middleware/ip-allow-list.ts:51-142 | likewise for IPv6, with client and range each in full or in any compressed form and in either letter case |
| `AllowList.FamiliesNeverMatch` | apps/rgs-server/src/middleware/ip-allow-list.ts:51-142 | no IPv4 client, plain or mapped, matches an IPv6 pattern of any length, and no IPv6 client an IPv4 one |
| `AllowList.ExactIpv6PatternIff` | apps/rgs-server/src/middleware/ip-allow-list.ts:52-55 | a pattern without a slash matches an IPv6 client iff the texts agree up to letter case, so not another spelling of the address |
| `AllowList.MatchIpLoop` | apps/rgs-server/src/middleware/ip-allow-list.ts:51-57 | the code path with its loops gives the specified verdict, for patterns with a slash (`CidrPatternIff`) and without (`ExactIpv4PatternIff`, `ExactIpv6PatternIff`) |
| `Numerals.ParseIntReads` | apps/rgs-server/src/middleware/ip-allow-list.ts:69 | parseInt reads white space, a sign and a run of digits, and ignores what follows |
| `Numerals.ParseIntRejects` | apps/rgs-server/src/middleware/ip-allow-list.ts:69-70 | and is NaN where no digit stands there |
| `Numerals.HexPrefixIsSkipped` | apps/rgs-server/src/middleware/ip-allow-list.ts:136 | in base 16 a leading `0x` is skipped, and no digit behind it is NaN |
| `JsonText.QuotedReadsBack` | packages/webhook-spec/src/index.ts:123 | a quoted string reads back, whatever it holds: controls, quotes, surrogate pairs, lone surrogates (section 7 of RFC 8259) |
| `JsonText.QuoteUnitShape` | packages/webhook-spec/src/index.ts:123 | which of the possible spellings is printed: a plain unit itself, the five named controls, quotation mark and backslash as two units, every other unit as `\u` and four lowercase digits |
| `JsonText.QuotePairs` | packages/webhook-spec/src/index.ts:123 | a surrogate pair stands as it is, every other unit is quoted by itself |
| `JsonText.NumberStays` | packages/webhook-spec/src/index.ts:126 | a printed number is read whole and no further (section 6 of RFC 8259) |
| `JsonText.NumberIff` | packages/webhook-spec/src/index.ts:126 | the reader the results are stated with takes exactly the numbers of the grammar: int, frac and exp (section 6 of RFC 8259) |
| `JsonText.EscapesRead` | packages/webhook-spec/src/index.ts:123 | it takes all eight short escapes, and hex digits in either letter case (section 7 of RFC 8259) |
| `CanonicalJson.SortKeepsOrder` | packages/webhook-spec/src/index.ts:119-121 | distinct keys come out strictly ascending by code units, the order of `LessIff` |
| `CanonicalJson.LessIff` | packages/webhook-spec/src/index.ts:121 | keys are compared as JavaScript compares strings: at the first difference the smaller code unit comes first, and a prefix before what it starts |
| `CanonicalJson.KeysPrintInOrder` | packages/webhook-spec/src/index.ts:119-124 | an object prints its defined properties, each once, in that order of their keys |
| `CanonicalJson.NoWhiteSpace` | packages/webhook-spec/src/index.ts:113-127 | no white space stands outside the strings of the text |
| `CanonicalJson.BigIntTextReads` | packages/webhook-spec/src/index.ts:115 | a bigint prints as its decimal numeral: a minus where negative, then the digits without a leading zero |
| `CanonicalJson.ReadUndoesPrint` | packages/webhook-spec/src/index.ts:113-127 | reading the canonical text gives what the value means |
| `CanonicalJson.NothingMayFollow` | packages/webhook-spec/src/index.ts:113-127 | the text with a comma or a closing bracket behind it is refused |
| `CanonicalJson.MeaningDeterminesText` | packages/webhook-spec/src/index.ts:113-127 | values that mean the same print the same, whatever the key order |
| `CanonicalJson.SameTextIff` | packages/webhook-spec/src/index.ts:110-127 | equal text iff equal meaning, for all values including bigint, Date, undefined and non-finite numbers |
| `CanonicalJson.OrderAndUndefinedDoNotCount` | apps/rgs-server/src/routes/rounds.ts:16-34 | reordering keys and adding undefined entries never changes the text |
| `CanonicalJson.PlainTextIsFaithful` | apps/rgs-server/src/routes/rounds.ts:16-34 | plain values with keys in order print the same iff they are equal |
| `KeyCase.CamelRoundTripIff` | packages/operator-sdk/src/keyCase.ts:16-22 | toCamel(toSnake(k)) is k iff k has no underscore before a lowercase letter |
| `KeyCase.SnakeRoundTripIff` | packages/operator-sdk/src/keyCase.ts:16-22 | toSnake(toCamel(s)) is s iff s has no capital |
| `KeyCase.LetterTurns` | packages/operator-sdk/src/keyCase.ts:16-22 | a capital becomes an underscore and its own small letter, and a hump that letter's capital |
| `KeyCase.OtherStays` | packages/operator-sdk/src/keyCase.ts:16-22 | every other character stays |
| `KeyCase.SnakeConcat` | packages/operator-sdk/src/keyCase.ts:16-18 | toSnake works character by character |
| `KeyCase.CamelConcat` | packages/operator-sdk/src/keyCase.ts:20-22 | toCamel can be cut anywhere but inside a hump |
| `KeyCase.TransformKeysLoop` | packages/operator-sdk/src/keyCase.ts:24-37 | the recursive converter is the specification function |
| `KeyCase.TransformItemsLoop` | packages/operator-sdk/src/keyCase.ts:26-28 | so is its map over arrays |
| `KeyCase.TransformEntriesLoop` | packages/operator-sdk/src/keyCase.ts:29-35 | so is its loop over entries, overwriting on equal keys |
| `KeyCase.LoopIsMap` | packages/operator-sdk/src/keyCase.ts:29-35 | where converted keys are distinct no entry is lost or merged |
| `KeyCase.NothingLostIff` | packages/operator-sdk/src/keyCase.ts:29-35 | one conversion loses no entry iff no two keys convert alike and none converts to `__proto__` |
| `KeyCase.KeySurvivesIff` | packages/operator-sdk/src/keyCase.ts:16-35 | in either direction a key is safe iff it comes back and neither it nor its image is `__proto__` |
| `KeyCase.RoundTripIff` | packages/operator-sdk/src/keyCase.ts:24-57 | in either direction, there and back is the identity on a whole nested value iff every visited key is safe |
| `KeyCase.ThereAndBackIff` | packages/operator-sdk/src/keyCase.ts:82-83 | the response half: toSnakeCase is undone by fromSnakeCase iff every visited key has no underscore before a lowercase letter and is not `_Proto__` |
| `KeyCase.BackAndThereIff` | packages/operator-sdk/src/keyCase.ts:79-81 | the request half: fromSnakeCase is undone by toSnakeCase iff every visited key has no capital and is not `__proto__` |
| `Money.DisplaysAgree` | apps/game-client/src/store/gameStore.ts:269-277 | formatMicroAmount and fromMicro print the same text on every integer |
| `Money.ToMicroRoundTripIff` | packages/wallet-spec/src/index.ts:222-241 | toMicro undoes fromMicro and fmtMicro iff the amount is non-negative or whole |
| `Money.HnlToMicroReadsAbsolute` | apps/game-client/src/lempi/LempiStore.ts:238-243 | hnlToMicro reads the absolute amount from either printer |
| `Money.FmtMicroPrints` | scripts/reconcile.ts:100-106 | fmtMicro prints sign, whole units and five fraction digits of the amount |
| `Money.FromMicroIsShortest` | packages/wallet-spec/src/index.ts:231-241 | fromMicro prints the shortest text: no leading zero, no trailing zero behind a point, no point behind whole units |
| `Money.ToMicroFloors` | packages/wallet-spec/src/index.ts:222-229 | on every non-negative decimal text, with or without a point, toMicro is the floor of the value times 10^5 |
| `Money.HnlToMicroFloors` | apps/game-client/src/lempi/LempiStore.ts:238-243 | on any text with a point hnlToMicro is the number its digits spell around the first point, times 10^5, rounded down |
| `Money.HnlToMicroOfWhole` | apps/game-client/src/lempi/LempiStore.ts:238-243 | and on a text without a point its digits are whole units |
| `Text.BigIntReadsIff` | packages/wallet-spec/src/index.ts:226-228 | which texts BigInt reads, and as what: nothing as 0, digits with or without one sign as their value |
| `Text.BigIntIgnoresSpace` | packages/wallet-spec/src/index.ts:226-228 | white space around the text makes no difference |
| `LempiHistory.MergeHistory` | apps/game-client/src/lempi/LempiStore.ts:118-135 | the loop with its position map is the specified merge; the map always agrees with the list |
| `LempiHistory.MergeIsLastPerKey` | apps/game-client/src/lempi/LempiStore.ts:118-133 | last value per key, in first-seen order |
| `LempiHistory.IncomingWins` | apps/game-client/src/lempi/LempiStore.ts:124-129 | the second argument wins |
| `LempiHistory.MergedUnique` | apps/game-client/src/lempi/LempiStore.ts:118-135 | keys stay unique and at most 40 entries are kept |
| `LempiHistory.TwoEntriesMergeIff` | apps/game-client/src/lempi/LempiStore.ts:123-131 | two entries are one, with the newer values, iff their bet ids agree, where an entry without one goes by its own id |
| `LempiHistory.RemergeIsNoOpIff` | apps/game-client/src/lempi/LempiStore.ts:118-135 | merging the same entries again changes nothing iff their keys all survived |
| `LempiHistory.FewKeysRemergeIsNoOp` | apps/game-client/src/lempi/LempiStore.ts:118-135 | in particular with at most 40 distinct keys |
| `LempiClient.StepKeepsInv` | apps/game-client/src/lempi/useLempiSocket.ts:139-459 | every event keeps the slot and history invariant |
| `LempiClient.EveryRunKeepsInv` | apps/game-client/src/lempi/useLempiSocket.ts:139-459 | over every interleaving: ACTIVE has a bet id, IDLE and PENDING none, CASHED_OUT a payout, each bet at most once among at most 40 entries |
| `LempiClient.StateReadsOffEvents` | apps/game-client/src/lempi/useLempiSocket.ts:139-459 | over every run each field of a slot and of the round holds what the last event that sets it said: stake, auto target, bet, status, cashout, payout, round, number, phase, multiplier, crash |
| `LempiClient.ResultReadsOffEvents` | apps/game-client/src/lempi/useLempiSocket.ts:422-449 | so every field of a written result is read off the events: the stake of the last bet text, the acknowledged bet, the last round, the crash announced or else shown, the last cashout and its payout |
| `LempiClient.ResultEntriesCarryPayouts` | apps/game-client/src/lempi/useLempiSocket.ts:422-459 | round_result writes one entry per slot with a bet, WIN iff cashed out, and every WIN carries a payout |
| `LempiClient.CashedOutIff` | apps/game-client/src/lempi/useLempiSocket.ts:139-371 | over every run a slot is cashed out iff the last event that moved it (bet, acknowledgement, cashout, betting opens) is a cashout |
| `LempiClient.ResultIsWinIff` | apps/game-client/src/lempi/useLempiSocket.ts:431-449 | so its result is a WIN iff that event is a cashout, and an accepted acknowledgement after the cashout makes it a LOSS |
| `LempiClient.HistoryShowsLatestResult` | apps/game-client/src/lempi/useLempiSocket.ts:422-459 | an entry that the history shows under a settled slot's bet is the result just written |
| `LempiClient.ResultIsShownIff` | apps/game-client/src/lempi/LempiStore.ts:118-135 | the result of a slot's bet is shown, except exactly when the bet was the oldest of forty entries already and the other slot's bet is new |
| `LempiClient.OutOfPlayUntilAccepted` | apps/game-client/src/lempi/useLempiSocket.ts:450-455 | after round_result a slot is not ACTIVE until an acknowledgement accepts a bet on it |
| `LempiClient.LateAckRevives` | apps/game-client/src/lempi/useLempiSocket.ts:168-173 | a late acknowledgement of the finished round makes the slot ACTIVE again |
| `LempiClient.NoResultWithoutBet` | apps/game-client/src/lempi/LempiStore.ts:191-206 | once betting opens, round_result writes nothing for a slot until a bet on it is accepted |
| `LempiClient.CashoutBecomesWin` | apps/game-client/src/lempi/useLempiSocket.ts:354-371 | an accepted cashout is written as a WIN with exactly the announced payout |
| `LempiClient.LoadingKeepsLocalEntries` | apps/game-client/src/lempi/LempiStore.ts:224-227 | loading the server's history never overwrites an entry the client already shows |
| `LempiClient.ItemBecomesEntryIff` | apps/game-client/src/lempi/useLempiSocket.ts:46-74 | an item of the server's history becomes an entry iff bet, round, number and slot are named and the amount is an integer; it keeps their values and is a WIN iff the server says so |
| `LempiClient.LoadedInReverse` | apps/game-client/src/lempi/useLempiSocket.ts:209-212 | the items enter the history in reverse, and those that become no entry are dropped |
| `LempiClient.PhaseIff` | apps/game-client/src/lempi/useLempiSocket.ts:76-89 | the four phases are recognised in any letter case; anything else is waiting |
| `LempiClient.LempiStore.constructor` | apps/game-client/src/lempi/LempiStore.ts:147-170 | the initial state satisfies the invariant |
| `LempiClient.LempiStore.OnPlaceBet` | apps/game-client/src/lempi/useLempiSocket.ts:139-155 | the handler is the bet event |
| `LempiClient.LempiStore.OnAck` | apps/game-client/src/lempi/useLempiSocket.ts:167-175 | the callback is the acknowledgement event |
| `LempiClient.LempiStore.OnCashoutAccepted` | apps/game-client/src/lempi/useLempiSocket.ts:354-371 | the handler is the cashout event |
| `LempiClient.LempiStore.OnRoundState` | apps/game-client/src/lempi/useLempiSocket.ts:311-340 | the handler is the round change, which resets the slots when betting opens |
| `LempiClient.LempiStore.OnMultiplierTick` | apps/game-client/src/lempi/useLempiSocket.ts:342-346 | the handler is the tick |
| `LempiClient.LempiStore.OnRoundResult` | apps/game-client/src/lempi/useLempiSocket.ts:422-459 | the handler is the result event |
| `LempiClient.LempiStore.OnHistoryLoaded` | apps/game-client/src/lempi/useLempiSocket.ts:203-221 | the loader is the hydration event, current entries winning |
| `IdempotencyCache.StepKeepsInv` | apps/rgs-server/src/middleware/idempotency.ts:26-82 | every step of every request keeps cached statuses below 500 |
| `IdempotencyCache.EveryRunKeepsInv` | apps/rgs-server/src/middleware/idempotency.ts:26-82 | over every interleaving: cached rows and answers from the cache are below 500, and no row outlives 24 hours from now |
| `IdempotencyCache.RunKeepsCached` | apps/rgs-server/src/middleware/idempotency.ts:36-82 | a row answers until a deadline that no write under way undercuts |
| `IdempotencyCache.SomeRowAnswersIff` | apps/rgs-server/src/middleware/idempotency.ts:36-82 | some live row of the key is there until the stored one expires, failed lookups included, iff no write under way expires earlier; which response it holds is the next rows' subject |
| `IdempotencyCache.ResponseStandsIff` | apps/rgs-server/src/middleware/idempotency.ts:36-82 | the stored row stays live with the same status and body until it expires, on every continuation without a failed lookup, iff every request of the key under way is harmless to it |
| `IdempotencyCache.ReplayedUntilExpiryIff` | apps/rgs-server/src/middleware/idempotency.ts:5-12 | a processed request is replayed: every duplicate judged before the expiry gets that status and body from the cache, on every continuation without a failed lookup, iff every request of the key under way is inert |
| `IdempotencyCache.FailedLookupBreaks` | apps/rgs-server/src/middleware/idempotency.ts:40-42 | after one failed lookup, in any state, the stored response can be lost before it expires |
| `IdempotencyCache.DuplicateAnsweredFromCache` | apps/rgs-server/src/middleware/idempotency.ts:26-39 | a duplicate looked up after the persist is answered from the cache, with the identical status and body if no overlapping request upserts |
| `IdempotencyCache.EveryRunStoresItsAnswer` | apps/rgs-server/src/middleware/idempotency.ts:44-78 | over every interleaving, what a request is about to store is what its handler sent |
| `IdempotencyCache.HandlerAnswerIsFinal` | apps/rgs-server/src/middleware/idempotency.ts:44-50 | whatever its status, the client gets the handler's own answer, and no later step of any request changes it |
| `IdempotencyCache.StoredIffCacheable` | apps/rgs-server/src/middleware/idempotency.ts:52-79 | that answer is stored under the request's key until 24 hours after the response finished, and nothing is stored for a server error, an empty capture or a failed write |
| `IdempotencyCache.OriginalIsRepeatedIff` | apps/rgs-server/src/middleware/idempotency.ts:26-82 | over any history, once a request's upsert lands, every later duplicate repeats the very status and body its handler had sent, up to expiry and without a failed lookup, iff the requests under way are then inert |
| `IdempotencyCache.DuplicateRepeatsOriginal` | apps/rgs-server/src/middleware/idempotency.ts:26-82 | one duplicate repeats the original answer also when lookups fail, provided no other upsert of the key lands before its own lookup |
| `IdempotencyCache.ClosedStaysClosed` | apps/rgs-server/src/middleware/idempotency.ts:36-39 | a request answered from the cache never runs the handler |
| `IdempotencyCache.HandlerRunsIff` | apps/rgs-server/src/middleware/idempotency.ts:26-42 | a request that is looked up and judged runs the handler iff its lookup failed, there was no row, or that row is no longer live when it is judged, whatever happens in between |
| `IdempotencyCache.BothHandle` | apps/rgs-server/src/middleware/idempotency.ts:26-39 | two overlapping requests of one key both run the handler |
| `IdempotencyCache.OverwriteIsReached` | apps/rgs-server/src/middleware/idempotency.ts:52-78 | for any two different responses, a history without failed lookups stores the first one and, one step on, replaces it by the second |
| `IdempotencyCache.ShorteningIsReached` | apps/rgs-server/src/middleware/idempotency.ts:52-78 | for any response and delay, such a history lets an overtaken write shorten the life of the same response by that delay |
| `IdempotencyCache.Middleware.constructor` | apps/rgs-server/src/middleware/idempotency.ts:15-16 | an empty cache satisfies the invariant |
| `IdempotencyCache.Middleware.Lookup` | apps/rgs-server/src/middleware/idempotency.ts:26-35 | the row read, or none when the lookup fails |
| `IdempotencyCache.Middleware.Judge` | apps/rgs-server/src/middleware/idempotency.ts:36-42 | replay of a live row, else the handler |
| `IdempotencyCache.Middleware.Respond` | apps/rgs-server/src/middleware/idempotency.ts:44-50 | the handler's answer is captured |
| `IdempotencyCache.Middleware.OnFinish` | apps/rgs-server/src/middleware/idempotency.ts:52-55 | server errors and empty captures are not stored |
| `IdempotencyCache.Middleware.Upsert` | apps/rgs-server/src/middleware/idempotency.ts:56-79 | the write lands, or fails and is dropped |
| `Paging.ListPage` | apps/rgs-server/src/routes/rounds.ts:63-69 | the handler with its pop is the page function |
| `Paging.PageShape` | apps/rgs-server/src/routes/admin.ts:240-246 | a page is the next limit rows, and the row after them is the cursor iff there is one |
| `Paging.GoneCursorEndsListing` | apps/rgs-server/src/routes/rounds.ts:63-69 | a cursor that is no longer in the list gives an empty last page |
| `Paging.WalkSkipsLookAheads` | apps/rgs-server/src/routes/rounds.ts:63-69 | following the cursors terminates and yields, in order and once each, exactly the rows that were never a cursor |
| `Paging.WalkOmitsExactly` | apps/rgs-server/src/routes/rounds.ts:117-128 | a row is on some page iff its 1-based position is not a multiple of limit + 1 |
| `Paging.WalkIsCompleteIff` | apps/rgs-server/src/routes/admin.ts:240-246 | the listing is complete iff it fits on one page |
| `Paging.WalkByLastIsComplete` | apps/rgs-server/src/routes/rounds.ts:63-69 | with the last returned row as the cursor every row is listed exactly once, in order |

## Left out

- GameEngine, WalletClient, PendingJobRunner, AuditChain, RGLimitsEnforcer and ReconciliationJob: other components, not part of this model.
- Cryptographic strength of SHA-256 and HMAC; signature checks of the wallet endpoints (a delivered request has passed them).
- IEEE-754 rounding in the games, and `toMicro` on JavaScript numbers.
- `winMeta`, `diceValues` and other display fields of settlements; echoed UUID and currency in wallet responses; the debug and dump endpoints.
- BigInt on hexadecimal, octal and binary literals and on white space outside ASCII; case folding outside ASCII.
- Values without a JSON form in `canonicalJson` (functions, symbols, sparse array holes, invalid dates, class instances other than Date).
- The prototype that an assignment to `__proto__` installs; only the lost key is modelled.
- Requests without operator or request UUID, which bypass the idempotency middleware; eviction of expired rows.
- Rows inserted or deleted during a paged walk, ties in the sort order, filters and query validation.
- Toasts, tones, pool, presence, balance and timer fields of the Lempi client.
- KeyCase.RoundTripIff: compares entries in order and does not model the reordering of array-index keys, which conversion leaves alone.
- Jurisdiction profiles, role gates, launch parameters, SDK error mapping, rendering and scripts: table lookups and presentation.
