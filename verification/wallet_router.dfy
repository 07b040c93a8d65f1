/** The three mutating wallet endpoints of apps/mock-operator/src/wallet/router.ts: request-level
    idempotency, shared by all of them, around the store. Requests have passed the signature gate. */
module WalletRouter {
  import opened Wrappers
  import opened Text
  import opened WalletStore

  /** The money movement a request body asks for; amounts are texts, and "" is an absent field. */
  datatype Call =
    | BetCall(tx: Uuid, amountMicro: string)
    | WinCall(tx: Uuid, referenceTx: Uuid, amountMicro: string)
    | RollbackCall(tx: Uuid, referenceTx: Uuid)

  datatype Request = Request(requestUuid: Uuid, operatorId: Option<string>, playerRef: string, currency: string,
                             call: Call)

  datatype Response = Response(status: Status, balanceMicro: Option<int>)

  predicate MissingFields(r: Request) {
    || r.requestUuid == "" || r.call.tx == "" || r.playerRef == "" || r.currency == ""
    || (r.call.BetCall? && r.call.amountMicro == "")
    || (r.call.WinCall? && (r.call.referenceTx == "" || r.call.amountMicro == ""))
    || (r.call.RollbackCall? && r.call.referenceTx == "")
  }

  function KeyFor(config: string, r: Request): Key {
    KeyOf(if r.operatorId.Some? then r.operatorId.value else config, r.playerRef)
  }

  /** The store call a request makes; None where BigInt rejects the amount. */
  function OperationOf(call: Call): Option<Operation> {
    match call
    case BetCall(tx, text) => (match ParseBigInt(text) case Some(amount) => Some(Bet(tx, amount)) case None => None)
    case WinCall(tx, _, text) => (match ParseBigInt(text) case Some(amount) => Some(Win(tx, amount)) case None => None)
    case RollbackCall(tx, reference) => Some(Rollback(tx, reference))
  }

  /** One delivery of a request. */
  function Deliver(s: State, config: string, r: Request): (State, Response) {
    if MissingFields(r) then (s, Response(WRONG_SYNTAX, None))
    else if r.requestUuid in s.processed then (s, Response(OK, Some(s.processed[r.requestUuid])))
    else
      match OperationOf(r.call)
      case None => (s, Response(WRONG_TYPES, None))
      case Some(op) =>
        var (s', reply) := Step(s, KeyFor(config, r), op);
        (if reply.status == OK then Remember(s', r.requestUuid, reply.balanceMicro) else s',
         Response(reply.status, Some(reply.balanceMicro)))
  }

  method HandleBet(store: Store, config: string, r: Request) returns (response: Response)
    requires store.Valid() && r.call.BetCall?
    modifies store
    ensures store.Valid()
    ensures (store.Current(), response) == Deliver(old(store.Current()), config, r)
  {
    if MissingFields(r) {
      return Response(WRONG_SYNTAX, None);
    }
    var prev := store.RecallRequest(r.requestUuid);
    if prev.Some? {
      return Response(OK, prev);
    }
    var amount := ParseBigInt(r.call.amountMicro);
    if amount.None? {
      return Response(WRONG_TYPES, None);
    }
    var operatorId := if r.operatorId.Some? then r.operatorId.value else config;
    var reply := store.PlaceBet(operatorId, r.playerRef, r.call.tx, amount.value);
    if reply.status == OK {
      store.RememberRequest(r.requestUuid, reply.balanceMicro);
    }
    return Response(reply.status, Some(reply.balanceMicro));
  }

  method HandleWin(store: Store, config: string, r: Request) returns (response: Response)
    requires store.Valid() && r.call.WinCall?
    modifies store
    ensures store.Valid()
    ensures (store.Current(), response) == Deliver(old(store.Current()), config, r)
  {
    if MissingFields(r) {
      return Response(WRONG_SYNTAX, None);
    }
    var prev := store.RecallRequest(r.requestUuid);
    if prev.Some? {
      return Response(OK, prev);
    }
    var amount := ParseBigInt(r.call.amountMicro);
    if amount.None? {
      return Response(WRONG_TYPES, None);
    }
    var operatorId := if r.operatorId.Some? then r.operatorId.value else config;
    var reply := store.CreditWin(operatorId, r.playerRef, r.call.tx, amount.value);
    if reply.status == OK {
      store.RememberRequest(r.requestUuid, reply.balanceMicro);
    }
    return Response(reply.status, Some(reply.balanceMicro));
  }

  method HandleRollback(store: Store, config: string, r: Request) returns (response: Response)
    requires store.Valid() && r.call.RollbackCall?
    modifies store
    ensures store.Valid()
    ensures (store.Current(), response) == Deliver(old(store.Current()), config, r)
  {
    if MissingFields(r) {
      return Response(WRONG_SYNTAX, None);
    }
    var prev := store.RecallRequest(r.requestUuid);
    if prev.Some? {
      return Response(OK, prev);
    }
    var operatorId := if r.operatorId.Some? then r.operatorId.value else config;
    var reply := store.RollBack(operatorId, r.playerRef, r.call.tx, r.call.referenceTx);
    if reply.status == OK {
      store.RememberRequest(r.requestUuid, reply.balanceMicro);
    }
    return Response(reply.status, Some(reply.balanceMicro));
  }

  // ----- What a delivery answers -----

  function AmountText(call: Call): string {
    match call
    case BetCall(_, text) => text
    case WinCall(_, _, text) => text
    case RollbackCall(_, _) => "0"
  }

  /** A field is absent that the endpoint demands: the request UUID, the transaction UUID, the player and the
      currency everywhere, the reference for a win or a rollback, the amount for a bet or a win. */
  predicate FieldIsAbsent(r: Request) {
    "" in {r.requestUuid, r.call.tx, r.playerRef, r.currency} ||
    match r.call
    case BetCall(_, amount) => amount == ""
    case WinCall(_, reference, amount) => "" in {reference, amount}
    case RollbackCall(_, reference) => reference == ""
  }

  /** Every delivery, case by case: an absent field, a remembered UUID, an amount that is no integer, and
      otherwise the store's answer for the operator the request names, or the configured one. */
  lemma DeliverAnswers(s: State, config: string, r: Request)
    ensures var (t, response) := Deliver(s, config, r);
            var operator := match r.operatorId case Some(id) => id case None => config;
            var amount := ParseBigInt(AmountText(r.call));
            if FieldIsAbsent(r) then t == s && response == Response(WRONG_SYNTAX, None)
            else if r.requestUuid in s.processed then
              t == s && response == Response(OK, Some(s.processed[r.requestUuid]))
            else if amount.None? && !r.call.RollbackCall? then t == s && response == Response(WRONG_TYPES, None)
            else
              var op := match r.call
                        case BetCall(tx, _) => Bet(tx, amount.value)
                        case WinCall(tx, _, _) => Win(tx, amount.value)
                        case RollbackCall(tx, reference) => Rollback(tx, reference);
              var (stepped, reply) := Step(s, operator + ":" + r.playerRef, op);
              response == Response(reply.status, Some(reply.balanceMicro)) &&
              t.wallets == stepped.wallets && t.ledger == stepped.ledger && t.rollbackTxs == stepped.rollbackTxs &&
              t.processed ==
              if reply.status == OK then s.processed[r.requestUuid := reply.balanceMicro] else s.processed
  {
    hide ParseBigInt;
    if r.call.RollbackCall? {
      ParseZero();
    }
    StepKeepsMemory(s, KeyFor(config, r), OperationOf(r.call));
    hide Step;
  }

  lemma ParseZero()
    ensures ParseBigInt("0").Some?
  {
    ParseDigits("0");
  }

  lemma StepKeepsMemory(s: State, key: Key, op: Option<Operation>)
    ensures op.Some? ==> Step(s, key, op.value).0.processed == s.processed
  {
  }

  // ----- Runs -----

  /** The state after delivering a schedule of requests, one after another. */
  function Run(s: State, config: string, schedule: seq<Request>): State {
    if schedule == [] then s
    else Deliver(Run(s, config, schedule[..|schedule| - 1]), config, schedule[|schedule| - 1]).0
  }

  /** Every delivery of the schedule is answered RS_OK. */
  predicate AllOk(s: State, config: string, schedule: seq<Request>) {
    schedule == [] ||
    (AllOk(s, config, schedule[..|schedule| - 1]) &&
     Deliver(Run(s, config, schedule[..|schedule| - 1]), config, schedule[|schedule| - 1]).1.status == OK)
  }

  /** What the clamp forgave a wallet over a schedule. */
  function TotalForgiven(s: State, config: string, schedule: seq<Request>, key: Key): int {
    if schedule == [] then 0
    else
      var before, r := schedule[..|schedule| - 1], schedule[|schedule| - 1];
      TotalForgiven(s, config, before, key) + ForgivenBy(Run(s, config, before), config, r, key)
  }

  function ForgivenBy(s: State, config: string, r: Request, key: Key): int {
    if MissingFields(r) || r.requestUuid in s.processed || OperationOf(r.call).None? || KeyFor(config, r) != key then 0
    else Forgiven(s, key, OperationOf(r.call).value)
  }

  /** Conservation over every run of the endpoints, refused and replayed requests included: each
      balance is the seed, less the bets that stand, plus the wins that stand, plus what the clamp
      forgave that wallet; and no balance is negative. */
  lemma {:induction false} RunConserves(config: string, schedule: seq<Request>, key: Key)
    ensures var s := Run(Initial(config), config, schedule);
            BalanceOf(s, key) == SEED_BALANCE_MICRO + LedgerNet(s.ledger, key)
                                 + TotalForgiven(Initial(config), config, schedule, key)
    ensures NonNegative(Run(Initial(config), config, schedule))
  {
    if schedule != [] {
      var before, r := schedule[..|schedule| - 1], schedule[|schedule| - 1];
      RunConserves(config, before, key);
      var s := Run(Initial(config), config, before);
      if !MissingFields(r) && r.requestUuid !in s.processed && OperationOf(r.call).Some? {
        StepConserves(s, KeyFor(config, r), OperationOf(r.call).value, key);
        StepKeepsNonNegative(s, KeyFor(config, r), OperationOf(r.call).value);
      }
    }
  }
}
