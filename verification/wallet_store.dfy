/** The seamless-wallet store of apps/mock-operator/src/wallet/store.ts: balances, a ledger keyed by
    transaction UUID, the request memory, and the rollback UUIDs seen. */
module WalletStore {
  import opened Wrappers

  type Key = string
  type Uuid = string

  const SEED_BALANCE_MICRO: nat := 1_000_000_000
  const SEED_PLAYERS: seq<string> := ["p-alice", "p-bob", "p-charlie"]

  function KeyOf(operatorId: string, playerRef: string): Key {
    operatorId + ":" + playerRef
  }

  datatype TxKind = BetTx | WinTx

  datatype LedgerEntry = LedgerEntry(kind: TxKind, key: Key, amountMicro: int, rolledBack: bool)

  datatype Status =
    | OK
    | WRONG_SYNTAX
    | WRONG_TYPES
    | NOT_ENOUGH_MONEY
    | DUPLICATE_TRANSACTION
    | TRANSACTION_NOT_FOUND

  datatype Reply = Reply(status: Status, balanceMicro: int)

  datatype State = State(wallets: map<Key, int>, ledger: map<Uuid, LedgerEntry>,
                         processed: map<Uuid, int>, rollbackTxs: set<Uuid>)

  /** A money movement as the store receives it. */
  datatype Operation =
    | Bet(tx: Uuid, amountMicro: int)
    | Win(tx: Uuid, amountMicro: int)
    | Rollback(tx: Uuid, reference: Uuid)

  function BalanceOf(s: State, key: Key): int {
    if key in s.wallets then s.wallets[key] else SEED_BALANCE_MICRO
  }

  function WithBalance(s: State, key: Key, balanceMicro: int): State {
    s.(wallets := s.wallets[key := balanceMicro])
  }

  predicate Books(op: Operation, key: Key, entry: LedgerEntry) {
    match op
    case Bet(_, amount) => entry.kind == BetTx && entry.key == key && entry.amountMicro == amount
    case Win(_, amount) => entry.kind == WinTx && entry.key == key && entry.amountMicro == amount
    case Rollback(_, _) => false
  }

  /** Looking a wallet up creates it with the seed balance. */
  function Touched(s: State, key: Key): State {
    WithBalance(s, key, BalanceOf(s, key))
  }

  /** bet and win answer a known UUID by comparing the booking, and never move money for it again. */
  function Replay(s: State, key: Key, op: Operation, entry: LedgerEntry): (State, Reply) {
    (Touched(s, key), Reply(if Books(op, key, entry) then OK else DUPLICATE_TRANSACTION, BalanceOf(s, key)))
  }

  function Book(s: State, key: Key, tx: Uuid, entry: LedgerEntry, balanceMicro: int): (State, Reply) {
    (WithBalance(s, key, balanceMicro).(ledger := s.ledger[tx := entry]), Reply(OK, balanceMicro))
  }

  /** Reversing a bet credits it; reversing a win debits it, but never below zero. */
  function Reversed(balance: int, original: LedgerEntry): int {
    if original.kind == BetTx then balance + original.amountMicro
    else if balance < original.amountMicro then 0
    else balance - original.amountMicro
  }

  function RollbackStep(s: State, key: Key, tx: Uuid, reference: Uuid): (State, Reply) {
    var balance := BalanceOf(s, key);
    if tx in s.rollbackTxs then (Touched(s, key), Reply(OK, balance))
    else if reference !in s.ledger || s.ledger[reference].key != key then
      (Touched(s, key), Reply(TRANSACTION_NOT_FOUND, balance))
    else if s.ledger[reference].rolledBack then
      (Touched(s, key).(rollbackTxs := s.rollbackTxs + {tx}), Reply(OK, balance))
    else
      var original := s.ledger[reference];
      var (s', reply) := Book(s, key, reference, original.(rolledBack := true), Reversed(balance, original));
      (s'.(rollbackTxs := s.rollbackTxs + {tx}), reply)
  }

  /** One store call: the next state and the reply. */
  function Step(s: State, key: Key, op: Operation): (State, Reply) {
    var balance := BalanceOf(s, key);
    match op
    case Bet(tx, amount) =>
      if tx in s.ledger then Replay(s, key, op, s.ledger[tx])
      else if amount <= 0 then (Touched(s, key), Reply(WRONG_SYNTAX, balance))
      else if balance < amount then (Touched(s, key), Reply(NOT_ENOUGH_MONEY, balance))
      else Book(s, key, tx, LedgerEntry(BetTx, key, amount, false), balance - amount)
    case Win(tx, amount) =>
      if tx in s.ledger then Replay(s, key, op, s.ledger[tx])
      else if amount < 0 then (Touched(s, key), Reply(WRONG_SYNTAX, balance))
      else Book(s, key, tx, LedgerEntry(WinTx, key, amount, false), balance + amount)
    case Rollback(tx, reference) => RollbackStep(s, key, tx, reference)
  }

  /** What a ledger entry did to its wallet while it stands. */
  function Movement(entry: LedgerEntry): int {
    if entry.rolledBack then 0 else if entry.kind == BetTx then -entry.amountMicro else entry.amountMicro
  }

  /** What the clamp at zero gives away: only when a rollback reverses a win that exceeds the balance. */
  function Forgiven(s: State, key: Key, op: Operation): (f: int)
    ensures f >= 0
  {
    if op.Rollback? && op.tx !in s.rollbackTxs && op.reference in s.ledger then
      var original := s.ledger[op.reference];
      if original.key == key && original.kind == WinTx && !original.rolledBack &&
        BalanceOf(s, key) < original.amountMicro
      then original.amountMicro - BalanceOf(s, key)
      else 0
    else 0
  }

  function Remember(s: State, requestUuid: Uuid, balanceMicro: int): State {
    s.(processed := s.processed[requestUuid := balanceMicro])
  }

  function SeedWallets(operatorId: string): (m: map<Key, int>)
    ensures forall k :: k in m ==> m[k] == SEED_BALANCE_MICRO
    ensures m.Keys == set p | p in SEED_PLAYERS :: KeyOf(operatorId, p)
  {
    map p: string | p in SEED_PLAYERS :: KeyOf(operatorId, p) := SEED_BALANCE_MICRO as int
  }

  function Initial(operatorId: string): State {
    State(SeedWallets(operatorId), map[], map[], {})
  }

  // ----- Conservation -----

  ghost function LedgerNet(ledger: map<Uuid, LedgerEntry>, key: Key): int {
    if ledger == map[] then 0
    else
      var tx :| tx in ledger;
      MovementOn(ledger[tx], key) + LedgerNet(ledger - {tx}, key)
  }

  function MovementOn(entry: LedgerEntry, key: Key): int {
    if entry.key == key then Movement(entry) else 0
  }

  /** The sum over a ledger does not depend on the order its entries are taken in. */
  lemma {:induction false} LedgerNetTake(ledger: map<Uuid, LedgerEntry>, tx: Uuid, key: Key)
    requires tx in ledger
    ensures LedgerNet(ledger, key) == MovementOn(ledger[tx], key) + LedgerNet(ledger - {tx}, key)
    decreases |ledger|
  {
    var first :| first in ledger &&
      LedgerNet(ledger, key) == MovementOn(ledger[first], key) + LedgerNet(ledger - {first}, key);
    if first != tx {
      LedgerNetTake(ledger - {first}, tx, key);
      LedgerNetTake(ledger - {tx}, first, key);
      assert ledger - {first} - {tx} == ledger - {tx} - {first};
    }
  }

  lemma LedgerNetPut(ledger: map<Uuid, LedgerEntry>, tx: Uuid, entry: LedgerEntry, key: Key)
    ensures LedgerNet(ledger[tx := entry], key) == LedgerNet(ledger, key) + MovementOn(entry, key)
              - if tx in ledger then MovementOn(ledger[tx], key) else 0
  {
    LedgerNetTake(ledger[tx := entry], tx, key);
    assert ledger[tx := entry] - {tx} == ledger - {tx};
    if tx in ledger {
      LedgerNetTake(ledger, tx, key);
    } else {
      assert ledger - {tx} == ledger;
    }
  }

  /** Every call moves a balance by exactly what it does to the ledger, plus what it forgives. */
  lemma StepConserves(s: State, key: Key, op: Operation, k: Key)
    ensures var s' := Step(s, key, op).0;
            BalanceOf(s', k) - LedgerNet(s'.ledger, k)
            == BalanceOf(s, k) - LedgerNet(s.ledger, k) + if k == key then Forgiven(s, key, op) else 0
  {
    hide LedgerNet;
    match op
    case Bet(tx, amount) =>
      BookConserves(s, key, tx, LedgerEntry(BetTx, key, amount, false), BalanceOf(s, key) - amount, k);
    case Win(tx, amount) =>
      BookConserves(s, key, tx, LedgerEntry(WinTx, key, amount, false), BalanceOf(s, key) + amount, k);
    case Rollback(tx, reference) =>
      if reference in s.ledger {
        var original := s.ledger[reference];
        BookConserves(s, key, reference, original.(rolledBack := true), Reversed(BalanceOf(s, key), original), k);
      }
  }

  /** Booking an entry for a wallet changes its balance as stated and every ledger sum by that entry. */
  lemma BookConserves(s: State, key: Key, tx: Uuid, entry: LedgerEntry, balanceMicro: int, k: Key)
    ensures var t := Book(s, key, tx, entry, balanceMicro).0;
            BalanceOf(t, k) == (if k == key then balanceMicro else BalanceOf(s, k)) &&
            LedgerNet(t.ledger, k) == LedgerNet(s.ledger, k) + MovementOn(entry, k)
              - if tx in s.ledger then MovementOn(s.ledger[tx], k) else 0
  {
    hide LedgerNet, MovementOn;
    LedgerNetPut(s.ledger, tx, entry, k);
  }

  /** No wallet is ever overdrawn. */
  predicate NonNegative(s: State) {
    && (forall k :: k in s.wallets ==> s.wallets[k] >= 0)
    && (forall tx :: tx in s.ledger ==> s.ledger[tx].amountMicro >= 0)
  }

  lemma StepKeepsNonNegative(s: State, key: Key, op: Operation)
    requires NonNegative(s)
    ensures NonNegative(Step(s, key, op).0)
  {
    assert BalanceOf(s, key) >= 0;
  }

  /** When a call is accepted, for every state: a fresh bet within the balance, a fresh win, a rollback
      of a transaction of the same wallet, or a replay; any refusal leaves balances and ledger alone. */
  lemma AcceptedIff(s: State, key: Key, op: Operation)
    ensures Step(s, key, op).1.status == OK <==>
            match op
            case Bet(tx, amount) =>
              if tx in s.ledger then Books(op, key, s.ledger[tx]) else 0 < amount <= BalanceOf(s, key)
            case Win(tx, amount) =>
              if tx in s.ledger then Books(op, key, s.ledger[tx]) else 0 <= amount
            case Rollback(tx, reference) =>
              tx in s.rollbackTxs || (reference in s.ledger && s.ledger[reference].key == key)
    ensures Step(s, key, op).1.balanceMicro == BalanceOf(Step(s, key, op).0, key)
    ensures Step(s, key, op).1.status != OK ==>
            Step(s, key, op).0 == Touched(s, key)
  {
  }

  /** The ledger holds another booking under this UUID: of another kind, wallet or amount. */
  predicate Clashes(s: State, key: Key, tx: Uuid, kind: TxKind, amountMicro: int) {
    tx in s.ledger &&
    (s.ledger[tx].kind != kind || s.ledger[tx].key != key || s.ledger[tx].amountMicro != amountMicro)
  }

  /** Why a call is refused, for every state and call, and that it then changes nothing but that the wallet
      exists. */
  lemma RefusedIff(s: State, key: Key, op: Operation)
    ensures var (t, reply) := Step(s, key, op);
            (reply.status == DUPLICATE_TRANSACTION <==>
             (op.Bet? && Clashes(s, key, op.tx, BetTx, op.amountMicro)) ||
             (op.Win? && Clashes(s, key, op.tx, WinTx, op.amountMicro))) &&
            (reply.status == WRONG_SYNTAX <==>
             (op.Bet? && op.tx !in s.ledger && op.amountMicro <= 0) ||
             (op.Win? && op.tx !in s.ledger && op.amountMicro < 0)) &&
            (reply.status == NOT_ENOUGH_MONEY <==>
             op.Bet? && op.tx !in s.ledger && 0 < op.amountMicro && BalanceOf(s, key) < op.amountMicro) &&
            (reply.status == TRANSACTION_NOT_FOUND <==>
             op.Rollback? && op.tx !in s.rollbackTxs &&
             (op.reference in s.ledger ==> s.ledger[op.reference].key != key)) &&
            reply.status != WRONG_TYPES &&
            (reply.status != OK ==>
             t == s.(wallets := s.wallets[key := BalanceOf(s, key)]) && reply.balanceMicro == BalanceOf(s, key))
  {
  }

  /** What an accepted call that is not a replay does, in balances and bookings. */
  lemma FreshCallMoves(s: State, key: Key, op: Operation)
    requires Step(s, key, op).1.status == OK
    ensures var t := Step(s, key, op).0;
            var balance := BalanceOf(s, key);
            match op
            case Bet(tx, amount) =>
              tx !in s.ledger ==> t.ledger == s.ledger[tx := LedgerEntry(BetTx, key, amount, false)] &&
                                  BalanceOf(t, key) == balance - amount
            case Win(tx, amount) =>
              tx !in s.ledger ==> t.ledger == s.ledger[tx := LedgerEntry(WinTx, key, amount, false)] &&
                                  BalanceOf(t, key) == balance + amount
            case Rollback(tx, reference) =>
              tx !in s.rollbackTxs ==>
                reference in s.ledger &&
                var entry := s.ledger[reference];
                BalanceOf(t, key) == if entry.rolledBack then balance
                                     else if entry.kind == BetTx then balance + entry.amountMicro
                                     else if entry.amountMicro <= balance then balance - entry.amountMicro
                                     else 0
  {
  }

  /** An accepted rollback leaves its reference reversed exactly when its own UUID was new, or the
      reference was reversed already: a reused rollback UUID is accepted whatever it references. */
  lemma AcceptedRollbackReversesIff(s: State, key: Key, tx: Uuid, reference: Uuid)
    requires Step(s, key, Rollback(tx, reference)).1.status == OK
    ensures var t := Step(s, key, Rollback(tx, reference)).0;
            (reference in t.ledger && t.ledger[reference].rolledBack) <==>
            tx !in s.rollbackTxs || (reference in s.ledger && s.ledger[reference].rolledBack)
  {
  }

  // ----- The effect of an accepted call, and what every call keeps -----

  /** The store holds what keeps an operation from acting again: its own booking, or its rollback UUID. */
  predicate Holds(s: State, key: Key, op: Operation) {
    match op
    case Rollback(tx, _) => tx in s.rollbackTxs
    case _ => op.tx in s.ledger && Books(op, key, s.ledger[op.tx])
  }

  predicate Effect(s: State, t: State, key: Key, op: Operation) {
    && t.wallets.Keys == s.wallets.Keys + {key}
    && t.processed == s.processed
    && Holds(t, key, op)
    && match op
       case Rollback(tx, reference) =>
         t.rollbackTxs == s.rollbackTxs + {tx} &&
         if tx in s.rollbackTxs then t.ledger == s.ledger
         else reference in s.ledger && t.ledger == s.ledger[reference := s.ledger[reference].(rolledBack := true)]
       case _ =>
         t.rollbackTxs == s.rollbackTxs &&
         if op.tx in s.ledger then t.ledger == s.ledger
         else !t.ledger[op.tx].rolledBack && t.ledger == s.ledger[op.tx := t.ledger[op.tx]]
  }

  lemma AcceptedEffect(s: State, key: Key, op: Operation)
    requires Step(s, key, op).1.status == OK
    ensures Effect(s, Step(s, key, op).0, key, op)
  {
    if op.Rollback? && op.reference in s.ledger && s.ledger[op.reference].rolledBack {
      assert s.ledger[op.reference := s.ledger[op.reference]] == s.ledger;
    }
  }

  /** Bookings, rollback UUIDs and request memory are only ever added to; a booking changes at most
      from standing to rolled back. */
  ghost predicate Extends(s: State, t: State) {
    && s.rollbackTxs <= t.rollbackTxs
    && (forall u :: u in s.processed ==> u in t.processed && t.processed[u] == s.processed[u])
    && (forall tx :: tx in s.ledger ==> tx in t.ledger && SameBooking(s.ledger[tx], t.ledger[tx]))
  }

  predicate SameBooking(before: LedgerEntry, after: LedgerEntry) {
    after == before || after == before.(rolledBack := true)
  }

  lemma EffectExtends(s: State, t: State, key: Key, op: Operation)
    requires Effect(s, t, key, op)
    ensures Extends(s, t)
  {
  }

  function ForgivenTo(forgiven: map<Key, int>, key: Key): int {
    if key in forgiven then forgiven[key] else 0
  }

  /** Each balance is the seed, minus standing bets, plus standing wins, plus what was forgiven. */
  ghost predicate Conserved(s: State, forgiven: map<Key, int>) {
    && NonNegative(s)
    && (forall k :: ForgivenTo(forgiven, k) >= 0)
    && (forall k :: BalanceOf(s, k) == SEED_BALANCE_MICRO + LedgerNet(s.ledger, k) + ForgivenTo(forgiven, k))
  }

  lemma StepKeepsConserved(s: State, forgiven: map<Key, int>, key: Key, op: Operation)
    requires Conserved(s, forgiven)
    ensures Conserved(Step(s, key, op).0, forgiven[key := ForgivenTo(forgiven, key) + Forgiven(s, key, op)])
  {
    StepKeepsNonNegative(s, key, op);
    var s', f' := Step(s, key, op).0, forgiven[key := ForgivenTo(forgiven, key) + Forgiven(s, key, op)];
    assert forall k :: ForgivenTo(f', k) == ForgivenTo(forgiven, k) + if k == key then Forgiven(s, key, op) else 0;
    forall k
      ensures BalanceOf(s', k) == SEED_BALANCE_MICRO + LedgerNet(s'.ledger, k) + ForgivenTo(f', k)
    {
      StepConserves(s, key, op, k);
    }
  }

  lemma InitialConserved(operatorId: string)
    ensures Conserved(Initial(operatorId), map[])
  {
  }

  /** The class keeps Valid() over every sequence of calls: conservation, with a ghost account of
      what the clamp forgave each wallet, and no negative balance. */
  class Store {
    var wallets: map<Key, int>
    var ledger: map<Uuid, LedgerEntry>
    var processed: map<Uuid, int>
    var rollbackTxs: set<Uuid>
    ghost var forgiven: map<Key, int>

    ghost function Current(): State
      reads this
    {
      State(wallets, ledger, processed, rollbackTxs)
    }

    ghost predicate Valid()
      reads this
    {
      Conserved(Current(), forgiven)
    }

    constructor (operatorId: string)
      ensures Current() == Initial(operatorId)
      ensures Valid() && forgiven == map[]
    {
      wallets, ledger, processed, rollbackTxs := SeedWallets(operatorId), map[], map[], {};
      forgiven := map[];
      InitialConserved(operatorId);
    }

    method GetOrInit(key: Key) returns (balanceMicro: int)
      modifies this`wallets
      ensures Current() == Touched(old(Current()), key)
      ensures balanceMicro == BalanceOf(old(Current()), key)
    {
      if key !in wallets {
        wallets := wallets[key := SEED_BALANCE_MICRO];
      }
      balanceMicro := wallets[key];
      assert wallets == old(wallets)[key := balanceMicro];
    }

    /** The read-only balance endpoint may create the wallet; every balance reads as before. */
    method Balance(operatorId: string, playerRef: string) returns (balanceMicro: int)
      requires Valid()
      modifies this`wallets
      ensures Valid()
      ensures balanceMicro == BalanceOf(old(Current()), KeyOf(operatorId, playerRef))
      ensures forall k :: BalanceOf(Current(), k) == BalanceOf(old(Current()), k)
    {
      balanceMicro := GetOrInit(KeyOf(operatorId, playerRef));
      assert forall k :: BalanceOf(Current(), k) == BalanceOf(old(Current()), k);
    }

    ghost method Account(key: Key, op: Operation)
      requires Valid()
      modifies this`forgiven
      ensures Conserved(Step(Current(), key, op).0, forgiven)
      ensures forgiven == old(forgiven)[key := ForgivenTo(old(forgiven), key) + Forgiven(Current(), key, op)]
    {
      StepKeepsConserved(Current(), forgiven, key, op);
      forgiven := forgiven[key := ForgivenTo(forgiven, key) + Forgiven(Current(), key, op)];
    }

    method PlaceBet(operatorId: string, playerRef: string, tx: Uuid, amountMicro: int) returns (reply: Reply)
      requires Valid()
      modifies this
      ensures Valid()
      ensures (Current(), reply) == Step(old(Current()), KeyOf(operatorId, playerRef), Bet(tx, amountMicro))
      ensures forall k :: ForgivenTo(forgiven, k) == ForgivenTo(old(forgiven), k)
    {
      var key := KeyOf(operatorId, playerRef);
      Account(key, Bet(tx, amountMicro));
      reply := Debit(key, tx, amountMicro);
    }

    method Debit(key: Key, tx: Uuid, amountMicro: int) returns (reply: Reply)
      modifies this`wallets, this`ledger
      ensures (Current(), reply) == Step(old(Current()), key, Bet(tx, amountMicro))
    {
      var balance := GetOrInit(key);
      if tx in ledger {
        var existing := ledger[tx];
        if existing.kind != BetTx || existing.key != key || existing.amountMicro != amountMicro {
          reply := Reply(DUPLICATE_TRANSACTION, balance);
        } else {
          reply := Reply(OK, balance);
        }
      } else if amountMicro <= 0 {
        reply := Reply(WRONG_SYNTAX, balance);
      } else if balance < amountMicro {
        reply := Reply(NOT_ENOUGH_MONEY, balance);
      } else {
        wallets := wallets[key := balance - amountMicro];
        assert wallets == old(wallets)[key := balance - amountMicro];
        ledger := ledger[tx := LedgerEntry(BetTx, key, amountMicro, false)];
        reply := Reply(OK, balance - amountMicro);
      }
    }

    method CreditWin(operatorId: string, playerRef: string, tx: Uuid, amountMicro: int) returns (reply: Reply)
      requires Valid()
      modifies this
      ensures Valid()
      ensures (Current(), reply) == Step(old(Current()), KeyOf(operatorId, playerRef), Win(tx, amountMicro))
      ensures forall k :: ForgivenTo(forgiven, k) == ForgivenTo(old(forgiven), k)
    {
      var key := KeyOf(operatorId, playerRef);
      Account(key, Win(tx, amountMicro));
      reply := Credit(key, tx, amountMicro);
    }

    method Credit(key: Key, tx: Uuid, amountMicro: int) returns (reply: Reply)
      modifies this`wallets, this`ledger
      ensures (Current(), reply) == Step(old(Current()), key, Win(tx, amountMicro))
    {
      var balance := GetOrInit(key);
      if tx in ledger {
        var existing := ledger[tx];
        if existing.kind != WinTx || existing.key != key || existing.amountMicro != amountMicro {
          reply := Reply(DUPLICATE_TRANSACTION, balance);
        } else {
          reply := Reply(OK, balance);
        }
      } else if amountMicro < 0 {
        reply := Reply(WRONG_SYNTAX, balance);
      } else {
        wallets := wallets[key := balance + amountMicro];
        assert wallets == old(wallets)[key := balance + amountMicro];
        ledger := ledger[tx := LedgerEntry(WinTx, key, amountMicro, false)];
        reply := Reply(OK, balance + amountMicro);
      }
    }

    method RollBack(operatorId: string, playerRef: string, rollbackTx: Uuid, referenceTx: Uuid) returns (reply: Reply)
      requires Valid()
      modifies this
      ensures Valid()
      ensures (Current(), reply)
              == Step(old(Current()), KeyOf(operatorId, playerRef), Rollback(rollbackTx, referenceTx))
      ensures forall k :: ForgivenTo(forgiven, k) == ForgivenTo(old(forgiven), k) +
                if k == KeyOf(operatorId, playerRef)
                then Forgiven(old(Current()), k, Rollback(rollbackTx, referenceTx)) else 0
    {
      var key := KeyOf(operatorId, playerRef);
      Account(key, Rollback(rollbackTx, referenceTx));
      reply := Reverse(key, rollbackTx, referenceTx);
    }

    method Reverse(key: Key, rollbackTx: Uuid, referenceTx: Uuid) returns (reply: Reply)
      modifies this`wallets, this`ledger, this`rollbackTxs
      ensures (Current(), reply) == RollbackStep(old(Current()), key, rollbackTx, referenceTx)
    {
      var balance := GetOrInit(key);
      if rollbackTx in rollbackTxs {
        return Reply(OK, balance);
      }
      if referenceTx !in ledger || ledger[referenceTx].key != key {
        return Reply(TRANSACTION_NOT_FOUND, balance);
      }
      var original := ledger[referenceTx];
      if original.rolledBack {
        rollbackTxs := rollbackTxs + {rollbackTx};
        return Reply(OK, balance);
      }
      if original.kind == BetTx {
        balance := balance + original.amountMicro;
      } else {
        balance := balance - original.amountMicro;
        if balance < 0 {
          balance := 0;
        }
      }
      wallets := wallets[key := balance];
      assert wallets == old(wallets)[key := balance];
      ledger := ledger[referenceTx := original.(rolledBack := true)];
      rollbackTxs := rollbackTxs + {rollbackTx};
      return Reply(OK, balance);
    }

    method RememberRequest(requestUuid: Uuid, balanceMicro: int)
      requires Valid()
      modifies this`processed
      ensures Valid()
      ensures Current() == Remember(old(Current()), requestUuid, balanceMicro)
    {
      processed := processed[requestUuid := balanceMicro];
      assert forall k :: BalanceOf(Current(), k) == BalanceOf(old(Current()), k);
    }

    method RecallRequest(requestUuid: Uuid) returns (prev: Option<int>)
      ensures prev == if requestUuid in processed then Some(processed[requestUuid]) else None
    {
      if requestUuid in processed {
        return Some(processed[requestUuid]);
      }
      return None;
    }
  }
}
