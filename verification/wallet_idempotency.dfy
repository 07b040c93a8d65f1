/** At-most-once effect and schedule independence of the wallet endpoints, over every run. */
module WalletIdempotency {
  import opened Wrappers
  import opened Text
  import opened WalletStore
  import opened WalletRouter
  import opened WalletDeterminism

  // ----- What it means that a request has taken effect -----

  /** The store holds what keeps the request from acting again: its own booking, or its rollback UUID.
      Whether a recorded rollback has also reversed its reference is the subject of the last section. */
  predicate Recorded(s: State, config: string, r: Request) {
    !MissingFields(r) && OperationOf(r.call).Some? && Holds(s, KeyFor(config, r), OperationOf(r.call).value)
  }

  ghost predicate SameMoney(s: State, t: State) {
    t.ledger == s.ledger && forall k :: BalanceOf(t, k) == BalanceOf(s, k)
  }

  /** The request reaches the store: it is well formed and not answered from the memory. */
  predicate Executes(s: State, r: Request) {
    !MissingFields(r) && r.requestUuid !in s.processed && OperationOf(r.call).Some?
  }

  /** An accepted request that reaches the store leaves the effect of its operation, and its reply in
      the memory. */
  lemma ExecutedEffect(s: State, config: string, r: Request) returns (stepped: State)
    requires Executes(s, r) && Deliver(s, config, r).1.status == OK
    ensures Effect(s, stepped, KeyFor(config, r), OperationOf(r.call).value)
    ensures exists balance ::
            Deliver(s, config, r) == (Remember(stepped, r.requestUuid, balance), Response(OK, Some(balance)))
  {
    var key, op := KeyFor(config, r), OperationOf(r.call).value;
    stepped := Step(s, key, op).0;
    var reply := Step(s, key, op).1;
    AcceptedEffect(s, key, op);
    assert Deliver(s, config, r)
      == (Remember(stepped, r.requestUuid, reply.balanceMicro), Response(OK, Some(reply.balanceMicro)));
  }

  lemma DeliverExtends(s: State, config: string, r: Request)
    ensures Extends(s, Deliver(s, config, r).0)
  {
    if Executes(s, r) {
      var key, op := KeyFor(config, r), OperationOf(r.call).value;
      if Step(s, key, op).1.status == OK {
        AcceptedEffect(s, key, op);
        EffectExtends(s, Step(s, key, op).0, key, op);
      } else {
        AcceptedIff(s, key, op);
      }
    }
  }

  lemma {:induction false} RunExtends(s: State, config: string, schedule: seq<Request>)
    ensures Extends(s, Run(s, config, schedule))
  {
    if schedule != [] {
      RunExtends(s, config, schedule[..|schedule| - 1]);
      DeliverExtends(Run(s, config, schedule[..|schedule| - 1]), config, schedule[|schedule| - 1]);
    }
  }

  /** Redelivering a recorded request, under any request UUID, is answered RS_OK and moves nothing. */
  lemma RecordedReplays(s: State, config: string, r: Request, uuid: Uuid)
    requires Recorded(s, config, r) && uuid != ""
    ensures var (t, response) := Deliver(s, config, r.(requestUuid := uuid));
            response.status == OK && SameMoney(s, t)
  {
    var r' := r.(requestUuid := uuid);
    assert OperationOf(r'.call) == OperationOf(r.call) && KeyFor(config, r') == KeyFor(config, r);
  }

  /** An RS_OK means the effect is recorded, unless the request UUID was already in the memory that
      all three endpoints share: then it means nothing more than before. */
  lemma OkMeansRecordedIff(s: State, config: string, r: Request)
    requires Deliver(s, config, r).1.status == OK
    ensures Recorded(Deliver(s, config, r).0, config, r)
       <==> r.requestUuid !in s.processed || Recorded(s, config, r)
  {
  }

  /** Every RS_OK leaves its request UUID in the memory, with the balance it carried. */
  lemma OkIsRemembered(s: State, config: string, r: Request)
    requires Deliver(s, config, r).1.status == OK
    ensures var (t, response) := Deliver(s, config, r);
            r.requestUuid in t.processed && response.balanceMicro == Some(t.processed[r.requestUuid])
  {
  }

  /** A repeated request UUID always carries the balance of its first RS_OK reply, whatever was
      delivered in between, to whichever endpoint, and whatever the repeated body says. */
  lemma RepeatedUuidRepeatsBalance(s: State, config: string, first: Request, between: seq<Request>, again: Request)
    requires Deliver(s, config, first).1.status == OK
    requires again.requestUuid == first.requestUuid && !MissingFields(again)
    ensures var t := Run(Deliver(s, config, first).0, config, between);
            Deliver(t, config, again) == (t, Deliver(s, config, first).1)
  {
    OkIsRemembered(s, config, first);
    RunExtends(Deliver(s, config, first).0, config, between);
  }

  // ----- At most once -----

  /** Each request UUID names one request. */
  ghost predicate OneRequestPerUuid(schedule: seq<Request>) {
    forall q, r :: q in schedule && r in schedule && q.requestUuid == r.requestUuid ==> q == r
  }

  /** Every remembered UUID belongs to a delivered request whose effect is recorded. */
  ghost predicate MemoryExplained(s: State, config: string, schedule: seq<Request>) {
    forall u :: u in s.processed ==> exists q :: q in schedule && q.requestUuid == u && Recorded(s, config, q)
  }

  lemma RecordedPersists(s: State, t: State, config: string, r: Request)
    requires Extends(s, t) && Recorded(s, config, r)
    ensures Recorded(t, config, r)
  {
  }

  lemma DeliverKeepsMemoryExplained(s: State, config: string, schedule: seq<Request>, r: Request)
    requires MemoryExplained(s, config, schedule)
    ensures MemoryExplained(Deliver(s, config, r).0, config, schedule + [r])
  {
    var t := Deliver(s, config, r).0;
    DeliverExtends(s, config, r);
    forall u | u in t.processed
      ensures exists q :: q in schedule + [r] && q.requestUuid == u && Recorded(t, config, q)
    {
      if u in s.processed {
        var q :| q in schedule && q.requestUuid == u && Recorded(s, config, q);
        RecordedPersists(s, t, config, q);
        assert q in schedule + [r];
      } else {
        NewlyRemembered(s, config, r, u);
        assert r in schedule + [r];
      }
    }
  }

  lemma NewlyRemembered(s: State, config: string, r: Request, u: Uuid)
    requires u in Deliver(s, config, r).0.processed && u !in s.processed
    ensures u == r.requestUuid && Recorded(Deliver(s, config, r).0, config, r)
  {
    OkMeansRecordedIff(s, config, r);
  }

  lemma {:induction false} RunMemoryExplained(config: string, schedule: seq<Request>)
    ensures MemoryExplained(Run(Initial(config), config, schedule), config, schedule)
  {
    if schedule != [] {
      var before, r := schedule[..|schedule| - 1], schedule[|schedule| - 1];
      RunMemoryExplained(config, before);
      DeliverKeepsMemoryExplained(Run(Initial(config), config, before), config, before, r);
      assert schedule == before + [r];
    }
  }

  /** Where each request UUID names one request, an RS_OK always means the request is recorded: a bet or
      win is booked, and a rollback UUID is known. */
  lemma OkRecordsUnderNaming(config: string, before: seq<Request>, r: Request)
    requires OneRequestPerUuid(before + [r])
    requires Deliver(Run(Initial(config), config, before), config, r).1.status == OK
    ensures Recorded(Deliver(Run(Initial(config), config, before), config, r).0, config, r)
  {
    var s := Run(Initial(config), config, before);
    RunMemoryExplained(config, before);
    if r.requestUuid in s.processed {
      var q :| q in before && q.requestUuid == r.requestUuid && Recorded(s, config, q);
      assert q in before + [r] && r in before + [r];
    }
    OkMeansRecordedIff(s, config, r);
  }

  /** At most once through both layers: once a bet, win or rollback got RS_OK, delivering it again at any
      later point, with the same or another request UUID, answers RS_OK and changes no balance and no
      ledger entry -- even if a rollback has reversed it in between. */
  lemma AtMostOnce(config: string, before: seq<Request>, r: Request, between: seq<Request>, uuid: Uuid)
    requires OneRequestPerUuid(before + [r]) && uuid != ""
    requires Deliver(Run(Initial(config), config, before), config, r).1.status == OK
    ensures var s := Run(Deliver(Run(Initial(config), config, before), config, r).0, config, between);
            var (t, response) := Deliver(s, config, r.(requestUuid := uuid));
            response.status == OK && SameMoney(s, t)
  {
    var after := Deliver(Run(Initial(config), config, before), config, r).0;
    OkRecordsUnderNaming(config, before, r);
    RunExtends(after, config, between);
    RecordedPersists(after, Run(after, config, between), config, r);
    RecordedReplays(Run(after, config, between), config, r, uuid);
  }

  /** Without the naming rule this fails, for every state: a fresh win whose request UUID is in the
      shared memory is answered RS_OK and not booked, and sending it again under a fresh request UUID
      books it and credits its amount. */
  lemma SharedMemorySwallowsWin(s: State, config: string, win: Request, uuid: Uuid)
    requires win.call.WinCall? && !MissingFields(win) && win.requestUuid in s.processed && win.call.tx !in s.ledger
    requires OperationOf(win.call).Some? && OperationOf(win.call).value.amountMicro >= 0
    requires uuid != "" && uuid !in s.processed
    ensures Deliver(s, config, win) == (s, Response(OK, Some(s.processed[win.requestUuid]))) &&
            !Recorded(s, config, win)
    ensures var t, key := Deliver(s, config, win.(requestUuid := uuid)).0, KeyFor(config, win);
            win.call.tx in t.ledger && Recorded(t, config, win) &&
            BalanceOf(t, key) == BalanceOf(s, key) + OperationOf(win.call).value.amountMicro
  {
    hide ParseBigInt, KeyOf;
  }

  /** Such states are reached: one accepted bet is enough to swallow any win that shares its UUID. */
  lemma SharedMemoryIsReached(config: string, bet: Request)
    requires bet.call.BetCall? && !MissingFields(bet) && OperationOf(bet.call).Some?
    requires 0 < OperationOf(bet.call).value.amountMicro <= SEED_BALANCE_MICRO
    ensures var s := Run(Initial(config), config, [bet]);
            s.processed.Keys == {bet.requestUuid} && s.ledger.Keys == {bet.call.tx}
  {
    hide ParseBigInt, KeyOf;
    assert [bet][..0] == [];
    assert Run(Initial(config), config, [bet]) == Deliver(Initial(config), config, bet).0;
  }

  // ----- Schedule independence -----

  /** Each rollback UUID names one reference. */
  ghost predicate OneReferencePerRollback(schedule: seq<Request>) {
    forall q, r :: q in schedule && r in schedule && q.call.RollbackCall? && r.call.RollbackCall? ==>
      q.call.tx == r.call.tx ==> q.call.referenceTx == r.call.referenceTx
  }

  /** The store calls a schedule asks for. */
  ghost function Done(config: string, schedule: seq<Request>): set<Asked> {
    set r | r in schedule && OperationOf(r.call).Some? :: Asked(KeyFor(config, r), OperationOf(r.call).value)
  }

  lemma DoneOneMore(config: string, before: seq<Request>, r: Request)
    requires OperationOf(r.call).Some?
    ensures Done(config, before + [r]) == Done(config, before) + {Asked(KeyFor(config, r), OperationOf(r.call).value)}
    ensures r in before ==> Done(config, before + [r]) == Done(config, before)
  {
    assert forall q :: q in before + [r] <==> q in before || q == r;
  }

  lemma DoneOneReference(config: string, schedule: seq<Request>)
    requires OneReferencePerRollback(schedule)
    ensures OneReference(Done(config, schedule))
  {
  }

  lemma ExecutedDetermined(s: State, config: string, before: seq<Request>, r: Request)
    requires Determined(s, SeedWallets(config).Keys, Done(config, before))
    requires Executes(s, r) && Deliver(s, config, r).1.status == OK
    requires OneReferencePerRollback(before + [r])
    ensures Determined(Deliver(s, config, r).0, SeedWallets(config).Keys, Done(config, before + [r]))
  {
    var stepped := ExecutedEffect(s, config, r);
    var balance :| Deliver(s, config, r) == (Remember(stepped, r.requestUuid, balance), Response(OK, Some(balance)));
    DoneOneReference(config, before + [r]);
    DoneOneMore(config, before, r);
    EffectDetermined(s, stepped, SeedWallets(config).Keys, Done(config, before),
                     Asked(KeyFor(config, r), OperationOf(r.call).value));
    RememberDetermined(stepped, SeedWallets(config).Keys, Done(config, before + [r]), r.requestUuid, balance);
  }

  lemma RememberDetermined(s: State, seeds: set<Key>, done: set<Asked>, u: Uuid, balance: int)
    requires Determined(s, seeds, done)
    ensures Determined(Remember(s, u, balance), seeds, done)
  {
  }

  lemma {:induction false} RunDetermined(config: string, schedule: seq<Request>)
    requires AllOk(Initial(config), config, schedule)
    requires OneRequestPerUuid(schedule) && OneReferencePerRollback(schedule)
    ensures Determined(Run(Initial(config), config, schedule), SeedWallets(config).Keys, Done(config, schedule))
  {
    if schedule != [] {
      var before, r := schedule[..|schedule| - 1], schedule[|schedule| - 1];
      assert schedule == before + [r];
      RunDetermined(config, before);
      var s := Run(Initial(config), config, before);
      if r.requestUuid in s.processed {
        RememberedIsRepeated(config, before, r);
        DoneOneMore(config, before, r);
      } else {
        ExecutedDetermined(s, config, before, r);
      }
    }
  }

  lemma RememberedIsRepeated(config: string, before: seq<Request>, r: Request)
    requires OneRequestPerUuid(before + [r]) && r.requestUuid in Run(Initial(config), config, before).processed
    ensures r in before && OperationOf(r.call).Some?
  {
    RunMemoryExplained(config, before);
    var q :| q in before && q.requestUuid == r.requestUuid && Recorded(Run(Initial(config), config, before), config, q);
    assert q in before + [r] && r in before + [r];
  }

  /** Schedule independence: any two schedules of the same requests -- reordered, with any number of
      duplicates -- that are accepted throughout leave the same ledger, the same rollback UUIDs and the
      same wallets, and a wallet's two balances agree exactly when the clamp forgave it the same amount;
      in particular they agree when the clamp was never hit. */
  lemma SchedulesAgree(config: string, a: seq<Request>, b: seq<Request>, k: Key)
    requires OneRequestPerUuid(a) && OneReferencePerRollback(a)
    requires OneRequestPerUuid(b) && OneReferencePerRollback(b)
    requires forall r :: r in a <==> r in b
    requires AllOk(Initial(config), config, a) && AllOk(Initial(config), config, b)
    ensures var s, t := Run(Initial(config), config, a), Run(Initial(config), config, b);
            s.ledger == t.ledger && s.rollbackTxs == t.rollbackTxs && s.wallets.Keys == t.wallets.Keys &&
            (BalanceOf(s, k) == BalanceOf(t, k) <==>
             TotalForgiven(Initial(config), config, a, k) == TotalForgiven(Initial(config), config, b, k))
  {
    RunDetermined(config, a);
    RunDetermined(config, b);
    assert Done(config, a) == Done(config, b);
    DeterminedIsUnique(Run(Initial(config), config, a), Run(Initial(config), config, b), SeedWallets(config).Keys,
                       Done(config, a));
    RunConserves(config, a, k);
    RunConserves(config, b, k);
  }

  // ----- What an accepted rollback means -----

  predicate IsReversed(s: State, reference: Uuid) {
    reference in s.ledger && s.ledger[reference].rolledBack
  }

  /** A rollback that is answered RS_OK leaves its reference reversed exactly when both its request UUID and
      its rollback UUID were new, or the reference was reversed before. */
  lemma OkRollbackReversesIff(s: State, config: string, r: Request)
    requires r.call.RollbackCall? && Deliver(s, config, r).1.status == OK
    ensures IsReversed(Deliver(s, config, r).0, r.call.referenceTx) <==>
            (r.requestUuid !in s.processed && r.call.tx !in s.rollbackTxs) || IsReversed(s, r.call.referenceTx)
  {
    hide KeyOf, ParseBigInt;
  }

  /** For every state: a rollback under a fresh request UUID that reuses a known rollback UUID is answered
      RS_OK and recorded, and changes no ledger entry, whatever it references. */
  lemma ReusedRollbackMovesNothing(s: State, config: string, r: Request)
    requires r.call.RollbackCall? && !MissingFields(r)
    requires r.requestUuid !in s.processed && r.call.tx in s.rollbackTxs
    ensures var (t, response) := Deliver(s, config, r);
            response.status == OK && Recorded(t, config, r) && SameMoney(s, t)
  {
    hide KeyOf, ParseBigInt;
  }

  /** Such a rollback is reached, with its reference still standing: after two bets of a player and the
      rollback of the first, one that names the second under the same rollback UUID. That each request UUID
      names one request does not prevent it. */
  lemma ReusedRollbackIsReached(config: string, bet1: Request, bet2: Request, rollback1: Request, rollback2: Request)
    requires bet1.call.BetCall? && bet2.call.BetCall? && rollback1.call.RollbackCall? && rollback2.call.RollbackCall?
    requires !MissingFields(bet1) && !MissingFields(bet2) && !MissingFields(rollback1) && !MissingFields(rollback2)
    requires KeyFor(config, bet1) == KeyFor(config, bet2) == KeyFor(config, rollback1) == KeyFor(config, rollback2)
    requires OperationOf(bet1.call).Some? && OperationOf(bet2.call).Some? && bet1.call.tx != bet2.call.tx
    requires 0 < OperationOf(bet1.call).value.amountMicro && 0 < OperationOf(bet2.call).value.amountMicro
    requires OperationOf(bet1.call).value.amountMicro + OperationOf(bet2.call).value.amountMicro <= SEED_BALANCE_MICRO
    requires rollback1.call.referenceTx == bet1.call.tx && rollback2.call.referenceTx == bet2.call.tx
    requires rollback1.call.tx == rollback2.call.tx
    requires OneRequestPerUuid([bet1, bet2, rollback1, rollback2])
    ensures var s := Run(Initial(config), config, [bet1, bet2, rollback1]);
            var (t, response) := Deliver(s, config, rollback2);
            response.status == OK && Recorded(t, config, rollback2) &&
            rollback2.call.referenceTx in t.ledger && !IsReversed(t, rollback2.call.referenceTx)
  {
    var all := [bet1, bet2, rollback1, rollback2];
    assert all[0] in all && all[1] in all && all[2] in all && all[3] in all;
    hide KeyOf, KeyFor, OperationOf, MissingFields, Deliver, Run, Recorded, Initial, IsReversed;
    var s := TwoBetsOneRollback(config, bet1, bet2, rollback1);
    hide OneRequestPerUuid;
    ReusedRollbackLeavesStanding(s, config, rollback2);
  }

  lemma ReusedRollbackLeavesStanding(s: State, config: string, r: Request)
    requires r.call.RollbackCall? && !MissingFields(r)
    requires r.requestUuid !in s.processed && r.call.tx in s.rollbackTxs
    requires r.call.referenceTx in s.ledger && !IsReversed(s, r.call.referenceTx)
    ensures var (t, response) := Deliver(s, config, r);
            response.status == OK && Recorded(t, config, r) &&
            r.call.referenceTx in t.ledger && !IsReversed(t, r.call.referenceTx)
  {
    ReusedRollbackMovesNothing(s, config, r);
    hide Deliver, Recorded;
  }

  lemma TwoBetsOneRollback(config: string, bet1: Request, bet2: Request, rollback1: Request) returns (s: State)
    requires bet1.call.BetCall? && bet2.call.BetCall? && rollback1.call.RollbackCall?
    requires !MissingFields(bet1) && !MissingFields(bet2) && !MissingFields(rollback1)
    requires KeyFor(config, bet1) == KeyFor(config, bet2) == KeyFor(config, rollback1)
    requires OperationOf(bet1.call).Some? && OperationOf(bet2.call).Some? && bet1.call.tx != bet2.call.tx
    requires 0 < OperationOf(bet1.call).value.amountMicro && 0 < OperationOf(bet2.call).value.amountMicro
    requires OperationOf(bet1.call).value.amountMicro + OperationOf(bet2.call).value.amountMicro <= SEED_BALANCE_MICRO
    requires rollback1.call.referenceTx == bet1.call.tx
    requires bet1.requestUuid != bet2.requestUuid && rollback1.requestUuid !in {bet1.requestUuid, bet2.requestUuid}
    ensures s == Run(Initial(config), config, [bet1, bet2, rollback1])
    ensures s.processed.Keys == {bet1.requestUuid, bet2.requestUuid, rollback1.requestUuid}
    ensures rollback1.call.tx in s.rollbackTxs && bet2.call.tx in s.ledger && !IsReversed(s, bet2.call.tx)
  {
    hide KeyOf, ParseBigInt, MissingFields, Deliver, Run, BalanceOf;
    assert BalanceOf(Initial(config), KeyFor(config, bet1)) == SEED_BALANCE_MICRO by { SeedBalances(config); }
    var s1 := FreshBet(Initial(config), config, bet1);
    var s2 := FreshBet(s1, config, bet2);
    s := FreshRollback(s2, config, rollback1);
    RunOfThree(Initial(config), config, bet1, bet2, rollback1);
  }

  lemma SeedBalances(config: string)
    ensures forall key :: BalanceOf(Initial(config), key) == SEED_BALANCE_MICRO
  {
  }

  lemma RunOfThree(s: State, config: string, a: Request, b: Request, c: Request)
    ensures Run(s, config, [a, b, c]) == Deliver(Deliver(Deliver(s, config, a).0, config, b).0, config, c).0
  {
    hide Deliver;
    var schedule := [a, b, c];
    assert schedule[..2] == [a, b] && schedule[..2][..1] == [a] && schedule[..2][..1][..0] == [];
    assert Run(s, config, schedule[..2][..1]) == Deliver(s, config, a).0;
    assert Run(s, config, schedule[..2]) == Deliver(Deliver(s, config, a).0, config, b).0;
  }

  lemma FreshRollback(s: State, config: string, r: Request) returns (t: State)
    requires r.call.RollbackCall? && !MissingFields(r) && r.requestUuid !in s.processed
    requires r.call.referenceTx in s.ledger && s.ledger[r.call.referenceTx].key == KeyFor(config, r)
    ensures t == Deliver(s, config, r).0
    ensures t.processed.Keys == s.processed.Keys + {r.requestUuid} && r.call.tx in t.rollbackTxs
    ensures forall tx :: tx in s.ledger && tx != r.call.referenceTx ==> tx in t.ledger && t.ledger[tx] == s.ledger[tx]
  {
    hide KeyOf, ParseBigInt;
    t := Deliver(s, config, r).0;
  }

  lemma FreshBet(s: State, config: string, bet: Request) returns (t: State)
    requires bet.call.BetCall? && !MissingFields(bet) && OperationOf(bet.call).Some?
    requires bet.requestUuid !in s.processed && bet.call.tx !in s.ledger
    requires 0 < OperationOf(bet.call).value.amountMicro <= BalanceOf(s, KeyFor(config, bet))
    ensures t == Deliver(s, config, bet).0
    ensures var key, amount := KeyFor(config, bet), OperationOf(bet.call).value.amountMicro;
            BalanceOf(t, key) == BalanceOf(s, key) - amount &&
            t.ledger == s.ledger[bet.call.tx := LedgerEntry(BetTx, key, amount, false)] &&
            t.processed.Keys == s.processed.Keys + {bet.requestUuid} && t.rollbackTxs == s.rollbackTxs
  {
    hide KeyOf, ParseBigInt;
    t := Deliver(s, config, bet).0;
  }

  /** Every known rollback UUID belongs to a delivered rollback request whose reference is reversed. */
  ghost predicate RollbacksExplained(s: State, schedule: seq<Request>) {
    forall tx :: tx in s.rollbackTxs ==>
      exists q :: q in schedule && q.call.RollbackCall? && q.call.tx == tx && IsReversed(s, q.call.referenceTx)
  }

  lemma NewlySeenRollback(s: State, config: string, r: Request, tx: Uuid)
    requires tx in Deliver(s, config, r).0.rollbackTxs && tx !in s.rollbackTxs
    ensures r.call.RollbackCall? && r.call.tx == tx && IsReversed(Deliver(s, config, r).0, r.call.referenceTx)
  {
    hide KeyOf, ParseBigInt;
  }

  lemma ReversedPersists(s: State, t: State, reference: Uuid)
    requires Extends(s, t) && IsReversed(s, reference)
    ensures IsReversed(t, reference)
  {
  }

  lemma DeliverKeepsRollbacksExplained(s: State, config: string, schedule: seq<Request>, r: Request)
    requires RollbacksExplained(s, schedule)
    ensures RollbacksExplained(Deliver(s, config, r).0, schedule + [r])
  {
    var t := Deliver(s, config, r).0;
    DeliverExtends(s, config, r);
    hide Deliver, IsReversed, Extends;
    forall tx | tx in t.rollbackTxs
      ensures exists q ::
              q in schedule + [r] && q.call.RollbackCall? && q.call.tx == tx && IsReversed(t, q.call.referenceTx)
    {
      if tx in s.rollbackTxs {
        var q :| q in schedule && q.call.RollbackCall? && q.call.tx == tx && IsReversed(s, q.call.referenceTx);
        ReversedPersists(s, t, q.call.referenceTx);
        assert q in schedule + [r];
      } else {
        NewlySeenRollback(s, config, r, tx);
        assert r in schedule + [r];
      }
    }
  }

  lemma {:induction false} RunRollbacksExplained(config: string, schedule: seq<Request>)
    ensures RollbacksExplained(Run(Initial(config), config, schedule), schedule)
  {
    hide Deliver, RollbacksExplained;
    if schedule != [] {
      var before, r := schedule[..|schedule| - 1], schedule[|schedule| - 1];
      RunRollbacksExplained(config, before);
      DeliverKeepsRollbacksExplained(Run(Initial(config), config, before), config, before, r);
      assert schedule == before + [r];
    } else {
      NothingToExplain(config);
    }
  }

  lemma NothingToExplain(config: string)
    ensures RollbacksExplained(Initial(config), [])
  {
  }

  /** Over every run, refused requests included: where each request UUID names one request and each rollback
      UUID one reference, a rollback that is answered RS_OK has its reference reversed -- by itself or by
      an earlier one -- and it stays reversed whatever is delivered later. */
  lemma OkRollbackReversesUnderNaming(config: string, before: seq<Request>, r: Request, later: seq<Request>)
    requires OneRequestPerUuid(before + [r]) && OneReferencePerRollback(before + [r])
    requires r.call.RollbackCall? && Deliver(Run(Initial(config), config, before), config, r).1.status == OK
    ensures var t := Deliver(Run(Initial(config), config, before), config, r).0;
            IsReversed(t, r.call.referenceTx) && IsReversed(Run(t, config, later), r.call.referenceTx)
  {
    var s := Run(Initial(config), config, before);
    var t := Deliver(s, config, r).0;
    KnownRollbackIsReversed(config, before, r);
    OkRecordsUnderNaming(config, before, r);
    OkRollbackReversesIff(s, config, r);
    RememberedRollbackIsKnown(config, before, r);
    hide Deliver, Run, Extends, OneRequestPerUuid, OneReferencePerRollback, Recorded;
    RunExtends(t, config, later);
    ReversedPersists(t, Run(t, config, later), r.call.referenceTx);
  }

  lemma KnownRollbackIsReversed(config: string, before: seq<Request>, r: Request)
    requires OneReferencePerRollback(before + [r]) && r.call.RollbackCall?
    ensures var s := Run(Initial(config), config, before);
            r.call.tx in s.rollbackTxs ==> IsReversed(s, r.call.referenceTx)
  {
    var s := Run(Initial(config), config, before);
    RunRollbacksExplained(config, before);
    hide Run, IsReversed;
    if r.call.tx in s.rollbackTxs {
      var q :| q in before && q.call.RollbackCall? && q.call.tx == r.call.tx && IsReversed(s, q.call.referenceTx);
      assert q in before + [r] && r in before + [r];
    }
  }

  lemma RememberedRollbackIsKnown(config: string, before: seq<Request>, r: Request)
    requires OneRequestPerUuid(before + [r]) && r.call.RollbackCall?
    ensures var s := Run(Initial(config), config, before);
            r.requestUuid in s.processed ==> r.call.tx in s.rollbackTxs
  {
    var s := Run(Initial(config), config, before);
    RunMemoryExplained(config, before);
    hide Run, KeyOf, ParseBigInt, MissingFields;
    if r.requestUuid in s.processed {
      var q :| q in before && q.requestUuid == r.requestUuid && Recorded(s, config, q);
      assert q in before + [r] && r in before + [r];
    }
  }
}
