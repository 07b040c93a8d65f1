/** Wallets by operator and player: every player has a wallet of their own (apps/mock-operator/src/wallet). */
module WalletPlayers {
  import opened Wrappers
  import opened WalletStore
  import opened WalletRouter

  /** The operator a request is for: the one it names, or the configured one. */
  function OperatorOf(config: string, r: Request): string {
    if r.operatorId.Some? then r.operatorId.value else config
  }

  function PlayerBalance(s: State, operator: string, player: string): int {
    BalanceOf(s, KeyOf(operator, player))
  }

  // ----- Keys -----

  lemma SamePlayerIff(operator: string, p: string, q: string)
    ensures KeyOf(operator, p) == KeyOf(operator, q) <==> p == q
  {
    var n := |operator| + 1;
    assert KeyOf(operator, p)[n..] == p && KeyOf(operator, q)[n..] == q;
  }

  /** Part of the second operator's name stands where the first pair has the start of the player's. */
  ghost predicate Overlaps(o1: string, p1: string, o2: string, p2: string) {
    exists mid :: o2 == o1 + ":" + mid && p1 == mid + ":" + p2
  }

  /** Two pairs of operator and player share a wallet iff they are the same pair, or a colon inside a name can be
      taken for the separator. */
  lemma SameKeyIff(o1: string, p1: string, o2: string, p2: string)
    ensures KeyOf(o1, p1) == KeyOf(o2, p2) <==>
            (o1 == o2 && p1 == p2) || Overlaps(o1, p1, o2, p2) || Overlaps(o2, p2, o1, p1)
  {
    if KeyOf(o1, p1) == KeyOf(o2, p2) {
      if |o1| < |o2| {
        OverlapOfLonger(o1, p1, o2, p2);
      } else if |o2| < |o1| {
        OverlapOfLonger(o2, p2, o1, p1);
      } else {
        assert KeyOf(o1, p1)[..|o1|] == o1 && KeyOf(o2, p2)[..|o2|] == o2;
        SamePlayerIff(o1, p1, p2);
      }
    }
    if Overlaps(o1, p1, o2, p2) {
      var mid :| o2 == o1 + ":" + mid && p1 == mid + ":" + p2;
      assert KeyOf(o1, p1) == KeyOf(o2, p2);
    }
    if Overlaps(o2, p2, o1, p1) {
      var mid :| o1 == o2 + ":" + mid && p2 == mid + ":" + p1;
      assert KeyOf(o1, p1) == KeyOf(o2, p2);
    }
  }

  lemma OverlapOfLonger(o1: string, p1: string, o2: string, p2: string)
    requires KeyOf(o1, p1) == KeyOf(o2, p2) && |o1| < |o2|
    ensures Overlaps(o1, p1, o2, p2)
  {
    var key, n := KeyOf(o1, p1), |o1| + 1;
    var mid := o2[n..];
    assert key[..|o1|] == o1 && key[|o1|] == ':' && key[n..] == p1;
    assert key[..|o2|] == o2 && key[|o2|] == ':' && key[|o2| + 1..] == p2;
    assert o2 == o1 + ":" + mid;
    assert p1 == mid + ":" + p2;
  }

  lemma OverlapHasColon(o1: string, p1: string, o2: string, p2: string)
    requires Overlaps(o1, p1, o2, p2)
    ensures ':' in o2
  {
    var mid :| o2 == o1 + ":" + mid && p1 == mid + ":" + p2;
    assert o2[|o1|] == ':';
  }

  /** Operators whose names hold no colon never share a wallet. */
  lemma ColonFreeOperators(o1: string, p1: string, o2: string, p2: string)
    requires ':' !in o1 && ':' !in o2
    ensures KeyOf(o1, p1) == KeyOf(o2, p2) <==> o1 == o2 && p1 == p2
  {
    SameKeyIff(o1, p1, o2, p2);
    if Overlaps(o1, p1, o2, p2) {
      OverlapHasColon(o1, p1, o2, p2);
    } else if Overlaps(o2, p2, o1, p1) {
      OverlapHasColon(o2, p2, o1, p1);
    }
  }

  // ----- The fresh store -----

  lemma SeedPlayersAre(player: string)
    ensures player in SEED_PLAYERS <==> player in {"p-alice", "p-bob", "p-charlie"}
    ensures "p-alice" != "p-bob" && "p-alice" != "p-charlie" && "p-bob" != "p-charlie"
  {
    assert SEED_PLAYERS[0] in SEED_PLAYERS && SEED_PLAYERS[1] in SEED_PLAYERS && SEED_PLAYERS[2] in SEED_PLAYERS;
    assert "p-alice"[2] == 'a' && "p-bob"[2] == 'b' && "p-charlie"[2] == 'c';
  }

  /** Three different wallets, one a seeded player, each with the seed balance; nothing is booked. */
  lemma FreshWallets(operator: string)
    ensures var wallets := Initial(operator).wallets;
            wallets.Keys == {operator + ":" + "p-alice", operator + ":" + "p-bob", operator + ":" + "p-charlie"} &&
            |wallets.Keys| == 3 && forall k :: k in wallets ==> wallets[k] == 1_000_000_000
    ensures Initial(operator) == State(Initial(operator).wallets, map[], map[], {})
  {
    var keys := Initial(operator).wallets.Keys;
    var a, b, c := KeyOf(operator, "p-alice"), KeyOf(operator, "p-bob"), KeyOf(operator, "p-charlie");
    SeedPlayersAre("p-alice");
    SeedPlayersAre("p-bob");
    SeedPlayersAre("p-charlie");
    SamePlayerIff(operator, "p-alice", "p-bob");
    SamePlayerIff(operator, "p-alice", "p-charlie");
    SamePlayerIff(operator, "p-bob", "p-charlie");
    forall k | k in keys
      ensures k in {a, b, c}
    {
      var p :| p in SEED_PLAYERS && k == KeyOf(operator, p);
      SeedPlayersAre(p);
    }
    assert keys == {a, b, c};
    assert |{a, b, c}| == 3;
  }

  // ----- Deliveries -----

  /** The wallet of this key has the same balance and the same bookings. */
  ghost predicate LeavesAlone(s: State, t: State, k: Key) {
    && BalanceOf(t, k) == BalanceOf(s, k)
    && (forall tx :: tx in s.ledger && s.ledger[tx].key == k ==> tx in t.ledger && t.ledger[tx] == s.ledger[tx])
    && (forall tx :: tx in t.ledger && t.ledger[tx].key == k ==> tx in s.ledger && t.ledger[tx] == s.ledger[tx])
  }

  lemma StepLeavesOthers(s: State, key: Key, op: Operation, k: Key)
    requires k != key
    ensures LeavesAlone(s, Step(s, key, op).0, k)
  {
  }

  /** A delivery for one player of an operator changes neither the balance nor the bookings of any other player
      of that operator. */
  lemma DeliverLeavesOthers(s: State, config: string, r: Request, player: string)
    requires r.playerRef != player
    ensures var operator := OperatorOf(config, r);
            LeavesAlone(s, Deliver(s, config, r).0, KeyOf(operator, player))
  {
    var operator := OperatorOf(config, r);
    SamePlayerIff(operator, r.playerRef, player);
    hide KeyOf, Step, MissingFields;
    if OperationOf(r.call).Some? {
      StepLeavesOthers(s, KeyFor(config, r), OperationOf(r.call).value, KeyOf(operator, player));
    }
    hide OperationOf;
  }

  /** Over every schedule for other players of the operator, refused requests and replays included. */
  lemma {:induction false} RunLeavesOthers(s: State, config: string, schedule: seq<Request>, operator: string,
                                           player: string)
    requires forall r :: r in schedule ==> OperatorOf(config, r) == operator && r.playerRef != player
    ensures LeavesAlone(s, Run(s, config, schedule), KeyOf(operator, player))
    ensures PlayerBalance(Run(s, config, schedule), operator, player) == PlayerBalance(s, operator, player)
  {
    hide Deliver, KeyOf;
    if schedule != [] {
      var before, r := schedule[..|schedule| - 1], schedule[|schedule| - 1];
      RunLeavesOthers(s, config, before, operator, player);
      DeliverLeavesOthers(Run(s, config, before), config, r, player);
    }
  }

  /** An accepted fresh bet is charged to the very player it names. */
  lemma BetIsCharged(s: State, config: string, bet: Request)
    requires bet.call.BetCall? && !MissingFields(bet) && OperationOf(bet.call).Some?
    requires bet.requestUuid !in s.processed && bet.call.tx !in s.ledger
    ensures var t, response := Deliver(s, config, bet).0, Deliver(s, config, bet).1;
            var operator, amount := OperatorOf(config, bet), OperationOf(bet.call).value.amountMicro;
            response.status == OK ==>
              PlayerBalance(t, operator, bet.playerRef) == PlayerBalance(s, operator, bet.playerRef) - amount
  {
    hide KeyOf, Step, MissingFields;
    var key, op := KeyFor(config, bet), OperationOf(bet.call).value;
    if Step(s, key, op).1.status == OK {
      FreshCallMoves(s, key, op);
    }
  }
}
