/** The store after a run of accepted operations, described by the set of operations alone. */
module WalletDeterminism {
  import opened WalletStore

  datatype Asked = Asked(key: Key, op: Operation)

  ghost predicate Booked(done: set<Asked>, tx: Uuid) {
    exists a :: a in done && !a.op.Rollback? && a.op.tx == tx
  }

  ghost predicate Reverses(done: set<Asked>, tx: Uuid) {
    exists a :: a in done && a.op.Rollback? && a.op.reference == tx
  }

  ghost predicate RollbackSeen(done: set<Asked>, tx: Uuid) {
    exists a :: a in done && a.op.Rollback? && a.op.tx == tx
  }

  /** Each rollback UUID names one reference. */
  ghost predicate OneReference(done: set<Asked>) {
    forall a, b :: a in done && b in done && a.op.Rollback? && b.op.Rollback? && a.op.tx == b.op.tx
                   ==> a.op.reference == b.op.reference
  }

  ghost predicate BookingsMatch(s: State, done: set<Asked>) {
    && (forall a :: a in done ==> Holds(s, a.key, a.op))
    && (forall tx :: tx in s.ledger ==> Booked(done, tx))
  }

  ghost predicate ReversalsMatch(s: State, done: set<Asked>) {
    && (forall tx :: tx in s.ledger ==> (s.ledger[tx].rolledBack <==> Reverses(done, tx)))
    && (forall tx :: Reverses(done, tx) ==> tx in s.ledger)
    && (forall tx :: tx in s.rollbackTxs <==> RollbackSeen(done, tx))
  }

  /** What a set of accepted operations must leave behind. */
  ghost predicate Determined(s: State, seeds: set<Key>, done: set<Asked>) {
    && BookingsMatch(s, done)
    && ReversalsMatch(s, done)
    && s.wallets.Keys == seeds + set a | a in done :: a.key
  }

  lemma ExtendsHolds(s: State, t: State, key: Key, op: Operation)
    requires Extends(s, t) && Holds(s, key, op)
    ensures Holds(t, key, op)
  {
  }

  lemma EffectBookings(s: State, t: State, done: set<Asked>, a: Asked)
    requires BookingsMatch(s, done) && Effect(s, t, a.key, a.op)
    ensures BookingsMatch(t, done + {a})
  {
    EffectExtends(s, t, a.key, a.op);
    forall b | b in done + {a}
      ensures Holds(t, b.key, b.op)
    {
      if b in done {
        ExtendsHolds(s, t, b.key, b.op);
      }
    }
    forall tx | tx in t.ledger
      ensures Booked(done + {a}, tx)
    {
      if tx in s.ledger {
        var b :| b in done && !b.op.Rollback? && b.op.tx == tx;
        assert b in done + {a};
      } else {
        assert a in done + {a};
      }
    }
  }

  lemma EffectReversals(s: State, t: State, done: set<Asked>, a: Asked)
    requires ReversalsMatch(s, done) && Effect(s, t, a.key, a.op) && OneReference(done + {a})
    ensures ReversalsMatch(t, done + {a})
  {
    var op := a.op;
    forall tx
      ensures Reverses(done + {a}, tx) <==> Reverses(done, tx) || (op.Rollback? && op.reference == tx)
      ensures RollbackSeen(done + {a}, tx) <==> RollbackSeen(done, tx) || (op.Rollback? && op.tx == tx)
    {
      ReversesOneMore(done, a, tx);
    }
    if op.Rollback? && op.tx in s.rollbackTxs {
      var b :| b in done && b.op.Rollback? && b.op.tx == op.tx;
      assert b in done + {a} && a in done + {a};
      assert Reverses(done, op.reference);
    }
  }

  lemma ReversesOneMore(done: set<Asked>, a: Asked, tx: Uuid)
    ensures Reverses(done + {a}, tx) <==> Reverses(done, tx) || (a.op.Rollback? && a.op.reference == tx)
    ensures RollbackSeen(done + {a}, tx) <==> RollbackSeen(done, tx) || (a.op.Rollback? && a.op.tx == tx)
  {
    assert a in done + {a};
    assert forall b :: b in done ==> b in done + {a};
  }

  /** One more accepted operation keeps the description. */
  lemma EffectDetermined(s: State, t: State, seeds: set<Key>, done: set<Asked>, a: Asked)
    requires Determined(s, seeds, done) && Effect(s, t, a.key, a.op) && OneReference(done + {a})
    ensures Determined(t, seeds, done + {a})
  {
    hide BookingsMatch, ReversalsMatch, OneReference;
    EffectBookings(s, t, done, a);
    EffectReversals(s, t, done, a);
    assert (set b | b in done + {a} :: b.key) == (set b | b in done :: b.key) + {a.key};
  }

  /** The description leaves nothing open but the amounts in the wallets. */
  lemma DeterminedIsUnique(s: State, t: State, seeds: set<Key>, done: set<Asked>)
    requires Determined(s, seeds, done) && Determined(t, seeds, done)
    ensures s.ledger == t.ledger && s.rollbackTxs == t.rollbackTxs && s.wallets.Keys == t.wallets.Keys
  {
    forall tx
      ensures tx in s.ledger <==> tx in t.ledger
      ensures tx in s.ledger ==> s.ledger[tx] == t.ledger[tx]
    {
      if tx in s.ledger || tx in t.ledger {
        var a :| a in done && !a.op.Rollback? && a.op.tx == tx;
        assert Holds(s, a.key, a.op) && Holds(t, a.key, a.op);
      }
    }
  }
}
