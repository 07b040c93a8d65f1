/** The keyed bet history of the Lempi client (apps/game-client/src/lempi/LempiStore.ts). */
module LempiHistory {
  import opened Wrappers

  datatype SlotId = A | B

  datatype BetResult = WIN | LOSS

  datatype HistoryEntry = HistoryEntry(id: string, betId: string, roundId: string, roundNumber: int, slotId: SlotId,
                                       amountMicro: int, crashMultiplier: real, cashoutMultiplier: Option<real>,
                                       payoutMicro: Option<int>, result: BetResult)

  const HISTORY_LIMIT: nat := 40

  /** entry.betId || entry.id */
  function KeyOf(entry: HistoryEntry): string {
    if entry.betId != "" then entry.betId else entry.id
  }

  ghost predicate HasKey(entries: seq<HistoryEntry>, key: string) {
    exists i :: 0 <= i < |entries| && KeyOf(entries[i]) == key
  }

  ghost predicate UniqueKeys(entries: seq<HistoryEntry>) {
    forall i, j :: 0 <= i < j < |entries| ==> KeyOf(entries[i]) != KeyOf(entries[j])
  }

  /** Where the key sits, or the length. */
  function PositionOf(entries: seq<HistoryEntry>, key: string): (i: nat)
    ensures i <= |entries|
    ensures i < |entries| ==> KeyOf(entries[i]) == key
    ensures i == |entries| <==> !HasKey(entries, key)
  {
    if entries == [] then 0
    else if KeyOf(entries[0]) == key then 0
    else
      assert HasKey(entries, key) <==> HasKey(entries[1..], key);
      1 + PositionOf(entries[1..], key)
  }

  /** One step of the merge: replace the entry with this key, or append. */
  function Put(merged: seq<HistoryEntry>, entry: HistoryEntry): seq<HistoryEntry> {
    var i := PositionOf(merged, KeyOf(entry));
    if i < |merged| then merged[i := entry] else merged + [entry]
  }

  function PutAll(merged: seq<HistoryEntry>, entries: seq<HistoryEntry>): seq<HistoryEntry> {
    if entries == [] then merged else Put(PutAll(merged, entries[..|entries| - 1]), entries[|entries| - 1])
  }

  /** merged.slice(-40) */
  function Newest(entries: seq<HistoryEntry>): seq<HistoryEntry> {
    if |entries| <= HISTORY_LIMIT then entries else entries[|entries| - HISTORY_LIMIT..]
  }

  function Merged(current: seq<HistoryEntry>, incoming: seq<HistoryEntry>): seq<HistoryEntry> {
    Newest(PutAll([], current + incoming))
  }

  /** The loop of mergeHistory: its position map always agrees with the list built so far. */
  method MergeHistory(current: seq<HistoryEntry>, incoming: seq<HistoryEntry>) returns (r: seq<HistoryEntry>)
    ensures r == Merged(current, incoming)
  {
    hide Put, PutAll, KeyOf, UniqueKeys, HasKey;
    var all := current + incoming;
    var merged: seq<HistoryEntry> := [];
    var positions: map<string, nat> := map[];
    var i := 0;
    PutAllNone(all);
    while i < |all|
      invariant 0 <= i <= |all|
      invariant merged == PutAll([], all[..i]) && PositionsAgree(merged, positions)
    {
      var entry := all[i];
      var key := KeyOf(entry);
      PutAllOneMore(all, i);
      PutByPosition(merged, positions, entry);
      if key in positions {
        merged := merged[positions[key] := entry];
      } else {
        positions := positions[key := |merged|];
        merged := merged + [entry];
      }
      i := i + 1;
    }
    assert all[..i] == all;
    r := if |merged| <= 40 then merged else merged[|merged| - 40..];
  }

  /** Keys are unique, and the map holds exactly their positions. */
  ghost predicate PositionsAgree(merged: seq<HistoryEntry>, positions: map<string, nat>) {
    && UniqueKeys(merged)
    && (forall k :: k in positions ==> positions[k] < |merged| && KeyOf(merged[positions[k]]) == k)
    && (forall k :: HasKey(merged, k) ==> k in positions)
  }

  lemma PutAllNone(all: seq<HistoryEntry>)
    ensures PutAll([], all[..0]) == [] && PositionsAgree([], map[])
  {
  }

  lemma PutAllOneMore(all: seq<HistoryEntry>, i: nat)
    requires i < |all|
    ensures PutAll([], all[..i + 1]) == Put(PutAll([], all[..i]), all[i])
  {
    hide Put;
    assert all[..i + 1][..i] == all[..i];
  }

  lemma PutByPosition(merged: seq<HistoryEntry>, positions: map<string, nat>, entry: HistoryEntry)
    requires PositionsAgree(merged, positions)
    ensures var key := KeyOf(entry);
            if key in positions
            then positions[key] < |merged| && Put(merged, entry) == merged[positions[key] := entry] &&
                 PositionsAgree(Put(merged, entry), positions)
            else Put(merged, entry) == merged + [entry] &&
                 PositionsAgree(Put(merged, entry), positions[key := |merged|])
  {
    PutFacts(merged, entry);
    var p := PositionOf(merged, KeyOf(entry));
    if KeyOf(entry) in positions {
      assert HasKey(merged, KeyOf(entry));
    }
  }

  lemma PutFacts(merged: seq<HistoryEntry>, entry: HistoryEntry)
    requires UniqueKeys(merged)
    ensures UniqueKeys(Put(merged, entry))
    ensures forall k :: HasKey(Put(merged, entry), k) <==> HasKey(merged, k) || k == KeyOf(entry)
  {
    var r := Put(merged, entry);
    forall k
      ensures HasKey(r, k) <==> HasKey(merged, k) || k == KeyOf(entry)
    {
      if HasKey(merged, k) {
        var i :| 0 <= i < |merged| && KeyOf(merged[i]) == k;
        assert KeyOf(r[i]) == k;
      }
      assert KeyOf(r[PositionOf(merged, KeyOf(entry))]) == KeyOf(entry);
    }
  }

  // ----- The list is: last value per key, in first-seen order -----

  /** The keys of a list, each at its first occurrence. */
  function FirstSeen(entries: seq<HistoryEntry>): seq<string> {
    if entries == [] then []
    else
      var before, key := FirstSeen(entries[..|entries| - 1]), KeyOf(entries[|entries| - 1]);
      if key in before then before else before + [key]
  }

  /** The last entry with a key. */
  function LastWith(entries: seq<HistoryEntry>, key: string): HistoryEntry
    requires HasKey(entries, key)
  {
    if KeyOf(entries[|entries| - 1]) == key then entries[|entries| - 1]
    else
      assert HasKey(entries[..|entries| - 1], key) by {
        var i :| 0 <= i < |entries| && KeyOf(entries[i]) == key;
        assert KeyOf(entries[..|entries| - 1][i]) == key;
      }
      LastWith(entries[..|entries| - 1], key)
  }

  lemma {:induction false} PutAllUnique(merged: seq<HistoryEntry>, entries: seq<HistoryEntry>)
    requires UniqueKeys(merged)
    ensures UniqueKeys(PutAll(merged, entries))
    ensures forall k :: HasKey(PutAll(merged, entries), k) <==> HasKey(merged, k) || HasKey(entries, k)
  {
    if entries != [] {
      var front, last := entries[..|entries| - 1], entries[|entries| - 1];
      PutAllUnique(merged, front);
      PutFacts(PutAll(merged, front), last);
      forall k
        ensures HasKey(entries, k) <==> HasKey(front, k) || k == KeyOf(last)
      {
        HasKeyFront(entries, k);
      }
    }
  }

  lemma HasKeyFront(entries: seq<HistoryEntry>, k: string)
    requires entries != []
    ensures HasKey(entries, k) <==> HasKey(entries[..|entries| - 1], k) || k == KeyOf(entries[|entries| - 1])
  {
    var front := entries[..|entries| - 1];
    assert forall i :: 0 <= i < |front| ==> front[i] == entries[i];
    if HasKey(entries, k) && k != KeyOf(entries[|entries| - 1]) {
      var i :| 0 <= i < |entries| && KeyOf(entries[i]) == k;
      assert KeyOf(front[i]) == k;
    }
  }

  /** The merged list holds, for each key in order of first appearance, the last entry with that key. */
  lemma {:induction false} MergeIsLastPerKey(entries: seq<HistoryEntry>)
    ensures var r, keys := PutAll([], entries), FirstSeen(entries);
            |r| == |keys| && forall i :: 0 <= i < |r| ==>
              KeyOf(r[i]) == keys[i] && HasKey(entries, keys[i]) && r[i] == LastWith(entries, keys[i])
  {
    if entries != [] {
      var n := |entries| - 1;
      var front, last := entries[..n], entries[n];
      MergeIsLastPerKey(front);
      PutAllUnique([], front);
      PutAllUnique([], entries);
      var before, r, keys := PutAll([], front), PutAll([], entries), FirstSeen(entries);
      assert r == Put(before, last);
      FirstSeenHas(before, FirstSeen(front), KeyOf(last));
      hide KeyOf, PutAll, UniqueKeys;
      forall i | 0 <= i < |r|
        ensures KeyOf(r[i]) == keys[i] && HasKey(entries, keys[i]) && r[i] == LastWith(entries, keys[i])
      {
        HasKeyFront(entries, KeyOf(r[i]));
      }
    }
  }

  lemma FirstSeenHas(merged: seq<HistoryEntry>, keys: seq<string>, key: string)
    requires |merged| == |keys| && forall i :: 0 <= i < |merged| ==> KeyOf(merged[i]) == keys[i]
    ensures key in keys <==> PositionOf(merged, key) < |merged|
  {
    hide KeyOf;
    if key in keys {
      var j :| 0 <= j < |keys| && keys[j] == key;
      assert KeyOf(merged[j]) == key;
    }
  }

  // ----- Merging again -----

  lemma {:induction false} PutAllConcat(merged: seq<HistoryEntry>, a: seq<HistoryEntry>, b: seq<HistoryEntry>)
    ensures PutAll(merged, a + b) == PutAll(PutAll(merged, a), b)
  {
    hide Put;
    if b == [] {
      assert a + b == a;
    } else {
      var n := |b| - 1;
      assert (a + b)[..|a| + n] == a + b[..n];
      PutAllConcat(merged, a, b[..n]);
    }
  }

  lemma {:induction false} PutAllOfUnique(entries: seq<HistoryEntry>)
    requires UniqueKeys(entries)
    ensures PutAll([], entries) == entries
  {
    if entries != [] {
      var n := |entries| - 1;
      assert !HasKey(entries[..n], KeyOf(entries[n]));
      hide KeyOf, HasKey;
      PutAllOfUnique(entries[..n]);
      assert entries == entries[..n] + [entries[n]];
    }
  }

  lemma NewestUnique(entries: seq<HistoryEntry>)
    requires UniqueKeys(entries)
    ensures UniqueKeys(Newest(entries)) && |Newest(entries)| <= HISTORY_LIMIT
  {
  }

  lemma PositionIs(entries: seq<HistoryEntry>, key: string, i: nat)
    requires UniqueKeys(entries) && i < |entries| && KeyOf(entries[i]) == key
    ensures PositionOf(entries, key) == i
  {
    var p := PositionOf(entries, key);
    assert HasKey(entries, key);
    assert p < i || i < p || p == i;
  }

  /** A key stays in the list that is kept iff it is not among the oldest surplus ones. */
  lemma NewestHasIff(entries: seq<HistoryEntry>, key: string)
    requires UniqueKeys(entries)
    ensures HasKey(Newest(entries), key)
       <==> HasKey(entries, key) && PositionOf(entries, key) + HISTORY_LIMIT >= |entries|
  {
    hide KeyOf, UniqueKeys;
    var dropped := |entries| - |Newest(entries)|;
    if HasKey(Newest(entries), key) {
      var i :| 0 <= i < |Newest(entries)| && KeyOf(Newest(entries)[i]) == key;
      PositionIs(entries, key, dropped + i);
      assert KeyOf(entries[dropped + i]) == key;
    }
    var p := PositionOf(entries, key);
    if HasKey(entries, key) && p + HISTORY_LIMIT >= |entries| {
      assert Newest(entries)[p - dropped] == entries[p];
    }
  }

  /** Putting an entry moves no other key, and appends a new one. */
  lemma PutPositions(merged: seq<HistoryEntry>, entry: HistoryEntry, key: string)
    requires UniqueKeys(merged)
    ensures |Put(merged, entry)| == |merged| + if HasKey(merged, KeyOf(entry)) then 0 else 1
    ensures HasKey(merged, key) ==> PositionOf(Put(merged, entry), key) == PositionOf(merged, key)
    ensures !HasKey(merged, KeyOf(entry)) ==> PositionOf(Put(merged, entry), KeyOf(entry)) == |merged|
  {
    PutFacts(merged, entry);
    hide KeyOf, UniqueKeys;
    var r := Put(merged, entry);
    if HasKey(merged, key) {
      PositionIs(r, key, PositionOf(merged, key));
    }
    if !HasKey(merged, KeyOf(entry)) {
      PositionIs(r, KeyOf(entry), |merged|);
    }
  }

  lemma PutAllOfTwo(history: seq<HistoryEntry>, a: seq<HistoryEntry>, b: seq<HistoryEntry>)
    requires |a| <= 1 && |b| <= 1
    ensures var first := if a == [] then history else Put(history, a[0]);
            PutAll(history, a + b) == if b == [] then first else Put(first, b[0])
  {
    hide Put;
    PutAllConcat(history, a, b);
    if a != [] {
      assert a[..0] == [];
    }
    if b != [] {
      assert b[..0] == [];
    }
  }

  /** Where a key ends up in the list all, into which it and at most one other entry were put. */
  ghost predicate EndsUp(history: seq<HistoryEntry>, all: seq<HistoryEntry>, key: string, otherIsNew: bool) {
    && UniqueKeys(all) && HasKey(all, key)
    && if HasKey(history, key) then
         PositionOf(all, key) == PositionOf(history, key) && |all| == |history| + if otherIsNew then 1 else 0
       else PositionOf(all, key) >= |history| && |all| <= |history| + 2
  }

  lemma PutAlone(history: seq<HistoryEntry>, mine: HistoryEntry)
    requires UniqueKeys(history)
    ensures EndsUp(history, Put(history, mine), KeyOf(mine), false)
  {
    PutFacts(history, mine);
    hide KeyOf, Put, UniqueKeys;
    PutPositions(history, mine, KeyOf(mine));
  }

  lemma PutBeforeOther(history: seq<HistoryEntry>, mine: HistoryEntry, other: HistoryEntry)
    requires UniqueKeys(history)
    ensures EndsUp(history, Put(Put(history, mine), other), KeyOf(mine), !HasKey(history, KeyOf(other)))
  {
    PutFacts(history, mine);
    PutFacts(Put(history, mine), other);
    hide KeyOf, Put, UniqueKeys;
    PutPositions(history, mine, KeyOf(mine));
    PutPositions(Put(history, mine), other, KeyOf(mine));
  }

  lemma PutAfterOther(history: seq<HistoryEntry>, other: HistoryEntry, mine: HistoryEntry)
    requires UniqueKeys(history)
    ensures EndsUp(history, Put(Put(history, other), mine), KeyOf(mine), !HasKey(history, KeyOf(other)))
  {
    PutFacts(history, other);
    PutFacts(Put(history, other), mine);
    hide KeyOf, Put, UniqueKeys;
    PutPositions(history, other, KeyOf(mine));
    PutPositions(Put(history, other), mine, KeyOf(mine));
  }

  lemma PairPosition(history: seq<HistoryEntry>, mine: HistoryEntry, others: seq<HistoryEntry>, mineFirst: bool)
    requires UniqueKeys(history) && |others| <= 1
    ensures EndsUp(history, PutAll(history, if mineFirst then [mine] + others else others + [mine]), KeyOf(mine),
                   others != [] && !HasKey(history, KeyOf(others[0])))
  {
    PutAllOfTwo(history, if mineFirst then [mine] else others, if mineFirst then others else [mine]);
    hide KeyOf, Put, PutAll, UniqueKeys, EndsUp;
    if others == [] {
      PutAlone(history, mine);
    } else if mineFirst {
      PutBeforeOther(history, mine, others[0]);
    } else {
      PutAfterOther(history, others[0], mine);
    }
  }

  /** Of at most two entries merged into the history, one is kept unless its key was the oldest of forty
      already and the other one's key is new. */
  lemma PairShownIff(history: seq<HistoryEntry>, mine: HistoryEntry, others: seq<HistoryEntry>, mineFirst: bool)
    requires UniqueKeys(history) && |history| <= HISTORY_LIMIT && |others| <= 1
    ensures HasKey(Newest(PutAll(history, if mineFirst then [mine] + others else others + [mine])), KeyOf(mine)) <==>
            !(|history| == HISTORY_LIMIT && KeyOf(history[0]) == KeyOf(mine) &&
              others != [] && !HasKey(history, KeyOf(others[0])))
  {
    var all := PutAll(history, if mineFirst then [mine] + others else others + [mine]);
    PairPosition(history, mine, others, mineFirst);
    NewestHasIff(all, KeyOf(mine));
    if |history| > 0 && KeyOf(history[0]) == KeyOf(mine) {
      PositionIs(history, KeyOf(mine), 0);
      assert HasKey(history, KeyOf(mine));
    }
    hide KeyOf, PutAll, UniqueKeys, Newest;
  }

  lemma MergedUnique(current: seq<HistoryEntry>, incoming: seq<HistoryEntry>)
    ensures UniqueKeys(Merged(current, incoming)) && |Merged(current, incoming)| <= HISTORY_LIMIT
  {
    PutAllUnique([], current + incoming);
    NewestUnique(PutAll([], current + incoming));
  }

  /** The second argument wins: what the merge keeps under an incoming key is the last incoming entry. */
  lemma IncomingWins(current: seq<HistoryEntry>, incoming: seq<HistoryEntry>, i: nat)
    requires i < |Merged(current, incoming)| && HasKey(incoming, KeyOf(Merged(current, incoming)[i]))
    ensures Merged(current, incoming)[i] == LastWith(incoming, KeyOf(Merged(current, incoming)[i]))
  {
    var all := current + incoming;
    MergeIsLastPerKey(all);
    var e := Merged(current, incoming)[i];
    var p := if |PutAll([], all)| <= HISTORY_LIMIT then i else i + |PutAll([], all)| - HISTORY_LIMIT;
    assert e == PutAll([], all)[p];
    LastOfConcat(current, incoming, KeyOf(e));
  }

  lemma {:induction false} LastOfConcat(a: seq<HistoryEntry>, b: seq<HistoryEntry>, key: string)
    requires HasKey(b, key)
    ensures HasKey(a + b, key) && LastWith(a + b, key) == LastWith(b, key)
  {
    var n := |b| - 1;
    assert KeyOf((a + b)[|a| + n]) == KeyOf(b[n]);
    if KeyOf(b[n]) == key {
      assert HasKey(a + b, key);
    } else {
      HasKeyFront(b, key);
      LastOfConcat(a, b[..n], key);
      assert (a + b)[..|a| + n] == a + b[..n];
      HasKeyFront(a + b, key);
    }
  }

  lemma {:induction false} PutAllKnown(merged: seq<HistoryEntry>, entries: seq<HistoryEntry>)
    requires UniqueKeys(merged)
    requires forall i :: 0 <= i < |entries| ==> HasKey(merged, KeyOf(entries[i]))
    ensures |PutAll(merged, entries)| == |merged|
    ensures forall i :: 0 <= i < |merged| ==>
              KeyOf(PutAll(merged, entries)[i]) == KeyOf(merged[i]) &&
              PutAll(merged, entries)[i] ==
              if HasKey(entries, KeyOf(merged[i])) then LastWith(entries, KeyOf(merged[i])) else merged[i]
  {
    if entries != [] {
      var n := |entries| - 1;
      PutAllKnown(merged, entries[..n]);
      PutAllUnique(merged, entries[..n]);
      var before := PutAll(merged, entries[..n]);
      var p := PositionOf(before, KeyOf(entries[n]));
      assert p < |before| by { assert HasKey(merged, KeyOf(entries[n])); }
      hide KeyOf, UniqueKeys;
      assert PutAll(merged, entries) == before[p := entries[n]];
      forall i | 0 <= i < |merged|
        ensures PutAll(merged, entries)[i] ==
                if HasKey(entries, KeyOf(merged[i])) then LastWith(entries, KeyOf(merged[i])) else merged[i]
      {
        HasKeyFront(entries, KeyOf(merged[i]));
      }
    }
  }

  lemma {:induction false} PutAllNeverShrinks(merged: seq<HistoryEntry>, entries: seq<HistoryEntry>)
    ensures |PutAll(merged, entries)| >= |merged|
  {
    if entries != [] {
      PutAllNeverShrinks(merged, entries[..|entries| - 1]);
    }
  }

  /** A new key in the entries makes the list longer, and its newest entry then has a new key. */
  lemma {:induction false} PutAllGrows(merged: seq<HistoryEntry>, entries: seq<HistoryEntry>, i: nat)
    requires UniqueKeys(merged) && i < |entries| && !HasKey(merged, KeyOf(entries[i]))
    ensures |PutAll(merged, entries)| > |merged|
    ensures !HasKey(merged, KeyOf(PutAll(merged, entries)[|PutAll(merged, entries)| - 1]))
  {
    hide Put, KeyOf, UniqueKeys;
    var n := |entries| - 1;
    var front, last := entries[..n], entries[n];
    PutAllUnique(merged, front);
    PutKeepsNewest(PutAll(merged, front), last);
    if i < n {
      PutAllGrows(merged, front, i);
    } else if HasKey(PutAll(merged, front), KeyOf(last)) {
      var j :| 0 <= j < |front| && KeyOf(front[j]) == KeyOf(last);
      PutAllGrows(merged, front, j);
    } else {
      PutAllNeverShrinks(merged, front);
    }
  }

  lemma PutKeepsNewest(merged: seq<HistoryEntry>, entry: HistoryEntry)
    ensures var r := Put(merged, entry);
            if HasKey(merged, KeyOf(entry))
            then |r| == |merged| > 0 && KeyOf(r[|r| - 1]) == KeyOf(merged[|merged| - 1])
            else |r| == |merged| + 1 && r[|r| - 1] == entry
  {
  }

  lemma KnownKeysRemerge(current: seq<HistoryEntry>, incoming: seq<HistoryEntry>)
    requires forall i :: 0 <= i < |incoming| ==> HasKey(Merged(current, incoming), KeyOf(incoming[i]))
    ensures PutAll(Merged(current, incoming), incoming) == Merged(current, incoming)
  {
    var r := Merged(current, incoming);
    hide Merged, PutAll, KeyOf, UniqueKeys, HasKey;
    MergedUnique(current, incoming);
    PutAllKnown(r, incoming);
    forall i | 0 <= i < |r|
      ensures PutAll(r, incoming)[i] == r[i]
    {
      if HasKey(incoming, KeyOf(r[i])) {
        IncomingWins(current, incoming, i);
      }
    }
  }

  /** Merging the same entries a second time changes nothing iff every one of their keys is in the
      merged list -- in particular whenever there are at most 40 distinct keys. Otherwise a dropped
      entry comes back as the newest. */
  lemma RemergeIsNoOpIff(current: seq<HistoryEntry>, incoming: seq<HistoryEntry>)
    ensures var r := Merged(current, incoming);
            Merged(r, incoming) == r <==> forall i :: 0 <= i < |incoming| ==> HasKey(r, KeyOf(incoming[i]))
  {
    var r := Merged(current, incoming);
    hide Merged, PutAll, KeyOf, UniqueKeys, HasKey;
    MergedUnique(current, incoming);
    RemergeIsPutAll(r, incoming);
    if i: nat :| i < |incoming| && !HasKey(r, KeyOf(incoming[i])) {
      NewKeyChanges(r, incoming, i);
    } else {
      KnownKeysRemerge(current, incoming);
    }
  }

  lemma NewKeyChanges(r: seq<HistoryEntry>, incoming: seq<HistoryEntry>, i: nat)
    requires UniqueKeys(r) && i < |incoming| && !HasKey(r, KeyOf(incoming[i]))
    ensures Newest(PutAll(r, incoming)) != r
  {
    hide PutAll, KeyOf, UniqueKeys;
    PutAllGrows(r, incoming, i);
    var again := PutAll(r, incoming);
    assert Newest(again)[|Newest(again)| - 1] == again[|again| - 1];
    assert r != [] ==> HasKey(r, KeyOf(r[|r| - 1]));
  }

  lemma RemergeIsPutAll(r: seq<HistoryEntry>, incoming: seq<HistoryEntry>)
    requires UniqueKeys(r)
    ensures Merged(r, incoming) == Newest(PutAll(r, incoming))
  {
    PutAllConcat([], r, incoming);
    PutAllOfUnique(r);
  }

  /** With at most 40 distinct keys nothing is dropped, so merging again is a no-op. */
  lemma FewKeysRemergeIsNoOp(current: seq<HistoryEntry>, incoming: seq<HistoryEntry>)
    requires |FirstSeen(current + incoming)| <= HISTORY_LIMIT
    ensures Merged(Merged(current, incoming), incoming) == Merged(current, incoming)
  {
    var all := current + incoming;
    MergeIsLastPerKey(all);
    PutAllUnique([], all);
    forall i | 0 <= i < |incoming|
      ensures HasKey(Merged(current, incoming), KeyOf(incoming[i]))
    {
      assert KeyOf(all[|current| + i]) == KeyOf(incoming[i]);
      assert HasKey(all, KeyOf(incoming[i]));
    }
    RemergeIsNoOpIff(current, incoming);
  }

  /** Two entries are one and keep the newer values iff their bet ids agree, where an entry without a bet id
      goes by its own id. */
  lemma TwoEntriesMergeIff(e: HistoryEntry, f: HistoryEntry)
    ensures var same := if e.betId != "" && f.betId != "" then e.betId == f.betId
                        else if e.betId != "" then e.betId == f.id
                        else if f.betId != "" then e.id == f.betId
                        else e.id == f.id;
            Merged([e], [f]) == if same then [f] else [e, f]
  {
    var both := [e] + [f];
    assert both[..1] == [e] && [e][..0] == [];
    assert PutAll([], [e]) == Put([], e) == [e];
    assert PutAll([], both) == Put([e], f);
    assert [e][1..] == [];
  }
}
