/** The Lempi client's slots and history under socket events (apps/game-client/src/lempi/useLempiSocket.ts
    driving apps/game-client/src/lempi/LempiStore.ts). Acknowledgements arrive as events of their own,
    at any later time. */
module LempiClient {
  import opened Wrappers
  import opened Text
  import opened Money
  import opened LempiHistory

  datatype SlotStatus = IDLE | PENDING | ACTIVE | CASHED_OUT | LOST

  datatype RoundState = WAITING | BETTING_OPEN | ROLLING | RESULT | COOLDOWN

  datatype BetSlot = BetSlot(amountMicro: int, autoCashoutMultiplier: Option<real>, betId: Option<string>,
                             status: SlotStatus, cashoutMultiplier: Option<real>, payoutMicro: Option<int>)

  datatype State = State(roundId: Option<string>, roundNumber: int, roundState: RoundState, multiplier: real,
                         crashMultiplier: Option<real>, slotA: BetSlot, slotB: BetSlot, betHistory: seq<HistoryEntry>)

  datatype HistoryItem = HistoryItem(betId: Option<string>, roundId: Option<string>, roundNumber: Option<int>,
                                     amountMicro: Option<string>, slotId: Option<string>, crashMultiplier: Option<real>,
                                     cashoutMultiplier: Option<real>, payoutMicro: Option<string>,
                                     result: Option<string>)

  datatype Event =
    | PlaceBet(slotId: SlotId, amountText: string, autoCashout: Option<real>, connected: bool)
    | Ack(slotId: SlotId, ok: bool, betId: Option<string>)
    | CashoutAccepted(slot: Option<SlotId>, cashoutMultiplier: Option<real>, payoutText: Option<string>)
    | RoundStateChanged(roundId: string, roundNumber: Option<int>, nonce: Option<int>, phase: Option<string>)
    | MultiplierTick(multiplier: real)
    | RoundResult(crashMultiplier: Option<real>)
    | HistoryLoaded(items: seq<HistoryItem>)

  function MakeSlot(): BetSlot {
    BetSlot(1_000_000, None, None, IDLE, None, None)
  }

  function Initial(): State {
    State(None, 0, WAITING, 1.0, None, MakeSlot(), MakeSlot(), [])
  }

  function SlotOf(s: State, slotId: SlotId): BetSlot {
    match slotId
    case A => s.slotA
    case B => s.slotB
  }

  function WithSlot(s: State, slotId: SlotId, slot: BetSlot): State {
    match slotId
    case A => s.(slotA := slot)
    case B => s.(slotB := slot)
  }

  /** A non-empty text; null, undefined and "" are falsy. */
  predicate Truthy(text: Option<string>) {
    text.Some? && text.value != ""
  }

  /** asBig: null for anything BigInt rejects. */
  function AsBig(text: Option<string>): Option<int> {
    match text
    case None => None
    case Some(value) => ParseBigInt(value)
  }

  function UpperCase(s: string): string {
    seq(|s|, i requires 0 <= i < |s| => if 'a' <= s[i] <= 'z' then (s[i] as int - 32) as char else s[i])
  }

  function PhaseToState(phase: Option<string>): RoundState {
    var text := if phase.Some? then UpperCase(phase.value) else "";
    if text == "BETTING_OPEN" then BETTING_OPEN
    else if text == "ROLLING" then ROLLING
    else if text == "RESULT" then RESULT
    else if text == "SETTLED" then COOLDOWN
    else WAITING
  }

  function ResetSlot(slot: BetSlot): BetSlot {
    MakeSlot().(amountMicro := slot.amountMicro, autoCashoutMultiplier := slot.autoCashoutMultiplier)
  }

  function HistoryItemToEntry(item: HistoryItem): Option<HistoryEntry> {
    var amount := AsBig(item.amountMicro);
    var payout := if Truthy(item.payoutMicro) then AsBig(item.payoutMicro) else None;
    if !Truthy(item.betId) || !Truthy(item.roundId) || item.roundNumber.None? ||
       (item.slotId != Some("A") && item.slotId != Some("B")) || amount.None?
    then None
    else
      Some(HistoryEntry(item.betId.value, item.betId.value, item.roundId.value, item.roundNumber.value,
                        if item.slotId == Some("A") then A else B, amount.value,
                        if item.crashMultiplier.Some? then item.crashMultiplier.value else 0.0,
                        item.cashoutMultiplier, payout, if item.result == Some("WIN") then WIN else LOSS))
  }

  /** items.map(historyItemToEntry).filter(entry => entry != null).reverse() */
  function LoadedEntries(items: seq<HistoryItem>): seq<HistoryEntry> {
    if items == [] then []
    else
      LoadedEntries(items[1..]) +
      match HistoryItemToEntry(items[0])
      case Some(entry) => [entry]
      case None => []
  }

  /** The history entry round_result writes for one slot, if it has a bet. */
  function ResultEntry(s: State, slotId: SlotId, crashMultiplier: real): seq<HistoryEntry> {
    var slot := SlotOf(s, slotId);
    if !Truthy(slot.betId) then []
    else
      [HistoryEntry((if s.roundId.Some? then s.roundId.value else "round") + "-" + slot.betId.value, slot.betId.value,
                    if s.roundId.Some? then s.roundId.value else "", s.roundNumber, slotId, slot.amountMicro,
                    crashMultiplier, slot.cashoutMultiplier, slot.payoutMicro,
                    if slot.status == CASHED_OUT then WIN else LOSS)]
  }

  function ResultEntries(s: State, crashMultiplier: real): seq<HistoryEntry> {
    ResultEntry(s, A, crashMultiplier) + ResultEntry(s, B, crashMultiplier)
  }

  function CrashShown(s: State, crashMultiplier: Option<real>): real {
    if crashMultiplier.Some? then crashMultiplier.value else s.multiplier
  }

  function Settled(slot: BetSlot): BetSlot {
    if slot.status == ACTIVE || slot.status == PENDING then slot.(status := LOST) else slot
  }

  function AfterResult(s: State, crashMultiplier: Option<real>): State {
    var shown := CrashShown(s, crashMultiplier);
    s.(crashMultiplier := Some(shown), multiplier := shown, roundState := RESULT,
       betHistory := Merged(s.betHistory, ResultEntries(s, shown)),
       slotA := Settled(s.slotA), slotB := Settled(s.slotB))
  }

  function AfterRoundState(s: State, roundId: string, roundNumber: Option<int>, nonce: Option<int>,
                           phase: Option<string>): State
  {
    var next := s.(roundId := Some(roundId),
                   roundNumber := if roundNumber.Some? then roundNumber.value
                                  else if nonce.Some? then nonce.value + 1 else s.roundNumber,
                   roundState := PhaseToState(phase));
    if next.roundState == BETTING_OPEN
    then next.(multiplier := 1.0, crashMultiplier := None, slotA := ResetSlot(s.slotA), slotB := ResetSlot(s.slotB))
    else next
  }

  /** One event. */
  function Step(s: State, e: Event): State {
    match e
    case PlaceBet(slotId, amountText, autoCashout, connected) =>
      if !connected then s
      else WithSlot(s, slotId, BetSlot(HnlToMicro(amountText), autoCashout, None, PENDING, None, None))
    case Ack(slotId, ok, betId) =>
      WithSlot(s, slotId, if ok && Truthy(betId) then SlotOf(s, slotId).(betId := betId, status := ACTIVE)
                          else SlotOf(s, slotId).(betId := None, status := IDLE))
    case CashoutAccepted(slot, cashoutMultiplier, payoutText) =>
      if slot.None? then s
      else
        var payout := AsBig(payoutText);
        WithSlot(s, slot.value, SlotOf(s, slot.value).(status := CASHED_OUT, cashoutMultiplier := cashoutMultiplier,
                                                       payoutMicro := Some(if payout.Some? then payout.value else 0)))
    case RoundStateChanged(roundId, roundNumber, nonce, phase) => AfterRoundState(s, roundId, roundNumber, nonce, phase)
    case MultiplierTick(multiplier) => s.(multiplier := multiplier)
    case RoundResult(crashMultiplier) => AfterResult(s, crashMultiplier)
    case HistoryLoaded(items) => s.(betHistory := Merged(LoadedEntries(items), s.betHistory))
  }

  // ----- The invariant of every interleaving -----

  predicate SlotOk(slot: BetSlot) {
    && (slot.status == ACTIVE ==> Truthy(slot.betId))
    && (slot.status == IDLE || slot.status == PENDING ==> slot.betId == None)
    && (slot.betId.Some? ==> slot.betId.value != "")
    && (slot.status == CASHED_OUT ==> slot.payoutMicro.Some?)
  }

  ghost predicate NamesBets(entries: seq<HistoryEntry>) {
    forall i :: 0 <= i < |entries| ==> entries[i].betId != ""
  }

  /** At most 40 entries, and no bet twice. */
  ghost predicate HistoryOk(entries: seq<HistoryEntry>) {
    && |entries| <= HISTORY_LIMIT
    && NamesBets(entries)
    && forall i, j :: 0 <= i < j < |entries| ==> entries[i].betId != entries[j].betId
  }

  ghost predicate Inv(s: State) {
    SlotOk(s.slotA) && SlotOk(s.slotB) && HistoryOk(s.betHistory)
  }

  lemma {:induction false} PutAllNamesBets(merged: seq<HistoryEntry>, entries: seq<HistoryEntry>)
    requires NamesBets(merged) && NamesBets(entries)
    ensures NamesBets(PutAll(merged, entries))
  {
    if entries != [] {
      PutAllNamesBets(merged, entries[..|entries| - 1]);
    }
  }

  lemma MergedHistoryOk(current: seq<HistoryEntry>, incoming: seq<HistoryEntry>)
    requires NamesBets(current) && NamesBets(incoming)
    ensures HistoryOk(Merged(current, incoming))
  {
    PutAllNamesBets([], current + incoming);
    MergedUnique(current, incoming);
    var r := Merged(current, incoming);
    assert forall i :: 0 <= i < |r| ==> KeyOf(r[i]) == r[i].betId;
  }

  lemma {:induction false} LoadedNamesBets(items: seq<HistoryItem>)
    ensures NamesBets(LoadedEntries(items))
  {
    if items != [] {
      LoadedNamesBets(items[1..]);
    }
  }

  lemma StepKeepsInv(s: State, e: Event)
    requires Inv(s)
    ensures Inv(Step(s, e))
  {
    match e
    case RoundResult(crashMultiplier) =>
      MergedHistoryOk(s.betHistory, ResultEntries(s, CrashShown(s, crashMultiplier)));
    case HistoryLoaded(items) =>
      LoadedNamesBets(items);
      MergedHistoryOk(LoadedEntries(items), s.betHistory);
    case _ =>
  }

  function Run(s: State, events: seq<Event>): State {
    if events == [] then s else Step(Run(s, events[..|events| - 1]), events[|events| - 1])
  }

  /** Over every interleaving of bets, acknowledgements, cashouts, round changes, ticks, results and
      history loads: ACTIVE implies a bet id, IDLE and PENDING imply none, CASHED_OUT implies a payout,
      and each bet id appears at most once among at most 40 history entries. */
  lemma {:induction false} EveryRunKeepsInv(events: seq<Event>)
    ensures Inv(Run(Initial(), events))
  {
    if events != [] {
      EveryRunKeepsInv(events[..|events| - 1]);
      StepKeepsInv(Run(Initial(), events[..|events| - 1]), events[|events| - 1]);
    }
  }

  /** What round_result writes, after any run: one entry per slot with a bet, a WIN exactly when the
      slot was cashed out, and every WIN carries a payout. */
  lemma ResultEntriesCarryPayouts(events: seq<Event>, crashMultiplier: real, slotId: SlotId)
    ensures var s := Run(Initial(), events);
            var slot, entries := SlotOf(s, slotId), ResultEntry(s, slotId, crashMultiplier);
            |entries| <= 1 && (|entries| == 1 <==> slot.betId.Some?) &&
            forall i :: 0 <= i < |entries| ==>
              (entries[i].result == WIN <==> slot.status == CASHED_OUT) &&
              (entries[i].result == WIN ==> entries[i].payoutMicro.Some?) &&
              Some(entries[i].betId) == slot.betId
  {
    EveryRunKeepsInv(events);
  }

  /** The event changes what the slot has come to: a bet, its acknowledgement, a cashout, or betting opens. */
  predicate Moves(e: Event, slotId: SlotId) {
    match e
    case PlaceBet(id, _, _, connected) => id == slotId && connected
    case Ack(id, _, _) => id == slotId
    case CashoutAccepted(id, _, _) => id == Some(slotId)
    case RoundStateChanged(_, _, _, phase) => PhaseToState(phase) == BETTING_OPEN
    case _ => false
  }

  function LastMove(events: seq<Event>, slotId: SlotId): Option<Event> {
    if events == [] then None
    else if Moves(events[|events| - 1], slotId) then Some(events[|events| - 1])
    else LastMove(events[..|events| - 1], slotId)
  }

  lemma CashedOutOneStep(s: State, e: Event, slotId: SlotId)
    ensures SlotOf(Step(s, e), slotId).status == CASHED_OUT <==>
            if Moves(e, slotId) then e.CashoutAccepted? else SlotOf(s, slotId).status == CASHED_OUT
  {
    hide Merged, HnlToMicro, AsBig, PhaseToState, LoadedEntries, ResultEntries, CrashShown;
  }

  /** Read off the events alone: a slot is cashed out iff the last event that moved it is a cashout. */
  lemma {:induction false} CashedOutIff(events: seq<Event>, slotId: SlotId)
    ensures SlotOf(Run(Initial(), events), slotId).status == CASHED_OUT
       <==> LastMove(events, slotId).Some? && LastMove(events, slotId).value.CashoutAccepted?
  {
    hide Step, Moves;
    if events != [] {
      CashedOutIff(events[..|events| - 1], slotId);
      CashedOutOneStep(Run(Initial(), events[..|events| - 1]), events[|events| - 1], slotId);
    }
  }

  /** Over every run: the result of a slot's bet is a WIN iff the last event that moved the slot is a cashout,
      so an accepted acknowledgement that arrives after the cashout turns it into a LOSS. */
  lemma ResultIsWinIff(events: seq<Event>, crashMultiplier: real, slotId: SlotId)
    requires SlotOf(Run(Initial(), events), slotId).betId.Some?
    ensures var entries := ResultEntry(Run(Initial(), events), slotId, crashMultiplier);
            |entries| == 1 &&
            (entries[0].result == WIN
             <==> LastMove(events, slotId).Some? && LastMove(events, slotId).value.CashoutAccepted?)
  {
    CashedOutIff(events, slotId);
    ResultEntriesCarryPayouts(events, crashMultiplier, slotId);
    hide LastMove, Run;
  }

  /** The freshest result of a bet is the one the history shows: after round_result, an entry under a
      settled slot's bet is the one just written. */
  lemma HistoryShowsLatestResult(events: seq<Event>, crashMultiplier: Option<real>, i: nat)
    requires var s := Run(Initial(), events);
             i < |Step(s, RoundResult(crashMultiplier)).betHistory| &&
             HasKey(ResultEntries(s, CrashShown(s, crashMultiplier)),
                    Step(s, RoundResult(crashMultiplier)).betHistory[i].betId)
    ensures var s := Run(Initial(), events);
            var e := Step(s, RoundResult(crashMultiplier)).betHistory[i];
            e == LastWith(ResultEntries(s, CrashShown(s, crashMultiplier)), e.betId)
  {
    var s := Run(Initial(), events);
    EveryRunKeepsInv(events);
    StepKeepsInv(s, RoundResult(crashMultiplier));
    var after := Step(s, RoundResult(crashMultiplier)).betHistory;
    assert KeyOf(after[i]) == after[i].betId;
    IncomingWins(s.betHistory, ResultEntries(s, CrashShown(s, crashMultiplier)), i);
  }

  function OtherSlot(slotId: SlotId): SlotId {
    if slotId == A then B else A
  }

  /** The list round_result merges into, before the oldest entries are cut off. */
  lemma ResultMerge(s: State, crashMultiplier: real)
    requires Inv(s)
    ensures UniqueKeys(s.betHistory) && |s.betHistory| <= HISTORY_LIMIT
    ensures |s.betHistory| > 0 ==> KeyOf(s.betHistory[0]) == s.betHistory[0].betId
    ensures var entries := ResultEntries(s, crashMultiplier);
            Merged(s.betHistory, entries) == Newest(PutAll(s.betHistory, entries))
  {
    var entries := ResultEntries(s, crashMultiplier);
    assert forall i :: 0 <= i < |s.betHistory| ==> KeyOf(s.betHistory[i]) == s.betHistory[i].betId;
    hide ResultEntries, SlotOk, Newest;
    PutAllConcat([], s.betHistory, entries);
    PutAllOfUnique(s.betHistory);
  }

  lemma ResultList(s: State, crashMultiplier: Option<real>, slotId: SlotId)
    returns (mine: HistoryEntry, others: seq<HistoryEntry>)
    requires Inv(s) && SlotOf(s, slotId).betId.Some?
    ensures UniqueKeys(s.betHistory) && |s.betHistory| <= HISTORY_LIMIT
    ensures |s.betHistory| > 0 ==> KeyOf(s.betHistory[0]) == s.betHistory[0].betId
    ensures Some(KeyOf(mine)) == SlotOf(s, slotId).betId
    ensures if SlotOf(s, OtherSlot(slotId)).betId.None? then others == []
            else |others| == 1 && Some(KeyOf(others[0])) == SlotOf(s, OtherSlot(slotId)).betId
    ensures Step(s, RoundResult(crashMultiplier)).betHistory
         == Newest(PutAll(s.betHistory, if slotId == A then [mine] + others else others + [mine]))
  {
    hide Inv, ResultEntry, PutAll, Newest, Merged, UniqueKeys, KeyOf;
    hide CrashShown, Settled, PhaseToState, HnlToMicro, AsBig;
    var shown := CrashShown(s, crashMultiplier);
    EntryNamesBet(s, slotId, shown);
    EntryNamesBet(s, OtherSlot(slotId), shown);
    ResultMerge(s, shown);
    mine, others := ResultEntry(s, slotId, shown)[0], ResultEntry(s, OtherSlot(slotId), shown);
    assert ResultEntry(s, slotId, shown) == [mine];
  }

  /** The result of a slot's bet is shown after round_result -- the history has its key -- unless the bet
      was the oldest of forty entries already and the other slot's bet is new, which pushes it out. */
  lemma ResultIsShownIff(s: State, crashMultiplier: Option<real>, slotId: SlotId)
    requires Inv(s) && SlotOf(s, slotId).betId.Some?
    ensures var bet, other := SlotOf(s, slotId).betId.value, SlotOf(s, OtherSlot(slotId)).betId;
            HasKey(Step(s, RoundResult(crashMultiplier)).betHistory, bet) <==>
            !(|s.betHistory| == HISTORY_LIMIT && s.betHistory[0].betId == bet &&
              other.Some? && !HasKey(s.betHistory, other.value))
  {
    var mine, others := ResultList(s, crashMultiplier, slotId);
    hide KeyOf, PutAll, Newest, UniqueKeys, HasKey, Step, Inv;
    PairShownIff(s.betHistory, mine, others, slotId == A);
  }

  lemma EntryNamesBet(s: State, slotId: SlotId, crashMultiplier: real)
    requires Inv(s)
    ensures var entries, bet := ResultEntry(s, slotId, crashMultiplier), SlotOf(s, slotId).betId;
            if bet.None? then entries == [] else |entries| == 1 && KeyOf(entries[0]) == bet.value
  {
  }

  /** The server accepted the bet of this slot. */
  predicate AcceptsBet(e: Event, slotId: SlotId) {
    e.Ack? && e.slotId == slotId && e.ok && Truthy(e.betId)
  }

  lemma StaysOutOfPlay(s: State, e: Event, slotId: SlotId)
    requires SlotOf(s, slotId).status != ACTIVE && !AcceptsBet(e, slotId)
    ensures SlotOf(Step(s, e), slotId).status != ACTIVE
  {
    hide Merged, HnlToMicro, AsBig, PhaseToState, LoadedEntries, ResultEntries;
  }

  /** After round_result a slot stays out of play until an acknowledgement accepts a bet on it ... */
  lemma {:induction false} OutOfPlayUntilAccepted(s: State, crashMultiplier: Option<real>, events: seq<Event>,
                                                  slotId: SlotId)
    requires forall i :: 0 <= i < |events| ==> !AcceptsBet(events[i], slotId)
    ensures SlotOf(Run(Step(s, RoundResult(crashMultiplier)), events), slotId).status != ACTIVE
  {
    if events != [] {
      var n := |events| - 1;
      OutOfPlayUntilAccepted(s, crashMultiplier, events[..n], slotId);
      StaysOutOfPlay(Run(Step(s, RoundResult(crashMultiplier)), events[..n]), events[n], slotId);
    }
  }

  /** ... and an acknowledgement that arrives late puts the slot of the finished round back in play,
      whatever the result had made of it. */
  lemma LateAckRevives(s: State, crashMultiplier: Option<real>, slotId: SlotId, betId: string)
    requires betId != ""
    ensures SlotOf(Run(s, [RoundResult(crashMultiplier), Ack(slotId, true, Some(betId))]), slotId).status == ACTIVE
  {
    var events := [RoundResult(crashMultiplier), Ack(slotId, true, Some(betId))];
    assert events[..1] == [RoundResult(crashMultiplier)] && events[..1][..0] == [];
    hide Merged;
    assert Run(s, events) == Step(Run(s, events[..1]), events[1]);
  }

  lemma StaysWithoutBet(s: State, e: Event, slotId: SlotId)
    requires SlotOf(s, slotId).betId == None && !AcceptsBet(e, slotId)
    ensures SlotOf(Step(s, e), slotId).betId == None
  {
    hide Merged, HnlToMicro, AsBig, PhaseToState, LoadedEntries, ResultEntries;
  }

  /** Once betting opens, a round's result writes nothing for a slot on which no bet was accepted since:
      bets of earlier rounds are forgotten. */
  lemma {:induction false} NoResultWithoutBet(s: State, open: Event, events: seq<Event>, slotId: SlotId,
                                              crashMultiplier: real)
    requires open.RoundStateChanged? && PhaseToState(open.phase) == BETTING_OPEN
    requires forall i :: 0 <= i < |events| ==> !AcceptsBet(events[i], slotId)
    ensures SlotOf(Run(Step(s, open), events), slotId).betId == None
    ensures ResultEntry(Run(Step(s, open), events), slotId, crashMultiplier) == []
  {
    if events != [] {
      var n := |events| - 1;
      NoResultWithoutBet(s, open, events[..n], slotId, crashMultiplier);
      StaysWithoutBet(Run(Step(s, open), events[..n]), events[n], slotId);
      hide Step;
    }
  }

  /** An accepted cashout of a bet becomes a WIN with exactly the payout it announced, or 0 where the
      announcement is no integer. */
  lemma CashoutBecomesWin(s: State, slotId: SlotId, multiplier: Option<real>, payoutText: Option<string>,
                          crashMultiplier: real)
    requires Truthy(SlotOf(s, slotId).betId)
    ensures var payout := AsBig(payoutText);
            var entries := ResultEntry(Step(s, CashoutAccepted(Some(slotId), multiplier, payoutText)), slotId,
                                       crashMultiplier);
            |entries| == 1 && entries[0].result == WIN && Some(entries[0].betId) == SlotOf(s, slotId).betId &&
            entries[0].cashoutMultiplier == multiplier && entries[0].crashMultiplier == crashMultiplier &&
            entries[0].payoutMicro == Some(if payout.Some? then payout.value else 0)
  {
    hide AsBig;
  }

  /** Loading the server's history never overwrites an entry the client already shows. */
  lemma LoadingKeepsLocalEntries(s: State, items: seq<HistoryItem>, i: nat)
    requires i < |Step(s, HistoryLoaded(items)).betHistory|
    requires HasKey(s.betHistory, KeyOf(Step(s, HistoryLoaded(items)).betHistory[i]))
    ensures var e := Step(s, HistoryLoaded(items)).betHistory[i];
            e == LastWith(s.betHistory, KeyOf(e))
  {
    hide Merged, LoadedEntries, LastWith, HasKey, KeyOf;
    IncomingWins(LoadedEntries(items), s.betHistory, i);
  }

  // ----- Every field is read off the events -----

  predicate Bets(e: Event, slotId: SlotId) {
    e.PlaceBet? && e.slotId == slotId && e.connected
  }

  predicate Opens(e: Event) {
    e.RoundStateChanged? && PhaseToState(e.phase) == BETTING_OPEN
  }

  predicate Cashes(e: Event, slotId: SlotId) {
    e.CashoutAccepted? && e.slot == Some(slotId)
  }

  /** The last bet text sent for the slot, and 1 000 000 before the first: a new round keeps it. */
  function AmountIn(events: seq<Event>, slotId: SlotId): int {
    if events == [] then 1_000_000
    else
      var before, last := events[..|events| - 1], events[|events| - 1];
      if Bets(last, slotId) then HnlToMicro(last.amountText) else AmountIn(before, slotId)
  }

  function AutoCashoutIn(events: seq<Event>, slotId: SlotId): Option<real> {
    if events == [] then None
    else
      var before, last := events[..|events| - 1], events[|events| - 1];
      if Bets(last, slotId) then last.autoCashout else AutoCashoutIn(before, slotId)
  }

  /** What the last acknowledgement named, unless a later bet or round has forgotten it. */
  function BetIdIn(events: seq<Event>, slotId: SlotId): Option<string> {
    if events == [] then None
    else
      var before, last := events[..|events| - 1], events[|events| - 1];
      if Bets(last, slotId) || Opens(last) then None
      else if last.Ack? && last.slotId == slotId then if AcceptsBet(last, slotId) then last.betId else None
      else BetIdIn(before, slotId)
  }

  /** The last cashout announced for the slot, unless a later bet or round has forgotten it. */
  function CashoutIn(events: seq<Event>, slotId: SlotId): (cashout: Option<Event>)
    ensures cashout.Some? ==> Cashes(cashout.value, slotId)
  {
    if events == [] then None
    else
      var before, last := events[..|events| - 1], events[|events| - 1];
      if Bets(last, slotId) || Opens(last) then None
      else if Cashes(last, slotId) then Some(last)
      else CashoutIn(before, slotId)
  }

  function RoundIdIn(events: seq<Event>): Option<string> {
    if events == [] then None
    else
      var before, last := events[..|events| - 1], events[|events| - 1];
      if last.RoundStateChanged? then Some(last.roundId) else RoundIdIn(before)
  }

  /** The number of the last round that came with one; a nonce counts from 0. */
  function RoundNumberIn(events: seq<Event>): int {
    if events == [] then 0
    else
      var before, last := events[..|events| - 1], events[|events| - 1];
      if last.RoundStateChanged? && last.roundNumber.Some? then last.roundNumber.value
      else if last.RoundStateChanged? && last.nonce.Some? then last.nonce.value + 1
      else RoundNumberIn(before)
  }

  /** The multiplier on screen: the last tick or announced crash, 1 again once betting opens. */
  function MultiplierIn(events: seq<Event>): real {
    if events == [] then 1.0
    else
      var before, last := events[..|events| - 1], events[|events| - 1];
      if last.MultiplierTick? then last.multiplier
      else if last.RoundResult? && last.crashMultiplier.Some? then last.crashMultiplier.value
      else if Opens(last) then 1.0
      else MultiplierIn(before)
  }

  /** The crash on screen: what the last result announced, or else what was shown; gone once betting opens. */
  function CrashIn(events: seq<Event>): Option<real> {
    if events == [] then None
    else
      var before, last := events[..|events| - 1], events[|events| - 1];
      if last.RoundResult? then Some(if last.crashMultiplier.Some? then last.crashMultiplier.value
                                     else MultiplierIn(before))
      else if Opens(last) then None
      else CrashIn(before)
  }

  /** The phase last announced, until a result. */
  function PhaseIn(events: seq<Event>): RoundState {
    if events == [] then WAITING
    else
      var before, last := events[..|events| - 1], events[|events| - 1];
      if last.RoundResult? then RESULT
      else if last.RoundStateChanged? then PhaseToState(last.phase)
      else PhaseIn(before)
  }

  /** Pending once bet, active or idle by the acknowledgement, cashed out by a cashout, lost by a result that
      finds it in play, and idle again once betting opens. */
  function StatusAfter(status: SlotStatus, e: Event, slotId: SlotId): SlotStatus {
    if Opens(e) then IDLE
    else if Bets(e, slotId) then PENDING
    else if e.Ack? && e.slotId == slotId then if AcceptsBet(e, slotId) then ACTIVE else IDLE
    else if Cashes(e, slotId) then CASHED_OUT
    else if e.RoundResult? && status in {PENDING, ACTIVE} then LOST
    else status
  }

  function StatusIn(events: seq<Event>, slotId: SlotId): SlotStatus {
    if events == [] then IDLE
    else StatusAfter(StatusIn(events[..|events| - 1], slotId), events[|events| - 1], slotId)
  }

  /** The announced payout; text that is no integer counts as 0. */
  function AnnouncedPayout(e: Event): int
    requires e.CashoutAccepted?
  {
    if AsBig(e.payoutText).Some? then AsBig(e.payoutText).value else 0
  }

  ghost predicate SlotReadsOff(slot: BetSlot, events: seq<Event>, slotId: SlotId) {
    && slot.amountMicro == AmountIn(events, slotId)
    && slot.autoCashoutMultiplier == AutoCashoutIn(events, slotId)
    && slot.betId == BetIdIn(events, slotId)
    && match CashoutIn(events, slotId)
       case None => slot.cashoutMultiplier == None && slot.payoutMicro == None
       case Some(e) => slot.cashoutMultiplier == e.cashoutMultiplier &&
                       slot.payoutMicro == Some(AnnouncedPayout(e))
  }

  ghost predicate RoundReadsOff(s: State, events: seq<Event>) {
    && s.roundId == RoundIdIn(events) && s.roundNumber == RoundNumberIn(events)
    && s.roundState == PhaseIn(events)
    && s.multiplier == MultiplierIn(events) && s.crashMultiplier == CrashIn(events)
  }

  lemma SlotReadsOffOneMore(s: State, events: seq<Event>, slotId: SlotId)
    requires events != [] && SlotReadsOff(SlotOf(s, slotId), events[..|events| - 1], slotId)
    ensures SlotReadsOff(SlotOf(Step(s, events[|events| - 1]), slotId), events, slotId)
  {
    hide Merged, HnlToMicro, AsBig, PhaseToState, LoadedEntries, ResultEntries, CrashShown;
  }

  lemma StatusOneStep(s: State, e: Event, slotId: SlotId)
    ensures SlotOf(Step(s, e), slotId).status == StatusAfter(SlotOf(s, slotId).status, e, slotId)
  {
    hide Merged, HnlToMicro, AsBig, PhaseToState, LoadedEntries, ResultEntries, CrashShown;
  }

  lemma RoundReadsOffOneMore(s: State, events: seq<Event>)
    requires events != [] && RoundReadsOff(s, events[..|events| - 1])
    ensures RoundReadsOff(Step(s, events[|events| - 1]), events)
  {
    hide Merged, HnlToMicro, AsBig, PhaseToState, LoadedEntries, ResultEntries, ResetSlot;
  }

  /** Over every run, each slot and the round hold what the last event that sets the field said. */
  lemma {:induction false} StateReadsOffEvents(events: seq<Event>, slotId: SlotId)
    ensures SlotReadsOff(SlotOf(Run(Initial(), events), slotId), events, slotId)
    ensures SlotOf(Run(Initial(), events), slotId).status == StatusIn(events, slotId)
    ensures RoundReadsOff(Run(Initial(), events), events)
  {
    hide Step, SlotReadsOff, RoundReadsOff, SlotOf, StatusAfter;
    if events != [] {
      var before := events[..|events| - 1];
      StateReadsOffEvents(before, slotId);
      SlotReadsOffOneMore(Run(Initial(), before), events, slotId);
      StatusOneStep(Run(Initial(), before), events[|events| - 1], slotId);
      RoundReadsOffOneMore(Run(Initial(), before), events);
    } else {
      NothingReadOff(slotId);
    }
  }

  lemma NothingReadOff(slotId: SlotId)
    ensures SlotReadsOff(SlotOf(Initial(), slotId), [], slotId) && RoundReadsOff(Initial(), [])
    ensures SlotOf(Initial(), slotId).status == IDLE
  {
  }

  /** What round_result writes for a slot after any run, in terms of the events alone: the stake of the last bet
      text, the acknowledged bet, the last round, the crash announced or else shown, and the last cashout. */
  lemma ResultReadsOffEvents(events: seq<Event>, crashMultiplier: Option<real>, slotId: SlotId)
    ensures var s := Run(Initial(), events);
            var entries := ResultEntry(s, slotId, CrashShown(s, crashMultiplier));
            var bet, round, cashout := BetIdIn(events, slotId), RoundIdIn(events), CashoutIn(events, slotId);
            |entries| == (if bet.Some? then 1 else 0) &&
            forall entry :: entry in entries ==>
              && entry.betId == bet.value
              && entry.id == (if round.Some? then round.value else "round") + "-" + bet.value
              && entry.roundId == (if round.Some? then round.value else "")
              && entry.roundNumber == RoundNumberIn(events)
              && entry.slotId == slotId
              && entry.amountMicro == AmountIn(events, slotId)
              && entry.crashMultiplier
                 == (if crashMultiplier.Some? then crashMultiplier.value else MultiplierIn(events))
              && (cashout.None? ==> entry.cashoutMultiplier == None && entry.payoutMicro == None)
              && (cashout.Some? ==> entry.cashoutMultiplier == cashout.value.cashoutMultiplier &&
                                    entry.payoutMicro == Some(AnnouncedPayout(cashout.value)))
  {
    StateReadsOffEvents(events, slotId);
    EveryRunKeepsInv(events);
    hide Run, AmountIn, BetIdIn, CashoutIn, RoundIdIn, RoundNumberIn, MultiplierIn, AutoCashoutIn, AnnouncedPayout;
  }

  // ----- What the server sends -----

  /** The text is the word in any letter case. */
  predicate Spells(text: string, word: string) {
    |text| == |word| &&
    forall i :: 0 <= i < |text| ==>
      text[i] == word[i] || ('A' <= word[i] <= 'Z' && text[i] as int == word[i] as int + 32)
  }

  lemma UpperCaseIff(text: string, word: string)
    requires forall i :: 0 <= i < |word| ==> !('a' <= word[i] <= 'z')
    ensures UpperCase(text) == word <==> Spells(text, word)
  {
    if UpperCase(text) == word {
      forall i | 0 <= i < |text|
        ensures text[i] == word[i] || ('A' <= word[i] <= 'Z' && text[i] as int == word[i] as int + 32)
      {
        assert UpperCase(text)[i] == word[i];
      }
    }
  }

  /** The four phases the server names, in any letter case; anything else is waiting. */
  lemma PhaseIff(text: string)
    ensures PhaseToState(None) == WAITING
    ensures PhaseToState(Some(text)) == BETTING_OPEN <==> Spells(text, "BETTING_OPEN")
    ensures PhaseToState(Some(text)) == ROLLING <==> Spells(text, "ROLLING")
    ensures PhaseToState(Some(text)) == RESULT <==> Spells(text, "RESULT")
    ensures PhaseToState(Some(text)) == COOLDOWN <==> Spells(text, "SETTLED")
  {
    UpperCaseIff(text, "BETTING_OPEN");
    UpperCaseIff(text, "ROLLING");
    UpperCaseIff(text, "RESULT");
    UpperCaseIff(text, "SETTLED");
    assert UpperCase("") == "";
    assert "BETTING_OPEN"[0] == 'B' && "SETTLED"[0] == 'S' && "ROLLING"[1] == 'O' && "RESULT"[1] == 'E';
    hide Spells, UpperCase;
  }

  predicate Named(text: Option<string>) {
    text.Some? && |text.value| > 0
  }

  /** An item of the server's history becomes an entry iff bet, round, number and slot are named and the amount
      is an integer; it keeps their values, and is a WIN iff the server says so. */
  lemma ItemBecomesEntryIff(item: HistoryItem)
    ensures var entry := HistoryItemToEntry(item);
            (entry.Some? <==> Named(item.betId) && Named(item.roundId) && item.roundNumber.Some? &&
                              item.slotId in {Some("A"), Some("B")} &&
                              item.amountMicro.Some? && ParseBigInt(item.amountMicro.value).Some?) &&
            (entry.Some? ==>
               var e := entry.value;
               && Some(e.betId) == item.betId && Some(e.id) == item.betId && Some(e.roundId) == item.roundId
               && Some(e.roundNumber) == item.roundNumber
               && (e.slotId == A <==> item.slotId == Some("A"))
               && Some(e.amountMicro) == ParseBigInt(item.amountMicro.value)
               && e.crashMultiplier == (match item.crashMultiplier case None => 0.0 case Some(m) => m)
               && e.cashoutMultiplier == item.cashoutMultiplier
               && e.payoutMicro == (if Named(item.payoutMicro) then ParseBigInt(item.payoutMicro.value) else None)
               && (e.result == WIN <==> item.result == Some("WIN")))
  {
    hide ParseBigInt;
    assert "A"[0] != "B"[0];
  }

  /** The newest item comes first from the server and last into the history; items that become no entry are
      dropped. */
  lemma {:induction false} LoadedInReverse(first: seq<HistoryItem>, second: seq<HistoryItem>, item: HistoryItem)
    ensures LoadedEntries([]) == [] && LoadedEntries(first + second) == LoadedEntries(second) + LoadedEntries(first)
    ensures LoadedEntries([item])
            == match HistoryItemToEntry(item) case Some(entry) => [entry] case None => []
  {
    hide HistoryItemToEntry;
    assert LoadedEntries([]) == [] && [item][1..] == [];
    if first == [] {
      assert first + second == second;
    } else {
      assert (first + second)[1..] == first[1..] + second;
      LoadedInReverse(first[1..], second, item);
    }
  }

  /** The client store: each handler updates the fields in place, and every handler keeps the invariant. */
  class LempiStore {
    var roundId: Option<string>
    var roundNumber: int
    var roundState: RoundState
    var multiplier: real
    var crashMultiplier: Option<real>
    var slotA: BetSlot
    var slotB: BetSlot
    var betHistory: seq<HistoryEntry>

    ghost function Current(): State
      reads this
    {
      State(roundId, roundNumber, roundState, multiplier, crashMultiplier, slotA, slotB, betHistory)
    }

    ghost predicate Valid()
      reads this
    {
      Inv(Current())
    }

    constructor ()
      ensures Current() == Initial() && Valid()
    {
      roundId, roundNumber, roundState := None, 0, WAITING;
      multiplier, crashMultiplier := 1.0, None;
      slotA, slotB, betHistory := MakeSlot(), MakeSlot(), [];
    }

    method SetSlot(slotId: SlotId, slot: BetSlot)
      modifies this`slotA, this`slotB
      ensures Current() == WithSlot(old(Current()), slotId, slot)
    {
      match slotId
      case A => slotA := slot;
      case B => slotB := slot;
    }

    method OnPlaceBet(slotId: SlotId, amountText: string, autoCashout: Option<real>, connected: bool)
      requires Valid()
      modifies this
      ensures Valid()
      ensures Current() == Step(old(Current()), PlaceBet(slotId, amountText, autoCashout, connected))
    {
      StepKeepsInv(Current(), PlaceBet(slotId, amountText, autoCashout, connected));
      if !connected {
        return;
      }
      SetSlot(slotId, BetSlot(HnlToMicro(amountText), autoCashout, None, PENDING, None, None));
    }

    method OnAck(slotId: SlotId, ok: bool, betId: Option<string>)
      requires Valid()
      modifies this
      ensures Valid()
      ensures Current() == Step(old(Current()), Ack(slotId, ok, betId))
    {
      StepKeepsInv(Current(), Ack(slotId, ok, betId));
      var slot := if slotId == A then slotA else slotB;
      if ok && Truthy(betId) {
        SetSlot(slotId, slot.(betId := betId, status := ACTIVE));
        return;
      }
      SetSlot(slotId, slot.(status := IDLE, betId := None));
    }

    method OnCashoutAccepted(slotId: Option<SlotId>, cashoutMultiplier: Option<real>, payoutText: Option<string>)
      requires Valid()
      modifies this
      ensures Valid()
      ensures Current() == Step(old(Current()), CashoutAccepted(slotId, cashoutMultiplier, payoutText))
    {
      StepKeepsInv(Current(), CashoutAccepted(slotId, cashoutMultiplier, payoutText));
      var big := AsBig(payoutText);
      var payout := if big.Some? then big.value else 0;
      if slotId.Some? {
        var slot := if slotId.value == A then slotA else slotB;
        SetSlot(slotId.value,
                slot.(status := CASHED_OUT, cashoutMultiplier := cashoutMultiplier, payoutMicro := Some(payout)));
      }
    }

    method OnRoundState(id: string, number: Option<int>, nonce: Option<int>, phase: Option<string>)
      requires Valid()
      modifies this
      ensures Valid()
      ensures Current() == Step(old(Current()), RoundStateChanged(id, number, nonce, phase))
    {
      StepKeepsInv(Current(), RoundStateChanged(id, number, nonce, phase));
      roundId := Some(id);
      if number.Some? {
        roundNumber := number.value;
      } else if nonce.Some? {
        roundNumber := nonce.value + 1;
      }
      roundState := PhaseToState(phase);
      if roundState == BETTING_OPEN {
        multiplier, crashMultiplier := 1.0, None;
        slotA, slotB := ResetSlot(slotA), ResetSlot(slotB);
      }
    }

    method OnMultiplierTick(m: real)
      requires Valid()
      modifies this
      ensures Valid()
      ensures Current() == Step(old(Current()), MultiplierTick(m))
    {
      multiplier := m;
    }

    method OnRoundResult(crash: Option<real>)
      requires Valid()
      modifies this
      ensures Valid()
      ensures Current() == Step(old(Current()), RoundResult(crash))
    {
      StepKeepsInv(Current(), RoundResult(crash));
      ShowResult(crash);
    }

    method ShowResult(crash: Option<real>)
      modifies this
      ensures Current() == AfterResult(old(Current()), crash)
    {
      hide Merged, ResultEntries, Settled;
      var shown := if crash.Some? then crash.value else multiplier;
      var snapshot := State(roundId, roundNumber, roundState, multiplier, crashMultiplier, slotA, slotB, betHistory);
      crashMultiplier, multiplier := Some(shown), shown;
      roundState := RESULT;
      AddBetHistory(ResultEntries(snapshot, shown));
      SettleSlots(snapshot);
    }

    method AddBetHistory(entries: seq<HistoryEntry>)
      modifies this`betHistory
      ensures betHistory == Merged(old(betHistory), entries)
    {
      betHistory := MergeHistory(betHistory, entries);
    }

    /** A bet that has not been cashed out when the result arrives is lost. */
    method SettleSlots(snapshot: State)
      requires slotA == snapshot.slotA && slotB == snapshot.slotB
      modifies this`slotA, this`slotB
      ensures slotA == Settled(snapshot.slotA) && slotB == Settled(snapshot.slotB)
    {
      if snapshot.slotA.status == ACTIVE || snapshot.slotA.status == PENDING {
        slotA := slotA.(status := LOST);
      }
      if snapshot.slotB.status == ACTIVE || snapshot.slotB.status == PENDING {
        slotB := slotB.(status := LOST);
      }
    }

    method OnHistoryLoaded(items: seq<HistoryItem>)
      requires Valid()
      modifies this
      ensures Valid()
      ensures Current() == Step(old(Current()), HistoryLoaded(items))
    {
      StepKeepsInv(Current(), HistoryLoaded(items));
      betHistory := MergeHistory(LoadedEntries(items), betHistory);
    }
  }
}
