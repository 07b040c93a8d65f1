/** The inbound idempotency cache (apps/rgs-server/src/middleware/idempotency.ts). Each request goes
    through the middleware in the steps between its awaits -- the row is read, then judged against the
    clock, the handler answers, the response finishes, the upsert lands -- and the steps of different
    requests interleave in any order. Requests without an operator or a request UUID bypass it. */
module IdempotencyCache {
  import opened Wrappers

  const TTL_MS: nat := 24 * 3600 * 1000

  type Id = nat

  datatype Key = Key(operatorId: string, requestUuid: string, endpoint: string)

  datatype Row = Row(httpStatus: int, responseBody: string, expiresAt: int)

  datatype Answer = FromCache(status: int, body: string) | FromHandler(status: int, sent: Option<string>)

  /** Where a request stands. */
  datatype Stage =
    | Looked(key: Key, row: Option<Row>)                        // findUnique resolved (None: no row, or it failed)
    | Handling(key: Key)                                        // the handler runs, res.json is patched
    | Responded(key: Key, status: int, body: Option<string>)    // answered; None: nothing captured
    | Writing(key: Key, upsert: Row)                            // the upsert is under way
    | Closed

  datatype State = State(now: int, cache: map<Key, Row>, stages: map<Id, Stage>, answers: map<Id, Answer>)

  datatype Event =
    | Read(id: Id, key: Key, ok: bool)
    | Decide(id: Id)
    | Handle(id: Id, status: int, body: Option<string>)
    | Finish(id: Id)
    | Persist(id: Id, ok: bool)
    | Tick(ms: nat)

  predicate At(s: State, id: Id, e: Event) {
    id in s.stages &&
    match e
    case Decide(_) => s.stages[id].Looked?
    case Handle(_, _, _) => s.stages[id].Handling?
    case Finish(_) => s.stages[id].Responded?
    case Persist(_, _) => s.stages[id].Writing?
    case _ => false
  }

  predicate Live(row: Option<Row>, now: int) {
    row.Some? && row.value.expiresAt > now
  }

  /** One step of one request, or of the clock; steps that do not apply change nothing. */
  function Step(s: State, e: Event): State {
    match e
    case Read(id, key, ok) =>
      if id in s.stages then s
      else s.(stages := s.stages[id := Looked(key, if ok && key in s.cache then Some(s.cache[key]) else None)])
    case Decide(id) =>
      if !At(s, id, e) then s
      else
        var row := s.stages[id].row;
        if Live(row, s.now)
        then s.(stages := s.stages[id := Closed],
                answers := s.answers[id := FromCache(row.value.httpStatus, row.value.responseBody)])
        else s.(stages := s.stages[id := Handling(s.stages[id].key)])
    case Handle(id, status, body) =>
      if !At(s, id, e) then s
      else s.(stages := s.stages[id := Responded(s.stages[id].key, status, body)],
              answers := s.answers[id := FromHandler(status, body)])
    case Finish(id) =>
      if !At(s, id, e) then s
      else
        var r := s.stages[id];
        if r.status >= 500 || r.body.None? then s.(stages := s.stages[id := Closed])
        else s.(stages := s.stages[id := Writing(r.key, Row(r.status, r.body.value, s.now + TTL_MS))])
    case Persist(id, ok) =>
      if !At(s, id, e) then s
      else
        var w := s.stages[id];
        s.(stages := s.stages[id := Closed], cache := if ok then s.cache[w.key := w.upsert] else s.cache)
    case Tick(ms) => s.(now := s.now + ms)
  }

  function Run(s: State, events: seq<Event>): State {
    if events == [] then s else Step(Run(s, events[..|events| - 1]), events[|events| - 1])
  }

  function Initial(now: int): State {
    State(now, map[], map[], map[])
  }

  // ----- Server errors are never cached -----

  ghost predicate Inv(s: State) {
    && (forall k :: k in s.cache ==> s.cache[k].httpStatus < 500 && s.cache[k].expiresAt <= s.now + TTL_MS)
    && (forall id :: id in s.stages && s.stages[id].Writing? ==>
          s.stages[id].upsert.httpStatus < 500 && s.stages[id].upsert.expiresAt <= s.now + TTL_MS)
    && (forall id :: id in s.stages && s.stages[id].Looked? && s.stages[id].row.Some? ==>
          s.stages[id].row.value.httpStatus < 500)
    && (forall id :: id in s.answers && s.answers[id].FromCache? ==> s.answers[id].status < 500)
  }

  lemma StepKeepsInv(s: State, e: Event)
    requires Inv(s)
    ensures Inv(Step(s, e))
  {
  }

  /** Over every interleaving, rows in the cache and answers taken from it have a status below 500, and
      no row outlives the time to live from now. */
  lemma {:induction false} EveryRunKeepsInv(now: int, events: seq<Event>)
    ensures Inv(Run(Initial(now), events))
  {
    if events != [] {
      EveryRunKeepsInv(now, events[..|events| - 1]);
      StepKeepsInv(Run(Initial(now), events[..|events| - 1]), events[|events| - 1]);
    }
  }

  // ----- How long a persisted response answers -----

  /** Every write of this key under way expires no earlier than deadline. */
  ghost predicate NoEarlierWrite(s: State, key: Key, deadline: int) {
    forall id :: id in s.stages && s.stages[id].Writing? && s.stages[id].key == key ==>
      s.stages[id].upsert.expiresAt >= deadline
  }

  ghost predicate Cached(s: State, key: Key, deadline: int) {
    && key in s.cache && s.cache[key].expiresAt >= deadline && deadline <= s.now + TTL_MS
    && NoEarlierWrite(s, key, deadline)
  }

  lemma StepKeepsCached(s: State, e: Event, key: Key, deadline: int)
    requires Cached(s, key, deadline)
    ensures Cached(Step(s, e), key, deadline)
  {
  }

  lemma {:induction false} RunKeepsCached(s: State, events: seq<Event>, key: Key, deadline: int)
    requires Cached(s, key, deadline)
    ensures Cached(Run(s, events), key, deadline)
  {
    if events != [] {
      RunKeepsCached(s, events[..|events| - 1], key, deadline);
      StepKeepsCached(Run(s, events[..|events| - 1]), events[|events| - 1], key, deadline);
    }
  }

  /** Some live row is there until the present one expires, whatever happens in between, if and only if no
      write under way for the same key carries an earlier expiry: a delayed upsert shortens the life of a
      fresher row. Which response it holds is the subject of ResponseStandsIff. */
  lemma SomeRowAnswersIff(s: State, key: Key)
    requires Inv(s) && key in s.cache
    ensures (forall events :: Run(s, events).now < s.cache[key].expiresAt ==>
               key in Run(s, events).cache && Live(Some(Run(s, events).cache[key]), Run(s, events).now))
       <==> NoEarlierWrite(s, key, s.cache[key].expiresAt) || s.cache[key].expiresAt <= s.now
  {
    var deadline := s.cache[key].expiresAt;
    if NoEarlierWrite(s, key, deadline) {
      forall events | Run(s, events).now < deadline
        ensures key in Run(s, events).cache && Live(Some(Run(s, events).cache[key]), Run(s, events).now)
      {
        RunKeepsCached(s, events, key, deadline);
      }
    } else if deadline <= s.now {
      forall events
        ensures Run(s, events).now >= deadline
      {
        ClockAdvances(s, events);
      }
    } else {
      var id :| id in s.stages && s.stages[id].Writing? && s.stages[id].key == key &&
        s.stages[id].upsert.expiresAt < deadline;
      DelayedWriteShortens(s, key, id);
    }
  }

  lemma ClockOneStep(s: State, e: Event)
    ensures Step(s, e).now >= s.now
  {
  }

  lemma {:induction false} ClockAdvances(s: State, events: seq<Event>)
    ensures Run(s, events).now >= s.now
  {
    hide Step;
    if events != [] {
      ClockAdvances(s, events[..|events| - 1]);
      ClockOneStep(Run(s, events[..|events| - 1]), events[|events| - 1]);
    }
  }

  lemma DelayedWriteShortens(s: State, key: Key, id: Id)
    requires key in s.cache && s.now < s.cache[key].expiresAt
    requires id in s.stages && s.stages[id].Writing? && s.stages[id].key == key &&
             s.stages[id].upsert.expiresAt < s.cache[key].expiresAt
    ensures exists events :: Run(s, events).now < s.cache[key].expiresAt &&
                             !(key in Run(s, events).cache && Live(Some(Run(s, events).cache[key]), Run(s, events).now))
  {
    var early := s.stages[id].upsert.expiresAt;
    var wait := if early > s.now then early - s.now else 0;
    var events := [Persist(id, true), Tick(wait)];
    assert events[..1] == [Persist(id, true)] && events[..1][..0] == [];
    assert Run(s, events[..1][..0]) == s;
    assert Run(s, events[..1]) == Step(s, Persist(id, true));
    assert Run(s, events) == Step(Step(s, Persist(id, true)), Tick(wait));
  }

  // ----- Which response a duplicate gets -----

  predicate SameResponse(a: Row, b: Row) {
    a.httpStatus == b.httpStatus && a.responseBody == b.responseBody
  }

  /** This request can neither replace the response of the row nor shorten its life: it read a row that
      lasts as long, or will store nothing, or the same response for as long. */
  predicate Harmless(stage: Stage, key: Key, row: Row) {
    stage.Closed? || stage.key != key ||
    match stage
    case Looked(_, read) => read.Some? && read.value.expiresAt >= row.expiresAt
    case Handling(_) => false
    case Responded(_, status, body) =>
      status >= 500 || body.None? || (status == row.httpStatus && body.value == row.responseBody)
    case Writing(_, upsert) => SameResponse(upsert, row) && upsert.expiresAt >= row.expiresAt
  }

  /** ... and where it has read a row already, it is that response. */
  predicate Inert(stage: Stage, key: Key, row: Row) {
    Harmless(stage, key, row) &&
    (stage.Looked? && stage.key == key ==> SameResponse(stage.row.value, row))
  }

  ghost predicate AllHarmless(s: State, key: Key, row: Row) {
    forall id :: id in s.stages ==> Harmless(s.stages[id], key, row)
  }

  ghost predicate AllInert(s: State, key: Key, row: Row) {
    forall id :: id in s.stages ==> Inert(s.stages[id], key, row)
  }

  /** No lookup of the key fails. */
  predicate LooksUp(e: Event, key: Key) {
    e.Read? && e.key == key ==> e.ok
  }

  ghost predicate NoFailedLookup(events: seq<Event>, key: Key) {
    forall i :: 0 <= i < |events| ==> LooksUp(events[i], key)
  }

  /** The key's row is live and holds the response of this one. */
  predicate Holds(s: State, key: Key, row: Row) {
    key in s.cache && SameResponse(s.cache[key], row) && s.cache[key].expiresAt > s.now
  }

  /** The request is a duplicate of the key that waits to be judged. */
  predicate Waits(s: State, id: Id, key: Key) {
    id in s.stages && s.stages[id].Looked? && s.stages[id].key == key
  }

  /** The request was answered with the response of the row, and its handler will not run. */
  predicate Replayed(s: State, id: Id, row: Row) {
    id in s.stages && s.stages[id] == Closed &&
    id in s.answers && s.answers[id] == FromCache(row.httpStatus, row.responseBody)
  }

  ghost predicate Standing(s: State, key: Key, row: Row) {
    && key in s.cache && SameResponse(s.cache[key], row) && s.cache[key].expiresAt >= row.expiresAt
    && row.expiresAt <= s.now + TTL_MS
  }

  lemma StepKeepsHarmless(s: State, e: Event, key: Key, row: Row)
    requires Standing(s, key, row) && AllHarmless(s, key, row) && s.now < row.expiresAt && LooksUp(e, key)
    ensures Standing(Step(s, e), key, row) && AllHarmless(Step(s, e), key, row)
  {
  }

  lemma StepKeepsInert(s: State, e: Event, key: Key, row: Row)
    requires Standing(s, key, row) && AllInert(s, key, row) && s.now < row.expiresAt && LooksUp(e, key)
    ensures Standing(Step(s, e), key, row) && AllInert(Step(s, e), key, row)
  {
    assert AllHarmless(s, key, row);
    StepKeepsHarmless(s, e, key, row);
  }

  lemma {:induction false} RunKeepsHarmless(s: State, events: seq<Event>, key: Key, row: Row)
    requires Standing(s, key, row) && AllHarmless(s, key, row)
    requires NoFailedLookup(events, key) && Run(s, events).now < row.expiresAt
    ensures Standing(Run(s, events), key, row) && AllHarmless(Run(s, events), key, row)
    ensures AllInert(s, key, row) ==> AllInert(Run(s, events), key, row)
  {
    hide Step, Standing, AllHarmless, AllInert, LooksUp;
    if events != [] {
      var before, e := events[..|events| - 1], events[|events| - 1];
      ClockOneStep(Run(s, before), e);
      RunKeepsHarmless(s, before, key, row);
      StepKeepsHarmless(Run(s, before), e, key, row);
      if AllInert(s, key, row) {
        StepKeepsInert(Run(s, before), e, key, row);
      }
    }
  }

  // A continuation that takes the response away, found step by step.

  ghost predicate Breaks(s: State, key: Key, row: Row, events: seq<Event>) {
    NoFailedLookup(events, key) && Run(s, events).now < row.expiresAt && !Holds(Run(s, events), key, row)
  }

  ghost predicate CanBreak(s: State, key: Key, row: Row) {
    exists events :: Breaks(s, key, row, events)
  }

  lemma {:induction false} RunFromStep(s: State, e: Event, events: seq<Event>)
    ensures Run(s, [e] + events) == Run(Step(s, e), events)
  {
    hide Step;
    if events == [] {
      assert ([e] + events)[..0] == [];
    } else {
      var n := |events| - 1;
      RunFromStep(s, e, events[..n]);
      assert ([e] + events)[..n + 1] == [e] + events[..n];
    }
  }

  lemma BreaksOneStepEarlier(s: State, e: Event, key: Key, row: Row)
    requires LooksUp(e, key) && CanBreak(Step(s, e), key, row)
    ensures CanBreak(s, key, row)
  {
    hide Step, Run, Holds, LooksUp;
    var events :| Breaks(Step(s, e), key, row, events);
    RunFromStep(s, e, events);
    assert Breaks(s, key, row, [e] + events);
  }

  lemma BrokenNow(s: State, key: Key, row: Row)
    requires s.now < row.expiresAt && !Holds(s, key, row)
    ensures CanBreak(s, key, row)
  {
    assert Breaks(s, key, row, []);
  }

  lemma WriterBreaks(s: State, id: Id, key: Key, row: Row)
    requires id in s.stages && s.stages[id].Writing? && s.stages[id].key == key && !Harmless(s.stages[id], key, row)
    requires s.now < row.expiresAt
    ensures CanBreak(s, key, row)
  {
    var landed := Step(s, Persist(id, true));
    var early := s.stages[id].upsert.expiresAt;
    if SameResponse(s.stages[id].upsert, row) && early > s.now {
      BrokenNow(Step(landed, Tick(early - s.now)), key, row);
      BreaksOneStepEarlier(landed, Tick(early - s.now), key, row);
    } else {
      BrokenNow(landed, key, row);
    }
    BreaksOneStepEarlier(s, Persist(id, true), key, row);
  }

  lemma ResponderBreaks(s: State, id: Id, key: Key, row: Row)
    requires id in s.stages && s.stages[id].Responded? && s.stages[id].key == key && !Harmless(s.stages[id], key, row)
    requires s.now < row.expiresAt
    ensures CanBreak(s, key, row)
  {
    WriterBreaks(Step(s, Finish(id)), id, key, row);
    BreaksOneStepEarlier(s, Finish(id), key, row);
  }

  lemma HandlerBreaks(s: State, id: Id, key: Key, row: Row)
    requires id in s.stages && s.stages[id] == Handling(key) && s.now < row.expiresAt
    ensures CanBreak(s, key, row)
  {
    var answer := Handle(id, 200, Some(row.responseBody + "."));
    assert |row.responseBody + "."| != |row.responseBody|;
    ResponderBreaks(Step(s, answer), id, key, row);
    BreaksOneStepEarlier(s, answer, key, row);
  }

  lemma StaleReaderBreaks(s: State, id: Id, key: Key, row: Row)
    requires Waits(s, id, key) && !Harmless(s.stages[id], key, row) && s.now < row.expiresAt
    ensures CanBreak(s, key, row)
  {
    var read := s.stages[id].row;
    var wait := if Live(read, s.now) then read.value.expiresAt - s.now else 0;
    var late := Step(s, Tick(wait));
    HandlerBreaks(Step(late, Decide(id)), id, key, row);
    BreaksOneStepEarlier(late, Decide(id), key, row);
    BreaksOneStepEarlier(s, Tick(wait), key, row);
  }

  /** Without that condition nothing stands: after one failed lookup a live response can be lost. */
  lemma FailedLookupBreaks(s: State, id: Id, key: Key, row: Row)
    requires id !in s.stages && s.now < row.expiresAt
    ensures CanBreak(Step(s, Read(id, key, false)), key, row)
  {
    StaleReaderBreaks(Step(s, Read(id, key, false)), id, key, row);
  }

  /** The key's row stays live with the response of this one until it expires, on every continuation
      without a failed lookup of the key. */
  ghost predicate AlwaysHolds(s: State, key: Key, row: Row) {
    forall events :: NoFailedLookup(events, key) && Run(s, events).now < row.expiresAt ==>
      Holds(Run(s, events), key, row)
  }

  /** The stored response stands until it expires -- live, with the same status and body -- if and only if
      every request of the key that is under way is harmless to it, or it has expired already. */
  lemma ResponseStandsIff(s: State, key: Key)
    requires Inv(s) && key in s.cache
    ensures AlwaysHolds(s, key, s.cache[key]) <==> AllHarmless(s, key, s.cache[key]) || s.cache[key].expiresAt <= s.now
  {
    var row := s.cache[key];
    hide Harmless, Step, LooksUp;
    if AllHarmless(s, key, row) || row.expiresAt <= s.now {
      forall events | NoFailedLookup(events, key) && Run(s, events).now < row.expiresAt
        ensures Holds(Run(s, events), key, row)
      {
        ClockAdvances(s, events);
        RunKeepsHarmless(s, events, key, row);
      }
    } else {
      HarmfulBreaks(s, key, row);
      var events :| Breaks(s, key, row, events);
    }
  }

  lemma HarmfulBreaks(s: State, key: Key, row: Row)
    requires !AllHarmless(s, key, row) && s.now < row.expiresAt
    ensures CanBreak(s, key, row)
  {
    hide CanBreak, Step;
    var id :| id in s.stages && !Harmless(s.stages[id], key, row);
    match s.stages[id]
    case Looked(_, _) => StaleReaderBreaks(s, id, key, row);
    case Handling(_) => HandlerBreaks(s, id, key, row);
    case Responded(_, _, _) => ResponderBreaks(s, id, key, row);
    case Writing(_, _) => WriterBreaks(s, id, key, row);
  }

  // ----- Every duplicate is answered with it -----

  /** On every continuation without a failed lookup of the key, every duplicate that is judged before the
      row expires is answered with its response. */
  ghost predicate AllReplayed(s: State, key: Key, row: Row) {
    forall events, id ::
      NoFailedLookup(events, key) && Waits(Run(s, events), id, key) && Run(s, events).now < row.expiresAt ==>
      Replayed(Step(Run(s, events), Decide(id)), id, row)
  }

  lemma InertIsReplayed(s: State, id: Id, key: Key, row: Row)
    requires Waits(s, id, key) && Inert(s.stages[id], key, row) && s.now < row.expiresAt
    ensures Replayed(Step(s, Decide(id)), id, row)
  {
  }

  lemma {:induction false} UpperBound(ids: set<Id>) returns (bound: Id)
    ensures forall id :: id in ids ==> id < bound
    decreases |ids|
  {
    if ids == {} {
      bound := 0;
    } else {
      var id :| id in ids;
      var others := UpperBound(ids - {id});
      assert forall other :: other in ids ==> other == id || other in ids - {id};
      bound := if others > id then others else id + 1;
    }
  }

  lemma NewcomerIsNotReplayed(s: State, id: Id, key: Key, row: Row)
    requires id !in s.stages && !Holds(s, key, row)
    ensures Waits(Step(s, Read(id, key, true)), id, key) && Step(s, Read(id, key, true)).now == s.now
    ensures !Replayed(Step(Step(s, Read(id, key, true)), Decide(id)), id, row)
  {
  }

  /** A duplicate that comes in after the response is gone is not answered with it. */
  lemma BrokenIsNotReplayed(s: State, key: Key, row: Row)
    requires CanBreak(s, key, row)
    ensures !AllReplayed(s, key, row)
  {
    var events :| Breaks(s, key, row, events);
    var t := Run(s, events);
    var id := UpperBound(t.stages.Keys);
    var lookup := Read(id, key, true);
    assert (events + [lookup])[..|events|] == events;
    assert Run(s, events + [lookup]) == Step(t, lookup);
    assert NoFailedLookup(events + [lookup], key);
    hide Run, NoFailedLookup;
    assert t.now < row.expiresAt && !Holds(t, key, row);
    NewcomerIsNotReplayed(t, id, key, row);
  }

  lemma OtherReaderIsNotReplayed(s: State, id: Id, key: Key, row: Row)
    requires id in s.stages && Harmless(s.stages[id], key, row) && !Inert(s.stages[id], key, row) &&
             s.now < row.expiresAt
    ensures !AllReplayed(s, key, row)
  {
    assert Run(s, []) == s && NoFailedLookup([], key);
    assert Waits(Run(s, []), id, key);
    assert !Replayed(Step(Run(s, []), Decide(id)), id, row);
  }

  /** A processed request is replayed -- every duplicate judged before the stored response expires gets
      its very status and body, on every continuation without a failed lookup of the key -- if and only if
      every request of the key that is under way is inert, or the response has expired already. */
  lemma ReplayedUntilExpiryIff(s: State, key: Key)
    requires Inv(s) && key in s.cache
    ensures AllReplayed(s, key, s.cache[key]) <==> AllInert(s, key, s.cache[key]) || s.cache[key].expiresAt <= s.now
  {
    var row := s.cache[key];
    hide Harmless, Step, LooksUp;
    if AllInert(s, key, row) || row.expiresAt <= s.now {
      forall events, id | NoFailedLookup(events, key) && Waits(Run(s, events), id, key) &&
        Run(s, events).now < row.expiresAt
        ensures Replayed(Step(Run(s, events), Decide(id)), id, row)
      {
        ClockAdvances(s, events);
        RunKeepsHarmless(s, events, key, row);
        InertIsReplayed(Run(s, events), id, key, row);
      }
    } else if !AllHarmless(s, key, row) {
      HarmfulBreaks(s, key, row);
      BrokenIsNotReplayed(s, key, row);
    } else {
      var id :| id in s.stages && !Inert(s.stages[id], key, row);
      OtherReaderIsNotReplayed(s, id, key, row);
    }
  }

  // ----- Duplicates that start after the response is persisted -----

  /** No event of the list lands an upsert for the key. */
  ghost predicate NoUpsert(s: State, events: seq<Event>, key: Key) {
    forall i :: 0 <= i < |events| && events[i].Persist? && events[i].ok ==>
      !(At(Run(s, events[..i]), events[i].id, events[i]) && Run(s, events[..i]).stages[events[i].id].key == key)
  }

  lemma OnlyUpsertsChangeRow(s: State, e: Event, key: Key)
    requires key in s.cache && (e.Persist? && e.ok && At(s, e.id, e) ==> s.stages[e.id].key != key)
    ensures key in Step(s, e).cache && Step(s, e).cache[key] == s.cache[key]
  {
  }

  lemma {:induction false} NoUpsertKeepsRow(s: State, events: seq<Event>, key: Key)
    requires key in s.cache && NoUpsert(s, events, key)
    ensures key in Run(s, events).cache && Run(s, events).cache[key] == s.cache[key]
  {
    hide Step, At;
    if events != [] {
      var n := |events| - 1;
      assert forall i :: 0 <= i < n ==> events[..n][..i] == events[..i];
      NoUpsertKeepsRow(s, events[..n], key);
      OnlyUpsertsChangeRow(Run(s, events[..n]), events[n], key);
    }
  }

  /** A request of the key is looked up after some events and judged after some more, before the deadline. */
  ghost predicate LaterDuplicate(s: State, before: seq<Event>, id: Id, key: Key, between: seq<Event>, deadline: int) {
    id !in Run(s, before).stages &&
    Run(Step(Run(s, before), Read(id, key, true)), between).now < deadline &&
    forall i :: 0 <= i < |between| ==> between[i] != Decide(id)
  }

  function AfterJudging(s: State, before: seq<Event>, id: Id, key: Key, between: seq<Event>): State {
    Step(Run(Step(Run(s, before), Read(id, key, true)), between), Decide(id))
  }

  /** A duplicate whose lookup succeeds after the response was persisted, and that is judged before the
      row's deadline, is answered from the cache and never runs the handler; it gets the identical
      status and body if no other upsert of the key landed between the persist and its lookup. */
  lemma DuplicateAnsweredFromCache(s: State, before: seq<Event>, id: Id, key: Key, between: seq<Event>, deadline: int)
    requires Cached(s, key, deadline) && LaterDuplicate(s, before, id, key, between, deadline)
    ensures var judged := AfterJudging(s, before, id, key, between);
            id in judged.stages && judged.stages[id] == Closed &&
            id in judged.answers && judged.answers[id].FromCache? &&
            (NoUpsert(s, before, key) ==>
             judged.answers[id] == FromCache(s.cache[key].httpStatus, s.cache[key].responseBody))
  {
    RunKeepsCached(s, before, key, deadline);
    var start := Run(s, before);
    var read := Step(start, Read(id, key, true));
    StaysLooked(read, between, id);
    if NoUpsert(s, before, key) {
      NoUpsertKeepsRow(s, before, key);
    }
    hide Run, NoUpsert;
  }

  /** What a request is about to store is what it answered. */
  ghost predicate StoresItsAnswer(s: State) {
    forall id :: id in s.stages ==>
      match s.stages[id]
      case Responded(_, status, body) => id in s.answers && s.answers[id] == FromHandler(status, body)
      case Writing(_, upsert) =>
        id in s.answers && s.answers[id] == FromHandler(upsert.httpStatus, Some(upsert.responseBody))
      case _ => true
  }

  lemma StepStoresItsAnswer(s: State, e: Event)
    requires StoresItsAnswer(s)
    ensures StoresItsAnswer(Step(s, e))
  {
  }

  lemma {:induction false} EveryRunStoresItsAnswer(now: int, events: seq<Event>)
    ensures StoresItsAnswer(Run(Initial(now), events))
  {
    if events != [] {
      EveryRunStoresItsAnswer(now, events[..|events| - 1]);
      hide StoresItsAnswer, Step;
      StepStoresItsAnswer(Run(Initial(now), events[..|events| - 1]), events[|events| - 1]);
    }
  }

  /** The request is writing, and what it writes is what it answered. */
  lemma WriterStoresItsAnswer(now: int, history: seq<Event>, first: Id)
    requires var s := Run(Initial(now), history); first in s.stages && s.stages[first].Writing?
    ensures var s := Run(Initial(now), history);
            var upsert := s.stages[first].upsert;
            var landed := Step(s, Persist(first, true));
            first in s.answers && s.answers[first] == FromHandler(upsert.httpStatus, Some(upsert.responseBody)) &&
            s.stages[first].key in landed.cache && landed.cache[s.stages[first].key] == upsert
  {
    EveryRunStoresItsAnswer(now, history);
    hide Run;
  }

  /** From the first answer to its duplicates, over any history: once the upsert of a request lands, every
      duplicate judged before it expires repeats the very status and body its handler had sent -- on every
      continuation without a failed lookup -- if and only if the requests under way are then inert. */
  lemma OriginalIsRepeatedIff(now: int, history: seq<Event>, first: Id)
    requires var s := Run(Initial(now), history); first in s.stages && s.stages[first].Writing?
    ensures var s := Run(Initial(now), history);
            var key, upsert, landed := s.stages[first].key, s.stages[first].upsert, Step(s, Persist(first, true));
            first in s.answers && s.answers[first] == FromHandler(upsert.httpStatus, Some(upsert.responseBody)) &&
            (AllReplayed(landed, key, upsert) <==> AllInert(landed, key, upsert) || upsert.expiresAt <= landed.now)
  {
    var s := Run(Initial(now), history);
    WriterStoresItsAnswer(now, history, first);
    EveryRunKeepsInv(now, history);
    StepKeepsInv(s, Persist(first, true));
    hide Run, Step, Inv, AllReplayed, AllInert;
    ReplayedUntilExpiryIff(Step(s, Persist(first, true)), s.stages[first].key);
  }

  /** The same for one duplicate when lookups may fail but no other upsert of the key lands before its own. */
  lemma DuplicateRepeatsOriginal(now: int, history: seq<Event>, first: Id, before: seq<Event>, id: Id,
                                 between: seq<Event>, deadline: int)
    requires var s := Run(Initial(now), history);
             first in s.stages && s.stages[first].Writing? &&
             var key, landed := s.stages[first].key, Step(s, Persist(first, true));
             Cached(landed, key, deadline) && NoUpsert(landed, before, key) &&
             LaterDuplicate(landed, before, id, key, between, deadline)
    ensures var s := Run(Initial(now), history);
            var judged := AfterJudging(Step(s, Persist(first, true)), before, id, s.stages[first].key, between);
            first in s.answers && s.answers[first].FromHandler? && s.answers[first].sent.Some? &&
            id in judged.answers &&
            judged.answers[id] == FromCache(s.answers[first].status, s.answers[first].sent.value)
  {
    hide Step, Run, Cached, NoUpsert, LaterDuplicate, AfterJudging;
    var s := Run(Initial(now), history);
    WriterStoresItsAnswer(now, history, first);
    DuplicateAnsweredFromCache(Step(s, Persist(first, true)), before, id, s.stages[first].key, between, deadline);
  }

  /** A read row waits unchanged until it is judged. */
  predicate Answered(s: State, id: Id, answer: Answer) {
    id in s.stages && !s.stages[id].Looked? && !s.stages[id].Handling? && id in s.answers && s.answers[id] == answer
  }

  lemma AnsweredOneStep(s: State, e: Event, id: Id, answer: Answer)
    requires Answered(s, id, answer)
    ensures Answered(Step(s, e), id, answer)
  {
  }

  lemma {:induction false} AnsweredStays(s: State, events: seq<Event>, id: Id, answer: Answer)
    requires Answered(s, id, answer)
    ensures Answered(Run(s, events), id, answer)
  {
    hide Step;
    if events != [] {
      AnsweredStays(s, events[..|events| - 1], id, answer);
      AnsweredOneStep(Run(s, events[..|events| - 1]), events[|events| - 1], id, answer);
    }
  }

  /** Whatever its status, server errors included, the client gets the handler's own answer, and gets it once:
      no later step of any request changes it. */
  lemma HandlerAnswerIsFinal(s: State, id: Id, status: int, body: Option<string>, events: seq<Event>)
    requires id in s.stages && s.stages[id].Handling?
    ensures var t := Run(Step(s, Handle(id, status, body)), events);
            id in t.answers && t.answers[id] == FromHandler(status, body)
  {
    AnsweredStays(Step(s, Handle(id, status, body)), events, id, FromHandler(status, body));
  }

  /** ... and its upsert, when the response finished after one delay and the write landed after another, stores
      that answer under the request's key until 24 hours after the finish, and stores nothing for a server
      error, an empty capture or a failed write. */
  lemma StoredIffCacheable(s: State, id: Id, status: int, body: Option<string>, delay: nat, late: nat, ok: bool)
    requires id in s.stages && s.stages[id].Handling?
    ensures var key := s.stages[id].key;
            var t := Run(s, [Handle(id, status, body), Tick(delay), Finish(id), Tick(late), Persist(id, ok)]);
            t.now == s.now + delay + late && id in t.stages && t.stages[id] == Closed &&
            t.cache == if ok && status < 500 && body.Some?
                       then s.cache[key := Row(status, body.value, s.now + delay + 86_400_000)]
                       else s.cache
  {
    var answered := Step(Step(s, Handle(id, status, body)), Tick(delay));
    var finished := Step(Step(answered, Finish(id)), Tick(late));
    var events := [Handle(id, status, body), Tick(delay), Finish(id), Tick(late), Persist(id, ok)];
    assert events[..4][..3] == events[..3] && events[..3][..2] == events[..2] && events[..2][..1] == events[..1];
    assert events[..1][..0] == [];
    assert Run(s, events[..2]) == answered by { assert Run(s, events[..1]) == Step(s, events[0]); }
    assert Run(s, events[..4]) == finished by { assert Run(s, events[..3]) == Step(answered, events[2]); }
    hide Run;
  }

  lemma {:induction false} StaysLooked(s: State, events: seq<Event>, id: Id)
    requires id in s.stages && s.stages[id].Looked? && forall i :: 0 <= i < |events| ==> events[i] != Decide(id)
    ensures id in Run(s, events).stages && Run(s, events).stages[id] == s.stages[id]
  {
    if events != [] {
      StaysLooked(s, events[..|events| - 1], id);
      assert events[|events| - 1] != Decide(id);
    }
  }

  lemma ClosedOneStep(s: State, e: Event, id: Id)
    requires id in s.stages && s.stages[id] == Closed
    ensures id in Step(s, e).stages && Step(s, e).stages[id] == Closed
    ensures id in s.answers ==> id in Step(s, e).answers && Step(s, e).answers[id] == s.answers[id]
  {
  }

  /** A closed request stays closed: once answered from the cache, its handler never runs. */
  lemma {:induction false} ClosedStaysClosed(s: State, events: seq<Event>, id: Id)
    requires id in s.stages && s.stages[id] == Closed
    ensures id in Run(s, events).stages && Run(s, events).stages[id] == Closed
    ensures id in s.answers ==> id in Run(s, events).answers && Run(s, events).answers[id] == s.answers[id]
  {
    hide Step;
    if events != [] {
      ClosedStaysClosed(s, events[..|events| - 1], id);
      ClosedOneStep(Run(s, events[..|events| - 1]), events[|events| - 1], id);
    }
  }

  // ----- When the handler runs, and how a response is lost -----

  /** A request that is looked up and then judged runs the handler if and only if its lookup failed, there
      was no row to read, or that row is no longer live when it is judged -- whatever other requests of the
      key have done in between. */
  lemma HandlerRunsIff(s: State, id: Id, key: Key, ok: bool, between: seq<Event>)
    requires id !in s.stages && forall i :: 0 <= i < |between| ==> between[i] != Decide(id)
    ensures var read := Run(Step(s, Read(id, key, ok)), between);
            var judged := Step(read, Decide(id));
            id in judged.stages && (judged.stages[id] == Handling(key) || judged.stages[id] == Closed) &&
            (judged.stages[id] == Handling(key) <==> !ok || key !in s.cache || s.cache[key].expiresAt <= read.now)
  {
    StaysLooked(Step(s, Read(id, key, ok)), between, id);
    hide Run;
  }

  /** Some history without a failed lookup of the key leads from the empty cache to this state. */
  ghost predicate Reached(now: int, key: Key, s: State) {
    exists history :: NoFailedLookup(history, key) && Run(Initial(now), history) == s
  }

  lemma ReachedOneMore(now: int, key: Key, s: State, e: Event)
    requires Reached(now, key, s) && LooksUp(e, key)
    ensures Reached(now, key, Step(s, e))
  {
    hide Step;
    var history :| NoFailedLookup(history, key) && Run(Initial(now), history) == s;
    assert (history + [e])[..|history|] == history;
    assert NoFailedLookup(history + [e], key);
  }

  /** Two requests of one key of which neither finds the other's row both run the handler. */
  lemma BothHandle(now: int, key: Key, a: Id, b: Id) returns (s: State)
    requires a != b
    ensures Reached(now, key, s) && s == State(now, map[], map[a := Handling(key), b := Handling(key)], map[])
  {
    s := Initial(now);
    assert NoFailedLookup([], key) && Run(Initial(now), []) == s;
    assert Reached(now, key, s);
    hide Reached;
    ReachedOneMore(now, key, s, Read(a, key, true));
    s := Step(s, Read(a, key, true));
    ReachedOneMore(now, key, s, Read(b, key, true));
    s := Step(s, Read(b, key, true));
    ReachedOneMore(now, key, s, Decide(a));
    s := Step(s, Decide(a));
    ReachedOneMore(now, key, s, Decide(b));
    s := Step(s, Decide(b));
  }

  lemma AnswerAndFinish(now: int, key: Key, s: State, id: Id, status: int, body: string) returns (t: State)
    requires Reached(now, key, s) && id in s.stages && s.stages[id] == Handling(key) && status < 500
    ensures Reached(now, key, t)
    ensures t == s.(stages := s.stages[id := Writing(key, Row(status, body, s.now + TTL_MS))],
                    answers := s.answers[id := FromHandler(status, Some(body))])
  {
    hide Reached;
    ReachedOneMore(now, key, s, Handle(id, status, Some(body)));
    t := Step(s, Handle(id, status, Some(body)));
    ReachedOneMore(now, key, t, Finish(id));
    t := Step(t, Finish(id));
  }

  /** An overlapping request overwrites a stored response: whatever two different responses the handler
      gives, the first is stored and live in a reachable state, and one step on the second one is. */
  lemma OverwriteIsReached(now: int, key: Key, a: Id, b: Id, first: Row, second: Row) returns (s: State, t: State)
    requires a != b && first.httpStatus < 500 && second.httpStatus < 500 && !SameResponse(first, second)
    ensures Reached(now, key, s) && Holds(s, key, first) && t == Step(s, Persist(b, true)) && Holds(t, key, second)
    ensures t.now < s.cache[key].expiresAt && !AllReplayed(s, key, s.cache[key])
  {
    s := BothHandle(now, key, a, b);
    s := AnswerAndFinish(now, key, s, a, first.httpStatus, first.responseBody);
    s := AnswerAndFinish(now, key, s, b, second.httpStatus, second.responseBody);
    ReachedOneMore(now, key, s, Persist(a, true));
    s := Step(s, Persist(a, true));
    t := Step(s, Persist(b, true));
    hide Reached, AllReplayed;
    assert !Harmless(s.stages[b], key, s.cache[key]);
    HarmfulBreaks(s, key, s.cache[key]);
    BrokenIsNotReplayed(s, key, s.cache[key]);
  }

  /** A delayed upsert shortens the life of a stored response, by as long as it was overtaken, even when
      both requests got the same response. */
  lemma ShorteningIsReached(now: int, key: Key, a: Id, b: Id, response: Row, ms: nat) returns (s: State, t: State)
    requires a != b && response.httpStatus < 500 && ms > 0
    ensures Reached(now, key, s) && Holds(s, key, response) && t == Step(s, Persist(a, true)) && key in t.cache
    ensures SameResponse(t.cache[key], response) && t.cache[key].expiresAt == s.cache[key].expiresAt - ms
    ensures !AllReplayed(s, key, s.cache[key])
  {
    s := BothHandle(now, key, a, b);
    s := AnswerAndFinish(now, key, s, a, response.httpStatus, response.responseBody);
    ReachedOneMore(now, key, s, Tick(ms));
    s := Step(s, Tick(ms));
    s := AnswerAndFinish(now, key, s, b, response.httpStatus, response.responseBody);
    ReachedOneMore(now, key, s, Persist(b, true));
    s := Step(s, Persist(b, true));
    t := Step(s, Persist(a, true));
    hide Reached, AllReplayed;
    assert !Harmless(s.stages[a], key, s.cache[key]);
    HarmfulBreaks(s, key, s.cache[key]);
    BrokenIsNotReplayed(s, key, s.cache[key]);
  }

  // ----- The middleware object -----

  class Middleware {
    var now: int
    var cache: map<Key, Row>
    var stages: map<Id, Stage>
    var answers: map<Id, Answer>

    ghost function Current(): State
      reads this
    {
      State(now, cache, stages, answers)
    }

    ghost predicate Valid()
      reads this
    {
      Inv(Current())
    }

    constructor (now: int)
      ensures Current() == Initial(now) && Valid()
    {
      this.now, cache, stages, answers := now, map[], map[], map[];
    }

    method Lookup(id: Id, key: Key, ok: bool)
      requires Valid()
      modifies this`stages
      ensures Valid()
      ensures Current() == Step(old(Current()), Read(id, key, ok))
    {
      if id !in stages {
        var existing: Option<Row> := None;
        if ok && key in cache {
          existing := Some(cache[key]);
        }
        stages := stages[id := Looked(key, existing)];
      }
    }

    /** Replays the stored response, or lets the handler run. */
    method Judge(id: Id)
      requires Valid()
      modifies this
      ensures Valid()
      ensures Current() == Step(old(Current()), Decide(id))
    {
      if id in stages && stages[id].Looked? {
        var existing, key := stages[id].row, stages[id].key;
        if existing.Some? && existing.value.expiresAt > now {
          stages := stages[id := Closed];
          answers := answers[id := FromCache(existing.value.httpStatus, existing.value.responseBody)];
        } else {
          stages := stages[id := Handling(key)];
        }
      }
    }

    method Respond(id: Id, status: int, body: Option<string>)
      requires Valid()
      modifies this
      ensures Valid()
      ensures Current() == Step(old(Current()), Handle(id, status, body))
    {
      if id in stages && stages[id].Handling? {
        stages := stages[id := Responded(stages[id].key, status, body)];
        answers := answers[id := FromHandler(status, body)];
      }
    }

    /** The 'finish' listener: server errors and empty captures are not stored. */
    method OnFinish(id: Id)
      requires Valid()
      modifies this`stages
      ensures Valid()
      ensures Current() == Step(old(Current()), Finish(id))
    {
      if id in stages && stages[id].Responded? {
        var r := stages[id];
        if r.status >= 500 {
          stages := stages[id := Closed];
          return;
        }
        if r.body.None? {
          stages := stages[id := Closed];
          return;
        }
        stages := stages[id := Writing(r.key, Row(r.status, r.body.value, now + TTL_MS))];
      }
    }

    method Upsert(id: Id, ok: bool)
      requires Valid()
      modifies this`stages, this`cache
      ensures Valid()
      ensures Current() == Step(old(Current()), Persist(id, ok))
    {
      if id in stages && stages[id].Writing? {
        var w := stages[id];
        stages := stages[id := Closed];
        if ok {
          cache := cache[w.key := w.upsert];
        }
      }
    }

    method Advance(ms: nat)
      requires Valid()
      modifies this`now
      ensures Valid()
      ensures Current() == Step(old(Current()), Tick(ms))
    {
      now := now + ms;
    }
  }
}
