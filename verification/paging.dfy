/** Cursor paging of the list endpoints (apps/rgs-server/src/routes/rounds.ts and admin.ts): a page takes
    limit + 1 rows starting just after the cursor row, and pops the extra one. The list is fixed during
    the walk and its row ids are unique. */
module Paging {
  import opened Wrappers
  import IntFacts

  datatype Row = Row(id: string, data: string)

  datatype Page = Page(items: seq<Row>, nextCursor: Option<string>)

  ghost predicate UniqueIds(rows: seq<Row>) {
    forall i, j :: 0 <= i < j < |rows| ==> rows[i].id != rows[j].id
  }

  function PositionOf(rows: seq<Row>, id: string): (i: nat)
    ensures i <= |rows|
    ensures i < |rows| ==> rows[i].id == id
    ensures forall j :: 0 <= j < i ==> rows[j].id != id
  {
    if rows == [] || rows[0].id == id then 0 else 1 + PositionOf(rows[1..], id)
  }

  /** cursor: { id }, skip: 1 -- start just after that row; a row that is gone leaves an empty page. */
  function StartAt(rows: seq<Row>, cursor: Option<string>): (p: nat)
    ensures p <= |rows|
  {
    match cursor
    case None => 0
    case Some(id) => if PositionOf(rows, id) < |rows| then PositionOf(rows, id) + 1 else |rows|
  }

  /** findMany with take: limit + 1 */
  function Fetch(rows: seq<Row>, cursor: Option<string>, limit: nat): seq<Row> {
    var rest := rows[StartAt(rows, cursor)..];
    if |rest| <= limit + 1 then rest else rest[..limit + 1]
  }

  /** The handler as written: the popped look-ahead row becomes the cursor. */
  function PageOf(rows: seq<Row>, cursor: Option<string>, limit: nat): Page {
    var fetched := Fetch(rows, cursor, limit);
    if |fetched| > limit then Page(fetched[..limit], Some(fetched[limit].id)) else Page(fetched, None)
  }

  /** The variant whose cursor is the last row it returned. */
  function PageByLast(rows: seq<Row>, cursor: Option<string>, limit: nat): Page
    requires limit >= 1
  {
    var fetched := Fetch(rows, cursor, limit);
    if |fetched| > limit then Page(fetched[..limit], Some(fetched[limit - 1].id)) else Page(fetched, None)
  }

  method ListPage(rows: seq<Row>, cursor: Option<string>, limit: nat) returns (page: Page)
    ensures page == PageOf(rows, cursor, limit)
  {
    var fetched := Fetch(rows, cursor, limit);
    var nextCursor: Option<string> := None;
    if |fetched| > limit {
      nextCursor := Some(fetched[|fetched| - 1].id);
      fetched := fetched[..|fetched| - 1];
    }
    return Page(fetched, nextCursor);
  }

  lemma {:induction false} PageShape(rows: seq<Row>, cursor: Option<string>, limit: nat)
    ensures var p := StartAt(rows, cursor);
            PageOf(rows, cursor, limit) ==
            if |rows| - p <= limit then Page(rows[p..], None) else Page(rows[p..p + limit], Some(rows[p + limit].id))
  {
    hide StartAt;
    var p := StartAt(rows, cursor);
    if |rows| - p > limit {
      assert Fetch(rows, cursor, limit)[..limit] == rows[p..p + limit];
    }
  }

  lemma PageByLastShape(rows: seq<Row>, cursor: Option<string>, limit: nat)
    requires limit >= 1
    ensures var p := StartAt(rows, cursor);
            PageByLast(rows, cursor, limit) ==
            if |rows| - p <= limit then Page(rows[p..], None)
            else Page(rows[p..p + limit], Some(rows[p + limit - 1].id))
  {
    hide StartAt;
    var p := StartAt(rows, cursor);
    if |rows| - p > limit {
      assert Fetch(rows, cursor, limit)[..limit] == rows[p..p + limit];
    }
  }

  lemma CursorMovesOn(rows: seq<Row>, p: nat)
    requires UniqueIds(rows) && p < |rows|
    ensures StartAt(rows, Some(rows[p].id)) == p + 1
  {
    assert PositionOf(rows, rows[p].id) == p;
  }

  /** A cursor that is no longer in the list ends the listing: the page is empty and has no cursor. */
  lemma GoneCursorEndsListing(rows: seq<Row>, id: string, limit: nat)
    requires forall i :: 0 <= i < |rows| ==> rows[i].id != id
    ensures PageOf(rows, Some(id), limit) == Page([], None)
  {
    PageShape(rows, Some(id), limit);
  }

  // ----- Walking all pages -----

  /** All items a client collects by following nextCursor until it is null. */
  function Walk(rows: seq<Row>, cursor: Option<string>, limit: nat): seq<Row>
    requires UniqueIds(rows) && limit >= 1
    decreases |rows| - StartAt(rows, cursor)
  {
    var page := PageOf(rows, cursor, limit);
    if page.nextCursor.None? then page.items
    else
      CursorMovesOn(rows, StartAt(rows, cursor) + limit);
      page.items + Walk(rows, page.nextCursor, limit)
  }

  function WalkByLast(rows: seq<Row>, cursor: Option<string>, limit: nat): seq<Row>
    requires UniqueIds(rows) && limit >= 1
    decreases |rows| - StartAt(rows, cursor)
  {
    var page := PageByLast(rows, cursor, limit);
    if page.nextCursor.None? then page.items
    else
      CursorMovesOn(rows, StartAt(rows, cursor) + limit - 1);
      page.items + WalkByLast(rows, page.nextCursor, limit)
  }

  /** The 0-based position p is a look-ahead row: its 1-based position is a multiple of limit + 1. */
  predicate IsLookAhead(p: nat, limit: nat) {
    (p + 1) % (limit + 1) == 0
  }

  /** The rows from position p on that are not look-ahead rows. */
  function Kept(rows: seq<Row>, p: nat, limit: nat): seq<Row>
    decreases |rows| - p
  {
    if p >= |rows| then []
    else (if IsLookAhead(p, limit) then [] else [rows[p]]) + Kept(rows, p + 1, limit)
  }

  /** Inside a stretch without look-ahead rows, nothing is dropped. */
  lemma {:induction false} KeptStretch(rows: seq<Row>, p: nat, n: nat, limit: nat)
    requires p + n <= |rows| && forall q :: p <= q < p + n ==> !IsLookAhead(q, limit)
    ensures Kept(rows, p, limit) == rows[p..p + n] + Kept(rows, p + n, limit)
    decreases n
  {
    hide IsLookAhead;
    if n == 0 {
      assert rows[p..p] == [];
    } else {
      KeptStretch(rows, p + 1, n - 1, limit);
      assert Kept(rows, p, limit) == [rows[p]] + Kept(rows, p + 1, limit);
      assert rows[p..p + n] == [rows[p]] + rows[p + 1..p + n];
    }
  }

  lemma KeptSkips(rows: seq<Row>, p: nat, limit: nat)
    requires p < |rows| && IsLookAhead(p, limit)
    ensures Kept(rows, p, limit) == Kept(rows, p + 1, limit)
  {
  }

  /** A page starts just after a look-ahead row, or at the front. */
  predicate IsPageStart(p: nat, limit: nat) {
    p % (limit + 1) == 0
  }

  lemma LookAheadsAfter(p: nat, limit: nat)
    requires IsPageStart(p, limit)
    ensures forall q :: p <= q < p + limit ==> !IsLookAhead(q, limit)
    ensures IsLookAhead(p + limit, limit) && IsPageStart(p + limit + 1, limit)
  {
    var k, m := p / (limit + 1), limit + 1;
    assert p == k * m;
    forall q | p <= q < p + limit
      ensures !IsLookAhead(q, limit)
    {
      IntFacts.QuotientUnique(q + 1, m, k, q + 1 - p);
    }
    assert p + m == (k + 1) * m + 0;
    IntFacts.QuotientUnique(p + m, m, k + 1, 0);
  }

  /** One step of the walk, by positions: the next page starts one past the look-ahead row. */
  lemma WalkStep(rows: seq<Row>, cursor: Option<string>, limit: nat)
    requires UniqueIds(rows) && limit >= 1
    ensures var p := StartAt(rows, cursor);
            if |rows| - p <= limit then Walk(rows, cursor, limit) == rows[p..]
            else var next := Some(rows[p + limit].id);
                 && StartAt(rows, next) == p + limit + 1
                 && Walk(rows, cursor, limit) == rows[p..p + limit] + Walk(rows, next, limit)
  {
    var p := StartAt(rows, cursor);
    PageShape(rows, cursor, limit);
    if |rows| - p > limit {
      CursorMovesOn(rows, p + limit);
    }
    hide StartAt, PageOf, UniqueIds;
  }

  lemma WalkByLastStep(rows: seq<Row>, cursor: Option<string>, limit: nat)
    requires UniqueIds(rows) && limit >= 1
    ensures var p := StartAt(rows, cursor);
            if |rows| - p <= limit then WalkByLast(rows, cursor, limit) == rows[p..]
            else var next := Some(rows[p + limit - 1].id);
                 && StartAt(rows, next) == p + limit
                 && WalkByLast(rows, cursor, limit) == rows[p..p + limit] + WalkByLast(rows, next, limit)
  {
    var p := StartAt(rows, cursor);
    PageByLastShape(rows, cursor, limit);
    if |rows| - p > limit {
      CursorMovesOn(rows, p + limit - 1);
    }
    hide StartAt, PageByLast, UniqueIds;
  }

  /** With no look-ahead row from p on, everything is kept. */
  lemma KeptToEnd(rows: seq<Row>, p: nat, limit: nat)
    requires p <= |rows| && forall q :: p <= q < |rows| ==> !IsLookAhead(q, limit)
    ensures Kept(rows, p, limit) == rows[p..]
  {
    KeptStretch(rows, p, |rows| - p, limit);
    assert Kept(rows, |rows|, limit) == [];
    hide IsLookAhead, Kept;
    assert rows[p..|rows|] + [] == rows[p..];
  }

  /** The same step on the rows that are kept. */
  lemma KeptStep(rows: seq<Row>, p: nat, limit: nat)
    requires p <= |rows| && IsPageStart(p, limit)
    ensures if |rows| - p <= limit then Kept(rows, p, limit) == rows[p..]
            else && IsPageStart(p + limit + 1, limit)
                 && Kept(rows, p, limit) == rows[p..p + limit] + Kept(rows, p + limit + 1, limit)
  {
    hide IsLookAhead, IsPageStart, Kept;
    LookAheadsAfter(p, limit);
    if |rows| - p <= limit {
      KeptToEnd(rows, p, limit);
    } else {
      KeptStretch(rows, p, limit, limit);
      KeptSkips(rows, p + limit, limit);
    }
  }

  /** The walk as written returns exactly the rows that are not look-ahead rows, in order, each once:
      every look-ahead row becomes a cursor, and the next page starts after it. */
  lemma {:induction false} WalkSkipsLookAheads(rows: seq<Row>, cursor: Option<string>, limit: nat)
    requires UniqueIds(rows) && limit >= 1 && IsPageStart(StartAt(rows, cursor), limit)
    ensures Walk(rows, cursor, limit) == Kept(rows, StartAt(rows, cursor), limit)
    decreases |rows| - StartAt(rows, cursor)
  {
    hide IsPageStart, StartAt, UniqueIds, Walk, Kept;
    var p := StartAt(rows, cursor);
    WalkStep(rows, cursor, limit);
    KeptStep(rows, p, limit);
    if |rows| - p > limit {
      WalkSkipsLookAheads(rows, Some(rows[p + limit].id), limit);
    }
  }

  /** From the first page on: exactly the rows at 1-based multiples of limit + 1 are lost. */
  lemma FullWalk(rows: seq<Row>, limit: nat)
    requires UniqueIds(rows) && limit >= 1
    ensures Walk(rows, None, limit) == Kept(rows, 0, limit)
  {
    WalkSkipsLookAheads(rows, None, limit);
  }

  lemma {:induction false} KeptHolds(rows: seq<Row>, p: nat, q: nat, limit: nat)
    requires UniqueIds(rows) && q < |rows|
    ensures rows[q] in Kept(rows, p, limit) <==> p <= q && !IsLookAhead(q, limit)
    decreases |rows| - p
  {
    hide IsLookAhead;
    if p < |rows| {
      KeptHolds(rows, p + 1, q, limit);
      if p != q {
        assert rows[p] != rows[q];
      }
    }
  }

  /** A row reaches the client iff its 1-based position is not a multiple of limit + 1. */
  lemma WalkOmitsExactly(rows: seq<Row>, q: nat, limit: nat)
    requires UniqueIds(rows) && limit >= 1 && q < |rows|
    ensures rows[q] in Walk(rows, None, limit) <==> (q + 1) % (limit + 1) != 0
  {
    FullWalk(rows, limit);
    KeptHolds(rows, 0, q, limit);
  }

  lemma {:induction false} KeptCount(rows: seq<Row>, p: nat, limit: nat)
    requires p <= |rows|
    ensures |Kept(rows, p, limit)| <= |rows| - p
    decreases |rows| - p
  {
    if p < |rows| {
      KeptCount(rows, p + 1, limit);
    }
  }

  /** The promise of a listing, every row exactly once in order, holds iff it fits on one page. */
  lemma {:induction false} WalkIsCompleteIff(rows: seq<Row>, limit: nat)
    requires UniqueIds(rows) && limit >= 1
    ensures Walk(rows, None, limit) == rows <==> |rows| <= limit
  {
    FullWalk(rows, limit);
    LookAheadsAfter(0, limit);
    hide IsLookAhead;
    if |rows| <= limit {
      KeptToEnd(rows, 0, limit);
    } else {
      KeptStretch(rows, 0, limit, limit);
      KeptCount(rows, limit + 1, limit);
      assert |Kept(rows, 0, limit)| < |rows|;
    }
  }

  /** With the last returned row as the cursor, the walk returns every row exactly once, in order. */
  lemma {:induction false} WalkByLastIsComplete(rows: seq<Row>, cursor: Option<string>, limit: nat)
    requires UniqueIds(rows) && limit >= 1
    ensures WalkByLast(rows, cursor, limit) == rows[StartAt(rows, cursor)..]
    decreases |rows| - StartAt(rows, cursor)
  {
    hide StartAt, UniqueIds, WalkByLast;
    var p := StartAt(rows, cursor);
    WalkByLastStep(rows, cursor, limit);
    if |rows| - p > limit {
      WalkByLastIsComplete(rows, Some(rows[p + limit - 1].id), limit);
      SliceJoin(rows, p, p + limit);
    }
  }

  lemma SliceJoin(rows: seq<Row>, p: nat, m: nat)
    requires p <= m <= |rows|
    ensures rows[p..m] + rows[m..] == rows[p..]
  {
  }
}
