/** Listing newest first, page by page, while the table changes. */
module Keysets {
  import opened Wrappers

  datatype Position = Position(createdAt: int, id: int)

  /** Creation time and id never change; `data` is everything else and may. */
  datatype Row<D> = Row(at: Position, data: D)

  datatype Page<D> = Page(items: seq<Row<D>>, next: Option<Position>)

  /** Row-value comparison: the id breaks ties. */
  predicate Before(p: Position, q: Position) {
    p.createdAt < q.createdAt || (p.createdAt == q.createdAt && p.id < q.id)
  }

  predicate Within(at: Position, cursor: Option<Position>) {
    cursor.None? || Before(at, cursor.value)
  }

  /** Ids are keys. */
  ghost predicate Keyed<D>(table: set<Row<D>>) {
    forall r, s | r in table && s in table && r.at.id == s.at.id :: r == s
  }

  ghost predicate Descending<D>(rows: seq<Row<D>>) {
    forall i, j | 0 <= i < j < |rows| :: Before(rows[j].at, rows[i].at)
  }

  /** The rows the query selects. */
  ghost function Selected<D>(table: set<Row<D>>, matches: D -> bool, cursor: Option<Position>): set<Row<D>> {
    set r | r in table && matches(r.data) && Within(r.at, cursor)
  }

  /** The database's answer: the first `count` of the selected rows in descending order. */
  ghost predicate Fetched<D>(selected: set<Row<D>>, count: nat, rows: seq<Row<D>>) {
    && Descending(rows) && |rows| <= count
    && (forall i | 0 <= i < |rows| :: rows[i] in selected)
    && (forall r | r in selected && r !in rows ::
          |rows| == count && forall i | 0 <= i < |rows| :: Before(r.at, rows[i].at))
  }

  /** One row more than the limit is fetched: its presence says that there is another page. */
  function ListPage<D>(fetched: seq<Row<D>>, limit: nat): Page<D>
    requires limit >= 1
  {
    if |fetched| > limit then Page(fetched[..limit], Some(fetched[limit - 1].at)) else Page(fetched, None)
  }

  /** A query has an answer on every table with a key. */
  lemma {:induction false} AnswerExists<D>(selected: set<Row<D>>, count: nat) returns (rows: seq<Row<D>>)
    requires Keyed(selected)
    ensures Fetched(selected, count, rows)
  {
    if count == 0 || selected == {} {
      return [];
    }
    var newest := Newest(selected);
    var rest := AnswerExists(selected - {newest}, count - 1);
    rows := [newest] + rest;
    forall r | r in selected && r !in rows
      ensures |rows| == count && forall i | 0 <= i < |rows| :: Before(r.at, rows[i].at)
    {
      assert r !in rest;
    }
  }

  lemma {:induction false} Newest<D>(rows: set<Row<D>>) returns (newest: Row<D>)
    requires rows != {} && Keyed(rows)
    ensures newest in rows && forall r | r in rows && r != newest :: Before(r.at, newest.at)
  {
    newest :| newest in rows;
    if rows != {newest} {
      var other := Newest(rows - {newest});
      newest := if Before(newest.at, other.at) then other else newest;
    }
  }

  // ---- a walk -------------------------------------------------------------------

  /** The table as it stands when a page is fetched, and the database's answer. */
  datatype Visit<D(==)> = Visit(table: set<Row<D>>, fetched: seq<Row<D>>)

  /** Each page is fetched from the cursor of the one before, until there is none. Between fetches the table may change
      in any way, as long as ids stay keys. */
  ghost predicate IsWalk<D>(visits: seq<Visit<D>>, matches: D -> bool, cursor: Option<Position>, limit: nat)
    requires limit >= 1
    decreases |visits|
  {
    && visits != [] && Keyed(visits[0].table)
    && Fetched(Selected(visits[0].table, matches, cursor), limit + 1, visits[0].fetched)
    && var next := ListPage(visits[0].fetched, limit).next;
       if next.None? then |visits| == 1 else IsWalk(visits[1..], matches, next, limit)
  }

  /** The items of all the pages, in order. */
  function Items<D(==)>(visits: seq<Visit<D>>, limit: nat): seq<Row<D>>
    requires limit >= 1
    decreases |visits|
  {
    if visits == [] then [] else ListPage(visits[0].fetched, limit).items + Items(visits[1..], limit)
  }

  /** The table holds a matching row at this position. */
  ghost predicate Present<D>(table: set<Row<D>>, matches: D -> bool, at: Position) {
    exists r | r in table :: r.at == at && matches(r.data)
  }

  ghost predicate Returned<D>(items: seq<Row<D>>, at: Position) {
    exists i | 0 <= i < |items| :: items[i].at == at
  }

  /** One page: what it leaves out lies past its cursor, and a page with a cursor is full. */
  lemma PageIsExact<D>(visit: Visit<D>, matches: D -> bool, cursor: Option<Position>, limit: nat)
    requires limit >= 1 && Fetched(Selected(visit.table, matches, cursor), limit + 1, visit.fetched)
    ensures var page := ListPage(visit.fetched, limit);
            && Descending(page.items) && |page.items| <= limit
            && (forall i | 0 <= i < |page.items| ::
                page.items[i] in visit.table && matches(page.items[i].data) && Within(page.items[i].at, cursor))
            && (page.next.Some? ==> |page.items| == limit && page.next.value == page.items[limit - 1].at
                                    && exists r | r in visit.table :: matches(r.data) && Within(r.at, page.next))
            && (forall r | r in visit.table && matches(r.data) && Within(r.at, cursor) ::
                  r in page.items || (page.next.Some? && Within(r.at, page.next)))
  {
    var rows, page := visit.fetched, ListPage(visit.fetched, limit);
    if |rows| > limit {
      assert Within(rows[limit].at, page.next);
      forall r | r in visit.table && matches(r.data) && Within(r.at, cursor)
        ensures r in page.items || Within(r.at, page.next)
      {
        if r in rows {
          var i :| 0 <= i < |rows| && rows[i] == r;
          if i < limit { assert page.items[i] == r; }
        }
      }
    }
  }

  /** The walk returns rows in strictly descending order, so none twice. */
  lemma {:induction false} WalkDescends<D>(visits: seq<Visit<D>>, matches: D -> bool, cursor: Option<Position>,
        limit: nat)
    requires limit >= 1 && IsWalk(visits, matches, cursor, limit)
    ensures Descending(Items(visits, limit))
    ensures forall i | 0 <= i < |Items(visits, limit)| :: Within(Items(visits, limit)[i].at, cursor)
    decreases |visits|
  {
    var page := ListPage(visits[0].fetched, limit);
    PageIsExact(visits[0], matches, cursor, limit);
    if page.next.Some? {
      var rest := Items(visits[1..], limit);
      WalkDescends(visits[1..], matches, page.next, limit);
      forall i, j | 0 <= i < |page.items| && 0 <= j < |rest| ensures Before(rest[j].at, page.items[i].at) {
      }
    }
  }

  /** The row is on the page of this visit, and was in the table when that page was fetched. */
  ghost predicate OnPage<D>(visit: Visit<D>, limit: nat, r: Row<D>)
    requires limit >= 1
  {
    r in ListPage(visit.fetched, limit).items && r in visit.table
  }

  /** Every returned row matched and was in the table when its page was fetched. */
  lemma {:induction false} WalkReturnsOnlyMatches<D>(
      visits: seq<Visit<D>>, matches: D -> bool, cursor: Option<Position>, limit: nat, r: Row<D>)
    requires limit >= 1 && IsWalk(visits, matches, cursor, limit) && r in Items(visits, limit)
    ensures matches(r.data) && exists v | 0 <= v < |visits| :: OnPage(visits[v], limit, r)
    decreases |visits|
  {
    var page := ListPage(visits[0].fetched, limit);
    PageIsExact(visits[0], matches, cursor, limit);
    if r in page.items {
      assert OnPage(visits[0], limit, r);
    } else {
      WalkReturnsOnlyMatches(visits[1..], matches, page.next, limit, r);
      var v :| 0 <= v < |visits[1..]| && OnPage(visits[1..][v], limit, r);
      assert OnPage(visits[v + 1], limit, r);
    }
  }

  lemma ReturnedInEither<D>(a: seq<Row<D>>, b: seq<Row<D>>, at: Position)
    requires Returned(a, at) || Returned(b, at)
    ensures Returned(a + b, at)
  {
    if Returned(a, at) {
      var i :| 0 <= i < |a| && a[i].at == at;
      assert (a + b)[i].at == at;
    } else {
      var i :| 0 <= i < |b| && b[i].at == at;
      assert (a + b)[|a| + i].at == at;
    }
  }

  lemma NowOrLater<D>(visit: Visit<D>, matches: D -> bool, cursor: Option<Position>, limit: nat, at: Position)
    requires limit >= 1 && Fetched(Selected(visit.table, matches, cursor), limit + 1, visit.fetched)
    requires Present(visit.table, matches, at) && Within(at, cursor)
    ensures var page := ListPage(visit.fetched, limit);
            Returned(page.items, at) || (page.next.Some? && Within(at, page.next))
  {
    PageIsExact(visit, matches, cursor, limit);
    var r :| r in visit.table && r.at == at && matches(r.data);
  }

  /** A row that is there and matches at every fetch is returned. */
  lemma {:induction false} WalkMissesNothing<D>(
      visits: seq<Visit<D>>, matches: D -> bool, cursor: Option<Position>, limit: nat, at: Position)
    requires limit >= 1 && IsWalk(visits, matches, cursor, limit) && Within(at, cursor)
    requires forall v | 0 <= v < |visits| :: Present(visits[v].table, matches, at)
    ensures Returned(Items(visits, limit), at)
    decreases |visits|
  {
    var page := ListPage(visits[0].fetched, limit);
    assert Present(visits[0].table, matches, at);
    NowOrLater(visits[0], matches, cursor, limit, at);
    if !Returned(page.items, at) {
      WalkMissesNothing(visits[1..], matches, page.next, limit, at);
    }
    ReturnedInEither(page.items, Items(visits[1..], limit), at);
  }

  /** From the first page to the last, whatever is inserted, changed or deleted in between: strictly descending, so that
      no row comes twice; only rows that matched when their page was fetched; and every row that matched at every
      fetch. */
  lemma WalkIsExact<D>(visits: seq<Visit<D>>, matches: D -> bool, limit: nat)
    requires limit >= 1 && IsWalk(visits, matches, None, limit)
    ensures forall i, j | 0 <= i < j < |Items(visits, limit)| ::
              var newer, older := Items(visits, limit)[i].at, Items(visits, limit)[j].at;
              older.createdAt < newer.createdAt || (older.createdAt == newer.createdAt && older.id < newer.id)
    ensures forall r | r in Items(visits, limit) ::
              matches(r.data) && exists v | 0 <= v < |visits| :: OnPage(visits[v], limit, r)
    ensures forall at: Position | forall v | 0 <= v < |visits| :: Present(visits[v].table, matches, at) ::
            Returned(Items(visits, limit), at)
  {
    WalkDescends(visits, matches, None, limit);
    forall r | r in Items(visits, limit)
      ensures matches(r.data) && exists v | 0 <= v < |visits| :: OnPage(visits[v], limit, r)
    {
      WalkReturnsOnlyMatches(visits, matches, None, limit, r);
    }
    forall at: Position | forall v | 0 <= v < |visits| :: Present(visits[v].table, matches, at)
      ensures Returned(Items(visits, limit), at)
    {
      WalkMissesNothing(visits, matches, None, limit, at);
    }
  }
}
