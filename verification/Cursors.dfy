/** Reading a growing table by asking, again and again, for the rows after the last id seen. */
module Cursors {
  import opened Wrappers

  /** A stored reading: its primary key and the sensor it belongs to. */
  datatype Row = Row(id: int, sensor: int)

  /** The table in id order; ids are a primary key. */
  ghost predicate ById(table: seq<Row>) {
    forall i, j :: 0 <= i < j < |table| ==> table[i].id < table[j].id
  }

  /** `where(id > last).order_by(id)`. */
  function After(table: seq<Row>, last: int): (rows: seq<Row>)
    ensures |rows| <= |table|
  {
    if table == [] then []
    else if table[0].id > last then [table[0]] + After(table[1..], last)
    else After(table[1..], last)
  }

  /** The same with `.limit(n)`. */
  function Page(table: seq<Row>, last: int, limit: nat): seq<Row> {
    var rows := After(table, last);
    if |rows| <= limit then rows else rows[..limit]
  }

  /** `readings_since`. */
  function ReadingsSince(table: seq<Row>, last: int, limit: int): Response<seq<Row>> {
    if limit < 1 || limit > 1000 then HttpError(400) else Ok(Page(table, last, limit))
  }

  /** The id a client asks from next. */
  function Cursor(start: int, seen: seq<Row>): int {
    if seen == [] then start else seen[|seen| - 1].id
  }

  /** One request: the table as it stands then, and the page size asked for. */
  datatype Request = Request(table: seq<Row>, limit: int)

  /** All rows a client has seen after a run of requests, each from the last id seen; a refused one shows none. */
  function Collected(requests: seq<Request>, start: int): seq<Row> {
    if requests == [] then []
    else
      var k := |requests| - 1;
      var seen := Collected(requests[..k], start);
      seen + Shown(ReadingsSince(requests[k].table, Cursor(start, seen), requests[k].limit))
  }

  function Shown(r: Response<seq<Row>>): seq<Row> {
    if r.Ok? then r.body else []
  }

  /** The table only gains rows, and only with larger ids. */
  ghost predicate OnlyGrows(requests: seq<Request>) {
    && (forall i :: 0 <= i < |requests| ==> ById(requests[i].table))
    && (forall i, j :: 0 <= i <= j < |requests| ==> requests[i].table <= requests[j].table)
  }

  // ---- the rows after an id are a suffix of the table ----

  lemma {:induction false} AfterIsSuffix(table: seq<Row>, last: int)
    requires ById(table)
    ensures var rows := After(table, last); var k := |table| - |rows|;
      && rows == table[k..]
      && (forall i :: 0 <= i < k ==> table[i].id <= last)
      && (forall i :: k <= i < |table| ==> table[i].id > last)
  {
    if table != [] {
      AfterIsSuffix(table[1..], last);
      if table[0].id > last {
        AllAfter(table[1..], last);
      }
    }
  }

  lemma {:induction false} AllAfter(table: seq<Row>, last: int)
    requires forall i :: 0 <= i < |table| ==> table[i].id > last
    ensures After(table, last) == table
  {
    if table != [] {
      AllAfter(table[1..], last);
    }
  }

  /** Where the rows with larger ids begin. */
  lemma AfterFrom(table: seq<Row>, last: int, c: nat)
    requires ById(table) && c <= |table|
    requires c > 0 ==> table[c - 1].id <= last
    requires c < |table| ==> table[c].id > last
    ensures After(table, last) == table[c..]
  {
    AfterIsSuffix(table, last);
    var k := |table| - |After(table, last)|;
    hide After;
    assert c == k;
  }

  lemma AfterOfPrefix(table: seq<Row>, grown: seq<Row>, last: int)
    requires table <= grown && ById(grown)
    ensures After(table, last) <= After(grown, last)
  {
    PrefixById(table, grown);
    AfterIsSuffix(table, last);
    var k := |table| - |After(table, last)|;
    hide After, ById;
    if k < |table| {
      assert grown[k] == table[k] && (k > 0 ==> grown[k - 1] == table[k - 1]);
      AfterFrom(grown, last, k);
    }
  }

  lemma PrefixById(table: seq<Row>, grown: seq<Row>)
    requires table <= grown && ById(grown)
    ensures ById(table)
  {
    assert forall i :: 0 <= i < |table| ==> table[i] == grown[i];
  }

  /** Asking from the m-th row on: what is left after the first m rows beyond the start. */
  lemma AfterTheSeen(table: seq<Row>, start: int, m: nat)
    requires ById(table) && m <= |After(table, start)|
    ensures After(table, Cursor(start, After(table, start)[..m])) == After(table, start)[m..]
  {
    AfterIsSuffix(table, start);
    var k := |table| - |After(table, start)|;
    hide After;
    if m > 0 {
      CursorOfSeen(table, start, k, m);
      AfterLarger(table, k + m);
      RestOfRest(table, k, m);
    }
  }

  lemma CursorOfSeen(table: seq<Row>, start: int, k: nat, m: nat)
    requires 0 < m && k + m <= |table|
    ensures Cursor(start, table[k..][..m]) == table[k + m - 1].id
  {
    assert table[k..][..m][m - 1] == table[k + m - 1];
  }

  lemma RestOfRest(table: seq<Row>, k: nat, m: nat)
    requires k + m <= |table|
    ensures table[k..][m..] == table[k + m..]
  {
  }

  lemma AfterLarger(table: seq<Row>, c: nat)
    requires ById(table) && 0 < c <= |table|
    ensures After(table, table[c - 1].id) == table[c..]
  {
    hide After;
    AfterFrom(table, table[c - 1].id, c);
  }

  /**
   * What one request answers: an error exactly when the limit is out of range, and otherwise the first
   * rows, `limit` of them or all there are, from where the ids exceed the last one seen.
   */
  lemma SinceAnswer(table: seq<Row>, last: int, limit: int, c: nat)
    requires ById(table) && c <= |table|
    requires (forall i :: 0 <= i < c ==> table[i].id <= last) && forall i :: c <= i < |table| ==> table[i].id > last
    ensures var r := ReadingsSince(table, last, limit);
      && (r == HttpError(400) <==> limit < 1 || limit > 1000)
      && (r.Ok? <==> 1 <= limit <= 1000)
      && (r.Ok? ==> r.body == table[c..if c + limit <= |table| then c + limit else |table|])
  {
    AfterFrom(table, last, c);
    hide After, ById;
    if 1 <= limit && c + limit <= |table| {
      assert table[c..][..limit] == table[c..c + limit];
    }
  }

  lemma PrefixContinues(all: seq<Row>, m: nat, n: nat)
    requires m + n <= |all|
    ensures all[..m] + all[m..][..n] == all[..m + n] <= all
  {
  }

  /** What one request adds to a gapless prefix of the rows after the start. */
  lemma OneRequestMore(table: seq<Row>, start: int, before: seq<Row>, limit: int)
    requires ById(table) && before <= After(table, start)
    ensures var all, r := After(table, start), ReadingsSince(table, Cursor(start, before), limit);
      && before + Shown(r) <= all
      && (r.Ok? && |r.body| < limit ==> before + Shown(r) == all)
  {
    var all, m := After(table, start), |before|;
    AfterTheSeen(table, start, m);
    assert all[..m] == before;
    hide After, Cursor;
    var shown := Shown(ReadingsSince(table, Cursor(start, before), limit));
    var rest := all[m..];
    assert shown == rest[..|shown|];
    hide ReadingsSince, Page;
    PrefixContinues(all, m, |shown|);
  }

  /**
   * Over any run of requests, with any page sizes and the table growing in between, the client has
   * seen a gapless prefix of the rows after its start, each once and in id order; and it has seen
   * all of them as soon as a page comes back short.
   */
  lemma {:induction false} CursorIsComplete(requests: seq<Request>, start: int)
    requires requests != [] && OnlyGrows(requests)
    ensures var k := |requests| - 1;
      var all, before := After(requests[k].table, start), Collected(requests[..k], start);
      var answer := ReadingsSince(requests[k].table, Cursor(start, before), requests[k].limit);
      && Collected(requests, start) <= all
      && (answer.Ok? && |answer.body| < requests[k].limit ==> Collected(requests, start) == all)
  {
    var k := |requests| - 1;
    var table, before := requests[k].table, Collected(requests[..k], start);
    GrowsBeforeLast(requests);
    hide After, Cursor, ReadingsSince, ById, OnlyGrows;
    if k > 0 {
      CursorIsComplete(requests[..k], start);
      AfterOfPrefix(requests[k - 1].table, table, start);
      assert before <= After(table, start);
    }
    OneRequestMore(table, start, before, requests[k].limit);
  }

  lemma GrowsBeforeLast(requests: seq<Request>)
    requires requests != [] && OnlyGrows(requests)
    ensures var k := |requests| - 1;
      && ById(requests[k].table) && OnlyGrows(requests[..k])
      && (k > 0 ==> requests[k - 1].table <= requests[k].table)
  {
  }

  /** Walking the pages of a table that does not change, until a page is empty. */
  function Walk(table: seq<Row>, start: int, limit: int): seq<Row>
    requires 1 <= limit <= 1000 && ById(table)
    decreases |After(table, start)|
  {
    var page := ReadingsSince(table, start, limit).body;
    if page == [] then []
    else
      AfterTheSeen(table, start, |page|);
      page + Walk(table, Cursor(start, page), limit)
  }

  /** The walk ends, having listed every row after the start once and in order. */
  lemma {:induction false} WalkListsAll(table: seq<Row>, start: int, limit: int)
    requires 1 <= limit <= 1000 && ById(table)
    ensures Walk(table, start, limit) == After(table, start)
    decreases |After(table, start)|
  {
    hide After, Cursor;
    var page, rows := ReadingsSince(table, start, limit).body, After(table, start);
    if page != [] {
      assert page == rows[..|page|];
      AfterTheSeen(table, start, |page|);
      WalkListsAll(table, Cursor(start, page), limit);
      assert rows == rows[..|page|] + rows[|page|..];
    }
  }

  // ---- the event stream ----

  /** The rows the stream's inner join keeps: those whose sensor exists. */
  function Joined(table: seq<Row>, known: set<int>): seq<Row> {
    if table == [] then []
    else (if table[0].sensor in known then [table[0]] else []) + Joined(table[1..], known)
  }

  lemma {:induction false} JoinedMembers(table: seq<Row>, known: set<int>)
    ensures forall r :: r in Joined(table, known) <==> r in table && r.sensor in known
  {
    if table != [] {
      JoinedMembers(table[1..], known);
      assert table == [table[0]] + table[1..];
    }
  }

  lemma {:induction false} JoinedById(table: seq<Row>, known: set<int>)
    requires ById(table)
    ensures ById(Joined(table, known))
    ensures forall r :: r in Joined(table, known) <==> r in table && r.sensor in known
  {
    JoinedMembers(table, known);
    if table != [] {
      RestIsLater(table);
      JoinedById(table[1..], known);
      hide ById;
      JoinedMembers(table[1..], known);
      var head := if table[0].sensor in known then [table[0]] else [];
      OneIsById(table[0]);
      SortedAppend(head, Joined(table[1..], known), table[0].id);
    }
  }

  lemma RestIsLater(table: seq<Row>)
    requires table != [] && ById(table)
    ensures ById(table[1..]) && forall r :: r in table[1..] ==> r.id > table[0].id
  {
  }

  lemma OneIsById(r: Row)
    ensures ById([r]) && ById([])
  {
  }

  /** One turn of the stream's endless loop: yields the new rows and moves the cursor to each in turn. */
  method StreamTurn(table: seq<Row>, known: set<int>, lastId: int) returns (yielded: seq<Row>, next: int)
    ensures yielded == After(Joined(table, known), lastId)
    ensures next == Cursor(lastId, yielded)
  {
    var newRows := After(Joined(table, known), lastId);
    yielded, next := [], lastId;
    for i := 0 to |newRows|
      invariant yielded == newRows[..i] && next == Cursor(lastId, yielded)
    {
      yielded := yielded + [newRows[i]];
      next := newRows[i].id;
    }
  }

  /** The table and the sensors as one turn of the stream finds them. */
  datatype Turn = Turn(table: seq<Row>, known: set<int>)

  /** What the stream has yielded after these turns, started at an id. */
  function Streamed(turns: seq<Turn>, start: int): seq<Row> {
    if turns == [] then []
    else
      var k := |turns| - 1;
      var seen := Streamed(turns[..k], start);
      seen + After(Joined(turns[k].table, turns[k].known), Cursor(start, seen))
  }

  /** The row can be read with its sensor in turn k. */
  ghost predicate Visible(turns: seq<Turn>, k: int, r: Row) {
    0 <= k < |turns| && r in turns[k].table && r.sensor in turns[k].known
  }

  /** The row is beyond the start, and in turn k it is visible for the first time, above every row visible before. */
  ghost predicate NewIn(turns: seq<Turn>, start: int, k: int, r: Row) {
    && Visible(turns, k, r) && r.id > start
    && forall j, x :: 0 <= j < k && Visible(turns, j, x) ==> x.id < r.id
  }

  ghost predicate TablesById(turns: seq<Turn>) {
    forall i :: 0 <= i < |turns| ==> ById(turns[i].table)
  }

  lemma SuffixById(rows: seq<Row>, k: nat)
    requires ById(rows) && k <= |rows|
    ensures ById(rows[k..])
  {
  }

  lemma SuffixHolds(rows: seq<Row>, k: nat, last: int, r: Row)
    requires k <= |rows|
    requires forall i :: 0 <= i < k ==> rows[i].id <= last
    requires forall i :: k <= i < |rows| ==> rows[i].id > last
    ensures r in rows[k..] <==> r in rows && r.id > last
  {
    if r in rows[k..] {
      var i :| 0 <= i < |rows[k..]| && rows[k..][i] == r;
      assert rows[k + i] == r;
    }
    if r in rows && r.id > last {
      var i :| 0 <= i < |rows| && rows[i] == r;
      assert rows[k..][i - k] == r;
    }
  }

  lemma AfterMembers(rows: seq<Row>, last: int)
    requires ById(rows)
    ensures ById(After(rows, last))
    ensures forall r :: r in After(rows, last) <==> r in rows && r.id > last
  {
    AfterIsSuffix(rows, last);
    var k := |rows| - |After(rows, last)|;
    SuffixById(rows, k);
    hide After, ById;
    forall r
      ensures r in rows[k..] <==> r in rows && r.id > last
    {
      SuffixHolds(rows, k, last, r);
    }
  }

  lemma CursorIsLast(seen: seq<Row>, start: int)
    requires ById(seen) && forall r :: r in seen ==> r.id > start
    ensures start <= Cursor(start, seen) && forall r :: r in seen ==> r.id <= Cursor(start, seen)
  {
    assert forall i :: 0 <= i < |seen| ==> seen[i] in seen;
  }

  lemma SortedAppend(seen: seq<Row>, page: seq<Row>, cursor: int)
    requires ById(seen) && ById(page)
    requires (forall r :: r in seen ==> r.id <= cursor) && forall r :: r in page ==> r.id > cursor
    ensures ById(seen + page)
  {
    assert forall i :: 0 <= i < |seen| ==> seen[i] in seen;
    assert forall i :: 0 <= i < |page| ==> page[i] in page;
  }

  /** One turn yields exactly the visible rows above the cursor, and moves the cursor to or above every visible one. */
  lemma TurnYields(seen: seq<Row>, rows: seq<Row>, start: int)
    requires ById(rows) && ById(seen) && forall r :: r in seen ==> r.id > start
    ensures var cursor := Cursor(start, seen); var now := seen + After(rows, cursor);
      && ById(now)
      && (forall r :: r in now <==> r in seen || (r in rows && r.id > cursor))
      && (forall r :: r in rows ==> r.id <= Cursor(start, now))
      && (Cursor(start, now) == cursor || exists r :: r in rows && Cursor(start, now) == r.id)
      && start <= cursor <= Cursor(start, now)
  {
    var cursor := Cursor(start, seen);
    var page := After(rows, cursor);
    AfterMembers(rows, cursor);
    CursorIsLast(seen, start);
    CursorIsLast(page, cursor);
    SortedAppend(seen, page, cursor);
    hide After, ById;
    if page == [] {
      assert seen + page == seen;
    } else {
      assert page[|page| - 1] in page;
      assert Cursor(start, seen + page) == Cursor(cursor, page);
    }
  }

  /** The cursor stands on the start or on a row that was visible, and no visible row is beyond it. */
  ghost predicate CursorCovers(turns: seq<Turn>, start: int, cursor: int) {
    && cursor >= start
    && (forall j, x :: Visible(turns, j, x) ==> x.id <= cursor)
    && (cursor == start || exists j, x :: Visible(turns, j, x) && x.id == cursor)
  }

  /** These are the rows a stream should have yielded after the turns, in this order. */
  ghost predicate Yields(turns: seq<Turn>, start: int, seen: seq<Row>) {
    && ById(seen) && CursorCovers(turns, start, Cursor(start, seen))
    && (forall r :: r in seen ==> r.id > start)
    && (forall r :: r in seen <==> exists k :: NewIn(turns, start, k, r))
  }

  /** One turn on what a stream has yielded, its page given by what it holds. */
  lemma PageKeeps(turns: seq<Turn>, start: int, seen: seq<Row>, now: seq<Row>)
    requires turns != [] && Yields(turns[..|turns| - 1], start, seen)
    requires var k, cursor, next := |turns| - 1, Cursor(start, seen), Cursor(start, now);
      && ById(now) && start <= cursor <= next
      && (forall r :: r in now <==> r in seen || (Visible(turns, k, r) && r.id > cursor))
      && (forall r :: Visible(turns, k, r) ==> r.id <= next)
      && (next == cursor || exists r :: Visible(turns, k, r) && r.id == next)
    ensures Yields(turns, start, now)
  {
    hide ById, Cursor, NewIn, CursorCovers, Visible;
    TurnExtends(turns, start, Cursor(start, seen), Cursor(start, now));
  }

  lemma TurnKeeps(turns: seq<Turn>, start: int, seen: seq<Row>)
    requires turns != [] && TablesById(turns) && Yields(turns[..|turns| - 1], start, seen)
    ensures var last := turns[|turns| - 1];
      Yields(turns, start, seen + After(Joined(last.table, last.known), Cursor(start, seen)))
  {
    hide ById, Joined, After, Cursor, NewIn, CursorCovers;
    var last := turns[|turns| - 1];
    var rows := Joined(last.table, last.known);
    JoinedById(last.table, last.known);
    TurnYields(seen, rows, start);
    var now := seen + After(rows, Cursor(start, seen));
    assert forall r :: r in rows <==> Visible(turns, |turns| - 1, r);
    hide Visible;
    PageKeeps(turns, start, seen, now);
  }

  /**
   * Over any turns, whatever is added to or deleted from the tables in between: the stream yields
   * each row at most once and in increasing id order, and it yields exactly those rows that, when
   * first visible, are above every row visible before.
   */
  lemma {:induction false} StreamYieldsExactly(turns: seq<Turn>, start: int)
    requires TablesById(turns)
    ensures ById(Streamed(turns, start)) && CursorCovers(turns, start, Cursor(start, Streamed(turns, start)))
    ensures forall r :: r in Streamed(turns, start) ==> r.id > start
    ensures forall r :: r in Streamed(turns, start) <==> exists k :: NewIn(turns, start, k, r)
  {
    if turns != [] {
      var before := turns[..|turns| - 1];
      StreamYieldsExactly(before, start);
      assert Yields(before, start, Streamed(before, start));
      TurnKeeps(turns, start, Streamed(before, start));
      assert Yields(turns, start, Streamed(turns, start)) by { hide Yields; }
      hide ById, CursorCovers, NewIn, TablesById;
    }
  }

  lemma TurnExtends(turns: seq<Turn>, start: int, cursor: int, next: int)
    requires turns != [] && CursorCovers(turns[..|turns| - 1], start, cursor) && cursor <= next
    requires var k := |turns| - 1;
      && (forall r :: Visible(turns, k, r) ==> r.id <= next)
      && (next == cursor || exists r :: Visible(turns, k, r) && r.id == next)
    ensures CursorCovers(turns, start, next)
    ensures var k := |turns| - 1; forall r ::
      (exists i :: NewIn(turns, start, i, r))
      <==> (exists i :: NewIn(turns[..k], start, i, r)) || (Visible(turns, k, r) && r.id > cursor)
  {
    var k := |turns| - 1;
    var before := turns[..k];
    assert forall j, x :: Visible(turns, j, x) <==> Visible(before, j, x) || (j == k && Visible(turns, k, x));
    forall i, r
      ensures NewIn(turns, start, i, r) <==> NewIn(before, start, i, r) || (i == k && Visible(turns, k, r) && r.id > cursor)
    {
    }
    assert forall r :: Visible(turns, k, r) && r.id > cursor ==> NewIn(turns, start, k, r);
  }

  lemma WithoutLast(a: seq<Row>)
    requires a != [] && ById(a)
    ensures ById(a[..|a| - 1])
    ensures forall r :: r in a[..|a| - 1] <==> r in a && r != a[|a| - 1]
    ensures a[|a| - 1] in a && forall r :: r in a ==> r.id <= a[|a| - 1].id
  {
    assert a == a[..|a| - 1] + [a[|a| - 1]];
  }

  lemma SameLast(a: seq<Row>, b: seq<Row>)
    requires a != [] && b != [] && ById(a) && ById(b) && forall r :: r in a <==> r in b
    ensures a[|a| - 1] == b[|b| - 1]
  {
    var m, n := |a| - 1, |b| - 1;
    assert a[m] in b && b[n] in a;
  }

  lemma EmptyTogether(a: seq<Row>, b: seq<Row>)
    requires forall r :: r in a <==> r in b
    ensures a == [] <==> b == []
  {
    assert a != [] ==> a[0] in b;
    assert b != [] ==> b[0] in a;
  }

  lemma {:induction false} SameRows(a: seq<Row>, b: seq<Row>)
    requires ById(a) && ById(b) && forall r :: r in a <==> r in b
    ensures a == b
  {
    EmptyTogether(a, b);
    if a != [] {
      var m, n := |a| - 1, |b| - 1;
      WithoutLast(a);
      WithoutLast(b);
      SameLast(a, b);
      hide ById;
      forall r
        ensures r in a[..m] <==> r in b[..n]
      {
        assert r in a[..m] <==> r in a && r != a[m];
        assert r in b[..n] <==> r in b && r != b[n];
      }
      SameRows(a[..m], b[..n]);
      assert a == a[..m] + [a[m]] && b == b[..n] + [b[n]];
    }
  }

  /** A row that becomes visible only after a row with a larger id was sent is skipped for good. */
  lemma LateSensorIsSkipped()
    ensures var table := [Row(1, 7), Row(2, 8)];
      var turns := [Turn(table, {8}), Turn(table, {7, 8})];
      Visible(turns, 1, Row(1, 7)) && Streamed(turns, 0) == [Row(2, 8)]
  {
    var table := [Row(1, 7), Row(2, 8)];
    var first, second := Turn(table, {8}), Turn(table, {7, 8});
    assert [first, second][..1] == [first] && [first][..0] == [];
    assert table[1..] == [Row(2, 8)] && [Row(2, 8)][1..] == [];
    assert Joined(table, {8}) == [Row(2, 8)] && Joined(table, {7, 8}) == table;
    assert After([Row(2, 8)], 0) == [Row(2, 8)] && After(table, 2) == [];
    assert Streamed([first], 0) == [Row(2, 8)];
    assert [first, second][1] == second;
  }

  /** The table only grows, and no row's sensor appears or disappears while the row is there. */
  ghost predicate TurnsOnlyGrow(turns: seq<Turn>) {
    && TablesById(turns)
    && (forall i, j :: 0 <= i <= j < |turns| ==> turns[i].table <= turns[j].table)
    && (forall i, j, r :: 0 <= i <= j < |turns| && r in turns[i].table ==>
          (r.sensor in turns[i].known <==> r.sensor in turns[j].known))
  }

  lemma NewIsVisible(turns: seq<Turn>, start: int, r: Row)
    requires turns != [] && TurnsOnlyGrow(turns)
    ensures (exists i :: NewIn(turns, start, i, r)) <==> Visible(turns, |turns| - 1, r) && r.id > start
  {
    var k := |turns| - 1;
    if i :| NewIn(turns, start, i, r) {
      assert turns[i].table <= turns[k].table;
    }
    if Visible(turns, k, r) && r.id > start {
      var i := FirstWith(turns, r);
      assert NewIn(turns, start, i, r);
    }
  }

  /**
   * On a table that only grows, and as long as no row's sensor appears or disappears while the row is
   * there, the stream has after each turn yielded every visible row beyond its start once, in id order.
   */
  lemma StreamIsComplete(turns: seq<Turn>, start: int)
    requires turns != [] && TurnsOnlyGrow(turns)
    ensures var last := turns[|turns| - 1];
      Streamed(turns, start) == After(Joined(last.table, last.known), start)
  {
    var last := turns[|turns| - 1];
    var rows := Joined(last.table, last.known);
    StreamYieldsExactly(turns, start);
    JoinedById(last.table, last.known);
    AfterMembers(rows, start);
    hide NewIn, TurnsOnlyGrow, Joined, After, ById, Streamed;
    forall r
      ensures r in Streamed(turns, start) <==> r in After(rows, start)
    {
      NewIsVisible(turns, start, r);
    }
    SameRows(Streamed(turns, start), After(rows, start));
  }

  /** The turn from which on a growing table holds the row; all rows before that turn have smaller ids. */
  lemma FirstWith(turns: seq<Turn>, r: Row) returns (i: nat)
    requires turns != [] && r in turns[|turns| - 1].table && TurnsOnlyGrow(turns)
    ensures i < |turns| && r in turns[i].table
    ensures forall j, x :: 0 <= j < i && x in turns[j].table ==> x.id < r.id
  {
    i := |turns| - 1;
    while i > 0 && r in turns[i - 1].table
      invariant i < |turns| && r in turns[i].table
    {
      i := i - 1;
    }
    forall j, x | 0 <= j < i && x in turns[j].table
      ensures x.id < r.id
    {
      LaterIsLarger(turns[j].table, turns[i - 1].table, turns[i].table, x, r);
    }
  }

  /** A row that a growing table did not hold yet has a larger id than every row before. */
  lemma LaterIsLarger(first: seq<Row>, before: seq<Row>, table: seq<Row>, x: Row, r: Row)
    requires first <= before <= table && ById(table)
    requires x in first && r in table && r !in before
    ensures x.id < r.id
  {
    var m :| 0 <= m < |first| && first[m] == x;
    var n :| 0 <= n < |table| && table[n] == r;
    assert table[m] == x;
    assert forall q :: 0 <= q < |before| ==> before[q] in before && before[q] == table[q];
    assert m < |before| <= n;
  }
}
