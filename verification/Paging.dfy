/** Keyset pagination of the session catalog (`list_page`, src/synapse/acp/lifecycle.py:331-358): the table may
    change arbitrarily between two pages, and the only thing carried over is the opaque cursor. */
module Paging {
  import opened Wrappers
  import opened Ordering
  import opened CursorCodec

  const PAGE_SIZE: nat := 50

  /** One row of `acp_sessions`; `details` stands for the columns that are written once and only handed back. */
  datatype Row = Row(updatedAt: string, cwd: string, title: Option<string>, details: string)

  type Table = map<string, Row>

  /** `(updated_at, session_id)` */
  type Key = (string, string)

  ghost predicate KeyLess(a: Key, b: Key) {
    TextLess(a.0, b.0) || (a.0 == b.0 && TextLess(a.1, b.1))
  }

  lemma KeyOrder()
    ensures IsOrder(KeyLess)
  {
    forall a: Key
      ensures !KeyLess(a, a)
    {
      TextIrreflexive(a.0);
      TextIrreflexive(a.1);
    }
    forall a: Key, b: Key, c: Key | KeyLess(a, b) && KeyLess(b, c)
      ensures KeyLess(a, c)
    {
      if TextLess(a.0, b.0) && TextLess(b.0, c.0) { TextTransitive(a.0, b.0, c.0); }
      if TextLess(a.1, b.1) && TextLess(b.1, c.1) { TextTransitive(a.1, b.1, c.1); }
    }
    forall a: Key, b: Key
      ensures a == b || KeyLess(a, b) || KeyLess(b, a)
    {
      TextTotal(a.0, b.0);
      TextTotal(a.1, b.1);
    }
  }

  ghost predicate Selected(table: Table, cwd: Option<string>, marker: Option<Key>, id: string) {
    && id in table
    && (cwd.Some? ==> table[id].cwd == cwd.value)
    && (marker.Some? ==> KeyLess((table[id].updatedAt, id), marker.value))
  }

  /** The rows the `WHERE` clause lets through. */
  ghost function Matching(table: Table, cwd: Option<string>, marker: Option<Key>): set<Key> {
    set id | id in table && Selected(table, cwd, marker, id) :: (table[id].updatedAt, id)
  }

  function Min(a: int, b: int): int {
    if a <= b then a else b
  }

  /** `max(1, min(int(limit), _PAGE_SIZE))` */
  function Clamp(limit: int): nat {
    if limit < 1 then 1 else Min(limit, PAGE_SIZE)
  }

  datatype Page = Page(items: seq<Key>, next: Option<string>)

  /** `LIMIT limit + 1`, the cut at the page size and the cursor to the next page. */
  function CutPage(all: seq<Key>, limit: int): Page {
    var rows := all[..Min(Clamp(limit) + 1, |all|)];
    var items := rows[..Min(PAGE_SIZE, |rows|)];
    Page(items,
         if |rows| > PAGE_SIZE then Some(EncodeCursor(items[|items| - 1].0, items[|items| - 1].1)) else None)
  }

  /** `list_page` */
  ghost function ListPage(table: Table, cwd: Option<string>, cursor: Option<string>, limit: int): Page {
    KeyOrder();
    CutPage(Descending(KeyLess, Matching(table, cwd, DecodeCursor(cursor))), limit)
  }

  /** All pages from a cursor on, one table per call, and whether the last call said there is no more. */
  ghost function Walk(tables: seq<Table>, cwd: Option<string>, cursor: Option<string>): (seq<Key>, bool) {
    if tables == [] then ([], false)
    else
      var page := ListPage(tables[0], cwd, cursor, PAGE_SIZE);
      if page.next.None? then (page.items, true)
      else
        var (rest, done) := Walk(tables[1..], cwd, page.next);
        (page.items + rest, done)
  }

  // ---------------------------------------------------------------------------------------------

  lemma KeyTransitive(a: Key, b: Key, c: Key)
    requires KeyLess(a, b) && KeyLess(b, c)
    ensures KeyLess(a, c)
  {
    if TextLess(a.0, b.0) && TextLess(b.0, c.0) { TextTransitive(a.0, b.0, c.0); }
    if TextLess(a.1, b.1) && TextLess(b.1, c.1) { TextTransitive(a.1, b.1, c.1); }
  }

  /** The sorted rows a default-size page is cut from. */
  lemma PageRows(table: Table, cwd: Option<string>, cursor: Option<string>) returns (list: seq<Key>)
    ensures IsDescending(KeyLess, list)
    ensures forall k :: k in list <==> k in Matching(table, cwd, DecodeCursor(cursor))
    ensures var page := ListPage(table, cwd, cursor, PAGE_SIZE);
            && page.items == list[..Min(PAGE_SIZE, |list|)]
            && (page.next.Some? <==> |list| > PAGE_SIZE)
            && (page.next.Some? ==> page.next == Some(EncodeCursor(list[PAGE_SIZE - 1].0, list[PAGE_SIZE - 1].1)))
  {
    KeyOrder();
    list := Descending(KeyLess, Matching(table, cwd, DecodeCursor(cursor)));
    DescendingSorts(KeyLess, Matching(table, cwd, DecodeCursor(cursor)));
    PageCut(list);
  }

  lemma PageCut(list: seq<Key>)
    ensures var page := CutPage(list, PAGE_SIZE);
            && page.items == list[..Min(PAGE_SIZE, |list|)]
            && (page.next.Some? <==> |list| > PAGE_SIZE)
            && (page.next.Some? ==> page.next == Some(EncodeCursor(list[PAGE_SIZE - 1].0, list[PAGE_SIZE - 1].1)))
  {
    var rows := list[..Min(PAGE_SIZE + 1, |list|)];
    var items := rows[..Min(PAGE_SIZE, |rows|)];
    assert items == list[..Min(PAGE_SIZE, |list|)];
    assert |list| > PAGE_SIZE ==> items[|items| - 1] == list[PAGE_SIZE - 1];
  }

  // In terms of the table's columns

  /** The key is a row of the table, with the directory asked for if there is one. */
  ghost predicate IsRow(table: Table, cwd: Option<string>, k: Key) {
    k.1 in table && table[k.1].updatedAt == k.0 && (cwd.Some? ==> table[k.1].cwd == cwd.value)
  }

  /** Older, or as old and with the smaller id. */
  ghost predicate IsOlder(a: Key, b: Key) {
    ComesBefore(a.0, b.0) || (a.0 == b.0 && ComesBefore(a.1, b.1))
  }

  ghost predicate IsDue(table: Table, cwd: Option<string>, cursor: Option<string>, k: Key) {
    IsRow(table, cwd, k) && (DecodeCursor(cursor).Some? ==> IsOlder(k, DecodeCursor(cursor).value))
  }

  ghost predicate GoesBack(items: seq<Key>) {
    forall i, j :: 0 <= i < j < |items| ==> IsOlder(items[j], items[i])
  }

  lemma KeyLessIff(a: Key, b: Key)
    ensures KeyLess(a, b) <==> IsOlder(a, b)
  {
    TextLessIff(a.0, b.0);
    TextLessIff(a.1, b.1);
  }

  lemma MatchingIff(table: Table, cwd: Option<string>, cursor: Option<string>)
    ensures forall k :: k in Matching(table, cwd, DecodeCursor(cursor)) <==> IsDue(table, cwd, cursor, k)
  {
    var marker := DecodeCursor(cursor);
    forall k: Key
      ensures k in Matching(table, cwd, marker) <==> IsDue(table, cwd, cursor, k)
    {
      if marker.Some? { KeyLessIff(k, marker.value); }
      if k in Matching(table, cwd, marker) {
        assert Selected(table, cwd, marker, k.1);
      } else if IsDue(table, cwd, cursor, k) {
        assert Selected(table, cwd, marker, k.1);
      }
    }
  }

  lemma DescendingGoesBack(list: seq<Key>)
    requires IsDescending(KeyLess, list)
    ensures GoesBack(list)
  {
    forall i, j | 0 <= i < j < |list|
      ensures IsOlder(list[j], list[i])
    {
      KeyLessIff(list[j], list[i]);
    }
  }

  /** A page of any size: at most 50 rows of the table, with the directory asked for, older than the cursor, newest
      first. */
  lemma {:induction false} PageListsRows(table: Table, cwd: Option<string>, cursor: Option<string>, limit: int)
    ensures var items := ListPage(table, cwd, cursor, limit).items;
            |items| <= 50 && GoesBack(items) && forall k :: k in items ==> IsDue(table, cwd, cursor, k)
  {
    KeyOrder();
    var all := Matching(table, cwd, DecodeCursor(cursor));
    var list := Descending(KeyLess, all);
    DescendingSorts(KeyLess, all);
    MatchingIff(table, cwd, cursor);
    var items := ListPage(table, cwd, cursor, limit).items;
    PageIsPrefix(list, limit);
    forall k | k in items
      ensures IsDue(table, cwd, cursor, k)
    {
      assert k in list && k in all;
    }
    DescendingGoesBack(items);
  }

  lemma PageIsPrefix(list: seq<Key>, limit: int)
    ensures var items := CutPage(list, limit).items; |items| <= PAGE_SIZE && items <= list
  {
  }

  /** A default page lists every due row, or the 50 newest of them and a cursor to the rest. */
  lemma {:induction false} PageCovers(table: Table, cwd: Option<string>, cursor: Option<string>, k: Key)
    requires IsDue(table, cwd, cursor, k)
    ensures var page := ListPage(table, cwd, cursor, 50);
            if page.next.None? then k in page.items
            else |page.items| == 50 && (k in page.items <==> !IsDue(table, cwd, page.next, k))
  {
    PageSpec(table, cwd, cursor);
    MatchingIff(table, cwd, cursor);
    var page := ListPage(table, cwd, cursor, 50);
    if page.next.Some? {
      var last := page.items[49];
      KeyLessIff(k, last);
      KeyOrder();
      if k in page.items {
        var i :| 0 <= i < 50 && page.items[i] == k;
        if i < 49 { assert KeyLess(last, k); }
      }
    }
  }

  /** A limit above the page size is the page size. */
  lemma {:induction false} LargeLimitIsDefault(table: Table, cwd: Option<string>, cursor: Option<string>, limit: int)
    requires limit >= 50
    ensures ListPage(table, cwd, cursor, limit) == ListPage(table, cwd, cursor, 50)
  {
  }

  /** Every session a walk lists was in the table its page was read from, with that timestamp and directory. */
  lemma {:induction false} WalkListsRows(tables: seq<Table>, cwd: Option<string>, cursor: Option<string>, k: Key)
    ensures k in Walk(tables, cwd, cursor).0 ==> exists i :: 0 <= i < |tables| && IsRow(tables[i], cwd, k)
  {
    if tables != [] {
      var page := ListPage(tables[0], cwd, cursor, PAGE_SIZE);
      WalkUnfolds(tables, cwd, cursor, page);
      if k in page.items {
        PageListsRows(tables[0], cwd, cursor, PAGE_SIZE);
        assert IsDue(tables[0], cwd, cursor, k);
      } else if page.next.Some? {
        WalkListsRows(tables[1..], cwd, page.next, k);
        if i :| 0 <= i < |tables| - 1 && IsRow(tables[1..][i], cwd, k) { assert tables[i + 1] == tables[1..][i]; }
      }
    }
  }

  /** One default-size page: in order, all below the cursor, and nothing between its items is left out. */
  lemma {:induction false} PageSpec(table: Table, cwd: Option<string>, cursor: Option<string>)
    ensures var all := Matching(table, cwd, DecodeCursor(cursor));
            var page := ListPage(table, cwd, cursor, PAGE_SIZE);
            && IsDescending(KeyLess, page.items)
            && (forall k :: k in page.items ==> k in all)
            && (page.next.None? ==> forall k :: k in all ==> k in page.items)
            && (page.next.Some? ==>
                  && |page.items| == PAGE_SIZE
                  && DecodeCursor(page.next) == Some(page.items[PAGE_SIZE - 1])
                  && forall k :: k in all ==> k in page.items || KeyLess(k, page.items[PAGE_SIZE - 1]))
  {
    var list := PageRows(table, cwd, cursor);
    var n := Min(PAGE_SIZE, |list|);
    if |list| > PAGE_SIZE { CursorRoundTrip(list[PAGE_SIZE - 1].0, list[PAGE_SIZE - 1].1); }
    forall k | k in list
      ensures k in list[..n] || (n < |list| && KeyLess(k, list[n - 1]))
    {
      var i :| 0 <= i < |list| && list[i] == k;
      if i < n { assert list[..n][i] == k; }
    }
  }

  /** Strictly descending, and below the bound if there is one. */
  ghost predicate DescendsBelow(list: seq<Key>, bound: Option<Key>) {
    IsDescending(KeyLess, list) && (bound.Some? ==> forall k :: k in list ==> KeyLess(k, bound.value))
  }

  lemma PageBelow(table: Table, cwd: Option<string>, cursor: Option<string>)
    ensures var page := ListPage(table, cwd, cursor, PAGE_SIZE);
            && DescendsBelow(page.items, DecodeCursor(cursor))
            && (page.next.Some? ==> page.items != [] && DecodeCursor(page.next) == Some(page.items[|page.items| - 1]))
  {
    PageSpec(table, cwd, cursor);
    MatchingBelow(table, cwd, DecodeCursor(cursor));
  }

  lemma MatchingBelow(table: Table, cwd: Option<string>, marker: Option<Key>)
    ensures marker.Some? ==> forall k :: k in Matching(table, cwd, marker) ==> KeyLess(k, marker.value)
  {
  }

  /** Every page walk is strictly descending, below its cursor. */
  lemma {:induction false} WalkDescends(tables: seq<Table>, cwd: Option<string>, cursor: Option<string>)
    ensures DescendsBelow(Walk(tables, cwd, cursor).0, DecodeCursor(cursor))
  {
    if tables != [] {
      var next := ListPage(tables[0], cwd, cursor, PAGE_SIZE).next;
      if next.Some? { WalkDescends(tables[1..], cwd, next); }
      PageThenRest(tables, cwd, cursor, ListPage(tables[0], cwd, cursor, PAGE_SIZE));
    }
  }

  lemma PageThenRest(tables: seq<Table>, cwd: Option<string>, cursor: Option<string>, page: Page)
    requires tables != [] && page == ListPage(tables[0], cwd, cursor, PAGE_SIZE)
    requires page.next.Some? ==> DescendsBelow(Walk(tables[1..], cwd, page.next).0, DecodeCursor(page.next))
    ensures DescendsBelow(Walk(tables, cwd, cursor).0, DecodeCursor(cursor))
  {
    WalkUnfolds(tables, cwd, cursor, page);
    PageBelow(tables[0], cwd, cursor);
    if page.next.Some? {
      BelowPage(page.items, Walk(tables[1..], cwd, page.next).0, DecodeCursor(cursor));
    }
  }

  lemma WalkUnfolds(tables: seq<Table>, cwd: Option<string>, cursor: Option<string>, page: Page)
    requires tables != [] && page == ListPage(tables[0], cwd, cursor, PAGE_SIZE)
    ensures Walk(tables, cwd, cursor).0 ==
              if page.next.None? then page.items else page.items + Walk(tables[1..], cwd, page.next).0
  {
  }

  /** Two descending lists, the second below the last of the first, make one. */
  lemma BelowPage(items: seq<Key>, rest: seq<Key>, bound: Option<Key>)
    requires items != [] && DescendsBelow(items, bound) && DescendsBelow(rest, Some(items[|items| - 1]))
    ensures DescendsBelow(items + rest, bound)
  {
    var last := items[|items| - 1];
    forall k, i | k in rest && 0 <= i < |items|
      ensures KeyLess(k, items[i])
    {
      if i < |items| - 1 { KeyTransitive(k, last, items[i]); }
    }
    if bound.Some? {
      forall k | k in rest
        ensures KeyLess(k, bound.value)
      {
        assert last in items;
        KeyTransitive(k, last, bound.value);
      }
    }
    forall i, j | 0 <= i < j < |items + rest|
      ensures KeyLess((items + rest)[j], (items + rest)[i])
    {
      if j >= |items| { assert rest[j - |items|] in rest; }
    }
  }

  /** The session is in every table with the same timestamp, and passes the filter. */
  ghost predicate Untouched(tables: seq<Table>, cwd: Option<string>, id: string, updatedAt: string) {
    forall i :: 0 <= i < |tables| ==>
      id in tables[i] && tables[i][id].updatedAt == updatedAt && (cwd.Some? ==> tables[i][id].cwd == cwd.value)
  }

  lemma {:induction false} WalkCovers(tables: seq<Table>, cwd: Option<string>, cursor: Option<string>,
                                       id: string, updatedAt: string)
    requires Untouched(tables, cwd, id, updatedAt)
    requires DecodeCursor(cursor).Some? ==> KeyLess((updatedAt, id), DecodeCursor(cursor).value)
    ensures Walk(tables, cwd, cursor).1 ==> (updatedAt, id) in Walk(tables, cwd, cursor).0
  {
    if tables == [] { return; }
    PageSpec(tables[0], cwd, cursor);
    var page := ListPage(tables[0], cwd, cursor, PAGE_SIZE);
    assert Selected(tables[0], cwd, DecodeCursor(cursor), id);
    assert (updatedAt, id) in Matching(tables[0], cwd, DecodeCursor(cursor));
    if page.next.Some? && (updatedAt, id) !in page.items {
      WalkCovers(tables[1..], cwd, page.next, id, updatedAt);
    }
  }

  /** An untouched session is never listed under another timestamp. */
  lemma {:induction false} WalkOneStamp(tables: seq<Table>, cwd: Option<string>, cursor: Option<string>,
                                        id: string, updatedAt: string)
    requires Untouched(tables, cwd, id, updatedAt)
    ensures forall k :: k in Walk(tables, cwd, cursor).0 && k.1 == id ==> k.0 == updatedAt
  {
    if tables != [] {
      PageSpec(tables[0], cwd, cursor);
      MatchingStamp(tables[0], cwd, DecodeCursor(cursor), id);
      var page := ListPage(tables[0], cwd, cursor, PAGE_SIZE);
      WalkUnfolds(tables, cwd, cursor, page);
      if page.next.Some? { WalkOneStamp(tables[1..], cwd, page.next, id, updatedAt); }
    }
  }

  lemma MatchingStamp(table: Table, cwd: Option<string>, marker: Option<Key>, id: string)
    requires id in table
    ensures forall k :: k in Matching(table, cwd, marker) && k.1 == id ==> k.0 == table[id].updatedAt
  {
  }

  // ---------------------------------------------------------------------------------------------
  // Main results

  /** Following cursors from the first page until there is none, with any changes to other sessions between the
      pages, lists every untouched session exactly once, and all sessions in strictly descending order. */
  lemma {:induction false} WalkListsUntouchedOnce(tables: seq<Table>, cwd: Option<string>, id: string,
                                                  updatedAt: string)
    requires Untouched(tables, cwd, id, updatedAt)
    ensures var (list, finished) := Walk(tables, cwd, None);
            && IsDescending(KeyLess, list)
            && (finished ==> multiset(list)[(updatedAt, id)] == 1)
            && forall k :: k in list && k.1 == id ==> k.0 == updatedAt
  {
    WalkDescends(tables, cwd, None);
    WalkOneStamp(tables, cwd, None, id, updatedAt);
    WalkCovers(tables, cwd, None, id, updatedAt);
    KeyOrder();
    if Walk(tables, cwd, None).1 { DescendingOnce(Walk(tables, cwd, None).0, (updatedAt, id)); }
  }

  lemma {:induction false} DescendingOnce(list: seq<Key>, k: Key)
    requires IsOrder(KeyLess) && IsDescending(KeyLess, list) && k in list
    ensures multiset(list)[k] == 1
  {
    var i :| 0 <= i < |list| && list[i] == k;
    assert list == list[..i] + [k] + list[i + 1..];
    assert k !in list[..i] && k !in list[i + 1..];
    assert multiset(list) == multiset(list[..i]) + multiset{k} + multiset(list[i + 1..]);
  }

  /** With a limit below the default the query fetches one row more than asked, returns it as well, and never
      gives a cursor: rows are lost exactly when more than `limit + 1` of them match. */
  lemma {:induction false} SmallLimitLosesRowsIff(table: Table, cwd: Option<string>, cursor: Option<string>, limit: int)
    requires limit < 50
    ensures var asked := if limit < 1 then 1 else limit;
            var n := |Matching(table, cwd, DecodeCursor(cursor))|;
            var page := ListPage(table, cwd, cursor, limit);
            && page.next.None?
            && |page.items| == Min(n, asked + 1)
            && ((exists k :: IsDue(table, cwd, cursor, k) && k !in page.items) <==> n > asked + 1)
  {
    KeyOrder();
    var all := Matching(table, cwd, DecodeCursor(cursor));
    var list := Descending(KeyLess, all);
    DescendingSorts(KeyLess, all);
    var page := ListPage(table, cwd, cursor, limit);
    assert page.items == list[..|page.items|];
    MatchingIff(table, cwd, cursor);
    if |all| > Clamp(limit) + 1 {
      var k := list[Clamp(limit) + 1];
      assert k in list && k !in page.items;
    } else {
      assert page.items == list;
    }
  }

  const THREE_SESSIONS: Table := map["a" := Row("1", "d", None, ""), "b" := Row("2", "d", None, ""),
                                     "c" := Row("3", "d", None, "")]

  /** Three sessions and a limit of 1: two are listed, there is no cursor, and the oldest is never seen. */
  lemma {:induction false} SmallLimitLosesOldest()
    ensures var page := ListPage(THREE_SESSIONS, None, None, 1);
            page.next.None? && |page.items| == 2 && ("1", "a") !in page.items
  {
    var all := ThreeKeys();
    SmallLimitLosesRowsIff(THREE_SESSIONS, None, None, 1);
    KeyOrder();
    var list := Descending(KeyLess, all);
    DescendingSorts(KeyLess, all);
    LeastIsLast(list, ("1", "a"));
    PageCutShort(list);
  }

  lemma ThreeKeys() returns (all: set<Key>)
    ensures all == Matching(THREE_SESSIONS, None, None) == {("1", "a"), ("2", "b"), ("3", "c")} && |all| == 3
    ensures forall k :: k in all ==> !KeyLess(k, ("1", "a"))
  {
    var table := THREE_SESSIONS;
    all := Matching(table, None, None);
    assert Selected(table, None, None, "a") && Selected(table, None, None, "b") && Selected(table, None, None, "c");
    assert (table["a"].updatedAt, "a") in all && (table["b"].updatedAt, "b") in all;
    assert (table["c"].updatedAt, "c") in all;
    forall k | k in all
      ensures k in {("1", "a"), ("2", "b"), ("3", "c")}
    {
    }
    TextIrreflexive("1");
    TextIrreflexive("a");
  }

  lemma PageCutShort(list: seq<Key>)
    requires |list| == 3
    ensures CutPage(list, 1).items == list[..2]
  {
    assert list[..2][..2] == list[..2];
  }

  /** The least of three comes third. */
  lemma LeastIsLast(list: seq<Key>, least: Key)
    requires IsDescending(KeyLess, list) && |list| == 3 && least in list
    requires forall k :: k in list ==> !KeyLess(k, least)
    ensures least !in list[..2]
  {
    forall i | 0 <= i < 2
      ensures list[i] != least
    {
      assert list[i + 1] in list && KeyLess(list[i + 1], list[i]);
    }
  }
}
