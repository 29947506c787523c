/**
 * Cursor pagination over (createdAt desc, id desc), what following the cursors returns, and exactly which
 * lists sorted by another column it still returns whole.
 */
module Pagination {
  import opened Options
  import opened Text
  import opened Keyset

  /** `createdAt` in milliseconds, and the row id. */
  datatype Position = Position(createdAt: int, id: string)

  /** A cursor as the client sends it: opaque text that may not decode. */
  datatype Cursor = Missing | Malformed | Encoded(at: Position)

  /** `KEYSET_ORDER`: newest first, ids descending within a timestamp. */
  predicate Newer(a: Position, b: Position) {
    a.createdAt > b.createdAt || (a.createdAt == b.createdAt && Less(b.id, a.id))
  }

  const ORDER: (Position, Position) -> bool := (a, b) => Newer(a, b)

  lemma NewerIsStrictOrder()
    ensures StrictOrder(ORDER)
  {
    forall a: Position
      ensures !Newer(a, a)
    {
      LessIsIrreflexive(a.id);
    }
    forall a: Position, b: Position, c: Position | Newer(a, b) && Newer(b, c)
      ensures Newer(a, c)
    {
      if a.createdAt == b.createdAt == c.createdAt {
        LessIsTransitive(c.id, b.id, a.id);
      }
    }
    forall a: Position, b: Position
      ensures a == b || Newer(a, b) || Newer(b, a)
    {
      LessIsTotal(a.id, b.id);
    }
  }

  /** `keysetWhere`: a missing or malformed cursor selects from the start. */
  function Resume(cursor: Cursor): Option<Position> {
    match cursor
    case Encoded(at) => Some(at)
    case _ => None
  }

  /** The where-fragment itself: strictly older, or equally old with a smaller id. */
  predicate Selected(cursor: Option<Position>, p: Position) {
    cursor.None?
    || p.createdAt < cursor.value.createdAt
    || (p.createdAt == cursor.value.createdAt && Less(p.id, cursor.value.id))
  }

  lemma SelectedIsPast(cursor: Option<Position>, p: Position)
    ensures Selected(cursor, p) <==> Past(cursor, p, ORDER)
  {
  }

  datatype ListResult<R> = ListResult(data: seq<Entry<Position, R>>, next: Option<Position>, hasMore: bool)

  /** `toListResult` on the `limit + 1` rows fetched. */
  function ToListResult<R>(rows: seq<Entry<Position, R>>, limit: nat): ListResult<R> {
    var hasMore := |rows| > limit;
    var page := if hasMore then rows[..limit] else rows;
    ListResult(page, if hasMore && page != [] then Some(page[|page| - 1].key) else None, hasMore)
  }

  function FetchPage<R>(table: seq<Entry<Position, R>>, cursor: Cursor, limit: nat): ListResult<R> {
    ToListResult(Page(table, Resume(cursor), limit + 1, ORDER), limit)
  }

  /** The next cursor is a row of the page, so less is left after it, whatever the rows are sorted by. */
  lemma CursorMovesOn<R>(table: seq<Entry<Position, R>>, cursor: Cursor, limit: nat)
    requires limit >= 1 && FetchPage(table, cursor, limit).next.Some?
    ensures var all, next := After(table, Resume(cursor), ORDER), FetchPage(table, cursor, limit).next;
            && |all| > limit && FetchPage(table, cursor, limit).data == all[..limit] && next == Some(all[limit - 1].key)
            && After(table, next, ORDER) == After(all, next, ORDER) && |After(all, next, ORDER)| < |all|
  {
    NewerIsStrictOrder();
    FetchIsPage(table, cursor, limit);
    var all := After(table, Resume(cursor), ORDER);
    AfterIsPast(table, Resume(cursor), ORDER);
    AfterAgain(table, Resume(cursor), all[limit - 1].key, ORDER);
    AfterDropsTheCursor(all, limit - 1, ORDER);
  }

  /**
   * A client following `next` until it is null, the table changing between requests. Each table is listed
   * in the order of the query, which need not be the order of the cursor.
   */
  ghost function Follow<R>(tables: seq<seq<Entry<Position, R>>>, i: nat, cursor: Cursor, limit: nat): seq<Entry<Position, R>>
    requires limit >= 1 && tables != []
    decreases if i < |tables| then |tables| - i else 0, |After(At(tables, i), Resume(cursor), ORDER)|
  {
    var result := FetchPage(At(tables, i), cursor, limit);
    if result.next.None? then result.data
    else
      CursorMovesOn(At(tables, i), cursor, limit);
      result.data + Follow(tables, i + 1, Encoded(result.next.value), limit)
  }

  lemma NextPageIsShorter<R>(table: seq<Entry<Position, R>>, cursor: Cursor, limit: nat)
    requires limit >= 1 && Ascending(table, ORDER) && FetchPage(table, cursor, limit).next.Some?
    ensures var rest := After(table, Resume(cursor), ORDER);
            && |rest| > limit
            && FetchPage(table, cursor, limit).data == rest[..limit]
            && After(table, FetchPage(table, cursor, limit).next, ORDER) == rest[limit..]
  {
    NewerIsStrictOrder();
    AfterLastTaken(table, Resume(cursor), limit, ORDER);
    var rest := After(table, Resume(cursor), ORDER);
    assert Take(rest, limit + 1)[..limit] == rest[..limit];
  }

  /** The page a client sees is a page query of `limit` rows, and it is the last one exactly when nothing is left over. */
  lemma FetchIsPage<R>(table: seq<Entry<Position, R>>, cursor: Cursor, limit: nat)
    requires limit >= 1
    ensures var all := After(table, Resume(cursor), ORDER);
            && FetchPage(table, cursor, limit).data == Page(table, Resume(cursor), limit, ORDER)
            && (FetchPage(table, cursor, limit).next.None? <==> |all| <= limit)
            && (FetchPage(table, cursor, limit).hasMore <==> |all| > limit)
            && (|all| > limit ==> FetchPage(table, cursor, limit).next == Some(all[limit - 1].key))
  {
    var all := After(table, Resume(cursor), ORDER);
    if |all| > limit {
      assert Take(all, limit + 1)[..limit] == all[..limit];
    }
  }

  lemma LastFetchCompletes<R>(tables: seq<seq<Entry<Position, R>>>, i: nat, cursor: Cursor, limit: nat)
    requires limit >= 1 && AllAscending(tables, ORDER) && FetchPage(At(tables, i), cursor, limit).next.None?
    ensures Complete(FetchPage(At(tables, i), cursor, limit).data, tables, i, Resume(cursor), ORDER)
  {
    FetchIsPage(At(tables, i), cursor, limit);
    LastPageCompletes(tables, i, Resume(cursor), limit, ORDER);
  }

  lemma FetchThenRest<R>(tables: seq<seq<Entry<Position, R>>>, i: nat, cursor: Cursor, limit: nat,
                         rest: seq<Entry<Position, R>>)
    requires limit >= 1 && AllAscending(tables, ORDER) && FetchPage(At(tables, i), cursor, limit).next.Some?
    requires Complete(rest, tables, i + 1, FetchPage(At(tables, i), cursor, limit).next, ORDER)
    ensures Complete(FetchPage(At(tables, i), cursor, limit).data + rest, tables, i, Resume(cursor), ORDER)
  {
    NewerIsStrictOrder();
    FetchIsPage(At(tables, i), cursor, limit);
    PageThenRest(tables, i, Resume(cursor), limit, rest, ORDER);
  }

  /**
   * Following the cursors under concurrent changes: newest first, no row twice, only rows that
   * were really there, and every row present throughout.
   */
  lemma {:induction false} FollowIsComplete<R>(tables: seq<seq<Entry<Position, R>>>, i: nat, cursor: Cursor, limit: nat)
    requires limit >= 1 && AllAscending(tables, ORDER)
    ensures Complete(Follow(tables, i, cursor, limit), tables, i, Resume(cursor), ORDER)
    decreases if i < |tables| then |tables| - i else 0, |After(At(tables, i), Resume(cursor), ORDER)|
  {
    if FetchPage(At(tables, i), cursor, limit).next.None? {
      LastFetchCompletes(tables, i, cursor, limit);
    } else {
      var next := Encoded(FetchPage(At(tables, i), cursor, limit).next.value);
      assert Ascending(At(tables, i), ORDER);
      NextPageIsShorter(At(tables, i), cursor, limit);
      FollowIsComplete(tables, i + 1, next, limit);
      FetchThenRest(tables, i, cursor, limit, Follow(tables, i + 1, next, limit));
    }
  }

  /** With no concurrent change the walk returns exactly the rows after the cursor, in order. */
  lemma {:induction false} FollowUnchangedFrom<R>(table: seq<Entry<Position, R>>, i: nat, cursor: Cursor, limit: nat)
    requires limit >= 1 && AllAscending([table], ORDER)
    ensures Follow([table], i, cursor, limit) == After(table, Resume(cursor), ORDER)
    decreases if i < 1 then 1 - i else 0, |After(table, Resume(cursor), ORDER)|
  {
    assert At([table], i) == table && Ascending(At([table], i), ORDER);
    FetchIsPage(table, cursor, limit);
    var all := After(table, Resume(cursor), ORDER);
    var result := FetchPage(table, cursor, limit);
    if result.next.Some? {
      NextPageIsShorter(table, cursor, limit);
      PrefixAndRest(all, limit);
      FollowUnchangedFrom(table, i + 1, Encoded(result.next.value), limit);
    }
  }

  /** From the first page on: the whole list, whatever the limit and however many rows share a timestamp. */
  lemma FollowReturnsWholeList<R>(table: seq<Entry<Position, R>>, first: Cursor, limit: nat)
    requires limit >= 1 && Ascending(table, ORDER) && !first.Encoded?
    ensures AllAscending([table], ORDER)
    ensures Follow([table], 0, first, limit) == table
  {
    FollowUnchangedFrom(table, 0, first, limit);
    AfterEverything(table, ORDER);
  }

  // ---- A list sorted by something else -----------------------------------------------------------

  ghost predicate DistinctKeys<R>(s: seq<Entry<Position, R>>) {
    forall i, j | 0 <= i < j < |s| :: s[i].key != s[j].key
  }

  /** Every row of the list, once. */
  ghost predicate WholeOnce<R>(walk: seq<Entry<Position, R>>, s: seq<Entry<Position, R>>) {
    multiset(walk) == multiset(s)
  }

  /** The rows of each page are newer than its last one, and all that follow are older than that. */
  ghost predicate InBlocks<R>(s: seq<Entry<Position, R>>, limit: nat)
    requires limit >= 1
    decreases |s|
  {
    |s| > limit ==>
      && (forall k | 0 <= k < limit - 1 :: Newer(s[k].key, s[limit - 1].key))
      && (forall k | limit <= k < |s| :: Newer(s[limit - 1].key, s[k].key))
      && InBlocks(s[limit..], limit)
  }

  /** The walk over an unchanged list, in terms of what is left of it. */
  ghost function Walk<R>(s: seq<Entry<Position, R>>, limit: nat): seq<Entry<Position, R>>
    requires limit >= 1
    decreases |s|
  {
    if |s| <= limit then s
    else
      NewerIsStrictOrder();
      AfterDropsTheCursor(s, limit - 1, ORDER);
      s[..limit] + Walk(After(s, Some(s[limit - 1].key), ORDER), limit)
  }

  lemma {:induction false} FollowIsWalk<R>(s: seq<Entry<Position, R>>, i: nat, cursor: Cursor, limit: nat)
    requires limit >= 1
    ensures Follow([s], i, cursor, limit) == Walk(After(s, Resume(cursor), ORDER), limit)
    decreases if i < 1 then 1 - i else 0, |After(s, Resume(cursor), ORDER)|
  {
    assert At([s], i) == s;
    FetchIsPage(s, cursor, limit);
    if FetchPage(s, cursor, limit).next.Some? {
      CursorMovesOn(s, cursor, limit);
      FollowIsWalk(s, i + 1, Encoded(FetchPage(s, cursor, limit).next.value), limit);
    }
  }

  lemma {:induction false} WalkStaysInside<R>(s: seq<Entry<Position, R>>, limit: nat, e: Entry<Position, R>)
    requires limit >= 1 && e in Walk(s, limit)
    ensures e in s
    decreases |s|
  {
    if |s| > limit {
      NewerIsStrictOrder();
      AfterDropsTheCursor(s, limit - 1, ORDER);
      var rest := After(s, Some(s[limit - 1].key), ORDER);
      if e !in s[..limit] {
        WalkStaysInside(rest, limit, e);
        AfterIsPast(s, Some(s[limit - 1].key), ORDER);
      }
    }
  }

  lemma NeverBothWays(a: Position, b: Position)
    ensures !(Newer(a, b) && Newer(b, a))
  {
    NewerIsStrictOrder();
    assert ORDER(a, b) && ORDER(b, a) ==> ORDER(a, a);
  }

  lemma OneIsNewer(a: Position, b: Position)
    ensures a == b || Newer(a, b) || Newer(b, a)
  {
    NewerIsStrictOrder();
    assert a == b || ORDER(a, b) || ORDER(b, a);
  }

  lemma MultisetCancels<T>(a: multiset<T>, b: multiset<T>, c: multiset<T>)
    requires a + b == a + c
    ensures b == c
  {
    forall x
      ensures b[x] == c[x]
    {
      assert (a + b)[x] == (a + c)[x];
    }
  }

  /** In blocks, what the next cursor selects is what the page left over. */
  lemma BlockThenRest<R>(s: seq<Entry<Position, R>>, limit: nat)
    requires limit >= 1 && |s| > limit
    requires forall k | 0 <= k < limit - 1 :: Newer(s[k].key, s[limit - 1].key)
    requires forall k | limit <= k < |s| :: Newer(s[limit - 1].key, s[k].key)
    ensures After(s, Some(s[limit - 1].key), ORDER) == s[limit..]
  {
    NewerIsStrictOrder();
    var last := s[limit - 1].key;
    PrefixAndRest(s, limit);
    forall k | 0 <= k < limit
      ensures !ORDER(last, s[k].key)
    {
      NeverBothWays(last, s[k].key);
    }
    AfterSplitAt(s[..limit], s[limit..], last, ORDER);
  }

  lemma {:induction false} InBlocksIsWhole<R>(s: seq<Entry<Position, R>>, limit: nat)
    requires limit >= 1 && InBlocks(s, limit)
    ensures WholeOnce(Walk(s, limit), s)
    decreases |s|
  {
    if |s| > limit {
      BlockThenRest(s, limit);
      PrefixAndRest(s, limit);
      InBlocksIsWhole(s[limit..], limit);
    }
  }

  /** What is selected next, when nothing is skipped or repeated: all that the page left over, in order. */
  lemma {:induction false} WholeLeavesTheRest<R>(s: seq<Entry<Position, R>>, limit: nat)
    requires limit >= 1 && |s| > limit && DistinctKeys(s) && WholeOnce(Walk(s, limit), s)
    ensures forall k | 0 <= k < limit - 1 :: Newer(s[k].key, s[limit - 1].key)
    ensures forall k | limit <= k < |s| :: Newer(s[limit - 1].key, s[k].key)
    ensures WholeOnce(Walk(s[limit..], limit), s[limit..])
  {
    NewerIsStrictOrder();
    var last := s[limit - 1].key;
    AfterDropsTheCursor(s, limit - 1, ORDER);
    var rest := After(s, Some(last), ORDER);
    PrefixAndRest(s, limit);
    assert multiset(Walk(s, limit)) == multiset(s[..limit]) + multiset(Walk(rest, limit));
    assert multiset(s) == multiset(s[..limit]) + multiset(s[limit..]);
    MultisetCancels(multiset(s[..limit]), multiset(Walk(rest, limit)), multiset(s[limit..]));
    LeftOverIsOlder(s, limit, rest);
    FirstOfPageIsKept(s, limit, rest);
    BlockThenRest(s, limit);
  }

  lemma LeftOverIsOlder<R>(s: seq<Entry<Position, R>>, limit: nat, rest: seq<Entry<Position, R>>)
    requires limit >= 1 && |s| > limit && rest == After(s, Some(s[limit - 1].key), ORDER)
    requires multiset(Walk(rest, limit)) == multiset(s[limit..])
    ensures forall k | limit <= k < |s| :: Newer(s[limit - 1].key, s[k].key)
  {
    forall k | limit <= k < |s|
      ensures Newer(s[limit - 1].key, s[k].key)
    {
      assert s[limit..][k - limit] == s[k] && s[k] in multiset(s[limit..]);
      assert s[k] in Walk(rest, limit);
      WalkStaysInside(rest, limit, s[k]);
      AfterIsPast(s, Some(s[limit - 1].key), ORDER);
    }
  }

  /** A row of the page older than its last one would head the next page, and come twice. */
  lemma FirstOfPageIsKept<R>(s: seq<Entry<Position, R>>, limit: nat, rest: seq<Entry<Position, R>>)
    requires limit >= 1 && |s| > limit && DistinctKeys(s) && rest == After(s, Some(s[limit - 1].key), ORDER)
    requires multiset(Walk(rest, limit)) == multiset(s[limit..])
    ensures forall k | 0 <= k < limit - 1 :: Newer(s[k].key, s[limit - 1].key)
  {
    var last := s[limit - 1].key;
    var older := After(s[..limit], Some(last), ORDER);
    PrefixAndRest(s, limit);
    AfterSplit(s[..limit], s[limit..], Some(last), ORDER);
    AfterIsPast(s[..limit], Some(last), ORDER);
    if older != [] {
      HeadIsWalked(rest, limit);
      assert rest[0] == older[0] && older[0] in s[..limit];
      assert rest[0] in multiset(s[limit..]);
      InBothHalves(s, limit, rest[0]);
    } else {
      NoneOlder(s[..limit], last);
      forall k | 0 <= k < limit - 1
        ensures Newer(s[k].key, last)
      {
        assert s[..limit][k] == s[k] && !Newer(last, s[k].key) && s[k].key != last;
        OneIsNewer(s[k].key, last);
      }
    }
  }

  lemma HeadIsWalked<R>(s: seq<Entry<Position, R>>, limit: nat)
    requires limit >= 1 && s != []
    ensures s[0] in multiset(Walk(s, limit))
  {
    if |s| > limit {
      NewerIsStrictOrder();
      AfterDropsTheCursor(s, limit - 1, ORDER);
      assert s[..limit][0] == s[0];
      assert Walk(s, limit)[0] == s[0];
    }
  }

  lemma {:induction false} NoneOlder<R>(s: seq<Entry<Position, R>>, last: Position)
    requires After(s, Some(last), ORDER) == []
    ensures forall k | 0 <= k < |s| :: !Newer(last, s[k].key)
  {
    if s != [] {
      NoneOlder(s[1..], last);
      assert s == [s[0]] + s[1..];
    }
  }

  lemma InBothHalves<R>(s: seq<Entry<Position, R>>, limit: nat, e: Entry<Position, R>)
    requires limit <= |s| && DistinctKeys(s) && e in s[..limit]
    ensures e !in multiset(s[limit..])
  {
    var i :| 0 <= i < limit && s[..limit][i] == e;
    forall k | 0 <= k < |s[limit..]|
      ensures s[limit..][k] != e
    {
      assert s[limit..][k] == s[limit + k] && s[i].key != s[limit + k].key;
    }
  }

  lemma {:induction false} WholeIsInBlocks<R>(s: seq<Entry<Position, R>>, limit: nat)
    requires limit >= 1 && DistinctKeys(s) && WholeOnce(Walk(s, limit), s)
    ensures InBlocks(s, limit)
    decreases |s|
  {
    if |s| > limit {
      WholeLeavesTheRest(s, limit);
      WholeIsInBlocks(s[limit..], limit);
    }
  }

  /**
   * Whatever an unchanged list is sorted by, following the cursors returns every row once exactly when
   * the pages fall in blocks: no page holds a row older than its last, and none newer is left over.
   */
  lemma SortedWalkIsWholeIffInBlocks<R>(s: seq<Entry<Position, R>>, first: Cursor, limit: nat)
    requires limit >= 1 && DistinctKeys(s) && !first.Encoded?
    ensures WholeOnce(Follow([s], 0, first, limit), s) <==> InBlocks(s, limit)
  {
    FollowIsWalk(s, 0, first, limit);
    AfterEverything(s, ORDER);
    if InBlocks(s, limit) {
      InBlocksIsWhole(s, limit);
    } else if WholeOnce(Walk(s, limit), s) {
      WholeIsInBlocks(s, limit);
    }
  }

  /** Whole at every page size exactly when the list is sorted newest first, as the cursor is. */
  lemma WholeAtEveryLimitIffNewestFirst<R>(s: seq<Entry<Position, R>>, first: Cursor)
    requires DistinctKeys(s) && !first.Encoded?
    ensures (forall limit: nat | limit >= 1 :: WholeOnce(Follow([s], 0, first, limit), s)) <==> Ascending(s, ORDER)
  {
    if Ascending(s, ORDER) {
      forall limit: nat | limit >= 1
        ensures WholeOnce(Follow([s], 0, first, limit), s)
      {
        FollowReturnsWholeList(s, first, limit);
      }
    } else {
      SortedWalkIsWholeIffInBlocks(s, first, 1);
      if InBlocks(s, 1) {
        BlocksOfOneAreInOrder(s);
      }
      assert !WholeOnce(Follow([s], 0, first, 1), s);
    }
  }

  lemma {:induction false} BlocksOfOneAreInOrder<R>(s: seq<Entry<Position, R>>)
    requires InBlocks(s, 1)
    ensures Ascending(s, ORDER)
    decreases |s|
  {
    if |s| > 1 {
      BlocksOfOneAreInOrder(s[1..]);
      forall i, j | 0 <= i < j < |s|
        ensures ORDER(s[i].key, s[j].key)
      {
        if i > 0 {
          assert s[1..][i - 1] == s[i] && s[1..][j - 1] == s[j];
        }
      }
    }
  }

  /** Sorted by name, an older product before a newer one: one row a page, the newer one is never returned. */
  lemma SortByNameSkipsRows(older: int, newer: int)
    requires older < newer
    ensures var s := [Entry(Position(older, "p1"), "Angle valve"), Entry(Position(newer, "p2"), "Ball valve")];
            Follow([s], 0, Missing, 1) == [s[0]]
  {
    var s := [Entry(Position(older, "p1"), "Angle valve"), Entry(Position(newer, "p2"), "Ball valve")];
    FollowIsWalk(s, 0, Missing, 1);
    AfterEverything(s, ORDER);
    var cursor := Some(s[0].key);
    assert s[1..] == [s[1]] && After([s[1]], cursor, ORDER) == [];
    assert After(s, cursor, ORDER) == [];
  }
}
