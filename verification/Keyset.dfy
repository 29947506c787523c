/**
 * Keyset paging over a table that changes between pages: fetch the first few rows strictly
 * after a cursor, then move the cursor to the last key fetched.
 */
module Keyset {
  import opened Options
  import opened Text

  /** Irreflexive, transitive, total. */
  ghost predicate StrictOrder<K(!new)>(lt: (K, K) -> bool) {
    && (forall a: K :: !lt(a, a))
    && (forall a: K, b: K, c: K :: lt(a, b) && lt(b, c) ==> lt(a, c))
    && (forall a: K, b: K :: a == b || lt(a, b) || lt(b, a))
  }

  datatype Entry<K, R> = Entry(key: K, row: R)

  /** A table read in key order: keys strictly ascending, so unique. */
  ghost predicate Ascending<K, R>(s: seq<Entry<K, R>>, lt: (K, K) -> bool) {
    forall i, j | 0 <= i < j < |s| :: lt(s[i].key, s[j].key)
  }

  predicate Past<K>(cursor: Option<K>, key: K, lt: (K, K) -> bool) {
    cursor.None? || lt(cursor.value, key)
  }

  /** The rows strictly after the cursor, in order. */
  function After<K, R>(s: seq<Entry<K, R>>, cursor: Option<K>, lt: (K, K) -> bool): seq<Entry<K, R>> {
    if s == [] then []
    else (if Past(cursor, s[0].key, lt) then [s[0]] else []) + After(s[1..], cursor, lt)
  }

  function Take<T>(s: seq<T>, n: nat): seq<T> {
    if |s| <= n then s else s[..n]
  }

  /** One page query: strictly after the cursor, in key order, at most `n` rows. */
  function Page<K, R>(s: seq<Entry<K, R>>, cursor: Option<K>, n: nat, lt: (K, K) -> bool): seq<Entry<K, R>> {
    Take(After(s, cursor, lt), n)
  }

  /** The table as the `i`-th query sees it; it stops changing eventually. */
  function At<T>(tables: seq<T>, i: nat): T
    requires tables != []
  {
    if i < |tables| then tables[i] else tables[|tables| - 1]
  }

  ghost predicate AllAscending<K, R>(tables: seq<seq<Entry<K, R>>>, lt: (K, K) -> bool) {
    tables != [] && forall i: nat :: Ascending(At(tables, i), lt)
  }

  ghost predicate HasKey<K, R>(s: seq<Entry<K, R>>, key: K) {
    exists i | 0 <= i < |s| :: s[i].key == key
  }

  lemma PrefixAndRest<T>(s: seq<T>, n: nat)
    requires n <= |s|
    ensures s[..n] + s[n..] == s
  {
  }

  // ---- Selection -----------------------------------------------------------------

  lemma {:induction false} AfterSelects<K(!new), R>(s: seq<Entry<K, R>>, cursor: Option<K>, lt: (K, K) -> bool)
    requires Ascending(s, lt)
    ensures Ascending(After(s, cursor, lt), lt)
    ensures forall k | 0 <= k < |After(s, cursor, lt)| ::
              After(s, cursor, lt)[k] in s && Past(cursor, After(s, cursor, lt)[k].key, lt)
    ensures forall i | 0 <= i < |s| && Past(cursor, s[i].key, lt) :: s[i] in After(s, cursor, lt)
  {
    if s != [] {
      var tail := s[1..];
      var rest := After(tail, cursor, lt);
      AfterSelects(tail, cursor, lt);
      assert s == [s[0]] + tail;
      forall k | 0 <= k < |rest|
        ensures lt(s[0].key, rest[k].key) && rest[k] in s
      {
        assert rest[k] in tail;
        var i :| 0 <= i < |tail| && tail[i] == rest[k];
        assert s[i + 1] == rest[k];
      }
      forall i | 0 < i < |s| && Past(cursor, s[i].key, lt)
        ensures s[i] in rest
      {
        assert s[i] == tail[i - 1];
      }
    }
  }

  /** In any list, sorted or not, only rows past the cursor are selected. */
  lemma {:induction false} AfterIsPast<K(!new), R>(s: seq<Entry<K, R>>, cursor: Option<K>, lt: (K, K) -> bool)
    ensures |After(s, cursor, lt)| <= |s|
    ensures forall k | 0 <= k < |After(s, cursor, lt)| ::
              After(s, cursor, lt)[k] in s && Past(cursor, After(s, cursor, lt)[k].key, lt)
  {
    if s != [] {
      assert s == [s[0]] + s[1..];
      AfterIsPast(s[1..], cursor, lt);
    }
  }

  /** A cursor on a row of the list leaves that row out. */
  lemma {:induction false} AfterDropsTheCursor<K(!new), R>(s: seq<Entry<K, R>>, k: nat, lt: (K, K) -> bool)
    requires k < |s| && !lt(s[k].key, s[k].key)
    ensures |After(s, Some(s[k].key), lt)| < |s|
  {
    AfterIsPast(s[1..], Some(s[k].key), lt);
    if k > 0 {
      AfterDropsTheCursor(s[1..], k - 1, lt);
    }
  }

  lemma {:induction false} AfterEverything<K(!new), R>(s: seq<Entry<K, R>>, lt: (K, K) -> bool)
    ensures After(s, None, lt) == s
  {
    if s != [] {
      AfterEverything(s[1..], lt);
      assert [s[0]] + s[1..] == s;
    }
  }

  lemma AfterSplitAt<K(!new), R>(head: seq<Entry<K, R>>, tail: seq<Entry<K, R>>, last: K, lt: (K, K) -> bool)
    requires forall k | 0 <= k < |head| :: !lt(last, head[k].key)
    requires forall k | 0 <= k < |tail| :: lt(last, tail[k].key)
    ensures After(head + tail, Some(last), lt) == tail
  {
    AfterSplit(head, tail, Some(last), lt);
    AfterNone(head, last, lt);
    AfterAll(tail, last, lt);
    assert [] + tail == tail;
  }

  lemma NothingPrecedesItself<K(!new), R>(s: seq<Entry<K, R>>, n: nat, k: nat, lt: (K, K) -> bool)
    requires StrictOrder(lt) && Ascending(s, lt) && k <= n < |s|
    ensures !lt(s[n].key, s[k].key)
  {
    assert k < n ==> lt(s[k].key, s[n].key);
  }

  lemma SelectedIsPast<K(!new), R>(s: seq<Entry<K, R>>, cursor: Option<K>, k: nat, lt: (K, K) -> bool)
    requires Ascending(s, lt) && k < |After(s, cursor, lt)|
    ensures Ascending(After(s, cursor, lt), lt) && Past(cursor, After(s, cursor, lt)[k].key, lt)
  {
    AfterSelects(s, cursor, lt);
  }

  lemma TakenAndRest<K(!new), R>(s: seq<Entry<K, R>>, n: nat, lt: (K, K) -> bool)
    requires StrictOrder(lt) && Ascending(s, lt) && 0 < n <= |s|
    ensures After(s, Some(s[n - 1].key), lt) == s[n..]
  {
    assert s[..n] + s[n..] == s;
    forall k | 0 <= k < n
      ensures !lt(s[n - 1].key, s[k].key)
    {
      NothingPrecedesItself(s, n - 1, k, lt);
    }
    AfterSplitAt(s[..n], s[n..], s[n - 1].key, lt);
  }

  /** Moving the cursor to the last row taken leaves exactly the rows not taken. */
  lemma AfterLastTaken<K(!new), R>(s: seq<Entry<K, R>>, cursor: Option<K>, n: nat, lt: (K, K) -> bool)
    requires StrictOrder(lt) && Ascending(s, lt) && 0 < n <= |After(s, cursor, lt)|
    ensures var rest := After(s, cursor, lt);
            After(s, Some(rest[n - 1].key), lt) == rest[n..]
  {
    var rest := After(s, cursor, lt);
    SelectedIsPast(s, cursor, n - 1, lt);
    AfterAgain(s, cursor, rest[n - 1].key, lt);
    TakenAndRest(rest, n, lt);
  }

  lemma {:induction false} AfterAgain<K(!new), R>(s: seq<Entry<K, R>>, cursor: Option<K>, last: K, lt: (K, K) -> bool)
    requires StrictOrder(lt)
    ensures Past(cursor, last, lt) ==> After(s, Some(last), lt) == After(After(s, cursor, lt), Some(last), lt)
  {
    if s != [] && Past(cursor, last, lt) {
      AfterAgain(s[1..], cursor, last, lt);
      var head := if Past(cursor, s[0].key, lt) then [s[0]] else [];
      AfterSplit(head, After(s[1..], cursor, lt), Some(last), lt);
      AfterOne(head, Some(last), lt);
    }
  }

  lemma AfterOne<K(!new), R>(s: seq<Entry<K, R>>, cursor: Option<K>, lt: (K, K) -> bool)
    requires |s| <= 1
    ensures After(s, cursor, lt) == if s != [] && Past(cursor, s[0].key, lt) then s else []
  {
  }

  lemma {:induction false} AfterSplit<K(!new), R>(a: seq<Entry<K, R>>, b: seq<Entry<K, R>>, cursor: Option<K>, lt: (K, K) -> bool)
    ensures After(a + b, cursor, lt) == After(a, cursor, lt) + After(b, cursor, lt)
  {
    if a == [] {
      assert a + b == b;
    } else {
      AfterSplit(a[1..], b, cursor, lt);
      assert (a + b)[1..] == a[1..] + b;
      var head := if Past(cursor, a[0].key, lt) then [a[0]] else [];
      Associates(head, After(a[1..], cursor, lt), After(b, cursor, lt));
    }
  }

  lemma {:induction false} AfterNone<K(!new), R>(s: seq<Entry<K, R>>, last: K, lt: (K, K) -> bool)
    requires forall i | 0 <= i < |s| :: !lt(last, s[i].key)
    ensures After(s, Some(last), lt) == []
  {
    if s != [] {
      AfterNone(s[1..], last, lt);
    }
  }

  lemma {:induction false} AfterAll<K(!new), R>(s: seq<Entry<K, R>>, last: K, lt: (K, K) -> bool)
    requires forall i | 0 <= i < |s| :: lt(last, s[i].key)
    ensures After(s, Some(last), lt) == s
  {
    if s != [] {
      AfterAll(s[1..], last, lt);
      assert [s[0]] + s[1..] == s;
    }
  }

  // ---- Walking the pages -------------------------------------------------------

  ghost predicate Throughout<K, R>(tables: seq<seq<Entry<K, R>>>, from: nat, key: K)
    requires tables != []
  {
    forall i: nat | i >= from :: HasKey(At(tables, i), key)
  }

  ghost predicate SeenIn<K, R>(e: Entry<K, R>, tables: seq<seq<Entry<K, R>>>, from: nat)
    requires tables != []
  {
    exists i: nat :: i >= from && e in At(tables, i)
  }

  /**
   * What a walk from `cursor` must return: strictly ascending keys past the cursor, every row
   * read from some version of the table, and every key that was there throughout.
   */
  ghost predicate Complete<K(!new), R>(r: seq<Entry<K, R>>, tables: seq<seq<Entry<K, R>>>, from: nat, cursor: Option<K>,
                                 lt: (K, K) -> bool)
    requires tables != []
  {
    && Ascending(r, lt)
    && (forall k | 0 <= k < |r| :: Past(cursor, r[k].key, lt))
    && (forall k | 0 <= k < |r| :: SeenIn(r[k], tables, from))
    && (forall key: K {:trigger HasKey(r, key)} {:trigger Throughout(tables, from, key)} |
          Throughout(tables, from, key) && Past(cursor, key, lt) :: HasKey(r, key))
  }

  lemma PageFacts<K(!new), R>(tables: seq<seq<Entry<K, R>>>, i: nat, cursor: Option<K>, n: nat, lt: (K, K) -> bool)
    requires AllAscending(tables, lt)
    ensures var page := Page(At(tables, i), cursor, n, lt);
            && Ascending(page, lt)
            && (forall k | 0 <= k < |page| :: page[k] in At(tables, i) && Past(cursor, page[k].key, lt))
  {
    assert Ascending(At(tables, i), lt);
    AfterSelects(At(tables, i), cursor, lt);
  }

  /** A page that holds everything after the cursor finishes the walk. */
  lemma LastPageCompletes<K(!new), R>(tables: seq<seq<Entry<K, R>>>, i: nat, cursor: Option<K>, n: nat, lt: (K, K) -> bool)
    requires AllAscending(tables, lt)
    requires |After(At(tables, i), cursor, lt)| <= n
    ensures Complete(Page(At(tables, i), cursor, n, lt), tables, i, cursor, lt)
  {
    var t, page := At(tables, i), Page(At(tables, i), cursor, n, lt);
    PageFacts(tables, i, cursor, n, lt);
    AfterSelects(t, cursor, lt);
    forall k | 0 <= k < |page|
      ensures SeenIn(page[k], tables, i)
    {
      assert page[k] in At(tables, i);
    }
    forall key: K | Throughout(tables, i, key) && Past(cursor, key, lt)
      ensures HasKey(page, key)
    {
      assert HasKey(t, key);
      var j :| 0 <= j < |t| && t[j].key == key;
      assert t[j] in page;
    }
  }

  /** A non-empty page followed by a complete walk from its last key is a complete walk. */
  lemma PageThenRest<K(!new), R>(tables: seq<seq<Entry<K, R>>>, i: nat, cursor: Option<K>, n: nat, rest: seq<Entry<K, R>>,
                                 lt: (K, K) -> bool)
    requires AllAscending(tables, lt) && StrictOrder(lt) && Page(At(tables, i), cursor, n, lt) != []
    requires var page := Page(At(tables, i), cursor, n, lt);
             Complete(rest, tables, i + 1, Some(page[|page| - 1].key), lt)
    ensures Complete(Page(At(tables, i), cursor, n, lt) + rest, tables, i, cursor, lt)
  {
    var page := Page(At(tables, i), cursor, n, lt);
    var last := page[|page| - 1].key;
    PageFacts(tables, i, cursor, n, lt);
    forall a, b | 0 <= a < |page| && 0 <= b < |rest|
      ensures lt(page[a].key, rest[b].key)
    {
      assert Past(Some(last), rest[b].key, lt);
      assert a < |page| - 1 ==> lt(page[a].key, last);
    }
    forall k | 0 <= k < |page + rest|
      ensures SeenIn((page + rest)[k], tables, i) && Past(cursor, (page + rest)[k].key, lt)
    {
      if k < |page| {
        assert page[k] in At(tables, i);
      } else {
        assert SeenIn(rest[k - |page|], tables, i + 1);
        assert Past(cursor, last, lt) && lt(last, rest[k - |page|].key);
      }
    }
    forall key: K | Throughout(tables, i, key) && Past(cursor, key, lt)
      ensures HasKey(page + rest, key)
    {
      StableKeyIsCovered(tables, i, cursor, n, rest, key, lt);
    }
  }

  lemma StableKeyIsCovered<K(!new), R>(tables: seq<seq<Entry<K, R>>>, i: nat, cursor: Option<K>, n: nat,
                                       rest: seq<Entry<K, R>>, key: K, lt: (K, K) -> bool)
    requires AllAscending(tables, lt) && StrictOrder(lt) && Page(At(tables, i), cursor, n, lt) != []
    requires var page := Page(At(tables, i), cursor, n, lt);
             Complete(rest, tables, i + 1, Some(page[|page| - 1].key), lt)
    requires Throughout(tables, i, key) && Past(cursor, key, lt)
    ensures HasKey(Page(At(tables, i), cursor, n, lt) + rest, key)
  {
    var t, page := At(tables, i), Page(At(tables, i), cursor, n, lt);
    var all := After(t, cursor, lt);
    var last := page[|page| - 1].key;
    assert Ascending(t, lt);
    AfterSelects(t, cursor, lt);
    assert HasKey(t, key);
    var j :| 0 <= j < |t| && t[j].key == key;
    assert t[j] in all;
    var k :| 0 <= k < |all| && all[k] == t[j];
    if k < |page| {
      assert (page + rest)[k].key == key;
    } else {
      assert lt(all[|page| - 1].key, all[k].key);
      assert Past(Some(last), key, lt) && Throughout(tables, i + 1, key);
      assert HasKey(rest, key);
      var m :| 0 <= m < |rest| && rest[m].key == key;
      assert (page + rest)[|page| + m].key == key;
    }
  }

  /** Strictly ascending keys occur at most once. */
  lemma KeysOccurOnce<K(!new), R>(r: seq<Entry<K, R>>, a: nat, b: nat, lt: (K, K) -> bool)
    requires StrictOrder(lt) && Ascending(r, lt) && a < b < |r|
    ensures r[a].key != r[b].key
  {
    assert lt(r[a].key, r[b].key);
  }
}
