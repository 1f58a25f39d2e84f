/**
 * Keyset pages: `GetTransactionsByRange` and `queryAddressTxs` in the database layer, the
 * two handlers above them, and what a client sees who follows the returned cursors.
 */
module Pages {
  import opened Results
  import opened Base64
  import opened Cursor
  import opened Keyset

  const NEXT := "next"
  const PREV := "prev"

  const DEFAULT_RANGE_LIMIT: Uint64 := 25
  const MAX_RANGE_LIMIT: Uint64 := 100
  const DEFAULT_ADDRESS_LIMIT: Uint64 := 10

  datatype PageError =
    | BadLimit
    | BadCursor(cause: CursorError)
    | NeedsCursor
    | BadDirection
    | HalfOpenRange

  type Page<D> = (seq<Row<D>>, bool)

  /** Reference: a page is a slice of the listing, with a flag for more rows in the walked direction. */
  function PageOf<D>(l: seq<Row<D>>, cursor: Option<Key>, direction: string, limit: nat): Page<D>
    requires direction == PREV ==> cursor.Some?
  {
    if direction == PREV then
      var end := CountNewer(l, cursor.value);
      (l[Max(0, end - limit)..end], end > limit)
    else
      var start := if cursor.Some? then FirstOlder(l, cursor.value) else 0;
      (l[start..Min(start + limit, |l|)], |l| - start > limit)
  }

  // ----- Database layer -----

  /** Reverses the first `n` elements in place; the Go slice may be shorter than its array. */
  method ReverseSlice<T>(a: array<T>, n: nat)
    requires n <= a.Length
    modifies a
    ensures a[..n] == Reversed(old(a[..n]))
    ensures a[n..] == old(a[n..])
  {
    var i, j := 0, n - 1;
    while i < j
      invariant 0 <= i <= n && j == n - 1 - i && i <= j + 2
      invariant forall k :: 0 <= k < i ==> a[k] == old(a[n - 1 - k]) && a[n - 1 - k] == old(a[k])
      invariant forall k :: i <= k <= j ==> a[k] == old(a[k])
      invariant a[n..] == old(a[n..])
    {
      a[i], a[j] := a[j], a[i];
      i, j := i + 1, j - 1;
    }
  }

  /** Trims the probe row, reports it, and restores newest-first order after an ascending scan. */
  method FinishPage<D>(fetched: seq<Row<D>>, limit: nat, reverse: bool) returns (rows: seq<Row<D>>, hasMore: bool)
    ensures hasMore <==> |fetched| > limit
    ensures rows == if reverse then Reversed(Limit(fetched, limit)) else Limit(fetched, limit)
  {
    var a := new Row<D>[|fetched|](i requires 0 <= i < |fetched| => fetched[i]);
    assert a[..] == fetched;
    var n := |fetched|;
    hasMore := n > limit;
    if hasMore {
      n := limit;
    }
    if reverse {
      ReverseSlice(a, n);
    }
    rows := a[..n];
  }

  /** The probe row changes nothing on the page it probes for. */
  lemma TrimProbe<T>(s: seq<T>, n: nat)
    ensures Limit(Limit(s, n + 1), n) == Limit(s, n) == s[..Min(n, |s|)]
    ensures |Limit(s, n + 1)| > n <==> |s| > n
  {
  }

  /** Taking from the near end of a backwards list and turning it round takes the far end of the list. */
  lemma TrimReversed<T>(s: seq<T>, n: nat)
    ensures Reversed(Limit(Reversed(s), n)) == s[Max(0, |s| - n)..]
  {
  }

  lemma LimitedScanOlder<D(!new)>(rows: seq<Row<D>>, cursor: Option<Key>, limit: nat)
    requires Keyed(rows)
    ensures var scope := if cursor.Some? then Where(rows, (r: Row<D>) => Less(r.key, cursor.value)) else rows;
            var fetched := Limit(OrderBy(Desc, scope), limit + 1);
            PageOf(Listing(rows), cursor, NEXT, limit) == (Limit(fetched, limit), |fetched| > limit)
  {
    if cursor.Some? {
      ScanOlder(rows, cursor.value);
    }
    var start := if cursor.Some? then FirstOlder(Listing(rows), cursor.value) else 0;
    assert cursor.None? ==> Listing(rows)[start..] == Listing(rows);
    TrimProbe(Listing(rows)[start..], limit);
    assert Limit(Listing(rows)[start..], limit) == Listing(rows)[start..Min(start + limit, |Listing(rows)|)];
  }

  lemma LimitedScanNewer<D(!new)>(rows: seq<Row<D>>, cursor: Key, limit: nat)
    requires Keyed(rows)
    ensures var fetched := Limit(OrderBy(Asc, Where(rows, (r: Row<D>) => Less(cursor, r.key))), limit + 1);
            PageOf(Listing(rows), Some(cursor), PREV, limit) == (Reversed(Limit(fetched, limit)), |fetched| > limit)
  {
    ScanNewer(rows, cursor);
    var newer := Listing(rows)[..CountNewer(Listing(rows), cursor)];
    TrimProbe(Reversed(newer), limit);
    TrimReversed(newer, limit);
  }

  /** The two scans with the probe limit as the code computes it. */
  lemma ProbedOlder<D(!new)>(rows: seq<Row<D>>, cursor: Option<Key>, limit: Uint64)
    requires Keyed(rows)
    ensures var scope := if cursor.Some? then Where(rows, (r: Row<D>) => Less(r.key, cursor.value)) else rows;
            var fetched := Limit(OrderBy(Desc, scope), Add64(limit, 1));
            KeyPage(rows, cursor, limit, NEXT) == Ok((Limit(fetched, limit), |fetched| > limit))
  {
    LimitedScanOlder(rows, cursor, limit);
    Wrap64(limit, 1);
    hide Keyed, PageOf, OrderBy, Listing, Where, Add64;
  }

  lemma ProbedNewer<D(!new)>(rows: seq<Row<D>>, cursor: Key, limit: Uint64)
    requires Keyed(rows)
    ensures var fetched := Limit(OrderBy(Asc, Where(rows, (r: Row<D>) => Less(cursor, r.key))), Add64(limit, 1));
            KeyPage(rows, Some(cursor), limit, PREV) == Ok((Reversed(Limit(fetched, limit)), |fetched| > limit))
  {
    LimitedScanNewer(rows, cursor, limit);
    Wrap64(limit, 1);
    assert Reversed<Row<D>>([]) == [];
    hide Keyed, PageOf, OrderBy, Listing, Where, Add64;
  }

  /**
   * The keyset query both endpoints share: seek predicate, order, `LIMIT limit + 1` with uint64
   * addition, trim, reverse. At the largest uint64 the probe limit wraps to zero and nothing is fetched.
   */
  method KeysetPage<D(!new)>(rows: seq<Row<D>>, cursor: Option<Key>, direction: string, limit: Uint64)
    returns (r: Result<Page<D>, PageError>)
    requires Keyed(rows)
    ensures r == KeyPage(rows, cursor, limit, direction)
  {
    hide Keyed, PageOf, OrderBy, Listing, Where, Add64, Limit, Reversed;
    var fetchLimit := Add64(limit, 1);
    var scope, order, reverse := rows, Desc, false;
    if direction == NEXT {
      if cursor.Some? {
        scope := Where(rows, (r: Row<D>) => Less(r.key, cursor.value));
      }
    } else if direction == PREV {
      if cursor.None? {
        return Err(NeedsCursor);
      }
      scope, order, reverse := Where(rows, (r: Row<D>) => Less(cursor.value, r.key)), Asc, true;
    } else {
      return Err(BadDirection);
    }
    var fetched := Limit(OrderBy(order, scope), fetchLimit);
    var page, hasMore := FinishPage(fetched, limit, reverse);
    if direction == NEXT {
      ProbedOlder(rows, cursor, limit);
    } else {
      ProbedNewer(rows, cursor.value, limit);
    }
    r := Ok((page, hasMore));
  }

  /** `GetTransactionsByRange`; `inScope` is the `chain_name` condition. */
  method GetTransactionsByRange<D(!new)>(
    table: seq<Row<D>>, inScope: Row<D> -> bool, cursor: string, limit: Uint64, direction: string)
    returns (r: Result<Page<D>, PageError>)
    requires Keyed(Where(table, inScope))
    ensures r == RangePage(Where(table, inScope), cursor, limit, direction)
    ensures limit == 0 || limit > MAX_RANGE_LIMIT ==> r == Err(BadLimit)
    ensures 0 < limit <= MAX_RANGE_LIMIT ==> r == CursorPage(Where(table, inScope), Some(cursor), limit, direction)
  {
    if limit == 0 || limit > MAX_RANGE_LIMIT {
      return Err(BadLimit);
    }
    match DecodeCursor(Some(cursor)) {
      case Err(e) => r := Err(BadCursor(e));
      case Ok(key) => r := KeysetPage(Where(table, inScope), key, direction, limit);
    }
  }

  /** Reference for `GetTransactionsByRange`: the checks in order, then a slice of the listing. */
  function RangePage<D>(rows: seq<Row<D>>, cursor: string, limit: Uint64, direction: string)
    : Result<Page<D>, PageError>
  {
    if limit == 0 || limit > MAX_RANGE_LIMIT then Err(BadLimit)
    else CursorPage(rows, Some(cursor), limit, direction)
  }

  function CursorPage<D>(rows: seq<Row<D>>, cursor: Option<string>, limit: Uint64, direction: string)
    : Result<Page<D>, PageError>
  {
    match DecodeCursor(cursor)
    case Err(e) => Err(BadCursor(e))
    case Ok(key) => KeyPage(rows, key, limit, direction)
  }

  function KeyPage<D>(rows: seq<Row<D>>, key: Option<Key>, limit: Uint64, direction: string)
    : Result<Page<D>, PageError>
  {
    if direction !in {NEXT, PREV} then Err(BadDirection)
    else if direction == PREV && key.None? then Err(NeedsCursor)
    else if limit + 1 < TWO_TO_THE_64 then Ok(PageOf(Listing(rows), key, direction, limit))
    else Ok(([], false))
  }

  /** `queryAddressTxs`; `inScope` is the conjunction of the account, chain and timestamp conditions. */
  method QueryAddressTxs<D(!new)>(
    table: seq<Row<D>>, inScope: Row<D> -> bool, cursor: Option<string>, limit: Option<Uint64>, direction: string)
    returns (r: Result<Page<D>, PageError>)
    requires Keyed(Where(table, inScope))
    ensures r == CursorPage(Where(table, inScope), cursor,
                            if limit.None? then DEFAULT_ADDRESS_LIMIT else limit.value, direction)
  {
    var bound := if limit.None? then DEFAULT_ADDRESS_LIMIT else limit.value;
    match DecodeCursor(cursor) {
      case Err(e) => r := Err(BadCursor(e));
      case Ok(key) => r := KeysetPage(Where(table, inScope), key, direction, bound);
    }
  }

  // ----- Handlers -----

  /** A response body whose cursors are keys, or the texts of keys. */
  datatype Body<D, C> = Body(
    rows: seq<Row<D>>,
    hasNext: bool,
    hasPrev: bool,
    nextCursor: Option<C>,
    prevCursor: Option<C>)

  function KeyBody<D>(rows: seq<Row<D>>, hasMore: bool, direction: string, hasCursor: bool): Body<D, Key> {
    if rows == [] then Body(rows, false, false, None, None)
    else
      var hasNext := direction != NEXT || hasMore;
      var hasPrev := if direction == NEXT then hasCursor else hasMore;
      Body(rows, hasNext, hasPrev,
           if hasNext then Some(rows[|rows| - 1].key) else None,
           if hasPrev then Some(rows[0].key) else None)
  }

  function InText<D>(b: Body<D, Key>): Body<D, string> {
    Body(b.rows, b.hasNext, b.hasPrev,
         if b.nextCursor.Some? then Some(CursorText(b.nextCursor.value)) else None,
         if b.prevCursor.Some? then Some(CursorText(b.prevCursor.value)) else None)
  }

  /**
   * `buildTransactionsRangeBody` and `buildAddressTxsBody`: cursors from the page's edge rows, flags by
   * direction. `text` is the database's textual form of a hash; a text that does not decode is an error.
   */
  method BuildBody<D>(rows: seq<Row<D>>, hasMore: bool, direction: string, hasCursor: bool, text: Bytes -> string)
    returns (r: Result<Body<D, string>, CursorError>)
    requires direction in {NEXT, PREV}
    ensures rows != [] && Decode(Standard, false, text(rows[0].key.hash)).None? ==> r == Err(BadHash)
    ensures rows != [] && Decode(Standard, false, text(rows[|rows| - 1].key.hash)).None? ==> r == Err(BadHash)
    ensures (forall h :: Decode(Standard, false, text(h)) == Some(h)) ==>
              r == Ok(InText(KeyBody(rows, hasMore, direction, hasCursor)))
  {
    if |rows| == 0 {
      return Ok(Body(rows, false, false, None, None));
    }
    var newest, oldest := rows[0].key, rows[|rows| - 1].key;
    var newestCur := MakeTxCursor(newest.height, text(newest.hash));
    if newestCur.Err? {
      return Err(newestCur.error);
    }
    var oldestCur := MakeTxCursor(oldest.height, text(oldest.hash));
    if oldestCur.Err? {
      return Err(oldestCur.error);
    }
    var hasNext, hasPrev, nextCursor, prevCursor := false, false, None, None;
    if direction == NEXT {
      hasNext := hasMore;
      if hasMore {
        nextCursor := Some(oldestCur.value);
      }
      if hasCursor {
        hasPrev, prevCursor := true, Some(newestCur.value);
      }
    } else {
      hasPrev := hasMore;
      if hasMore {
        prevCursor := Some(newestCur.value);
      }
      hasNext, nextCursor := true, Some(oldestCur.value);
    }
    r := Ok(Body(rows, hasNext, hasPrev, nextCursor, prevCursor));
  }

  lemma PgEncodeDecodes()
    ensures forall h :: Decode(Standard, false, PgEncode(h)) == Some(h)
  {
    forall h ensures Decode(Standard, false, PgEncode(h)) == Some(h) {
      DecodeOfPgEncode(false, h);
    }
  }

  /** Reference for one request with a decoded cursor: a slice of the listing and what its edges say. */
  function Answer<D>(l: seq<Row<D>>, key: Option<Key>, limit: nat, direction: string): Body<D, Key>
    requires direction == PREV ==> key.Some?
  {
    var (page, hasMore) := PageOf(l, key, direction, limit);
    KeyBody(page, hasMore, direction, key.Some?)
  }

  /** Reference for one request as the client sends it. */
  function Respond<D>(rows: seq<Row<D>>, cursor: string, limit: Uint64, direction: string)
    : Result<Body<D, string>, PageError>
  {
    match CursorPage(rows, Some(cursor), limit, direction)
    case Err(e) => Err(e)
    case Ok((page, hasMore)) => Ok(InText(KeyBody(page, hasMore, direction, cursor != "")))
  }

  /** A decodable request below the wrap-around gets the key-level answer, in text. */
  lemma RespondIsAnswer<D>(rows: seq<Row<D>>, cursor: string, key: Option<Key>, limit: Uint64, direction: string)
    requires DecodeCursor(Some(cursor)) == Ok(key) && limit + 1 < TWO_TO_THE_64
    requires direction in {NEXT, PREV} && (direction == PREV ==> key.Some?)
    ensures Respond(rows, cursor, limit, direction) == Ok(InText(Answer(Listing(rows), key, limit, direction)))
  {
    assert key.Some? <==> cursor != "";
  }

  /** `GetTransactionsByCursor`. */
  method GetTransactionsByCursor<D(!new)>(
    table: seq<Row<D>>, inScope: Row<D> -> bool, cursor: string, limit: Uint64, direction: string)
    returns (r: Result<Body<D, string>, PageError>)
    requires Keyed(Where(table, inScope))
    ensures var bound := if limit == 0 then DEFAULT_RANGE_LIMIT else limit;
            var way := if direction == "" then NEXT else direction;
            && (bound > MAX_RANGE_LIMIT ==> r == Err(BadLimit))
            && (bound <= MAX_RANGE_LIMIT && way !in {NEXT, PREV} ==> r == Err(BadDirection))
            && (bound <= MAX_RANGE_LIMIT && way in {NEXT, PREV} ==>
                  r == Respond(Where(table, inScope), cursor, bound, way))
  {
    var bound := if limit == 0 then DEFAULT_RANGE_LIMIT else limit;
    if bound > MAX_RANGE_LIMIT {
      return Err(BadLimit);
    }
    var way := if direction == "" then NEXT else direction;
    if way != NEXT && way != PREV {
      return Err(BadDirection);
    }
    if way == PREV && cursor == "" {
      return Err(NeedsCursor);
    }
    var page := GetTransactionsByRange(table, inScope, cursor, bound, way);
    match page {
      case Err(e) => r := Err(e);
      case Ok((rows, hasMore)) =>
        PgEncodeDecodes();
        var body := BuildBody(rows, hasMore, way, cursor != "", PgEncode);
        r := Ok(body.value);
    }
  }

  /**
   * `GetAddressTxs`: `from` and `to` come together or not at all; with them the rows are also bounded in time. The
   * handler checks the direction in cursor mode only; the database layer checks it in both. There is no upper
   * limit here. The table may hold a transaction once per account; only the account's own rows have distinct keys.
   */
  method GetAddressTxs<D(!new)>(
    table: seq<Row<D>>, ofAccount: Row<D> -> bool, stamp: D -> int, from: Option<int>, to: Option<int>,
    cursor: string, limit: Uint64, direction: string)
    returns (r: Result<Body<D, string>, PageError>)
    requires Keyed(Where(table, AddressScope(ofAccount, stamp, from, to)))
    ensures from.Some? != to.Some? ==> r == Err(HalfOpenRange)
    ensures from.Some? == to.Some? ==>
              var bound := if limit == 0 then DEFAULT_ADDRESS_LIMIT else limit;
              var way := if direction == "" then NEXT else direction;
              && (way !in {NEXT, PREV} ==> r.Err?)
              && (way in {NEXT, PREV} ==>
                    r == Respond(Where(table, AddressScope(ofAccount, stamp, from, to)), cursor, bound, way))
  {
    if from.Some? != to.Some? {
      return Err(HalfOpenRange);
    }
    var timestampMode := from.Some?;
    var way := if direction == "" then NEXT else direction;
    if !timestampMode {
      if way != NEXT && way != PREV {
        return Err(BadDirection);
      }
      if way == PREV && cursor == "" {
        return Err(NeedsCursor);
      }
    }
    var scope := AddressScope(ofAccount, stamp, from, to);
    var page := QueryAddressTxs(table, scope, if cursor == "" then None else Some(cursor),
                                if limit == 0 then None else Some(limit), way);
    match page {
      case Err(e) => r := Err(e);
      case Ok((rows, hasMore)) =>
        PgEncodeDecodes();
        var body := BuildBody(rows, hasMore, way, cursor != "", PgEncode);
        r := Ok(body.value);
    }
  }

  function AddressScope<D>(ofAccount: Row<D> -> bool, stamp: D -> int, from: Option<int>, to: Option<int>)
    : Row<D> -> bool
  {
    (r: Row<D>) =>
      ofAccount(r) && (from.Some? && to.Some? ==> from.value <= stamp(r.data) <= to.value)
  }

  /** The rows of the account, and with both times given those stored between them, ends included. */
  lemma ScopeExactly<D(!new)>(table: seq<Row<D>>, ofAccount: Row<D> -> bool, stamp: D -> int,
                        from: Option<int>, to: Option<int>, r: Row<D>)
    requires from.Some? == to.Some?
    ensures r in Where(table, AddressScope(ofAccount, stamp, from, to)) <==>
              && r in table && ofAccount(r)
              && (from.None? || (from.value <= stamp(r.data) && stamp(r.data) <= to.value))
  {
    WhereKeeps(table, AddressScope(ofAccount, stamp, from, to));
  }

  /** When a request fails: its cursor does not decode, or it goes back without one. */
  lemma RespondFails<D>(rows: seq<Row<D>>, cursor: string, limit: Uint64, direction: string)
    requires direction in {NEXT, PREV}
    ensures Respond(rows, cursor, limit, direction).Err? <==>
              DecodeCursor(Some(cursor)).Err? || (direction == PREV && DecodeCursor(Some(cursor)) == Ok(None))
    ensures direction == PREV && cursor == "" ==> Respond(rows, cursor, limit, direction) == Err(NeedsCursor)
    ensures DecodeCursor(Some(cursor)).Err? ==>
              Respond(rows, cursor, limit, direction) == Err(BadCursor(DecodeCursor(Some(cursor)).error))
  {
  }

  // ----- What the flags mean -----

  ghost predicate SomeOlder<D(!new)>(rows: seq<Row<D>>, k: Key) {
    exists r :: r in rows && Less(r.key, k)
  }

  ghost predicate SomeNewer<D(!new)>(rows: seq<Row<D>>, k: Key) {
    exists r :: r in rows && Less(k, r.key)
  }

  ghost predicate SomeNotOlder<D(!new)>(rows: seq<Row<D>>, k: Key) {
    exists r :: r in rows && !Less(r.key, k)
  }

  ghost predicate SomeNotNewer<D(!new)>(rows: seq<Row<D>>, k: Key) {
    exists r :: r in rows && !Less(k, r.key)
  }

  lemma SliceEdges<D(!new)>(l: seq<Row<D>>, i: nat)
    requires Sorted(Desc, l) && i < |l|
    ensures SomeOlder(l, l[i].key) <==> i + 1 < |l|
    ensures SomeNewer(l, l[i].key) <==> i > 0
    ensures FirstOlder(l, l[i].key) == i + 1 && CountNewer(l, l[i].key) == i
  {
    FirstOlderSplits(l, l[i].key);
    CountNewerSplits(l, l[i].key);
    CursorGap(l, l[i].key);
    if i + 1 < |l| {
      assert l[i + 1] in l && Less(l[i + 1].key, l[i].key);
    }
    if i > 0 {
      assert l[0] in l && Less(l[i].key, l[0].key);
    }
  }

  lemma CursorEdges<D(!new)>(l: seq<Row<D>>, c: Key)
    requires Sorted(Desc, l)
    ensures FirstOlder(l, c) > 0 <==> SomeNotOlder(l, c)
    ensures CountNewer(l, c) < |l| <==> SomeNotNewer(l, c)
  {
    FirstOlderSplits(l, c);
    CountNewerSplits(l, c);
    if FirstOlder(l, c) > 0 {
      assert l[0] in l;
    }
    if CountNewer(l, c) < |l| {
      assert l[CountNewer(l, c)] in l;
    }
  }

  /**
   * After `next`, the probe-row flag is exact on every non-empty page. `has_prev` is not looked up but
   * set from the presence of a cursor: the newer row it claims exists exactly when some stored row is at
   * or above the cursor.
   */
  lemma NextFlagsMeanRows<D(!new)>(l: seq<Row<D>>, key: Option<Key>, limit: nat)
    requires Sorted(Desc, l) && Answer(l, key, limit, NEXT).rows != []
    ensures var body := Answer(l, key, limit, NEXT);
            && (body.hasNext <==> SomeOlder(l, body.rows[|body.rows| - 1].key))
            && (body.hasPrev <==> key.Some?)
            && (SomeNewer(l, body.rows[0].key) <==> key.Some? && SomeNotOlder(l, key.value))
  {
    var start := if key.Some? then FirstOlder(l, key.value) else 0;
    if key.Some? {
      CursorEdges(l, key.value);
    }
    SliceEdges(l, start);
    SliceEdges(l, start + |Answer(l, key, limit, NEXT).rows| - 1);
  }

  /** After `prev` the roles swap: `has_next` is set, and true exactly when some row is at or below the cursor. */
  lemma PrevFlagsMeanRows<D(!new)>(l: seq<Row<D>>, key: Key, limit: nat)
    requires Sorted(Desc, l) && Answer(l, Some(key), limit, PREV).rows != []
    ensures var body := Answer(l, Some(key), limit, PREV);
            && (body.hasPrev <==> SomeNewer(l, body.rows[0].key))
            && body.hasNext
            && (SomeOlder(l, body.rows[|body.rows| - 1].key) <==> SomeNotNewer(l, key))
  {
    var end := CountNewer(l, key);
    CursorEdges(l, key);
    SliceEdges(l, end - |Answer(l, Some(key), limit, PREV).rows|);
    SliceEdges(l, end - 1);
  }

  /** The flags say what is stored: the two cases above, for a table and its cursor text. */
  ghost predicate FlagsExact<D(!new)>(rows: seq<Row<D>>, body: Body<D, string>) {
    && body.rows != []
    && (body.hasNext <==> SomeOlder(rows, body.rows[|body.rows| - 1].key))
    && (body.hasPrev <==> SomeNewer(rows, body.rows[0].key))
  }

  lemma ListingIsSorted<D(!new)>(rows: seq<Row<D>>)
    requires Keyed(rows)
    ensures Sorted(Desc, Listing(rows))
  {
    OrderBySorts(Desc, rows);
  }

  lemma ListingHasTheRows<D(!new)>(rows: seq<Row<D>>, k: Key)
    requires Keyed(rows)
    ensures SomeOlder(rows, k) <==> SomeOlder(Listing(rows), k)
    ensures SomeNewer(rows, k) <==> SomeNewer(Listing(rows), k)
    ensures SomeNotOlder(rows, k) <==> SomeNotOlder(Listing(rows), k)
    ensures SomeNotNewer(rows, k) <==> SomeNotNewer(Listing(rows), k)
  {
    OrderBySorts(Desc, rows);
  }

  lemma FlagsInListing<D(!new)>(rows: seq<Row<D>>, body: Body<D, Key>)
    requires Keyed(rows) && body.rows != []
    ensures FlagsExact(rows, InText(body)) <==>
              && (body.hasNext <==> SomeOlder(Listing(rows), body.rows[|body.rows| - 1].key))
              && (body.hasPrev <==> SomeNewer(Listing(rows), body.rows[0].key))
  {
    hide SomeOlder, SomeNewer, SomeNotOlder, SomeNotNewer, Listing, Keyed;
    ListingHasTheRows(rows, body.rows[0].key);
    ListingHasTheRows(rows, body.rows[|body.rows| - 1].key);
  }

  /**
   * On every non-empty page both flags are exact if and only if there is no cursor, or, walking next, some
   * row is at or above it, or, walking prev, some row is at or below it.
   */
  lemma FlagsExactIff<D(!new)>(rows: seq<Row<D>>, cursor: string, key: Option<Key>, limit: Uint64, direction: string)
    requires Keyed(rows) && limit + 1 < TWO_TO_THE_64 && direction in {NEXT, PREV}
    requires DecodeCursor(Some(cursor)) == Ok(key)
    requires Respond(rows, cursor, limit, direction).Ok? && Respond(rows, cursor, limit, direction).value.rows != []
    ensures FlagsExact(rows, Respond(rows, cursor, limit, direction).value) <==>
              || key.None?
              || (direction == NEXT && SomeNotOlder(rows, key.value))
              || (direction == PREV && SomeNotNewer(rows, key.value))
  {
    hide Answer, Respond, DecodeCursor, SomeOlder, SomeNewer, SomeNotOlder, SomeNotNewer, Listing, OrderBy, Sorted,
      Keyed, FlagsExact;
    PrevHasAKey(rows, cursor, key, limit, direction);
    RespondIsAnswer(rows, cursor, key, limit, direction);
    ListingIsSorted(rows);
    FlagsInListing(rows, Answer(Listing(rows), key, limit, direction));
    if key.Some? {
      ListingHasTheRows(rows, key.value);
    }
    AnswerFlagsExactIff(Listing(rows), key, limit, direction);
  }

  lemma PrevHasAKey<D>(rows: seq<Row<D>>, cursor: string, key: Option<Key>, limit: Uint64, direction: string)
    requires DecodeCursor(Some(cursor)) == Ok(key) && Respond(rows, cursor, limit, direction).Ok?
    ensures direction == PREV ==> key.Some?
  {
    hide PageOf, Listing;
  }

  lemma AnswerFlagsExactIff<D(!new)>(l: seq<Row<D>>, key: Option<Key>, limit: nat, direction: string)
    requires Sorted(Desc, l) && direction in {NEXT, PREV} && (direction == PREV ==> key.Some?)
    requires Answer(l, key, limit, direction).rows != []
    ensures var body := Answer(l, key, limit, direction);
            (body.hasNext <==> SomeOlder(l, body.rows[|body.rows| - 1].key))
            && (body.hasPrev <==> SomeNewer(l, body.rows[0].key)) <==>
              || key.None?
              || (direction == NEXT && SomeNotOlder(l, key.value))
              || (direction == PREV && SomeNotNewer(l, key.value))
  {
    hide Answer, SomeOlder, SomeNewer, SomeNotOlder, SomeNotNewer, Sorted;
    if direction == NEXT {
      NextFlagsMeanRows(l, key, limit);
    } else {
      PrevFlagsMeanRows(l, key.value, limit);
    }
  }

  /** In particular, with a cursor that names a stored row both flags are exact in both directions. */
  lemma StoredCursorFlags<D(!new)>(rows: seq<Row<D>>, r: Row<D>, limit: Uint64, direction: string)
    requires Keyed(rows) && limit + 1 < TWO_TO_THE_64 && direction in {NEXT, PREV} && r in rows
    ensures var answer := Respond(rows, CursorText(r.key), limit, direction);
            answer.Ok? && (answer.value.rows != [] ==> FlagsExact(rows, answer.value))
  {
    CursorTextDecodes(r.key);
    RespondIsAnswer(rows, CursorText(r.key), Some(r.key), limit, direction);
    Trichotomy(r.key, r.key);
    if Respond(rows, CursorText(r.key), limit, direction).value.rows != [] {
      FlagsExactIff(rows, CursorText(r.key), Some(r.key), limit, direction);
    }
  }

  /** A cursor above every row makes `has_prev` promise a newer page that does not exist. */
  lemma ForgedCursorMisleads<D(!new)>(d: D)
    ensures var rows := [Row(Key(1, []), d)];
            var r := Respond(rows, CursorText(Key(2, [])), 1, NEXT);
            && Keyed(rows) && r.Ok? && r.value.rows == rows
            && r.value.hasPrev && !SomeNewer(rows, Key(1, [])) && !FlagsExact(rows, r.value)
  {
    var rows := [Row(Key(1, []), d)];
    CursorTextDecodes(Key(2, []));
    RespondIsAnswer(rows, CursorText(Key(2, [])), Some(Key(2, [])), 1, NEXT);
    assert OrderBy(Desc, rows[1..]) == [];
    assert Listing(rows) == rows;
    Trichotomy(Key(1, []), Key(1, []));
    assert FirstOlder(rows, Key(2, [])) == 0;
  }

  // ----- There and back -----

  lemma CursorTextDecodes(k: Key)
    ensures CursorText(k) != "" && DecodeCursor(Some(CursorText(k))) == Ok(Some(k))
  {
    DecodeOfPgEncode(false, k.hash);
    DecodeOfMakeTxCursor(k.height, PgEncode(k.hash));
  }

  /** The page below the row before index `turn` of the listing starts at `turn`. */
  lemma AnswerBelow<D(!new)>(l: seq<Row<D>>, turn: nat, limit: nat)
    requires Sorted(Desc, l) && 0 < turn < |l| && limit > 0
    ensures Answer(l, Some(l[turn - 1].key), limit, NEXT).rows == l[turn..Min(turn + limit, |l|)]
    ensures Answer(l, Some(l[turn - 1].key), limit, NEXT).prevCursor == Some(l[turn].key)
  {
    SliceEdges(l, turn - 1);
  }

  /** The page above the row at index `turn` ends just before it. */
  lemma AnswerAbove<D(!new)>(l: seq<Row<D>>, turn: nat, limit: nat)
    requires Sorted(Desc, l) && turn < |l|
    ensures Answer(l, Some(l[turn].key), limit, PREV)
            == KeyBody(l[Max(0, turn - limit)..turn], turn > limit, PREV, true)
  {
    SliceEdges(l, turn);
  }

  /** Where a full page ends: its next page starts at index `turn`. */
  lemma FullPage<D>(l: seq<Row<D>>, key: Option<Key>, limit: nat) returns (turn: nat)
    requires limit > 0 && Answer(l, key, limit, NEXT).hasNext
    ensures limit <= turn < |l|
    ensures Answer(l, key, limit, NEXT) == KeyBody(l[turn - limit..turn], true, NEXT, key.Some?)
  {
    turn := (if key.Some? then FirstOlder(l, key.value) else 0) + limit;
  }

  lemma KeyPrevUndoesNext<D(!new)>(l: seq<Row<D>>, key: Option<Key>, limit: nat)
    requires Sorted(Desc, l) && limit > 0 && Answer(l, key, limit, NEXT).hasNext
    ensures var here := Answer(l, key, limit, NEXT);
            && |here.rows| == limit && here.nextCursor.Some?
            && var ahead := Answer(l, here.nextCursor, limit, NEXT);
            && ahead.rows != [] && ahead.prevCursor.Some?
            && var back := Answer(l, ahead.prevCursor, limit, PREV);
            && back.rows == here.rows && back.nextCursor == here.nextCursor
  {
    hide Answer, Sorted;
    var turn := FullPage(l, key, limit);
    AnswerBelow(l, turn, limit);
    AnswerAbove(l, turn, limit);
  }

  /**
   * In a fixed table: from any page with a next page, go next, then back with that page's
   * `prev_cursor`, and the first page's rows return; go next again and the second body returns.
   */
  lemma PrevUndoesNext<D(!new)>(rows: seq<Row<D>>, cursor: string, limit: Uint64)
    requires Keyed(rows) && 0 < limit && limit + 1 < TWO_TO_THE_64
    requires Respond(rows, cursor, limit, NEXT).Ok? && Respond(rows, cursor, limit, NEXT).value.hasNext
    ensures var here := Respond(rows, cursor, limit, NEXT).value;
            && |here.rows| == limit && here.nextCursor.Some?
            && var ahead := Respond(rows, here.nextCursor.value, limit, NEXT);
            && ahead.Ok? && ahead.value.rows != [] && ahead.value.prevCursor.Some?
            && var back := Respond(rows, ahead.value.prevCursor.value, limit, PREV);
            && back.Ok? && back.value.rows == here.rows && back.value.nextCursor == here.nextCursor
            && Respond(rows, back.value.nextCursor.value, limit, NEXT) == ahead
  {
    var l := Listing(rows);
    var key := DecodeCursor(Some(cursor)).value;
    RespondIsAnswer(rows, cursor, key, limit, NEXT);
    OrderBySorts(Desc, rows);
    KeyPrevUndoesNext(l, key, limit);
    var next := Answer(l, key, limit, NEXT).nextCursor;
    CursorTextDecodes(next.value);
    RespondIsAnswer(rows, CursorText(next.value), next, limit, NEXT);
    var prev := Answer(l, next, limit, NEXT).prevCursor;
    CursorTextDecodes(prev.value);
    RespondIsAnswer(rows, CursorText(prev.value), prev, limit, PREV);
  }
}
