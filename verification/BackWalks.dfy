/** What a client receives who follows `prev_cursor` towards the head while newer rows keep arriving. */
module BackWalks {
  import opened Results
  import opened Cursor
  import opened Keyset
  import opened Pages
  import opened Walks

  // ----- Over listings and keys -----

  type KeyedVisit<D> = Visit<D, Key>

  function BackAnswer<D>(v: KeyedVisit<D>, limit: nat): Body<D, Key> {
    Answer(v.rows, Some(v.cursor), limit, PREV)
  }

  ghost predicate BackFollows<D(!new)>(v: KeyedVisit<D>, w: KeyedVisit<D>, limit: nat) {
    BackAnswer(v, limit).prevCursor == Some(w.cursor) && GrowsAbove(v.rows, w.rows, w.cursor)
  }

  /** Each request but the first sends the `prev_cursor` of the one before; `rows` are newest-first listings. */
  ghost predicate KeyBack<D(!new)>(visits: seq<KeyedVisit<D>>, limit: nat) {
    && visits != []
    && (forall i :: 0 <= i < |visits| ==> Sorted(Desc, visits[i].rows))
    && (forall i :: 0 < i < |visits| ==> BackFollows(visits[i - 1], visits[i], limit))
  }

  /** The rows received, newest first: later pages stand before earlier ones. */
  function KeyGathered<D>(visits: seq<KeyedVisit<D>>, limit: nat): seq<Row<D>> {
    if visits == [] then []
    else BackAnswer(visits[|visits| - 1], limit).rows + KeyGathered(visits[..|visits| - 1], limit)
  }

  /** The rows that are not newer than the cursor in hand stay. */
  lemma NotNewerStay<D(!new)>(before: seq<Row<D>>, after: seq<Row<D>>, c: Key)
    requires Sorted(Desc, before) && Sorted(Desc, after) && GrowsAbove(before, after, c)
    ensures before[CountNewer(before, c)..] == after[CountNewer(after, c)..]
  {
    var a, b := before[CountNewer(before, c)..], after[CountNewer(after, c)..];
    forall r ensures r in a <==> r in b {
      NotNewerIn(before, c, r);
      NotNewerIn(after, c, r);
    }
    SortedIsUnique(Desc, a, b);
  }

  lemma NotNewerIn<D>(l: seq<Row<D>>, c: Key, r: Row<D>)
    requires Sorted(Desc, l)
    ensures r in l[CountNewer(l, c)..] <==> r in l && !Less(c, r.key)
  {
    CountNewerSplits(l, c);
    var n := CountNewer(l, c);
    if r in l && !Less(c, r.key) {
      var i :| 0 <= i < |l| && l[i] == r;
      assert l[n..][i - n] == r;
    }
  }

  /** A page back is the slice just above its cursor; its own cursor is the slice's first row. */
  lemma BackPage<D(!new)>(v: KeyedVisit<D>, limit: nat)
    requires Sorted(Desc, v.rows) && limit > 0
    ensures var n, body := CountNewer(v.rows, v.cursor), BackAnswer(v, limit);
            && body.rows == v.rows[Max(0, n - limit)..n]
            && (body.hasPrev <==> n > limit)
            && (body.prevCursor.Some? <==> n > limit)
            && (n > limit ==> body.prevCursor == Some(v.rows[n - limit].key)
                              && CountNewer(v.rows, v.rows[n - limit].key) == n - limit)
  {
    var n := CountNewer(v.rows, v.cursor);
    if n > limit {
      SliceEdges(v.rows, n - limit);
    }
  }

  /** Rows at or below a position are counted from it, whatever arrived above. */
  lemma CountShifts<D(!new)>(before: seq<Row<D>>, after: seq<Row<D>>, i: nat, j: nat, c: Key)
    requires Sorted(Desc, before) && Sorted(Desc, after)
    requires i <= CountNewer(before, c) && i < |before| && j <= |after| && before[i..] == after[j..]
    ensures i < CountNewer(before, c) ==> CountNewer(after, c) == j + (CountNewer(before, c) - i)
  {
    CountNewerSplits(before, c);
    CountNewerSplits(after, c);
    var n, m := CountNewer(before, c), CountNewer(after, c);
    assert |before| - i == |after| - j;
    assert forall k :: i <= k < |before| ==> before[k] == before[i..][k - i] == after[j..][k - i] == after[j + (k - i)];
    if i < n {
      assert Less(c, after[j + (n - 1 - i)].key);
      if n < |before| {
        assert !Less(c, after[j + (n - i)].key);
      }
    }
  }

  /** After `count` pages: what was received ends just above the first cursor, and what the last page announces. */
  predicate Reached<D(==)>(l: seq<Row<D>>, first: Key, got: seq<Row<D>>, last: Body<D, Key>, count: nat, limit: nat) {
    var n := CountNewer(l, first);
    && |got| <= n && got == l[n - |got|..n]
    && (last.hasPrev <==> |got| < n)
    && (last.prevCursor.Some? <==> |got| < n)
    && (|got| < n ==> 0 < |got| == count * limit && last.prevCursor == Some(l[n - |got|].key))
    && (count > 1 ==> (count - 1) * limit < n)
  }

  lemma OneBack<D(!new)>(v: KeyedVisit<D>, limit: nat)
    requires Sorted(Desc, v.rows) && limit > 0
    ensures Reached(v.rows, v.cursor, BackAnswer(v, limit).rows, BackAnswer(v, limit), 1, limit)
  {
    hide Sorted, BackAnswer;
    BackPage(v, limit);
  }

  lemma OneMoreBack<D(!new)>(v: KeyedVisit<D>, w: KeyedVisit<D>, got: seq<Row<D>>, first: Key, count: nat, limit: nat)
    requires Sorted(Desc, v.rows) && Sorted(Desc, w.rows) && limit > 0 && count > 0
    requires Reached(v.rows, first, got, BackAnswer(v, limit), count, limit) && BackFollows(v, w, limit)
    ensures Reached(w.rows, first, BackAnswer(w, limit).rows + got, BackAnswer(w, limit), count + 1, limit)
  {
    hide Sorted, BackAnswer, GrowsAbove, CountNewer;
    var i, j := CountNewer(v.rows, first) - |got|, CountNewer(w.rows, w.cursor);
    BackPage(w, limit);
    Shifted(v.rows, w.rows, w.cursor, first, i);
    var page := BackAnswer(w, limit).rows;
    SlicesMeet(v.rows, w.rows, i, j, got, page, Max(0, j - limit));
    Counted(w.rows, j, limit, count, got, page);
  }

  /** How far the rows gathered so far and one more page reach. */
  lemma Counted<T>(l: seq<T>, j: nat, limit: nat, count: nat, got: seq<T>, page: seq<T>)
    requires 0 < j && j + |got| <= |l| && limit > 0 && |got| == count * limit
    requires page == l[Max(0, j - limit)..j] && page + got == l[Max(0, j - limit)..j + |got|]
    ensures |page + got| == |page| + |got| <= j + |got|
    ensures |page + got| < j + |got| <==> j > limit
    ensures j > limit ==> |page + got| == (count + 1) * limit
    ensures j + |got| - |page + got| == Max(0, j - limit)
    ensures count * limit < j + |got|
  {
    OneMore(count, limit);
  }

  /**
   * Going back from a cursor, with newer rows arriving in between: the rows received are exactly the stored rows just
   * above the cursor, without a gap; they are all of them when no page before is announced.
   */
  lemma {:induction false} KeyBackListsAll<D(!new)>(visits: seq<KeyedVisit<D>>, limit: nat)
    requires limit > 0 && KeyBack(visits, limit)
    ensures var last := visits[|visits| - 1];
            Reached(last.rows, visits[0].cursor, KeyGathered(visits, limit), BackAnswer(last, limit), |visits|, limit)
    decreases |visits|
  {
    hide Sorted, BackAnswer, BackFollows, Reached;
    var k := |visits| - 1;
    if k == 0 {
      assert KeyGathered(visits[..0], limit) == [];
      assert BackAnswer(visits[0], limit).rows + [] == BackAnswer(visits[0], limit).rows;
      OneBack(visits[0], limit);
    } else {
      var init := visits[..k];
      assert forall i :: 0 <= i < |init| ==> init[i] == visits[i];
      KeyBackListsAll(init, limit);
      OneMoreBack(visits[k - 1], visits[k], KeyGathered(init, limit), visits[0].cursor, k, limit);
    }
  }

  lemma NewerStays<D(!new)>(before: seq<Row<D>>, after: seq<Row<D>>, c: Key)
    requires Sorted(Desc, before) && Sorted(Desc, after) && GrowsAbove(before, after, c) && CountNewer(before, c) > 0
    ensures CountNewer(after, c) > 0
  {
    CountNewerSplits(before, c);
    CountNewerSplits(after, c);
    assert before[0] in after && Less(c, before[0].key);
    var i :| 0 <= i < |after| && after[i] == before[0];
  }

  /** The rows from index i on keep their distances when newer rows arrive above them. */
  lemma Shifted<D(!new)>(before: seq<Row<D>>, after: seq<Row<D>>, c: Key, first: Key, i: nat)
    requires Sorted(Desc, before) && Sorted(Desc, after) && GrowsAbove(before, after, c)
    requires 0 < i < CountNewer(before, first) && c == before[i].key
    ensures var j := CountNewer(after, c);
            && 0 < j <= |after| && before[i..] == after[j..]
            && CountNewer(after, first) == j + (CountNewer(before, first) - i)
  {
    hide Sorted, GrowsAbove, Less, SomeOlder, SomeNewer;
    SliceEdges(before, i);
    NotNewerStay(before, after, c);
    NewerStays(before, after, c);
    CountShifts(before, after, i, CountNewer(after, c), first);
  }

  lemma SlicesMeet<T>(a: seq<T>, b: seq<T>, i: nat, j: nat, got: seq<T>, page: seq<T>, s: nat)
    requires i + |got| <= |a| && got == a[i..i + |got|]
    requires s <= j <= |b| && page == b[s..j] && i <= |a| && a[i..] == b[j..]
    ensures j + |got| <= |b| && page + got == b[s..j + |got|]
  {
    assert got == a[i..][..|got|] == b[j..][..|got|] == b[j..j + |got|];
  }

  // ----- Over tables and cursor texts -----

  function TextBack<D>(v: TextVisit<D>, limit: Uint64): Result<Body<D, string>, PageError> {
    Respond(v.rows, v.cursor, limit, PREV)
  }

  /** A walk back as the client sees it: texts in, texts out, tables with unique keys in any storage order. */
  ghost predicate BackWalk<D(!new)>(visits: seq<TextVisit<D>>, limit: Uint64) {
    && visits != []
    && (forall i :: 0 <= i < |visits| ==> Keyed(visits[i].rows) && TextBack(visits[i], limit).Ok?)
    && (forall i :: 0 < i < |visits| ==>
          && TextBack(visits[i - 1], limit).value.prevCursor == Some(visits[i].cursor)
          && GrowsAboveText(visits[i - 1].rows, visits[i].rows, visits[i].cursor))
  }

  /** The rows received, newest first: later pages stand before earlier ones. */
  function Gathered<D>(visits: seq<TextVisit<D>>, limit: Uint64): seq<Row<D>> {
    if visits == [] then []
    else
      var v := visits[|visits| - 1];
      (match TextBack(v, limit) case Ok(body) => body.rows case Err(_) => [])
        + Gathered(visits[..|visits| - 1], limit)
  }

  function CursorKey(cursor: string): Key {
    match DecodeCursor(Some(cursor))
    case Ok(Some(k)) => k
    case _ => Key(0, [])
  }

  function ByKey<D>(v: TextVisit<D>): KeyedVisit<D> {
    Visit(Listing(v.rows), CursorKey(v.cursor))
  }

  function AllByKey<D>(visits: seq<TextVisit<D>>): seq<KeyedVisit<D>> {
    seq(|visits|, i requires 0 <= i < |visits| => ByKey(visits[i]))
  }

  lemma ByKeyAnswers<D>(v: TextVisit<D>, limit: Uint64)
    requires limit + 1 < TWO_TO_THE_64 && TextBack(v, limit).Ok?
    ensures DecodeCursor(Some(v.cursor)) == Ok(Some(CursorKey(v.cursor)))
    ensures TextBack(v, limit).value == InText(BackAnswer(ByKey(v), limit))
  {
    PrevHasAKey(v.rows, v.cursor, DecodeCursor(Some(v.cursor)).value, limit, PREV);
    RespondIsAnswer(v.rows, v.cursor, Some(CursorKey(v.cursor)), limit, PREV);
  }

  lemma ByKeyFollows<D(!new)>(v: TextVisit<D>, w: TextVisit<D>, limit: Uint64)
    requires limit + 1 < TWO_TO_THE_64 && TextBack(v, limit).Ok? && TextBack(w, limit).Ok?
    requires Keyed(v.rows) && Keyed(w.rows)
    requires TextBack(v, limit).value.prevCursor == Some(w.cursor) && GrowsAboveText(v.rows, w.rows, w.cursor)
    ensures BackFollows(ByKey(v), ByKey(w), limit)
  {
    ByKeyAnswers(v, limit);
    ByKeyAnswers(w, limit);
    CursorTextDecodes(BackAnswer(ByKey(v), limit).prevCursor.value);
    SameGrowth(v.rows, w.rows, CursorKey(w.cursor));
  }

  lemma SameGrowth<D(!new)>(before: seq<Row<D>>, after: seq<Row<D>>, c: Key)
    requires Keyed(before) && Keyed(after) && GrowsAbove(before, after, c)
    ensures GrowsAbove(Listing(before), Listing(after), c)
  {
    OrderBySorts(Desc, before);
    OrderBySorts(Desc, after);
  }

  lemma {:induction false} ByKeyGathers<D(!new)>(visits: seq<TextVisit<D>>, limit: Uint64)
    requires limit + 1 < TWO_TO_THE_64 && forall i :: 0 <= i < |visits| ==> TextBack(visits[i], limit).Ok?
    ensures KeyGathered(AllByKey(visits), limit) == Gathered(visits, limit)
    decreases |visits|
  {
    if visits != [] {
      var k := |visits| - 1;
      ByKeyGathers(visits[..k], limit);
      ByKeyAnswers(visits[k], limit);
      assert AllByKey(visits)[..k] == AllByKey(visits[..k]);
    }
  }

  lemma ByKeySorted<D(!new)>(v: TextVisit<D>)
    requires Keyed(v.rows)
    ensures Sorted(Desc, ByKey(v).rows)
  {
    OrderBySorts(Desc, v.rows);
  }

  lemma ByKeyWalks<D(!new)>(visits: seq<TextVisit<D>>, limit: Uint64)
    requires limit + 1 < TWO_TO_THE_64 && BackWalk(visits, limit)
    ensures KeyBack(AllByKey(visits), limit)
  {
    hide Sorted, Keyed, TextBack, BackFollows, GrowsAboveText, ByKey;
    var keys := AllByKey(visits);
    forall i | 0 <= i < |visits| ensures Sorted(Desc, keys[i].rows) {
      ByKeySorted(visits[i]);
    }
    forall i | 0 < i < |visits| ensures BackFollows(keys[i - 1], keys[i], limit) {
      ByKeyFollows(visits[i - 1], visits[i], limit);
    }
  }

  /**
   * Following `prev_cursor` from any cursor, with newer rows arriving in between: the rows received, later pages
   * before earlier ones, are a contiguous slice of the listing of the table as it is in the end, strictly newest
   * first, ending just above the first cursor; so no row comes twice and none is skipped. The walk is over exactly
   * when every row newer than the first cursor has been received, and it takes at most one request per `limit` rows.
   */
  lemma BackWalkListsTheTable<D(!new)>(visits: seq<TextVisit<D>>, limit: Uint64)
    requires 0 < limit && limit + 1 < TWO_TO_THE_64 && BackWalk(visits, limit)
    ensures var last, got := visits[|visits| - 1], Gathered(visits, limit);
            var l, n := Listing(last.rows), CountNewer(Listing(last.rows), CursorKey(visits[0].cursor));
            && |got| <= n && got == l[n - |got|..n]
            && (TextBack(last, limit).value.hasPrev <==> |got| < n)
            && (TextBack(last, limit).value.hasPrev <==> TextBack(last, limit).value.prevCursor.Some?)
            && (|visits| > 1 ==> (|visits| - 1) * limit < n)
  {
    hide Sorted, Keyed, TextBack, BackAnswer, Gathered, KeyGathered, CountNewer, Listing;
    var k := |visits| - 1;
    ByKeyWalks(visits, limit);
    ByKeyGathers(visits, limit);
    KeyBackListsAll(AllByKey(visits), limit);
    ByKeyAnswers(visits[k], limit);
    ByKeySorted(visits[k]);
    BackPage(ByKey(visits[k]), limit);
  }

  /** In particular a walk that is over has received exactly the rows newer than the cursor it began with. */
  lemma BackWalkEnds<D(!new)>(visits: seq<TextVisit<D>>, limit: Uint64, r: Row<D>)
    requires 0 < limit && limit + 1 < TWO_TO_THE_64 && BackWalk(visits, limit)
    requires !TextBack(visits[|visits| - 1], limit).value.hasPrev
    ensures r in Gathered(visits, limit) <==>
              r in visits[|visits| - 1].rows && Less(CursorKey(visits[0].cursor), r.key)
  {
    var l, c := Listing(visits[|visits| - 1].rows), CursorKey(visits[0].cursor);
    BackWalkListsTheTable(visits, limit);
    OrderBySorts(Desc, visits[|visits| - 1].rows);
    CountNewerSplits(l, c);
    if r in l && Less(c, r.key) {
      var i :| 0 <= i < |l| && l[i] == r;
      assert l[0..CountNewer(l, c)][i] == r;
    }
  }
}
