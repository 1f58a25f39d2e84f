/** What a client receives who follows `next_cursor` from the head while newer rows keep arriving. */
module Walks {
  import opened Results
  import opened Cursor
  import opened Keyset
  import opened Pages

  /** One request of a walk: what is stored when it is answered and the cursor it sends. */
  datatype Visit<D, C> = Visit(rows: seq<Row<D>>, cursor: C)

  /** Between two requests nothing disappears, and whatever appears is newer than the cursor in hand. */
  ghost predicate GrowsAbove<D(!new)>(before: seq<Row<D>>, after: seq<Row<D>>, c: Key) {
    && (forall r :: r in before ==> r in after)
    && (forall r :: r in after ==> r in before || Less(c, r.key))
  }

  function Flatten<T>(ss: seq<seq<T>>): seq<T> {
    if ss == [] then [] else ss[0] + Flatten(ss[1..])
  }

  // ----- Over listings and keys -----

  type KeyVisit<D> = Visit<D, Option<Key>>

  /** The part of a listing a `next` request still has ahead of it. */
  function Ahead<D>(v: KeyVisit<D>): seq<Row<D>> {
    if v.cursor.Some? then v.rows[FirstOlder(v.rows, v.cursor.value)..] else v.rows
  }

  function KeyAnswer<D>(v: KeyVisit<D>, limit: nat): Body<D, Key> {
    Answer(v.rows, v.cursor, limit, NEXT)
  }

  ghost predicate KeyFollows<D(!new)>(v: KeyVisit<D>, w: KeyVisit<D>, limit: nat) {
    w.cursor.Some? && KeyAnswer(v, limit).nextCursor == w.cursor && GrowsAbove(v.rows, w.rows, w.cursor.value)
  }

  /** Each request but the first sends the `next_cursor` of the one before; `rows` are newest-first listings. */
  ghost predicate KeyWalk<D(!new)>(visits: seq<KeyVisit<D>>, limit: nat) {
    && visits != []
    && (forall i :: 0 <= i < |visits| ==> Sorted(Desc, visits[i].rows))
    && (forall i :: 0 < i < |visits| ==> KeyFollows(visits[i - 1], visits[i], limit))
  }

  function KeyPages<D>(visits: seq<KeyVisit<D>>, limit: nat): seq<seq<Row<D>>> {
    seq(|visits|, i requires 0 <= i < |visits| => KeyAnswer(visits[i], limit).rows)
  }

  lemma OlderRowsStay<D(!new)>(before: seq<Row<D>>, after: seq<Row<D>>, c: Key)
    requires Sorted(Desc, before) && Sorted(Desc, after) && GrowsAbove(before, after, c)
    ensures Ahead(Visit(after, Some(c))) == Ahead(Visit(before, Some(c)))
  {
    var a, b := Ahead(Visit(after, Some(c))), Ahead(Visit(before, Some(c)));
    forall r ensures r in a <==> r in b {
      InAhead(after, c, r);
      InAhead(before, c, r);
      Trichotomy(r.key, c);
    }
    SortedIsUnique(Desc, a, b);
  }

  lemma InAhead<D>(l: seq<Row<D>>, c: Key, r: Row<D>)
    requires Sorted(Desc, l)
    ensures r in Ahead(Visit(l, Some(c))) <==> r in l && Less(r.key, c)
  {
    FirstOlderSplits(l, c);
    var n := FirstOlder(l, c);
    if r in l && Less(r.key, c) {
      var i :| 0 <= i < |l| && l[i] == r;
      assert l[n..][i - n] == r;
    }
  }

  lemma NextPage<D(!new)>(v: KeyVisit<D>, limit: nat)
    requires limit > 0
    ensures KeyAnswer(v, limit).rows == Limit(Ahead(v), limit)
    ensures KeyAnswer(v, limit).hasNext <==> |Ahead(v)| > limit
    ensures KeyAnswer(v, limit).nextCursor == if |Ahead(v)| > limit then Some(Ahead(v)[limit - 1].key) else None
  {
  }

  lemma NextStep<D(!new)>(v: KeyVisit<D>, limit: nat)
    requires Sorted(Desc, v.rows) && limit > 0 && |Ahead(v)| > limit
    ensures Ahead(Visit(v.rows, Some(Ahead(v)[limit - 1].key))) == Ahead(v)[limit..]
  {
    var start := if v.cursor.Some? then FirstOlder(v.rows, v.cursor.value) else 0;
    SliceEdges(v.rows, start + limit - 1);
  }

  lemma FirstOfMany<D(!new)>(visits: seq<KeyVisit<D>>, limit: nat)
    requires limit > 0 && KeyWalk(visits, limit) && |visits| > 1
    ensures var ahead := Ahead(visits[0]);
            && KeyWalk(visits[1..], limit)
            && |ahead| > limit && Ahead(visits[1]) == ahead[limit..]
            && Flatten(KeyPages(visits, limit)) == ahead[..limit] + Flatten(KeyPages(visits[1..], limit))
  {
    assert KeyFollows(visits[0], visits[1], limit);
    NextPage(visits[0], limit);
    NextStep(visits[0], limit);
    OlderRowsStay(visits[0].rows, visits[1].rows, visits[1].cursor.value);
    assert KeyPages(visits, limit)[1..] == KeyPages(visits[1..], limit);
  }

  lemma OnlyOne<D(!new)>(visits: seq<KeyVisit<D>>, limit: nat)
    requires limit > 0 && KeyWalk(visits, limit) && |visits| == 1
    ensures Flatten(KeyPages(visits, limit)) == Limit(Ahead(visits[0]), limit)
    ensures KeyAnswer(visits[0], limit).hasNext <==> |Ahead(visits[0])| > limit
  {
    NextPage(visits[0], limit);
    var pages := KeyPages(visits, limit);
    assert Flatten(pages[1..]) == [];
    assert pages[0] + [] == pages[0];
  }

  lemma PrefixContinues<T>(whole: seq<T>, n: nat, more: seq<T>)
    requires n <= |whole| && more <= whole[n..]
    ensures whole[..n] + more <= whole
    ensures whole[..n] + more == whole <==> more == whole[n..]
  {
    assert whole == whole[..n] + whole[n..];
  }

  lemma OneMore(k: nat, limit: nat)
    ensures (k + 1) * limit == k * limit + limit
  {
  }

  lemma {:induction false} WalkFrom<D(!new)>(visits: seq<KeyVisit<D>>, limit: nat)
    requires limit > 0 && KeyWalk(visits, limit)
    ensures var ahead, received := Ahead(visits[0]), Flatten(KeyPages(visits, limit));
            && received <= ahead
            && (received == ahead <==> !KeyAnswer(visits[|visits| - 1], limit).hasNext)
            && (|visits| > 1 ==> (|visits| - 1) * limit < |ahead|)
  {
    if |visits| == 1 {
      OnlyOne(visits, limit);
    } else {
      var rest := visits[1..];
      FirstOfMany(visits, limit);
      WalkFrom(rest, limit);
      PrefixContinues(Ahead(visits[0]), limit, Flatten(KeyPages(rest, limit)));
      OneMore(|rest| - 1, limit);
      assert rest[|rest| - 1] == visits[|visits| - 1];
    }
  }

  lemma KeyWalkListsAll<D(!new)>(visits: seq<KeyVisit<D>>, limit: nat)
    requires limit > 0 && KeyWalk(visits, limit) && visits[0].cursor.None?
    ensures var l, received := visits[0].rows, Flatten(KeyPages(visits, limit));
            && Sorted(Desc, received) && received <= l
            && (!KeyAnswer(visits[|visits| - 1], limit).hasNext <==> SameRows(received, l))
            && (|visits| > 1 ==> (|visits| - 1) * limit < |l|)
  {
    WalkFrom(visits, limit);
    var l, received := visits[0].rows, Flatten(KeyPages(visits, limit));
    assert received == l[..|received|];
    if SameRows(received, l) {
      SortedIsUnique(Desc, received, l);
    }
  }

  // ----- Over tables and cursor texts -----

  type TextVisit<D> = Visit<D, string>

  function TextAnswer<D>(v: TextVisit<D>, limit: Uint64): Result<Body<D, string>, PageError> {
    Respond(v.rows, v.cursor, limit, NEXT)
  }

  ghost predicate GrowsAboveText<D(!new)>(before: seq<Row<D>>, after: seq<Row<D>>, cursor: string) {
    match DecodeCursor(Some(cursor))
    case Ok(Some(c)) => GrowsAbove(before, after, c)
    case _ => true
  }

  ghost predicate Follows<D(!new)>(v: TextVisit<D>, w: TextVisit<D>, limit: Uint64) {
    && TextAnswer(v, limit).Ok?
    && TextAnswer(v, limit).value.nextCursor == Some(w.cursor)
    && GrowsAboveText(v.rows, w.rows, w.cursor)
  }

  /** A walk as the client sees it: texts in, texts out, tables with unique keys in any storage order. */
  ghost predicate Walk<D(!new)>(visits: seq<TextVisit<D>>, limit: Uint64) {
    && visits != []
    && (forall i :: 0 <= i < |visits| ==> Keyed(visits[i].rows) && TextAnswer(visits[i], limit).Ok?)
    && (forall i :: 0 < i < |visits| ==> Follows(visits[i - 1], visits[i], limit))
  }

  function TextPage<D>(v: TextVisit<D>, limit: Uint64): seq<Row<D>> {
    match TextAnswer(v, limit)
    case Ok(body) => body.rows
    case Err(_) => []
  }

  /** The rows received over a walk, in order. */
  function Received<D>(visits: seq<TextVisit<D>>, limit: Uint64): seq<Row<D>> {
    Flatten(seq(|visits|, i requires 0 <= i < |visits| => TextPage(visits[i], limit)))
  }

  /** The same request over the listing, with its cursor decoded. */
  function Decoded<D>(v: TextVisit<D>): KeyVisit<D> {
    Visit(Listing(v.rows), match DecodeCursor(Some(v.cursor)) case Ok(key) => key case Err(_) => None)
  }

  function AllDecoded<D>(visits: seq<TextVisit<D>>): seq<KeyVisit<D>> {
    seq(|visits|, i requires 0 <= i < |visits| => Decoded(visits[i]))
  }

  lemma DecodedVisit<D>(v: TextVisit<D>, limit: Uint64)
    requires limit + 1 < TWO_TO_THE_64 && TextAnswer(v, limit).Ok?
    ensures DecodeCursor(Some(v.cursor)) == Ok(Decoded(v).cursor)
    ensures TextAnswer(v, limit).value == InText(KeyAnswer(Decoded(v), limit))
    ensures TextPage(v, limit) == KeyAnswer(Decoded(v), limit).rows
  {
    RespondIsAnswer(v.rows, v.cursor, Decoded(v).cursor, limit, NEXT);
  }

  lemma DecodedSuccessor<D(!new)>(v: TextVisit<D>, w: TextVisit<D>, limit: Uint64)
    requires limit + 1 < TWO_TO_THE_64 && Follows(v, w, limit) && Keyed(v.rows) && Keyed(w.rows)
    ensures KeyFollows(Decoded(v), Decoded(w), limit)
  {
    DecodedVisit(v, limit);
    CursorTextDecodes(KeyAnswer(Decoded(v), limit).nextCursor.value);
    OrderBySorts(Desc, v.rows);
    OrderBySorts(Desc, w.rows);
  }

  lemma DecodedReceived<D(!new)>(visits: seq<TextVisit<D>>, limit: Uint64)
    requires limit + 1 < TWO_TO_THE_64 && Walk(visits, limit)
    ensures Flatten(KeyPages(AllDecoded(visits), limit)) == Received(visits, limit)
  {
    var pages := seq(|visits|, i requires 0 <= i < |visits| => TextPage(visits[i], limit));
    forall i | 0 <= i < |visits| ensures pages[i] == KeyPages(AllDecoded(visits), limit)[i] {
      DecodedVisit(visits[i], limit);
    }
    assert pages == KeyPages(AllDecoded(visits), limit);
  }

  lemma DecodedWalk<D(!new)>(visits: seq<TextVisit<D>>, limit: Uint64)
    requires limit + 1 < TWO_TO_THE_64 && Walk(visits, limit)
    ensures KeyWalk(AllDecoded(visits), limit)
  {
    var keys := AllDecoded(visits);
    forall i | 0 <= i < |visits| ensures Sorted(Desc, keys[i].rows) {
      OrderBySorts(Desc, visits[i].rows);
    }
    forall i | 0 < i < |visits| ensures KeyFollows(keys[i - 1], keys[i], limit) {
      DecodedSuccessor(visits[i - 1], visits[i], limit);
    }
  }

  /**
   * Following `next_cursor` from a cursor-less request, with newer rows arriving in between: the rows
   * received are a prefix of the listing of the table as it first was, strictly newest first, so no row
   * comes twice and none that was there is skipped; the walk is over exactly when all of them have
   * been received; and it takes at most one request per `limit` rows.
   */
  lemma WalkListsTheTable<D(!new)>(visits: seq<TextVisit<D>>, limit: Uint64)
    requires 0 < limit && limit + 1 < TWO_TO_THE_64 && Walk(visits, limit) && visits[0].cursor == ""
    ensures var table, received := visits[0].rows, Received(visits, limit);
            var last := TextAnswer(visits[|visits| - 1], limit);
            && last.Ok?
            && Sorted(Desc, received) && received <= Listing(table)
            && (!last.value.hasNext <==> SameRows(received, table))
            && (|visits| > 1 ==> (|visits| - 1) * limit < |Listing(table)|)
  {
    DecodedWalk(visits, limit);
    DecodedReceived(visits, limit);
    KeyWalkListsAll(AllDecoded(visits), limit);
    DecodedVisit(visits[|visits| - 1], limit);
    OrderBySorts(Desc, visits[0].rows);
  }

  lemma KeyWalkContinues<D(!new)>(v: KeyVisit<D>, w: KeyVisit<D>, limit: nat)
    requires Sorted(Desc, v.rows) && Sorted(Desc, w.rows) && limit > 0
    requires KeyAnswer(v, limit).hasNext && KeyFollows(v, w, limit)
    ensures KeyAnswer(w, limit).rows != []
  {
    NextPage(v, limit);
    NextStep(v, limit);
    OlderRowsStay(v.rows, w.rows, w.cursor.value);
    NextPage(w, limit);
  }

  /** A walk that has not ended can always be continued: the cursor it holds is accepted and finds rows. */
  lemma WalkContinues<D(!new)>(v: TextVisit<D>, later: seq<Row<D>>, limit: Uint64)
    requires Keyed(v.rows) && Keyed(later) && 0 < limit && limit + 1 < TWO_TO_THE_64
    requires TextAnswer(v, limit).Ok? && TextAnswer(v, limit).value.hasNext
    requires TextAnswer(v, limit).value.nextCursor.Some? ==>
               GrowsAboveText(v.rows, later, TextAnswer(v, limit).value.nextCursor.value)
    ensures var next := TextAnswer(v, limit).value.nextCursor;
            && next.Some? && TextAnswer(Visit(later, next.value), limit).Ok?
            && TextPage(Visit(later, next.value), limit) != []
  {
    DecodedVisit(v, limit);
    NextPage(Decoded(v), limit);
    var w := Visit(later, TextAnswer(v, limit).value.nextCursor.value);
    DecodedSuccessor(v, w, limit);
    OrderBySorts(Desc, v.rows);
    OrderBySorts(Desc, later);
    KeyWalkContinues(Decoded(v), Decoded(w), limit);
    CursorTextDecodes(KeyAnswer(Decoded(v), limit).nextCursor.value);
    RespondIsAnswer(later, w.cursor, Decoded(w).cursor, limit, NEXT);
  }
}
