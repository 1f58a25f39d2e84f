/**
 * The order that keyset pagination seeks in: PostgreSQL's row comparison on
 * (block_height, tx_hash), and `SELECT ... WHERE ... ORDER BY ... LIMIT` over it.
 */
module Keyset {
  import opened Base64
  import opened Cursor

  /** PostgreSQL compares `bytea` values bytewise, a proper prefix being smaller. */
  predicate BytesLess(a: Bytes, b: Bytes) {
    b != [] && (a == [] || a[0] < b[0] || (a[0] == b[0] && BytesLess(a[1..], b[1..])))
  }

  /** `(a.height, a.hash) < (b.height, b.hash)`. */
  predicate Less(a: Key, b: Key) {
    a.height < b.height || (a.height == b.height && BytesLess(a.hash, b.hash))
  }

  /** The first differing byte decides; without one the shorter text is smaller. */
  lemma {:induction false} BytesLessIff(a: Bytes, b: Bytes)
    ensures BytesLess(a, b) <==>
              || (|a| < |b| && a == b[..|a|])
              || exists i :: 0 <= i < |a| && i < |b| && a[..i] == b[..i] && a[i] < b[i]
  {
    if a != [] && b != [] && a[0] == b[0] {
      BytesLessIff(a[1..], b[1..]);
      assert a == [a[0]] + a[1..] && b == [b[0]] + b[1..];
      if |a| < |b| {
        assert b[1..][..|a| - 1] == b[..|a|][1..];
      }
      if i :| 0 <= i < |a| && i < |b| && a[..i] == b[..i] && a[i] < b[i] {
        assert a[1..][..i - 1] == a[..i][1..] && b[1..][..i - 1] == b[..i][1..];
      }
      if i :| 0 <= i < |a[1..]| && i < |b[1..]| && a[1..][..i] == b[1..][..i] && a[1..][i] < b[1..][i] {
        assert a[..i + 1] == [a[0]] + a[1..][..i] && b[..i + 1] == [b[0]] + b[1..][..i];
        assert a[i + 1] < b[i + 1];
      }
    } else if a != [] && b != [] && a[0] < b[0] {
      assert a[..0] == b[..0];
    }
  }

  lemma {:induction false} BytesTrichotomy(a: Bytes, b: Bytes)
    ensures BytesLess(a, b) ==> a != b && !BytesLess(b, a)
    ensures a == b || BytesLess(a, b) || BytesLess(b, a)
  {
    if a != [] && b != [] && a[0] == b[0] {
      BytesTrichotomy(a[1..], b[1..]);
      assert a == [a[0]] + a[1..] && b == [b[0]] + b[1..];
    }
  }

  lemma {:induction false} BytesTransitive(a: Bytes, b: Bytes, c: Bytes)
    requires BytesLess(a, b) && BytesLess(b, c)
    ensures BytesLess(a, c)
  {
    if a != [] && a[0] == b[0] == c[0] {
      BytesTransitive(a[1..], b[1..], c[1..]);
    }
  }

  lemma Trichotomy(a: Key, b: Key)
    ensures Less(a, b) ==> a != b && !Less(b, a)
    ensures a == b || Less(a, b) || Less(b, a)
  {
    BytesTrichotomy(a.hash, b.hash);
  }

  lemma Transitive(a: Key, b: Key, c: Key)
    requires Less(a, b) && Less(b, c)
    ensures Less(a, c)
  {
    if a.height == b.height == c.height {
      BytesTransitive(a.hash, b.hash, c.hash);
    }
  }

  /** A row with its seek key; `data` stands for the remaining columns. */
  datatype Row<+D> = Row(key: Key, data: D)

  /** The seek key is unique in what is paged through. */
  predicate Keyed<D>(rows: seq<Row<D>>) {
    forall i, j :: 0 <= i < j < |rows| ==> rows[i].key != rows[j].key
  }

  datatype Order = Asc | Desc

  /** `a` comes strictly before `b` under `ORDER BY block_height o, tx_hash o`. */
  predicate Before(o: Order, a: Key, b: Key) {
    if o.Asc? then Less(a, b) else Less(b, a)
  }

  predicate Sorted<D>(o: Order, rows: seq<Row<D>>) {
    forall i, j :: 0 <= i < j < |rows| ==> Before(o, rows[i].key, rows[j].key)
  }

  ghost predicate SameRows<D(!new)>(a: seq<Row<D>>, b: seq<Row<D>>) {
    forall r :: r in a <==> r in b
  }

  function Insert<D>(o: Order, r: Row<D>, rows: seq<Row<D>>): seq<Row<D>> {
    if rows == [] then [r]
    else if Before(o, r.key, rows[0].key) then [r] + rows
    else [rows[0]] + Insert(o, r, rows[1..])
  }

  /** `ORDER BY`. */
  function OrderBy<D>(o: Order, rows: seq<Row<D>>): seq<Row<D>> {
    if rows == [] then [] else Insert(o, rows[0], OrderBy(o, rows[1..]))
  }

  /** `WHERE`. */
  function Where<D>(rows: seq<Row<D>>, keep: Row<D> -> bool): seq<Row<D>> {
    if rows == [] then []
    else (if keep(rows[0]) then [rows[0]] else []) + Where(rows[1..], keep)
  }

  /** `LIMIT`. */
  function Limit<T>(rows: seq<T>, n: nat): seq<T> {
    if |rows| <= n then rows else rows[..n]
  }

  function Reversed<T>(s: seq<T>): seq<T> {
    seq(|s|, i requires 0 <= i < |s| => s[|s| - 1 - i])
  }

  lemma {:induction false} InsertSorted<D(!new)>(o: Order, r: Row<D>, rows: seq<Row<D>>)
    requires Sorted(o, rows)
    requires forall i :: 0 <= i < |rows| ==> rows[i].key != r.key
    ensures Sorted(o, Insert(o, r, rows)) && SameRows(Insert(o, r, rows), [r] + rows)
  {
    if rows != [] {
      Trichotomy(r.key, rows[0].key);
      var rest := rows[1..];
      assert rows == [rows[0]] + rest;
      if Before(o, r.key, rows[0].key) {
        forall i | 0 < i < |rows| ensures Before(o, r.key, rows[i].key) {
          Transitive(if o.Asc? then r.key else rows[i].key, rows[0].key, if o.Asc? then rows[i].key else r.key);
        }
      } else {
        InsertSorted(o, r, rest);
        var tail := Insert(o, r, rest);
        forall i | 0 <= i < |tail| ensures Before(o, rows[0].key, tail[i].key) {
          assert tail[i] in [r] + rest;
        }
      }
    }
  }

  lemma {:induction false} OrderBySorts<D(!new)>(o: Order, rows: seq<Row<D>>)
    requires Keyed(rows)
    ensures Sorted(o, OrderBy(o, rows)) && SameRows(OrderBy(o, rows), rows)
  {
    if rows != [] {
      var rest := rows[1..];
      OrderBySorts(o, rest);
      forall i | 0 <= i < |OrderBy(o, rest)| ensures OrderBy(o, rest)[i].key != rows[0].key {
        assert OrderBy(o, rest)[i] in rest;
      }
      InsertSorted(o, rows[0], OrderBy(o, rest));
      assert rows == [rows[0]] + rest;
    }
  }

  lemma SortedHeadIsExtreme<D(!new)>(o: Order, a: seq<Row<D>>, b: seq<Row<D>>)
    requires Sorted(o, a) && Sorted(o, b) && SameRows(a, b) && a != []
    ensures b != [] && a[0] == b[0]
  {
    assert a[0] in b && b[0] in a;
    var i :| 0 <= i < |b| && b[i] == a[0];
    var j :| 0 <= j < |a| && a[j] == b[0];
    Trichotomy(a[0].key, b[0].key);
  }

  /** A set of rows has only one strictly ordered listing. */
  lemma {:induction false} SortedIsUnique<D(!new)>(o: Order, a: seq<Row<D>>, b: seq<Row<D>>)
    requires Sorted(o, a) && Sorted(o, b) && SameRows(a, b)
    ensures a == b
  {
    if b != [] {
      SortedHeadIsExtreme(o, b, a);
    }
    if a != [] {
      SortedHeadIsExtreme(o, a, b);
      forall r ensures r in a[1..] <==> r in b[1..] {
        HeadIsNotInTail(o, a);
        HeadIsNotInTail(o, b);
        assert a == [a[0]] + a[1..] && b == [b[0]] + b[1..];
        assert r in a <==> r == a[0] || r in a[1..];
        assert r in b <==> r == b[0] || r in b[1..];
      }
      SortedIsUnique(o, a[1..], b[1..]);
      assert a == [a[0]] + a[1..] && b == [b[0]] + b[1..];
    }
  }

  lemma HeadIsNotInTail<D>(o: Order, a: seq<Row<D>>)
    requires Sorted(o, a) && a != []
    ensures a[0] !in a[1..]
  {
    forall i | 0 < i < |a| ensures a[i] != a[0] {
      Trichotomy(a[0].key, a[i].key);
    }
  }

  lemma {:induction false} WhereKeeps<D(!new)>(rows: seq<Row<D>>, keep: Row<D> -> bool)
    ensures forall r :: r in Where(rows, keep) <==> r in rows && keep(r)
    ensures Keyed(rows) ==> Keyed(Where(rows, keep))
  {
    if rows != [] {
      WhereKeeps(rows[1..], keep);
      assert rows == [rows[0]] + rows[1..];
      var rest := Where(rows[1..], keep);
      if Keyed(rows) {
        forall i | 0 <= i < |rest| ensures rest[i].key != rows[0].key {
          assert rest[i] in rows[1..];
        }
      }
    }
  }

  /** Every row, newest first: what the pages are slices of. */
  function Listing<D>(rows: seq<Row<D>>): seq<Row<D>> {
    OrderBy(Desc, rows)
  }

  /** Index in a newest-first listing of the first row strictly older than `c`. */
  function FirstOlder<D>(l: seq<Row<D>>, c: Key): (n: nat)
    ensures n <= |l|
  {
    if l == [] || Less(l[0].key, c) then 0 else 1 + FirstOlder(l[1..], c)
  }

  /** Number of rows in a newest-first listing strictly newer than `c`. */
  function CountNewer<D>(l: seq<Row<D>>, c: Key): (n: nat)
    ensures n <= |l|
  {
    if l == [] || !Less(c, l[0].key) then 0 else 1 + CountNewer(l[1..], c)
  }

  lemma {:induction false} FirstOlderSplits<D>(l: seq<Row<D>>, c: Key)
    requires Sorted(Desc, l)
    ensures forall i :: 0 <= i < |l| ==> (Less(l[i].key, c) <==> FirstOlder(l, c) <= i)
  {
    if l != [] {
      if Less(l[0].key, c) {
        forall i | 0 < i < |l| ensures Less(l[i].key, c) {
          Transitive(l[i].key, l[0].key, c);
        }
      } else {
        FirstOlderSplits(l[1..], c);
        assert forall i :: 0 < i < |l| ==> l[i] == l[1..][i - 1];
      }
    }
  }

  lemma {:induction false} CountNewerSplits<D>(l: seq<Row<D>>, c: Key)
    requires Sorted(Desc, l)
    ensures forall i :: 0 <= i < |l| ==> (Less(c, l[i].key) <==> i < CountNewer(l, c))
  {
    if l != [] {
      if !Less(c, l[0].key) {
        forall i | 0 < i < |l| ensures !Less(c, l[i].key) {
          Trichotomy(c, l[0].key);
          Trichotomy(c, l[i].key);
          if Less(c, l[i].key) {
            Transitive(c, l[i].key, l[0].key);
          }
        }
      } else {
        CountNewerSplits(l[1..], c);
        assert forall i :: 0 < i < |l| ==> l[i] == l[1..][i - 1];
      }
    }
  }

  /** Newest first: heights never grow along the listing, and within a height the hashes fall. */
  lemma HeightsFall<D(!new)>(rows: seq<Row<D>>, i: nat, j: nat)
    requires Keyed(rows) && i < j < |Listing(rows)|
    ensures var a, b := Listing(rows)[i].key, Listing(rows)[j].key;
            b.height < a.height || (b.height == a.height && BytesLess(b.hash, a.hash))
  {
    OrderBySorts(Desc, rows);
  }

  /** At most the row the cursor names lies between what is newer and what is older. */
  lemma CursorGap<D>(l: seq<Row<D>>, c: Key)
    requires Sorted(Desc, l)
    ensures CountNewer(l, c) <= FirstOlder(l, c) <= CountNewer(l, c) + 1
    ensures FirstOlder(l, c) == CountNewer(l, c) + 1 <==> exists i :: 0 <= i < |l| && l[i].key == c
    ensures FirstOlder(l, c) == CountNewer(l, c) + 1 ==> l[CountNewer(l, c)].key == c
  {
    FirstOlderSplits(l, c);
    CountNewerSplits(l, c);
    forall i | 0 <= i < |l|
      ensures l[i].key == c <==> CountNewer(l, c) <= i < FirstOlder(l, c)
      ensures i < CountNewer(l, c) ==> i < FirstOlder(l, c)
    {
      Trichotomy(l[i].key, c);
    }
  }

  lemma TailOf<T(!new)>(l: seq<T>, n: nat, keep: T -> bool)
    requires n <= |l| && forall i :: 0 <= i < |l| ==> (keep(l[i]) <==> n <= i)
    ensures forall r :: r in l[n..] <==> r in l && keep(r)
  {
    forall r | r in l && keep(r)
      ensures r in l[n..]
    {
      var i :| 0 <= i < |l| && l[i] == r;
      assert r == l[n..][i - n];
    }
  }

  /** The descending scan below a cursor is a suffix of the listing. */
  lemma ScanOlder<D(!new)>(rows: seq<Row<D>>, c: Key)
    requires Keyed(rows)
    ensures OrderBy(Desc, Where(rows, (r: Row<D>) => Less(r.key, c)))
            == Listing(rows)[FirstOlder(Listing(rows), c)..]
  {
    var keep := (r: Row<D>) => Less(r.key, c);
    var l := Listing(rows);
    var n := FirstOlder(l, c);
    OrderBySorts(Desc, rows);
    WhereKeeps(rows, keep);
    OrderBySorts(Desc, Where(rows, keep));
    FirstOlderSplits(l, c);
    hide OrderBy, FirstOlder, Listing, Less;
    TailOf(l, n, keep);
    SortedIsUnique(Desc, OrderBy(Desc, Where(rows, keep)), l[n..]);
  }

  lemma ReversedListing<D(!new)>(l: seq<Row<D>>)
    requires Sorted(Desc, l)
    ensures Sorted(Asc, Reversed(l)) && SameRows(Reversed(l), l)
  {
    forall r ensures r in Reversed(l) <==> r in l {
      if r in l {
        var i :| 0 <= i < |l| && l[i] == r;
        assert Reversed(l)[|l| - 1 - i] == r;
      }
    }
  }

  /** The ascending scan above a cursor is a prefix of the listing, backwards. */
  lemma ScanNewer<D(!new)>(rows: seq<Row<D>>, c: Key)
    requires Keyed(rows)
    ensures OrderBy(Asc, Where(rows, (r: Row<D>) => Less(c, r.key)))
            == Reversed(Listing(rows)[..CountNewer(Listing(rows), c)])
  {
    var keep := (r: Row<D>) => Less(c, r.key);
    var l := Listing(rows);
    var n := CountNewer(l, c);
    OrderBySorts(Desc, rows);
    WhereKeeps(rows, keep);
    OrderBySorts(Asc, Where(rows, keep));
    CountNewerSplits(l, c);
    ReversedListing(l[..n]);
    forall r ensures r in l[..n] <==> r in Where(rows, keep) {
      if r in Where(rows, keep) {
        assert r in l;
        var i :| 0 <= i < |l| && l[i] == r;
        assert r == l[..n][i];
      }
    }
    SortedIsUnique(Asc, OrderBy(Asc, Where(rows, keep)), Reversed(l[..n]));
  }
}
