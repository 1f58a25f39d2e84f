/**
 * What the converted rows become: one COPY batch per table (`Merge`, `InsertBatches`), primary keys that do or do
 * not collide, and the `address_tx` rows (`createAddressTx`).
 */
module Batches {
  import opened AddressCaching
  import opened Decoder

  datatype InsertBatch = InsertBatch(rows: seq<Row>, txIds: seq<int>)

  /** Table names in order of first appearance. */
  function TablesOf(rows: seq<Row>): seq<string> {
    if rows == [] then []
    else
      var before := TablesOf(rows[..|rows| - 1]);
      var t := TableName(rows[|rows| - 1]);
      if t in before then before else before + [t]
  }

  function InTable(rows: seq<Row>, t: string): seq<Row> {
    if rows == [] then []
    else
      var before := InTable(rows[..|rows| - 1], t);
      if TableName(rows[|rows| - 1]) == t then before + [rows[|rows| - 1]] else before
  }

  function TxIdOf(r: Row): int {
    r.txId
  }

  function BatchOf(rows: seq<Row>, t: string): InsertBatch {
    InsertBatch(InTable(rows, t), Map(TxIdOf, InTable(rows, t)))
  }

  lemma {:induction false} TablesAreThoseUsed(rows: seq<Row>)
    ensures NoDuplicates(TablesOf(rows))
    ensures forall t :: t in TablesOf(rows) <==> exists i :: 0 <= i < |rows| && TableName(rows[i]) == t
  {
    hide TableName;
    if rows != [] {
      var front := rows[..|rows| - 1];
      TablesAreThoseUsed(front);
      forall t ensures t in TablesOf(rows) <==> exists i :: 0 <= i < |rows| && TableName(rows[i]) == t {
        if i :| 0 <= i < |rows| && TableName(rows[i]) == t {
          assert i < |front| ==> TableName(front[i]) == t;
        }
        if i :| 0 <= i < |front| && TableName(front[i]) == t {
          assert TableName(rows[i]) == t;
        }
      }
    }
  }

  lemma MapAppend<A, B>(f: A -> B, s: seq<A>, x: A)
    ensures Map(f, s + [x]) == Map(f, s) + [f(x)]
  {
    MapConcat(f, s, [x]);
  }

  lemma BatchGrows(rows: seq<Row>, r: Row, t: string)
    ensures BatchOf(rows + [r], t) ==
            if TableName(r) == t then InsertBatch(InTable(rows, t) + [r], Map(TxIdOf, InTable(rows, t)) + [r.txId])
            else BatchOf(rows, t)
  {
    assert (rows + [r])[..|rows|] == rows;
    MapAppend(TxIdOf, InTable(rows, t), r);
  }

  lemma TablesGrow(rows: seq<Row>, r: Row)
    ensures TablesOf(rows + [r]) ==
            if TableName(r) in TablesOf(rows) then TablesOf(rows) else TablesOf(rows) + [TableName(r)]
  {
    assert (rows + [r])[..|rows|] == rows;
  }

  lemma {:induction false} UnusedTableIsEmpty(rows: seq<Row>, t: string)
    requires t !in TablesOf(rows)
    ensures InTable(rows, t) == []
  {
    if rows != [] {
      UnusedTableIsEmpty(rows[..|rows| - 1], t);
    }
  }

  /** One row goes to its table's batch, a new one if the table was not seen before. */
  method AddRow(ghost before: seq<Row>, byTable: map<string, InsertBatch>, order: seq<string>, r: Row)
    returns (byTable': map<string, InsertBatch>, order': seq<string>)
    requires order == TablesOf(before) && byTable.Keys == Elements(order)
    requires forall t :: t in byTable ==> byTable[t] == BatchOf(before, t)
    ensures order' == TablesOf(before + [r]) && byTable'.Keys == Elements(order')
    ensures forall t :: t in byTable' ==> byTable'[t] == BatchOf(before + [r], t)
  {
    var table := TableName(r);
    TablesGrow(before, r);
    var batch := InsertBatch([], []);
    order' := order;
    if table in byTable {
      batch := byTable[table];
    } else {
      UnusedTableIsEmpty(before, table);
      order' := order + [table];
    }
    byTable' := byTable[table := InsertBatch(batch.rows + [r], batch.txIds + [r.txId])];
    forall t | t in byTable' ensures byTable'[t] == BatchOf(before + [r], t) {
      BatchGrows(before, r, t);
    }
  }

  /** `InsertBatches`: a map of growing batches and the order in which their tables were first seen. */
  method InsertBatches(rows: seq<Row>) returns (batches: seq<InsertBatch>)
    ensures |batches| == |TablesOf(rows)|
    ensures forall k :: 0 <= k < |batches| ==> batches[k] == BatchOf(rows, TablesOf(rows)[k])
  {
    var byTable: map<string, InsertBatch> := map[];
    var order: seq<string> := [];
    for i := 0 to |rows|
      invariant order == TablesOf(rows[..i]) && byTable.Keys == Elements(order)
      invariant forall t :: t in byTable ==> byTable[t] == BatchOf(rows[..i], t)
    {
      assert rows[..i + 1] == rows[..i] + [rows[i]];
      byTable, order := AddRow(rows[..i], byTable, order, rows[i]);
    }
    assert rows[..|rows|] == rows;
    batches := [];
    for k := 0 to |order|
      invariant |batches| == k
      invariant forall j :: 0 <= j < k ==> batches[j] == BatchOf(rows, order[j])
    {
      batches := batches + [byTable[order[k]]];
    }
  }

  // ----- A partition, in order -----

  /** The position of the first row of a table. */
  predicate FirstOfTable(rows: seq<Row>, t: string, i: nat) {
    i < |rows| && TableName(rows[i]) == t && forall j :: 0 <= j < i ==> TableName(rows[j]) != t
  }

  /** The tables stand in the order in which they first appear. */
  lemma {:induction false} TablesInOrder(rows: seq<Row>, a: nat, b: nat, i: nat, j: nat)
    requires a < b < |TablesOf(rows)|
    requires FirstOfTable(rows, TablesOf(rows)[a], i) && FirstOfTable(rows, TablesOf(rows)[b], j)
    ensures i < j
  {
    hide TableName;
    var n := |rows| - 1;
    var front := rows[..n];
    var before, t, u := TablesOf(front), TablesOf(rows)[a], TablesOf(rows)[b];
    TablesAreThoseUsed(front);
    assert a < |before| && t == before[a];
    var k :| 0 <= k < |front| && TableName(front[k]) == t;
    assert rows[k] == front[k] && i <= k;
    assert FirstOfTable(front, t, i) by {
      assert front[i] == rows[i];
    }
    if b < |before| {
      assert u == before[b];
      var l :| 0 <= l < |front| && TableName(front[l]) == u;
      assert rows[l] == front[l] && j <= l;
      assert FirstOfTable(front, u, j) by {
        assert front[j] == rows[j];
      }
      TablesInOrder(front, a, b, i, j);
    } else {
      assert u !in before;
      forall l | 0 <= l < n
        ensures TableName(rows[l]) != u
      {
        assert rows[l] == front[l];
      }
    }
  }

  /** Where the rows of a batch stand among all rows. */
  function Positions(rows: seq<Row>, t: string): seq<nat> {
    if rows == [] then []
    else
      var before := Positions(rows[..|rows| - 1], t);
      if TableName(rows[|rows| - 1]) == t then before + [|rows| - 1] else before
  }

  /** They are all the positions of the table's rows, in increasing order. */
  lemma {:induction false} PositionsExact(rows: seq<Row>, t: string)
    ensures forall j, k :: 0 <= j < k < |Positions(rows, t)| ==> Positions(rows, t)[j] < Positions(rows, t)[k]
    ensures forall i: nat :: i in Positions(rows, t) <==> i < |rows| && TableName(rows[i]) == t
  {
    hide TableName;
    if rows != [] {
      var n := |rows| - 1;
      PositionsExact(rows[..n], t);
      assert forall j :: 0 <= j < |Positions(rows[..n], t)| ==> Positions(rows[..n], t)[j] in Positions(rows[..n], t);
      assert forall i: nat :: i in Positions(rows, t) <==>
          i in Positions(rows[..n], t) || (i == n && TableName(rows[n]) == t);
      assert forall i :: 0 <= i < n ==> rows[..n][i] == rows[i];
    }
  }

  /** A batch holds the rows at those positions, in their original order, each with its transaction's id beside it. */
  lemma {:induction false} BatchKeepsOrder(rows: seq<Row>, t: string)
    ensures var p, b := Positions(rows, t), BatchOf(rows, t);
            && |p| == |b.rows| == |b.txIds|
            && forall k :: 0 <= k < |p| ==> p[k] < |rows| && b.rows[k] == rows[p[k]] && b.txIds[k] == rows[p[k]].txId
  {
    hide TableName;
    if rows != [] {
      BatchKeepsOrder(rows[..|rows| - 1], t);
    }
  }

  predicate InBatchOnly(rows: seq<Row>, i: nat, k: nat) {
    && k < |TablesOf(rows)|
    && forall j :: 0 <= j < |TablesOf(rows)| ==> (i in Positions(rows, TablesOf(rows)[j]) <==> j == k)
  }

  /** The batches together are all the rows: every row is in the batch of one listed table and in no other. */
  lemma BatchesPartition(rows: seq<Row>, i: nat)
    requires i < |rows|
    ensures exists k :: InBatchOnly(rows, i, k)
  {
    var tables := TablesOf(rows);
    TablesAreThoseUsed(rows);
    assert TableName(rows[i]) in tables;
    var k: nat :| k < |tables| && tables[k] == TableName(rows[i]);
    forall j | 0 <= j < |tables| ensures i in Positions(rows, tables[j]) <==> j == k {
      PositionsExact(rows, tables[j]);
    }
    assert InBatchOnly(rows, i, k);
  }

  // ----- Primary keys -----

  /** A transaction ready for conversion: its id and its decoded messages. */
  datatype Tx = Tx(txId: int, timestamp: int, decoded: DecodedMsg)

  function TxRows(t: Tx, chain: string, get: Resolver): seq<Row> {
    RowsOf(t.decoded.msgs, |t.decoded.msgs|, Context(t.decoded, get, t.txId, chain, t.timestamp), get)
  }

  /** The rows of several transactions, merged in order (`Merge`). */
  function AllRows(txs: seq<Tx>, chain: string, get: Resolver): seq<Row> {
    if txs == [] then [] else AllRows(txs[..|txs| - 1], chain, get) + TxRows(txs[|txs| - 1], chain, get)
  }

  datatype PrimaryKey =
    | MessageKey(txId: int, timestamp: int, chain: string, counter: int)
    | EntryKey(txId: int, timestamp: int, chain: string, counter: int, direction: bool, addressId: int)

  function KeyOf(r: Row): PrimaryKey {
    if r.detail.MultiSendRow? then
      EntryKey(r.txId, r.timestamp, r.chain, r.counter, r.detail.direction, r.detail.addressId)
    else MessageKey(r.txId, r.timestamp, r.chain, r.counter)
  }

  function Keys(rows: seq<Row>): seq<PrimaryKey> {
    Map(KeyOf, rows)
  }

  function EntryId(get: Resolver): Entry -> int {
    (e: Entry) => get(e.address)
  }

  /** No two inputs of a multi-send resolve to one id, nor two of its outputs. */
  predicate Apart(m: Msg, get: Resolver) {
    m.MultiSend? ==> NoDuplicates(Map(EntryId(get), m.inputs)) && NoDuplicates(Map(EntryId(get), m.outputs))
  }

  predicate DistinctAddresses(entries: seq<Entry>) {
    forall i, j :: 0 <= i < j < |entries| ==> entries[i].address != entries[j].address
  }

  /** No address occurs twice among the inputs of a multi-send, nor twice among its outputs. */
  predicate NoRepeats(m: Msg) {
    m.MultiSend? ==> DistinctAddresses(m.inputs) && DistinctAddresses(m.outputs)
  }

  lemma EntriesApart(entries: seq<Entry>, get: Resolver)
    ensures NoDuplicates(Map(EntryId(get), entries)) <==>
              forall i, j :: 0 <= i < j < |entries| ==> get(entries[i].address) != get(entries[j].address)
  {
    var ids := Map(EntryId(get), entries);
    assert forall i :: 0 <= i < |entries| ==> ids[i] == get(entries[i].address);
  }

  /** A repeated address collides with itself, whatever it resolves to. */
  lemma RepeatsCollide(m: Msg, get: Resolver)
    requires !NoRepeats(m)
    ensures !Apart(m, get)
  {
    EntriesApart(m.inputs, get);
    EntriesApart(m.outputs, get);
  }

  /** A resolver that sends unknown addresses to 0, as the cache does, and known ones to ids of their own. */
  ghost predicate CacheLike(get: Resolver, known: set<string>) {
    && (forall a :: a in known ==> get(a) != 0)
    && (forall a :: a !in known ==> get(a) == 0)
    && (forall a, b :: a in known && b in known && get(a) == get(b) ==> a == b)
  }

  /** Of any two entries at least one has a known address. */
  predicate OneUnknown(entries: seq<Entry>, known: set<string>) {
    forall i, j :: 0 <= i < j < |entries| ==> entries[i].address in known || entries[j].address in known
  }

  predicate FewUnknown(m: Msg, known: set<string>) {
    m.MultiSend? ==> OneUnknown(m.inputs, known) && OneUnknown(m.outputs, known)
  }

  lemma SideApartIff(entries: seq<Entry>, get: Resolver, known: set<string>)
    requires CacheLike(get, known)
    ensures NoDuplicates(Map(EntryId(get), entries)) <==> DistinctAddresses(entries) && OneUnknown(entries, known)
  {
    EntriesApart(entries, get);
    forall i, j | 0 <= i < j < |entries|
      ensures get(entries[i].address) != get(entries[j].address) <==>
                && entries[i].address != entries[j].address
                && (entries[i].address in known || entries[j].address in known)
    {
    }
    hide CacheLike, NoDuplicates;
  }

  /** Entries stay apart exactly when no address repeats in a direction and at most one per direction is unknown. */
  lemma ApartIff(m: Msg, get: Resolver, known: set<string>)
    requires CacheLike(get, known)
    ensures Apart(m, get) <==> NoRepeats(m) && FewUnknown(m, known)
  {
    if m.MultiSend? {
      SideApartIff(m.inputs, get, known);
      SideApartIff(m.outputs, get, known);
    }
  }

  /** Once every address is known, entries stay apart exactly when no address repeats in a direction. */
  lemma KnownApartIff(m: Msg, get: Resolver, known: set<string>)
    requires CacheLike(get, known) && forall a :: a in Addresses(m) ==> a in known
    ensures Apart(m, get) <==> NoRepeats(m)
  {
    ApartIff(m, get, known);
    KnownMeansFew(m, known);
  }

  lemma KnownMeansFew(m: Msg, known: set<string>)
    requires forall a :: a in Addresses(m) ==> a in known
    ensures FewUnknown(m, known)
  {
    if m.MultiSend? {
      forall i | 0 <= i < |m.inputs|
        ensures m.inputs[i].address in known
      {
        assert Addresses(m)[i] in Addresses(m);
      }
      forall i | 0 <= i < |m.outputs|
        ensures m.outputs[i].address in known
      {
        assert Addresses(m)[|m.inputs| + i] in Addresses(m);
      }
    }
  }

  /** Two different addresses that are both unknown collide on id 0. */
  lemma UnknownsCollide(a: string, b: string, coins: seq<Coin>)
    requires a != b
    ensures var m := MultiSend([Entry(a, coins), Entry(b, coins)], []);
            NoRepeats(m) && !Apart(m, _ => 0)
  {
    EntriesApart([Entry(a, coins), Entry(b, coins)], _ => 0);
  }

  lemma NoDuplicatesConcat<T>(a: seq<T>, b: seq<T>)
    ensures NoDuplicates(a + b) <==> NoDuplicates(a) && NoDuplicates(b) && forall x :: x in a ==> x !in b
  {
    var s := a + b;
    assert forall i :: 0 <= i < |a| ==> a[i] == s[i];
    assert forall i :: 0 <= i < |b| ==> b[i] == s[|a| + i];
    if NoDuplicates(s) {
      forall x | x in a ensures x !in b {
        var i :| 0 <= i < |a| && a[i] == x;
        forall j | 0 <= j < |b| ensures b[j] != x {
          assert s[i] != s[|a| + j];
        }
      }
    }
    if NoDuplicates(a) && NoDuplicates(b) && forall x :: x in a ==> x !in b {
      forall i, j | 0 <= i < j < |s| ensures s[i] != s[j] {
        if i < |a| <= j {
          assert s[i] in a && s[j] == b[j - |a|];
        } else if |a| <= i {
          assert s[i] == b[i - |a|] && s[j] == b[j - |a|];
        }
      }
    }
  }

  lemma KeysConcat(a: seq<Row>, b: seq<Row>)
    ensures Keys(a + b) == Keys(a) + Keys(b)
    ensures NoDuplicates(Keys(a + b)) <==>
              NoDuplicates(Keys(a)) && NoDuplicates(Keys(b)) && forall k :: k in Keys(a) ==> k !in Keys(b)
  {
    MapConcat(KeyOf, a, b);
    NoDuplicatesConcat(Keys(a), Keys(b));
  }

  /** The rows belong to one transaction, and to its messages from `lo` up to `hi`. */
  predicate Within(rows: seq<Row>, txId: int, lo: int, hi: int) {
    rows == [] || (rows[0].txId == txId && lo <= rows[0].counter < hi && Within(rows[1..], txId, lo, hi))
  }

  lemma {:induction false} WithinAll(rows: seq<Row>, txId: int, lo: int, hi: int)
    ensures Within(rows, txId, lo, hi) <==> forall r :: r in rows ==> r.txId == txId && lo <= r.counter < hi
  {
    if rows != [] {
      WithinAll(rows[1..], txId, lo, hi);
      assert rows == [rows[0]] + rows[1..];
    }
  }

  lemma WithinConcat(a: seq<Row>, b: seq<Row>, txId: int, lo: int, mid: int, hi: int)
    requires Within(a, txId, lo, mid) && Within(b, txId, mid, hi) && lo <= mid <= hi
    ensures Within(a + b, txId, lo, hi)
  {
    WithinAll(a, txId, lo, mid);
    WithinAll(b, txId, mid, hi);
    WithinAll(a + b, txId, lo, hi);
  }

  lemma WithinKeys(rows: seq<Row>, txId: int, lo: int, hi: int)
    requires Within(rows, txId, lo, hi)
    ensures forall k :: k in Keys(rows) ==> k.txId == txId && lo <= k.counter < hi
  {
    WithinAll(rows, txId, lo, hi);
    forall k | k in Keys(rows) ensures k.txId == txId && lo <= k.counter < hi {
      var i :| 0 <= i < |rows| && Keys(rows)[i] == k;
      assert rows[i] in rows;
    }
  }

  /** The rows of the next message cannot collide with those before it. */
  lemma AppendMessage(front: seq<Row>, last: seq<Row>, txId: int, n: nat)
    requires Within(front, txId, 0, n) && Within(last, txId, n, n + 1)
    ensures NoDuplicates(Keys(front + last)) == (NoDuplicates(Keys(front)) && NoDuplicates(Keys(last)))
    ensures Within(front + last, txId, 0, n + 1)
  {
    WithinKeys(front, txId, 0, n);
    WithinKeys(last, txId, n, n + 1);
    KeysConcat(front, last);
    WithinConcat(front, last, txId, 0, n, n + 1);
  }

  lemma EntryKeys(entries: seq<Entry>, direction: bool, c: Ctx, get: Resolver)
    ensures NoDuplicates(Keys(EntryRows(entries, direction, c, get))) <==> NoDuplicates(Map(EntryId(get), entries))
    ensures forall k :: k in Keys(EntryRows(entries, direction, c, get)) ==> k.EntryKey? && k.direction == direction
  {
    EntryRowsShape(entries, direction, c, get);
    var keys, ids := Keys(EntryRows(entries, direction, c, get)), Map(EntryId(get), entries);
    assert forall i :: 0 <= i < |entries| ==>
        keys[i] == EntryKey(c.txId, c.timestamp, c.chain, c.counter, direction, ids[i]);
  }

  lemma MessageKeys(m: Msg, c: Ctx, get: Resolver)
    ensures NoDuplicates(Keys(Convert(m, c, get))) == Apart(m, get)
    ensures Within(Convert(m, c, get), c.txId, c.counter, c.counter + 1)
  {
    var rows := Convert(m, c, get);
    forall r | r in rows ensures r.txId == c.txId && r.counter == c.counter {
      RowsCarryContext(m, c, get, r);
    }
    WithinAll(rows, c.txId, c.counter, c.counter + 1);
    if m.MultiSend? {
      var ins, outs := EntryRows(m.inputs, false, c, get), EntryRows(m.outputs, true, c, get);
      EntryKeys(m.inputs, false, c, get);
      EntryKeys(m.outputs, true, c, get);
      KeysConcat(ins, outs);
    }
  }

  /** The first `n` messages are apart. */
  predicate ApartBelow(msgs: seq<Msg>, n: nat, get: Resolver)
    requires n <= |msgs|
  {
    n == 0 || (ApartBelow(msgs, n - 1, get) && Apart(msgs[n - 1], get))
  }

  lemma NoRows(txId: int)
    ensures NoDuplicates(Keys([])) && Singles([]) == [] && Within([], txId, 0, 0)
  {
  }

  lemma OneMoreMessage(msgs: seq<Msg>, i: nat, c: Ctx, get: Resolver)
    requires i < |msgs|
    requires NoDuplicates(Keys(RowsOf(msgs, i, c, get))) == ApartBelow(msgs, i, get)
    requires Within(RowsOf(msgs, i, c, get), c.txId, 0, i)
    ensures NoDuplicates(Keys(RowsOf(msgs, i + 1, c, get))) == ApartBelow(msgs, i + 1, get)
    ensures Within(RowsOf(msgs, i + 1, c, get), c.txId, 0, i + 1)
  {
    hide Convert, Within, NoDuplicates;
    MessageKeys(msgs[i], c.(counter := i), get);
    AppendMessage(RowsOf(msgs, i, c, get), Convert(msgs[i], c.(counter := i), get), c.txId, i);
  }

  lemma {:induction false} TransactionKeys(msgs: seq<Msg>, n: nat, c: Ctx, get: Resolver)
    requires n <= |msgs|
    ensures NoDuplicates(Keys(RowsOf(msgs, n, c, get))) == ApartBelow(msgs, n, get)
    ensures Within(RowsOf(msgs, n, c, get), c.txId, 0, n)
  {
    hide Convert, NoDuplicates, Apart;
    if n == 0 {
      NoRows(c.txId);
    } else {
      TransactionKeys(msgs, n - 1, c, get);
      OneMoreMessage(msgs, n - 1, c, get);
    }
  }

  predicate AllApart(txs: seq<Tx>, get: Resolver) {
    forall t :: 0 <= t < |txs| ==> TxApart(txs[t], get)
  }

  /** No two transactions share both id and time; one that two blocks list has one id and two times. */
  predicate DistinctTxs(txs: seq<Tx>) {
    forall i, j :: 0 <= i < j < |txs| ==> txs[i].txId != txs[j].txId || txs[i].timestamp != txs[j].timestamp
  }

  /** A key of the rows of one transaction carries its id and its time. */
  lemma TxKeysCarry(t: Tx, chain: string, get: Resolver, rows: seq<Row>)
    requires forall r :: r in rows ==> r in TxRows(t, chain, get)
    ensures forall k :: k in Keys(rows) ==> k.txId == t.txId && k.timestamp == t.timestamp
  {
    forall k | k in Keys(rows)
      ensures k.txId == t.txId && k.timestamp == t.timestamp
    {
      var i :| 0 <= i < |rows| && Keys(rows)[i] == k;
      assert rows[i] in rows;
      var c := Context(t.decoded, get, t.txId, chain, t.timestamp);
      RowsHaveOrigins(t.decoded.msgs, |t.decoded.msgs|, c, get, rows[i]);
    }
  }

  /** Some transaction of the list has the id and the time of the key. */
  predicate KeyOfSome(txs: seq<Tx>, k: PrimaryKey) {
    exists t :: 0 <= t < |txs| && k.txId == txs[t].txId && k.timestamp == txs[t].timestamp
  }

  /** Keys of one more transaction are new when its id and time are. */
  lemma OneMoreTxKeys(txs: seq<Tx>, before: seq<PrimaryKey>, last: seq<PrimaryKey>)
    requires txs != [] && DistinctTxs(txs)
    requires forall k :: k in before ==> KeyOfSome(txs[..|txs| - 1], k)
    requires forall k :: k in last ==> k.txId == txs[|txs| - 1].txId && k.timestamp == txs[|txs| - 1].timestamp
    ensures forall k :: k in before ==> k !in last
    ensures forall k :: k in before + last ==> KeyOfSome(txs, k)
  {
    var init := txs[..|txs| - 1];
    forall k | k in before
      ensures k !in last && KeyOfSome(txs, k)
    {
      var t :| 0 <= t < |init| && k.txId == init[t].txId && k.timestamp == init[t].timestamp;
      assert txs[t] == init[t];
    }
    forall k | k in last
      ensures KeyOfSome(txs, k)
    {
      assert k.txId == txs[|txs| - 1].txId;
    }
  }

  /**
   * When no two transactions share id and time, no two rows share a primary key exactly when no multi-send message
   * has two entries on one side with one resolved id; two such entries make the whole COPY of their table fail.
   */
  lemma {:induction false} KeysCollideIff(txs: seq<Tx>, chain: string, get: Resolver)
    requires DistinctTxs(txs)
    ensures NoDuplicates(Keys(AllRows(txs, chain, get))) <==> AllApart(txs, get)
    ensures forall k :: k in Keys(AllRows(txs, chain, get)) ==> KeyOfSome(txs, k)
  {
    if txs != [] {
      var before, t := txs[..|txs| - 1], txs[|txs| - 1];
      KeysCollideIff(before, chain, get);
      var c := Context(t.decoded, get, t.txId, chain, t.timestamp);
      TransactionKeys(t.decoded.msgs, |t.decoded.msgs|, c, get);
      TxKeysCarry(t, chain, get, TxRows(t, chain, get));
      OneMoreTxKeys(txs, Keys(AllRows(before, chain, get)), Keys(TxRows(t, chain, get)));
      KeysConcat(AllRows(before, chain, get), TxRows(t, chain, get));
      AllApartSplits(txs, get);
      hide KeyOfSome, NoDuplicates, TxApart, AllApart;
    }
  }

  predicate TxApart(t: Tx, get: Resolver) {
    ApartBelow(t.decoded.msgs, |t.decoded.msgs|, get)
  }

  /** No message of any transaction repeats an address on one side. */
  predicate NoneRepeats(txs: seq<Tx>) {
    forall t, i :: 0 <= t < |txs| && 0 <= i < |txs[t].decoded.msgs| ==> NoRepeats(txs[t].decoded.msgs[i])
  }

  /** No message of any transaction has two unknown addresses on one side. */
  predicate AllFewUnknown(txs: seq<Tx>, known: set<string>) {
    forall t, i :: 0 <= t < |txs| && 0 <= i < |txs[t].decoded.msgs| ==> FewUnknown(txs[t].decoded.msgs[i], known)
  }

  lemma {:induction false} ApartBelowIs(msgs: seq<Msg>, n: nat, get: Resolver)
    requires n <= |msgs|
    ensures ApartBelow(msgs, n, get) <==> forall i :: 0 <= i < n ==> Apart(msgs[i], get)
  {
    if n > 0 {
      ApartBelowIs(msgs, n - 1, get);
    }
  }

  lemma TxApartIff(t: Tx, get: Resolver, known: set<string>)
    requires CacheLike(get, known)
    ensures TxApart(t, get) <==>
              forall i :: 0 <= i < |t.decoded.msgs| ==>
                NoRepeats(t.decoded.msgs[i]) && FewUnknown(t.decoded.msgs[i], known)
  {
    ApartBelowIs(t.decoded.msgs, |t.decoded.msgs|, get);
    forall i | 0 <= i < |t.decoded.msgs|
      ensures Apart(t.decoded.msgs[i], get) <==> NoRepeats(t.decoded.msgs[i]) && FewUnknown(t.decoded.msgs[i], known)
    {
      ApartIff(t.decoded.msgs[i], get, known);
    }
    hide Apart, NoRepeats, FewUnknown;
  }

  /** What a chunk must look like, in terms of its messages and the known addresses. */
  lemma AllApartIff(txs: seq<Tx>, get: Resolver, known: set<string>)
    requires CacheLike(get, known)
    ensures AllApart(txs, get) <==> NoneRepeats(txs) && AllFewUnknown(txs, known)
  {
    forall t | 0 <= t < |txs|
      ensures TxApart(txs[t], get) <==>
                forall i :: 0 <= i < |txs[t].decoded.msgs| ==>
                  NoRepeats(txs[t].decoded.msgs[i]) && FewUnknown(txs[t].decoded.msgs[i], known)
    {
      TxApartIff(txs[t], get, known);
    }
    hide TxApart, NoRepeats, FewUnknown, CacheLike;
  }

  lemma AllApartSplits(txs: seq<Tx>, get: Resolver)
    requires txs != []
    ensures AllApart(txs, get) <==> AllApart(txs[..|txs| - 1], get) && TxApart(txs[|txs| - 1], get)
  {
    var before := txs[..|txs| - 1];
    assert forall t :: 0 <= t < |before| ==> before[t] == txs[t];
  }

  /** The rows outside the multi-send table: one per message. */
  function Singles(rows: seq<Row>): seq<Row> {
    if rows == [] then []
    else (if rows[0].detail.MultiSendRow? then [] else [rows[0]]) + Singles(rows[1..])
  }

  lemma {:induction false} SinglesConcat(a: seq<Row>, b: seq<Row>)
    ensures Singles(a + b) == Singles(a) + Singles(b)
  {
    if a == [] {
      assert a + b == b;
    } else {
      SinglesConcat(a[1..], b);
      assert (a + b)[1..] == a[1..] + b && (a + b)[0] == a[0];
    }
  }

  lemma {:induction false} SinglesAreRows(rows: seq<Row>)
    ensures forall r :: r in Singles(rows) ==> r in rows && !r.detail.MultiSendRow?
    ensures |Singles(rows)| <= |rows|
    ensures (forall r :: r in rows ==> r.detail.MultiSendRow?) ==> Singles(rows) == []
  {
    if rows != [] {
      SinglesAreRows(rows[1..]);
      assert rows == [rows[0]] + rows[1..];
    }
  }

  lemma MessageSingles(m: Msg, c: Ctx, get: Resolver)
    ensures |Singles(Convert(m, c, get))| <= 1
    ensures Within(Singles(Convert(m, c, get)), c.txId, c.counter, c.counter + 1)
  {
    var rows := Convert(m, c, get);
    SinglesAreRows(rows);
    forall r | r in Singles(rows) ensures r.txId == c.txId && r.counter == c.counter {
      RowsCarryContext(m, c, get, r);
    }
    WithinAll(Singles(rows), c.txId, c.counter, c.counter + 1);
    forall r | r in rows ensures m.MultiSend? ==> r.detail.MultiSendRow? {
      RowsCarryContext(m, c, get, r);
    }
  }

  lemma OneMoreSingle(msgs: seq<Msg>, i: nat, c: Ctx, get: Resolver)
    requires i < |msgs|
    requires NoDuplicates(Keys(Singles(RowsOf(msgs, i, c, get))))
    requires Within(Singles(RowsOf(msgs, i, c, get)), c.txId, 0, i)
    ensures NoDuplicates(Keys(Singles(RowsOf(msgs, i + 1, c, get))))
    ensures Within(Singles(RowsOf(msgs, i + 1, c, get)), c.txId, 0, i + 1)
  {
    var front, last := RowsOf(msgs, i, c, get), Convert(msgs[i], c.(counter := i), get);
    assert NoDuplicates(Keys(Singles(last))) && Within(Singles(last), c.txId, i, i + 1) by {
      MessageSingles(msgs[i], c.(counter := i), get);
    }
    hide Convert, Within, NoDuplicates;
    SinglesConcat(front, last);
    AppendMessage(Singles(front), Singles(last), c.txId, i);
  }

  lemma {:induction false} TransactionSingles(msgs: seq<Msg>, n: nat, c: Ctx, get: Resolver)
    requires n <= |msgs|
    ensures NoDuplicates(Keys(Singles(RowsOf(msgs, n, c, get))))
    ensures Within(Singles(RowsOf(msgs, n, c, get)), c.txId, 0, n)
  {
    hide Convert, NoDuplicates;
    if n == 0 {
      NoRows(c.txId);
    } else {
      TransactionSingles(msgs, n - 1, c, get);
      OneMoreSingle(msgs, n - 1, c, get);
    }
  }

  /** In the tables that hold one row per message, keys never collide when no two transactions share id and time. */
  lemma {:induction false} SingleRowKeysDistinct(txs: seq<Tx>, chain: string, get: Resolver)
    requires DistinctTxs(txs)
    ensures NoDuplicates(Keys(Singles(AllRows(txs, chain, get))))
    ensures forall k :: k in Keys(Singles(AllRows(txs, chain, get))) ==> KeyOfSome(txs, k)
  {
    if txs != [] {
      var before, t := txs[..|txs| - 1], txs[|txs| - 1];
      SingleRowKeysDistinct(before, chain, get);
      var c := Context(t.decoded, get, t.txId, chain, t.timestamp);
      TransactionSingles(t.decoded.msgs, |t.decoded.msgs|, c, get);
      var front, last := AllRows(before, chain, get), TxRows(t, chain, get);
      SinglesAreRows(last);
      TxKeysCarry(t, chain, get, Singles(last));
      SinglesConcat(front, last);
      OneMoreTxKeys(txs, Keys(Singles(front)), Keys(Singles(last)));
      KeysConcat(Singles(front), Singles(last));
    }
  }

  // ----- Rows of address_tx -----

  datatype TxKey = TxKey(address: int, txId: int, chain: string)

  datatype AddressTx = AddressTx(key: TxKey, timestamp: int)

  function RowKeys(r: Row): set<TxKey> {
    set id | id in GetAllAddresses(r) :: RowKey(r, id)
  }

  function Added(seen: map<TxKey, AddressTx>, keys: set<TxKey>, timestamp: int): map<TxKey, AddressTx> {
    seen + map k | k in keys - seen.Keys :: AddressTx(k, timestamp)
  }

  lemma AddedOne(seen: map<TxKey, AddressTx>, keys: set<TxKey>, k: TxKey, timestamp: int)
    ensures Added(seen, keys + {k}, timestamp) ==
            if k in Added(seen, keys, timestamp) then Added(seen, keys, timestamp)
            else Added(seen, keys, timestamp)[k := AddressTx(k, timestamp)]
  {
  }

  /** What `seen` holds after all rows: the first row to report a key wins. */
  function Recorded(rows: seq<Row>): map<TxKey, AddressTx> {
    if rows == [] then map[]
    else
      var before, r := Recorded(rows[..|rows| - 1]), rows[|rows| - 1];
      Added(before, RowKeys(r), r.timestamp)
  }

  /** One row per distinct (address, transaction, chain) that any message row reports, and no other. */
  lemma {:induction false} RecordedExactly(rows: seq<Row>, k: TxKey)
    ensures k in Recorded(rows) <==> exists i :: 0 <= i < |rows| && k in RowKeys(rows[i])
    ensures k in Recorded(rows) ==>
              && Recorded(rows)[k].key == k
              && exists i :: 0 <= i < |rows| && k in RowKeys(rows[i])
                             && Recorded(rows)[k].timestamp == rows[i].timestamp
                             && forall j :: 0 <= j < i ==> k !in RowKeys(rows[j])
  {
    if rows != [] {
      var front, n := rows[..|rows| - 1], |rows| - 1;
      RecordedExactly(front, k);
      assert forall i :: 0 <= i < n ==> front[i] == rows[i];
      if k in Recorded(front) {
        var i :| 0 <= i < |front| && k in RowKeys(front[i]) && Recorded(front)[k].timestamp == front[i].timestamp
                 && forall j :: 0 <= j < i ==> k !in RowKeys(front[j]);
        assert k in RowKeys(rows[i]) && Recorded(rows)[k].timestamp == rows[i].timestamp;
        assert forall j :: 0 <= j < i ==> k !in RowKeys(rows[j]);
      } else {
        assert forall j :: 0 <= j < n ==> k !in RowKeys(rows[j]);
        if k in RowKeys(rows[n]) {
          assert Recorded(rows)[k].timestamp == rows[n].timestamp;
        }
      }
    }
  }

  function RowKey(r: Row, id: int): TxKey {
    TxKey(id, r.txId, r.chain)
  }

  function KeysFor(r: Row, ids: seq<int>): set<TxKey> {
    set id | id in ids :: RowKey(r, id)
  }

  /** `addToAddressTx`: the address set is visited in any order. */
  method AddToAddressTx(seen: map<TxKey, AddressTx>, r: Row) returns (seen': map<TxKey, AddressTx>)
    ensures seen' == Added(seen, RowKeys(r), r.timestamp)
  {
    seen' := seen;
    var ids := Drain(GetAllAddresses(r));
    for i := 0 to |ids|
      invariant seen' == Added(seen, KeysFor(r, ids[..i]), r.timestamp)
    {
      assert ids[..i + 1] == ids[..i] + [ids[i]];
      assert KeysFor(r, ids[..i + 1]) == KeysFor(r, ids[..i]) + {RowKey(r, ids[i])};
      var k := RowKey(r, ids[i]);
      AddedOne(seen, KeysFor(r, ids[..i]), k, r.timestamp);
      if k !in seen' {
        seen' := seen'[k := AddressTx(k, r.timestamp)];
      }
    }
    assert ids[..|ids|] == ids;
    assert KeysFor(r, ids) == RowKeys(r) by {
      assert forall id :: id in ids <==> id in Elements(ids);
    }
  }

  /**
   * `createAddressTx`: one row per distinct (address, transaction, chain) that any message row reports, and no
   * other, in whatever order the map yields them.
   */
  method CreateAddressTx(rows: seq<Row>) returns (result: seq<AddressTx>)
    ensures NoDuplicates(Map(KeyOfAddressTx, result))
    ensures forall e :: e in result <==> e.key in Recorded(rows) && Recorded(rows)[e.key] == e
  {
    var seen: map<TxKey, AddressTx> := map[];
    for i := 0 to |rows|
      invariant seen == Recorded(rows[..i])
    {
      assert rows[..i + 1][..i] == rows[..i];
      seen := AddToAddressTx(seen, rows[i]);
    }
    assert rows[..|rows|] == rows;
    forall k | k in seen ensures seen[k].key == k {
      RecordedExactly(rows, k);
    }
    var keys := Drain(seen.Keys);
    assert forall k :: k in keys <==> k in seen by {
      assert forall k :: k in keys <==> k in Elements(keys);
    }
    result := ListValues(seen, keys);
  }

  method ListValues(seen: map<TxKey, AddressTx>, keys: seq<TxKey>) returns (result: seq<AddressTx>)
    requires forall k :: k in keys ==> k in seen && seen[k].key == k
    ensures Map(KeyOfAddressTx, result) == keys
    ensures forall e :: e in result <==> e.key in keys && e.key in seen && seen[e.key] == e
  {
    result := [];
    for i := 0 to |keys|
      invariant Map(KeyOfAddressTx, result) == keys[..i]
      invariant forall e :: e in result <==> e.key in keys[..i] && e.key in seen && seen[e.key] == e
    {
      assert keys[..i + 1] == keys[..i] + [keys[i]];
      MapAppend(KeyOfAddressTx, result, seen[keys[i]]);
      result := result + [seen[keys[i]]];
    }
    assert keys[..|keys|] == keys;
  }

  function KeyOfAddressTx(e: AddressTx): TxKey {
    e.key
  }
}
