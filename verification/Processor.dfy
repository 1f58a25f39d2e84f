/**
 * The data processor's part of a chunk: `ProcessTxHashIds` and `ProcessMessages`, over a database whose every
 * call may fail, or commit and still report an error. The conversion goroutines write to slots of their own, so
 * one after the other stands for any interleaving of them.
 */
module Processor {
  import opened Results
  import opened Listings
  import opened AddressCaching
  import opened Decoder
  import opened Batches
  import opened HashIds
  import opened Chunks

  /** COPY accepts rows whose keys are neither repeated nor stored. */
  predicate AcceptsRows(stored: seq<Row>, rows: seq<Row>) {
    NoDuplicates(Keys(rows)) && forall k :: k in Keys(rows) ==> k !in Keys(stored)
  }

  function RowsIn(stored: map<string, seq<Row>>, t: string): seq<Row> {
    if t in stored then stored[t] else []
  }

  /** The message tables and `address_tx`; COPY stores all rows of a call or none. */
  class MessageTables {
    var stored: map<string, seq<Row>>
    var addressTx: set<AddressTx>
    var plan: seq<Fault>

    constructor (plan: seq<Fault>)
      ensures stored == map[] && addressTx == {} && this.plan == plan
    {
      stored, addressTx, this.plan := map[], {}, plan;
    }

    function Of(t: string): seq<Row>
      reads this
    {
      RowsIn(stored, t)
    }

    method InsertAddressTx(entries: seq<AddressTx>) returns (ok: bool)
      modifies this`addressTx, this`plan
      ensures plan == LaterFaults(old(plan))
      ensures ok <==> NextFault(old(plan)).Works? && NoDuplicates(entries) && Elements(entries) !! old(addressTx)
      ensures addressTx == old(addressTx) || addressTx == old(addressTx) + Elements(entries)
      ensures ok ==> addressTx == old(addressTx) + Elements(entries)
    {
      var fault := NextFault(plan);
      plan := LaterFaults(plan);
      if fault.Fails? || !NoDuplicates(entries) || exists e | e in entries :: e in addressTx {
        return false;
      }
      addressTx := addressTx + Elements(entries);
      ok := fault.Works?;
    }

    /** A primary key that occurs twice, or is stored already, makes the whole COPY fail. */
    method InsertRows(t: string, rows: seq<Row>) returns (ok: bool)
      modifies this`stored, this`plan
      ensures plan == LaterFaults(old(plan))
      ensures ok <==> NextFault(old(plan)).Works? && AcceptsRows(old(Of(t)), rows)
      ensures Of(t) == old(Of(t)) || Of(t) == old(Of(t)) + rows
      ensures ok ==> Of(t) == old(Of(t)) + rows
      ensures forall u :: u != t ==> RowsIn(stored, u) == RowsIn(old(stored), u)
    {
      var fault := NextFault(plan);
      plan := LaterFaults(plan);
      if fault.Fails? || !NoDuplicates(Keys(rows)) || exists k | k in Keys(rows) :: k in Keys(Of(t)) {
        return false;
      }
      stored := stored[t := Of(t) + rows];
      ok := fault.Works?;
    }
  }

  /** A table gained exactly the items that `at` describes, in order, at its end. */
  ghost predicate Gained(before: seq<Row>, after: seq<Row>, at: Place -> Option<Row>) {
    before <= after && Listed(after[|before|..], at)
  }

  datatype Outcome = Done | ConversionFailed | AddressTxFailed | MessagesFailed

  class DataProcessor {
    const addressCache: AddressCache
    const hashTable: TxHashTable
    const tables: MessageTables
    const chainName: string
    var txHashCache: map<string, int>

    constructor (cache: AddressCache, hashes: TxHashTable, tables: MessageTables, chain: string)
      ensures addressCache == cache && hashTable == hashes && this.tables == tables && chainName == chain
      ensures txHashCache == map[]
    {
      addressCache, hashTable, this.tables, chainName, txHashCache := cache, hashes, tables, chain, map[];
    }

    /** A failed insert leaves the previous chunk's ids in place. */
    method ProcessTxHashIds(txs: seq<Incoming>) returns (ghost done: bool)
      requires hashTable.Valid()
      modifies this`txHashCache, hashTable
      ensures hashTable.Valid() && SubMap(old(hashTable.ids), hashTable.ids)
      ensures |Raws(HashesOf(txs))| == |TimesOf(txs)|
      ensures done <==> Insertable(HashesOf(txs), TimesOf(txs), old(hashTable.ids))
                        && NextFault(old(hashTable.plan)).Works?
      ensures !done ==> txHashCache == old(txHashCache)
      ensures done ==> Answers(Raws(HashesOf(txs)), TimesOf(txs), txHashCache, old(hashTable.nextId), hashTable.ids)
      ensures done ==> AllDecode(HashesOf(txs)) && DistinctStamps(txs) && Injective(txHashCache)
    {
      hide Raws, AllDecode, PairsDistinct, NoneStored, HashesOf, TimesOf, DistinctStamps, PairsOf, Names, HoldsId;
      var hashes, timestamps := Columns(txs);
      ColumnsAre(txs);
      var ids := hashTable.InsertTxHashIds(hashes, timestamps);
      if ids.None? {
        return false;
      }
      txHashCache := ids.value;
      DistinctPairsStamps(txs);
      done := true;
    }

    method Columns(txs: seq<Incoming>) returns (hashes: seq<string>, timestamps: seq<int>)
      ensures hashes == HashesOf(txs) && timestamps == TimesOf(txs)
    {
      hashes, timestamps := [], [];
      for i := 0 to |txs|
        invariant hashes == HashesOf(txs[..i]) && timestamps == TimesOf(txs[..i])
      {
        assert txs[..i + 1][..i] == txs[..i];
        hashes, timestamps := hashes + [txs[i].hash], timestamps + [txs[i].timestamp];
      }
      assert txs[..|txs|] == txs;
    }

    method TransactionDecoding(txs: seq<Incoming>) returns (addressSet: set<string>)
      ensures addressSet == CollectedAll(txs)
    {
      addressSet := {};
      for i := 0 to |txs|
        invariant addressSet == CollectedAll(txs[..i])
      {
        assert txs[..i + 1][..i] == txs[..i];
        var addresses := CollectAllAddresses(txs[i].decoded);
        addressSet := AddAll(addressSet, addresses);
      }
      assert txs[..|txs|] == txs;
    }

    /** `processMessageGroup` for every transaction, then `Merge`: nothing is merged when a conversion failed. */
    method ConvertAll(txs: seq<Incoming>, ids: map<string, int>, get: Resolver) returns (rows: Option<seq<Row>>)
      ensures rows.Some? <==> AllConvertible(Known(txs, ids))
      ensures rows.Some? ==> rows.value == AllRows(Known(txs, ids), chainName, get)
    {
      var merged: seq<Row>, failed := [], false;
      for i := 0 to |txs|
        invariant failed <==> !AllConvertible(Known(txs[..i], ids))
        invariant !failed ==> merged == AllRows(Known(txs[..i], ids), chainName, get)
      {
        ghost var before := Known(txs[..i], ids);
        assert txs[..i + 1][..i] == txs[..i];
        if txs[i].hash in ids {
          var tx := Tx(ids[txs[i].hash], txs[i].timestamp, txs[i].decoded);
          assert Known(txs[..i + 1], ids) == before + [tx];
          OneMoreTx(before, tx, chainName, get);
          var converted := ConvertToDbMessages(tx.decoded, get, tx.txId, chainName, tx.timestamp);
          if converted.Err? {
            failed := true;
          } else if !failed {
            merged := merged + converted.value;
          }
        }
      }
      assert txs[..|txs|] == txs;
      rows := if failed then None else Some(merged);
    }

    /** Every table's batch, failures collected: a later batch is stored although an earlier one was not. */
    method InsertMessageBatches(ghost rows: seq<Row>, batches: seq<InsertBatch>) returns (ok: bool)
      requires |batches| == |TablesOf(rows)|
      requires forall k :: 0 <= k < |batches| ==> batches[k] == BatchOf(rows, TablesOf(rows)[k])
      modifies tables`stored, tables`plan
      ensures forall t :: tables.Of(t) == old(tables.Of(t)) || tables.Of(t) == old(tables.Of(t)) + InTable(rows, t)
      ensures ok ==> forall t :: tables.Of(t) == old(tables.Of(t)) + InTable(rows, t)
      ensures ok ==> forall t :: AcceptsRows(old(tables.Of(t)), InTable(rows, t))
      ensures AllWork(old(tables.plan)) && (forall t :: AcceptsRows(old(tables.Of(t)), InTable(rows, t))) ==> ok
    {
      hide Keys, AcceptsRows, TableName, Progress, RowsIn;
      ok := true;
      TablesAreThoseUsed(rows);
      ghost var order, was, works := TablesOf(rows), tables.stored, AllWork(tables.plan);
      NoProgress(rows, order, was, works);
      for k := 0 to |batches|
        invariant works ==> AllWork(tables.plan)
        invariant Progress(rows, order, k, was, tables.stored, ok, works)
      {
        var batch := batches[k];
        assert batch.rows == InTable(rows, order[k]);
        BatchIsNamed(rows, order[k]);
        ghost var before := tables.stored;
        var inserted := tables.InsertRows(TableName(batch.rows[0]), batch.rows);
        OneMoreBatch(rows, order, k, was, before, tables.stored, ok, inserted, works);
        ok := ok && inserted;
      }
      AllBatches(rows, was, tables.stored, ok, works);
    }

    method ResolveAddresses(txs: seq<Incoming>) returns (ghost lookedUp: bool, ghost inserted: bool)
      requires addressCache.Valid()
      modifies addressCache, addressCache.db
      ensures addressCache.Keeps()
      ensures lookedUp && inserted ==> Resolved(txs, addressCache.address, addressCache.db.rows)
      ensures CanRecover(old(addressCache.db.plan), CollectedAll(txs), 3, None) ==>
                Resolved(txs, addressCache.address, addressCache.db.rows)
    {
      var addressSet := TransactionDecoding(txs);
      var allAddresses := Drain(addressSet);
      lookedUp, inserted := true, true;
      if |allAddresses| > 0 {
        MembersAreElements(allAddresses);
        lookedUp, inserted := addressCache.AddressSolver(allAddresses, 3, None);
      }
      ghost var recovers := CanRecover(old(addressCache.db.plan), CollectedAll(txs), 3, None);
      ResolvedBySolver(txs, allAddresses, addressCache.address, addressCache.db.rows,
                       (lookedUp && inserted) || recovers);
    }

    /** The inserts, `address_tx` first; message rows are not tried when that fails. */
    method StoreRows(rows: seq<Row>) returns (outcome: Outcome)
      modifies tables
      ensures outcome != ConversionFailed
      ensures outcome == AddressTxFailed ==> tables.stored == old(tables.stored)
      ensures forall t :: tables.Of(t) == old(tables.Of(t)) || tables.Of(t) == old(tables.Of(t)) + InTable(rows, t)
      ensures outcome == Done ==> forall t :: tables.Of(t) == old(tables.Of(t)) + InTable(rows, t)
      ensures outcome == Done ==> forall t :: AcceptsRows(old(tables.Of(t)), InTable(rows, t))
      ensures outcome == Done || outcome == MessagesFailed ==>
                && tables.addressTx == old(tables.addressTx) + Recorded(rows).Values
                && Recorded(rows).Values !! old(tables.addressTx)
      ensures (&& AllWork(old(tables.plan)) && Recorded(rows).Values !! old(tables.addressTx)
               && forall t :: AcceptsRows(old(tables.Of(t)), InTable(rows, t))) ==> outcome == Done
    {
      hide Recorded, InTable, Keys, AcceptsRows;
      var entries := CreateAddressTx(rows);
      EntriesAreRecorded(rows, entries);
      EntriesAreDistinct(entries);
      var ok := tables.InsertAddressTx(entries);
      if !ok {
        return AddressTxFailed;
      }
      var batches := InsertBatches(rows);
      ok := InsertMessageBatches(rows, batches);
      outcome := if ok then Done else MessagesFailed;
    }

    /**
     * `ProcessMessages`, under every failure pattern. Nothing is stored when a conversion failed. `Done` means that
     * every table gained the rows of every message of every arrival whose hash has an id, in order, and `address_tx`
     * the addresses they report, and nothing else; it excludes a multi-send that repeats an address on one side, or
     * leaves two unresolved. Any other outcome leaves each table with all of its rows or none. When every write works
     * and no key is repeated or stored, the outcome is `Done`. When the lookups answered and an insert of addresses
     * succeeded, or the plan lets the solver recover, every collected address was resolved (see EveryIdIsReal).
     */
    method ProcessMessages(txs: seq<Incoming>)
      returns (outcome: Outcome, ghost rows: seq<Row>, ghost lookedUp: bool, ghost inserted: bool)
      requires addressCache.Valid()
      modifies addressCache, addressCache.db, tables
      ensures addressCache.Keeps()
      ensures lookedUp && inserted ==> Resolved(txs, addressCache.address, addressCache.db.rows)
      ensures CanRecover(old(addressCache.db.plan), CollectedAll(txs), 3, None) ==>
                Resolved(txs, addressCache.address, addressCache.db.rows)
      ensures outcome == ConversionFailed <==>
                exists i :: 0 <= i < |txs| && txs[i].hash in txHashCache && !Convertible(txs[i].decoded.msgs)
      ensures rows == AllRows(Known(txs, txHashCache), chainName, Resolve(addressCache.address))
      ensures Listed(rows, ArrivalRows(txs, txHashCache, chainName, Resolve(addressCache.address)))
      ensures outcome == ConversionFailed ==>
                tables.stored == old(tables.stored) && tables.addressTx == old(tables.addressTx)
      ensures outcome == AddressTxFailed ==> tables.stored == old(tables.stored)
      ensures forall t :: tables.Of(t) == old(tables.Of(t)) || tables.Of(t) == old(tables.Of(t)) + InTable(rows, t)
      ensures outcome == Done ==> forall t ::
                && tables.Of(t) == old(tables.Of(t)) + InTable(rows, t)
                && Gained(old(tables.Of(t)), tables.Of(t),
                          TableRows(txs, txHashCache, chainName, Resolve(addressCache.address), t))
      ensures outcome == Done || outcome == MessagesFailed ==> forall e ::
                e in tables.addressTx <==>
                  || e in old(tables.addressTx)
                  || FirstReport(ArrivalRows(txs, txHashCache, chainName, Resolve(addressCache.address)), e)
      ensures outcome == Done ==>
                && AllApart(Known(txs, txHashCache), Resolve(addressCache.address))
                && NoneRepeats(Known(txs, txHashCache))
                && AllFewUnknown(Known(txs, txHashCache), addressCache.address.Keys)
      ensures (&& outcome != ConversionFailed && AllWork(old(tables.plan))
               && Recorded(rows).Values !! old(tables.addressTx)
               && forall t :: AcceptsRows(old(tables.Of(t)), InTable(rows, t))) ==> outcome == Done
    {
      hide Recorded, InTable, Keys, AcceptsRows, Listed, Known, AllRows, Convertible, FirstReport;
      hide AllApart, NoneRepeats, AllFewUnknown, Resolved, AllConvertible;
      lookedUp, inserted := ResolveAddresses(txs);
      var get := Resolve(addressCache.address);
      ghost var known := Known(txs, txHashCache);
      ghost var at := ArrivalRows(txs, txHashCache, chainName, get);
      rows := AllRows(known, chainName, get);
      ChunkRowsAreExact(txs, txHashCache, chainName, get);
      AllConvertibleIff(txs, txHashCache);
      var merged := ConvertAll(txs, txHashCache, get);
      if merged.None? {
        outcome := ConversionFailed;
        return;
      }
      outcome := StoreRows(merged.value);
      forall e
        ensures e in Recorded(rows).Values <==> FirstReport(at, e)
      {
        RecordedIsFirstReport(rows, at, e);
      }
      if outcome == Done {
        forall t
          ensures Gained(old(tables.Of(t)), tables.Of(t), TableRows(txs, txHashCache, chainName, get, t))
        {
          TableRowsAreExact(txs, txHashCache, chainName, get, t);
          GainedRows(old(tables.Of(t)), tables.Of(t), InTable(rows, t), TableRows(txs, txHashCache, chainName, get, t));
        }
        forall t
          ensures NoDuplicates(Keys(InTable(rows, t)))
        {
          AcceptedIsDistinct(old(tables.Of(t)), InTable(rows, t));
        }
        DistinctKeysMeanApart(known, chainName, get);
        CacheResolves(addressCache.address, addressCache.db.rows);
        AllApartIff(known, get, addressCache.address.Keys);
      }
    }
  }

  /** What became of one table whose batch was tried. */
  predicate Tried(was: seq<Row>, now: seq<Row>, rows: seq<Row>, ok: bool) {
    && (now == was || now == was + rows)
    && (ok ==> now == was + rows && AcceptsRows(was, rows))
  }

  /** The first k tables were tried, the others not. */
  predicate Progress(rows: seq<Row>, order: seq<string>, k: nat, was: map<string, seq<Row>>,
                     now: map<string, seq<Row>>, ok: bool, works: bool)
    requires k <= |order|
  {
    && (forall t :: t in was.Keys + now.Keys && t !in order[..k] ==> RowsIn(now, t) == RowsIn(was, t))
    && (forall j :: 0 <= j < k ==> Tried(RowsIn(was, order[j]), RowsIn(now, order[j]), InTable(rows, order[j]), ok))
    && (works && !ok ==> exists j :: 0 <= j < k && Refused(was, rows, order[j]))
  }

  predicate Refused(was: map<string, seq<Row>>, rows: seq<Row>, t: string) {
    !AcceptsRows(RowsIn(was, t), InTable(rows, t))
  }

  lemma NoProgress(rows: seq<Row>, order: seq<string>, was: map<string, seq<Row>>, works: bool)
    ensures Progress(rows, order, 0, was, was, true, works)
  {
  }

  lemma OneMoreBatch(rows: seq<Row>, order: seq<string>, k: nat, was: map<string, seq<Row>>,
                     before: map<string, seq<Row>>, now: map<string, seq<Row>>, ok: bool, inserted: bool, works: bool)
    requires NoDuplicates(order) && k < |order| && Progress(rows, order, k, was, before, ok, works)
    requires forall u :: u != order[k] ==> RowsIn(now, u) == RowsIn(before, u)
    requires Tried(RowsIn(before, order[k]), RowsIn(now, order[k]), InTable(rows, order[k]), inserted)
    requires works && !inserted ==> Refused(before, rows, order[k])
    ensures Progress(rows, order, k + 1, was, now, ok && inserted, works)
  {
    assert order[..k + 1] == order[..k] + [order[k]];
    assert order[k] !in order[..k];
    assert RowsIn(before, order[k]) == RowsIn(was, order[k]);
    assert Refused(before, rows, order[k]) == Refused(was, rows, order[k]);
    forall t | t in was.Keys + now.Keys && t !in order[..k + 1]
      ensures RowsIn(now, t) == RowsIn(was, t)
    {
      assert RowsIn(now, t) == RowsIn(before, t);
    }
    hide RowsIn, Refused, InTable;
    forall j | 0 <= j < k + 1
      ensures Tried(RowsIn(was, order[j]), RowsIn(now, order[j]), InTable(rows, order[j]), ok && inserted)
    {
      if j < k {
        assert order[j] != order[k];
        TriedStays(RowsIn(was, order[j]), RowsIn(now, order[j]), InTable(rows, order[j]), ok, inserted);
      } else {
        TriedStays(RowsIn(was, order[k]), RowsIn(now, order[k]), InTable(rows, order[k]), inserted, ok);
      }
    }
    hide Tried;
  }

  lemma TriedStays(was: seq<Row>, now: seq<Row>, rows: seq<Row>, ok: bool, also: bool)
    requires Tried(was, now, rows, ok)
    ensures Tried(was, now, rows, ok && also) && Tried(was, now, rows, also && ok)
  {
  }

  lemma AllBatches(rows: seq<Row>, was: map<string, seq<Row>>, now: map<string, seq<Row>>, ok: bool, works: bool)
    requires Progress(rows, TablesOf(rows), |TablesOf(rows)|, was, now, ok, works)
    ensures forall t :: RowsIn(now, t) == RowsIn(was, t) || RowsIn(now, t) == RowsIn(was, t) + InTable(rows, t)
    ensures ok ==> forall t :: RowsIn(now, t) == RowsIn(was, t) + InTable(rows, t)
    ensures ok ==> forall t :: AcceptsRows(RowsIn(was, t), InTable(rows, t))
    ensures works && (forall t :: AcceptsRows(RowsIn(was, t), InTable(rows, t))) ==> ok
  {
    var order := TablesOf(rows);
    forall t
      ensures RowsIn(now, t) == RowsIn(was, t) || RowsIn(now, t) == RowsIn(was, t) + InTable(rows, t)
      ensures ok ==> RowsIn(now, t) == RowsIn(was, t) + InTable(rows, t)
      ensures ok ==> AcceptsRows(RowsIn(was, t), InTable(rows, t))
    {
      hide InTable, AcceptsRows;
      assert order[..|order|] == order;
      if t in order {
        var j :| 0 <= j < |order| && order[j] == t;
      } else {
        UnusedTableIsEmpty(rows, t);
        NothingIsAccepted(RowsIn(was, t));
      }
    }
  }

  lemma GainedRows(before: seq<Row>, after: seq<Row>, rows: seq<Row>, at: Place -> Option<Row>)
    requires after == before + rows && Listed(rows, at)
    ensures Gained(before, after, at)
  {
    assert after[|before|..] == rows;
  }

  lemma AcceptedIsDistinct(stored: seq<Row>, rows: seq<Row>)
    requires AcceptsRows(stored, rows)
    ensures NoDuplicates(Keys(rows))
  {
  }

  lemma NothingIsAccepted(stored: seq<Row>)
    ensures AcceptsRows(stored, [])
  {
  }

  lemma MembersAreElements(addresses: seq<string>)
    ensures Members(addresses) == Elements(addresses)
  {
  }

  lemma EntriesAreDistinct(entries: seq<AddressTx>)
    requires NoDuplicates(Map(KeyOfAddressTx, entries))
    ensures NoDuplicates(entries)
  {
    forall i, j | 0 <= i < j < |entries|
      ensures entries[i] != entries[j]
    {
      assert Map(KeyOfAddressTx, entries)[i] != Map(KeyOfAddressTx, entries)[j];
    }
  }

  lemma OneMoreTx(txs: seq<Tx>, tx: Tx, chain: string, get: Resolver)
    ensures AllConvertible(txs + [tx]) <==> AllConvertible(txs) && Convertible(tx.decoded.msgs)
    ensures AllRows(txs + [tx], chain, get) == AllRows(txs, chain, get) + TxRows(tx, chain, get)
  {
    var all := txs + [tx];
    assert all[..|all| - 1] == txs;
    assert forall t :: 0 <= t < |txs| ==> all[t] == txs[t];
    assert all[|txs|] == tx;
  }

  /** A batch is never empty, and its first row names its table. */
  lemma BatchIsNamed(rows: seq<Row>, t: string)
    requires t in TablesOf(rows)
    ensures |InTable(rows, t)| > 0 && TableName(InTable(rows, t)[0]) == t
  {
    TablesAreThoseUsed(rows);
    PositionsExact(rows, t);
    BatchKeepsOrder(rows, t);
    var i :| 0 <= i < |rows| && TableName(rows[i]) == t;
    assert i in Positions(rows, t);
    assert Positions(rows, t)[0] in Positions(rows, t);
  }

  lemma EntriesAreRecorded(rows: seq<Row>, entries: seq<AddressTx>)
    requires forall e :: e in entries <==> e.key in Recorded(rows) && Recorded(rows)[e.key] == e
    ensures Elements(entries) == Recorded(rows).Values
  {
    forall e | e in Recorded(rows).Values
      ensures e in entries
    {
      var k :| k in Recorded(rows) && Recorded(rows)[k] == e;
      RecordedExactly(rows, k);
    }
  }

  lemma ResolvedBySolver(
    txs: seq<Incoming>, addresses: seq<string>, cached: map<string, int>, table: map<string, int>, solved: bool)
    requires Elements(addresses) == CollectedAll(txs)
    requires solved ==> forall a :: a in addresses ==> a in cached && a in table && cached[a] == table[a] != 0
    ensures solved ==> Resolved(txs, cached, table)
  {
    forall a | a in CollectedAll(txs)
      ensures a in addresses
    {
      assert a in Elements(addresses);
    }
  }
}
