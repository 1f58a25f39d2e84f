/**
 * The transactions of a chunk on their way into the database: which are converted, to which rows, with which ids,
 * and when their keys collide.
 */
module Chunks {
  import opened Results
  import opened Listings
  import opened AddressCaching
  import opened Decoder
  import opened Batches
  import opened HashIds
  import Collecting

  /** What the fetch delivered of one transaction; `decoded` is its decoded body. */
  datatype Incoming = Incoming(hash: string, timestamp: int, decoded: DecodedMsg)

  /** `GetAddress` as a function of the cached map. */
  function Resolve(cached: map<string, int>): Resolver {
    a => if a in cached then cached[a] else 0
  }

  /** The transactions whose hash has an id, in order; the others are skipped. */
  function Known(txs: seq<Incoming>, ids: map<string, int>): seq<Tx> {
    if txs == [] then []
    else
      var last := txs[|txs| - 1];
      var front := Known(txs[..|txs| - 1], ids);
      if last.hash in ids then front + [Tx(ids[last.hash], last.timestamp, last.decoded)] else front
  }

  function CollectedAll(txs: seq<Incoming>): set<string> {
    if txs == [] then {} else CollectedAll(txs[..|txs| - 1]) + Collected(txs[|txs| - 1].decoded)
  }

  predicate AllConvertible(txs: seq<Tx>) {
    forall t :: 0 <= t < |txs| ==> Convertible(txs[t].decoded.msgs)
  }

  lemma {:induction false} KnownAreCollected(txs: seq<Incoming>, ids: map<string, int>, t: nat, a: string)
    requires t < |Known(txs, ids)| && a in Collected(Known(txs, ids)[t].decoded)
    ensures a in CollectedAll(txs)
    decreases |txs|
  {
    var init := txs[..|txs| - 1];
    if t < |Known(init, ids)| {
      KnownAreCollected(init, ids, t, a);
    }
  }

  lemma {:induction false} KnownOrigins(txs: seq<Incoming>, ids: map<string, int>, t: nat) returns (i: nat)
    requires t < |Known(txs, ids)|
    ensures i < |txs| && txs[i].hash in ids && Known(txs, ids)[t].txId == ids[txs[i].hash]
    ensures Known(txs, ids)[t].timestamp == txs[i].timestamp
    decreases |txs|
  {
    var init := txs[..|txs| - 1];
    if t < |Known(init, ids)| {
      i := KnownOrigins(init, ids, t);
    } else {
      i := |txs| - 1;
    }
  }

  /** No hash arrives twice with one time. */
  predicate DistinctStamps(txs: seq<Incoming>) {
    forall i, j :: 0 <= i < j < |txs| ==> txs[i].hash != txs[j].hash || txs[i].timestamp != txs[j].timestamp
  }

  /** Distinct arrivals stay distinct when their ids take the place of their hashes. */
  lemma {:induction false} KnownIdsDistinct(txs: seq<Incoming>, ids: map<string, int>)
    requires Injective(ids) && DistinctStamps(txs)
    ensures DistinctTxs(Known(txs, ids))
    decreases |txs|
  {
    if txs != [] {
      var init, last := txs[..|txs| - 1], txs[|txs| - 1];
      KnownIdsDistinct(init, ids);
      var known := Known(init, ids);
      forall t | 0 <= t < |known| && last.hash in ids
        ensures known[t].txId != ids[last.hash] || known[t].timestamp != last.timestamp
      {
        var i := KnownOrigins(init, ids, t);
        assert init[i] == txs[i];
      }
    }
  }

  lemma {:induction false} RowsOfKnown(txs: seq<Tx>, chain: string, get: Resolver, r: Row)
    requires r in AllRows(txs, chain, get)
    ensures exists t :: 0 <= t < |txs| && r in TxRows(txs[t], chain, get)
    decreases |txs|
  {
    var init := txs[..|txs| - 1];
    if r in AllRows(init, chain, get) {
      RowsOfKnown(init, chain, get, r);
      var t :| 0 <= t < |init| && r in TxRows(init[t], chain, get);
      assert txs[t] == init[t];
    } else {
      assert r in TxRows(txs[|txs| - 1], chain, get);
    }
  }

  /** Every collected address is cached under its id in the table. */
  predicate Resolved(txs: seq<Incoming>, cached: map<string, int>, table: map<string, int>) {
    forall a :: a in CollectedAll(txs) ==> a in cached && a in table && cached[a] == table[a] != 0
  }

  /** Every id in every row of the chunk, signers included, is the database id of a collected address. */
  lemma EveryIdIsReal(txs: seq<Incoming>, ids: map<string, int>, chain: string,
                      cached: map<string, int>, table: map<string, int>, r: Row, id: int)
    requires Resolved(txs, cached, table)
    requires r in AllRows(Known(txs, ids), chain, Resolve(cached))
    requires id in IdColumns(r) || id in r.signers || id in GetAllAddresses(r)
    ensures id != 0 && exists a :: a in CollectedAll(txs) && a in table && table[a] == id
  {
    var known, get := Known(txs, ids), Resolve(cached);
    RowsOfKnown(known, chain, get, r);
    var t :| 0 <= t < |known| && r in TxRows(known[t], chain, get);
    var tx := known[t];
    forall a | a in Collected(tx.decoded)
      ensures a in CollectedAll(txs)
    {
      KnownAreCollected(txs, ids, t, a);
    }
    RowsHoldDatabaseIds(tx.decoded, get, table, tx.txId, chain, tx.timestamp, r, id);
  }

  /** Rows of one table with equal keys meet in that table's batch. */
  lemma SameTableKeys(rows: seq<Row>, t: string, i: nat, j: nat)
    requires i < j < |rows| && TableName(rows[i]) == t && TableName(rows[j]) == t
    requires KeyOf(rows[i]) == KeyOf(rows[j])
    ensures !NoDuplicates(Keys(InTable(rows, t)))
  {
    PositionsExact(rows, t);
    BatchKeepsOrder(rows, t);
    var p, batch := Positions(rows, t), InTable(rows, t);
    assert i in p && j in p;
    assert forall k :: 0 <= k < |p| ==> p[k] < |rows| && batch[k] == rows[p[k]];
    SameKeysMeet(rows, batch, p, i, j);
  }

  lemma SameKeysMeet(rows: seq<Row>, batch: seq<Row>, p: seq<nat>, i: nat, j: nat)
    requires |batch| == |p| && forall k :: 0 <= k < |p| ==> p[k] < |rows| && batch[k] == rows[p[k]]
    requires i < j < |rows| && i in p && j in p && KeyOf(rows[i]) == KeyOf(rows[j])
    ensures !NoDuplicates(Keys(batch))
  {
    hide KeyOf;
    var a :| 0 <= a < |p| && p[a] == i;
    var b :| 0 <= b < |p| && p[b] == j;
    assert batch[a] == rows[i] && batch[b] == rows[j];
    assert Keys(batch)[a] == Keys(batch)[b];
  }

  lemma {:induction false} SinglesKeepPairs(rows: seq<Row>, i: nat, j: nat)
    requires i < j < |rows| && !rows[i].detail.MultiSendRow? && !rows[j].detail.MultiSendRow?
    requires KeyOf(rows[i]) == KeyOf(rows[j])
    ensures !NoDuplicates(Keys(Singles(rows)))
  {
    var front, back := rows[..j], rows[j..];
    assert rows == front + back;
    SinglesConcat(front, back);
    KeysConcat(Singles(front), Singles(back));
    SinglesContain(front, i);
    SinglesContain(back, 0);
    var s, t := Singles(front), Singles(back);
    var a :| 0 <= a < |s| && s[a] == rows[i];
    var b :| 0 <= b < |t| && t[b] == rows[j];
    assert Keys(s)[a] == KeyOf(rows[i]) && Keys(t)[b] == KeyOf(rows[j]);
    assert KeyOf(rows[i]) in Keys(s) && KeyOf(rows[i]) in Keys(t);
  }

  lemma {:induction false} SinglesContain(rows: seq<Row>, i: nat)
    requires i < |rows| && !rows[i].detail.MultiSendRow?
    ensures rows[i] in Singles(rows)
  {
    var front, back := rows[..i], rows[i..];
    assert rows == front + back;
    SinglesConcat(front, back);
    var tail := rows[i + 1..];
    assert back == [rows[i]] + tail;
    SinglesConcat([rows[i]], tail);
    var one := [rows[i]];
    assert one[..|one| - 1] == [];
    assert Singles(one) == one;
  }

  lemma SliceOfConcat<T>(a: seq<T>, b: seq<T>, o: nat, n: nat)
    ensures o + n <= |a| ==> (a + b)[o..o + n] == a[o..o + n]
    ensures (a + b)[|a|..|a| + |b|] == b
  {
  }

  /** Where the rows of one transaction stand among all rows. */
  lemma {:induction false} BlockOf(txs: seq<Tx>, chain: string, get: Resolver, t: nat) returns (o: nat)
    requires t < |txs|
    ensures o + |TxRows(txs[t], chain, get)| <= |AllRows(txs, chain, get)|
    ensures AllRows(txs, chain, get)[o..o + |TxRows(txs[t], chain, get)|] == TxRows(txs[t], chain, get)
    decreases |txs|
  {
    hide TxRows;
    var init := txs[..|txs| - 1];
    var front, last := AllRows(init, chain, get), TxRows(txs[|txs| - 1], chain, get);
    if t < |init| {
      o := BlockOf(init, chain, get, t);
    } else {
      o := |front|;
    }
    SliceOfConcat(front, last, o, |TxRows(txs[t], chain, get)|);
  }

  /** Repeated keys outside the single rows meet in one table. */
  lemma RowsCollide(rows: seq<Row>) returns (i: nat, j: nat)
    requires !NoDuplicates(Keys(rows)) && NoDuplicates(Keys(Singles(rows)))
    ensures i < j < |rows| && KeyOf(rows[i]) == KeyOf(rows[j]) && TableName(rows[i]) == TableName(rows[j])
  {
    i, j :| 0 <= i < j < |rows| && Keys(rows)[i] == Keys(rows)[j];
    if !rows[i].detail.MultiSendRow? {
      SinglesKeepPairs(rows, i, j);
    }
  }

  /** ... and in that table's batch, whatever rows stand around them. */
  lemma BlockSpoils(rows: seq<Row>, block: seq<Row>, o: nat) returns (table: string)
    requires o + |block| <= |rows| && rows[o..o + |block|] == block
    requires !NoDuplicates(Keys(block)) && NoDuplicates(Keys(Singles(block)))
    ensures !NoDuplicates(Keys(InTable(rows, table)))
  {
    hide NoDuplicates, Keys, Singles, InTable, KeyOf, TableName;
    var i, j := RowsCollide(block);
    table := TableName(block[i]);
    assert rows[o..o + |block|][i] == rows[o + i] && rows[o..o + |block|][j] == rows[o + j];
    SameTableKeys(rows, table, o + i, o + j);
  }

  lemma TxKeys(t: Tx, chain: string, get: Resolver)
    ensures NoDuplicates(Keys(TxRows(t, chain, get))) <==> TxApart(t, get)
    ensures NoDuplicates(Keys(Singles(TxRows(t, chain, get))))
  {
    hide NoDuplicates, Keys, Singles, RowsOf, ApartBelow;
    var c := Context(t.decoded, get, t.txId, chain, t.timestamp);
    TransactionKeys(t.decoded.msgs, |t.decoded.msgs|, c, get);
    TransactionSingles(t.decoded.msgs, |t.decoded.msgs|, c, get);
  }

  /** In any list of transactions, one that is not apart spoils the batch of a table. */
  lemma NotApartSpoils(txs: seq<Tx>, chain: string, get: Resolver) returns (table: string)
    requires !AllApart(txs, get)
    ensures !NoDuplicates(Keys(InTable(AllRows(txs, chain, get), table)))
  {
    hide NoDuplicates, Keys, Singles, InTable, TxApart, TxRows;
    var t :| 0 <= t < |txs| && !TxApart(txs[t], get);
    TxKeys(txs[t], chain, get);
    var o := BlockOf(txs, chain, get, t);
    table := BlockSpoils(AllRows(txs, chain, get), TxRows(txs[t], chain, get), o);
  }

  /** Batches without repeated keys have no two entries of one side with one id. */
  lemma DistinctKeysMeanApart(txs: seq<Tx>, chain: string, get: Resolver)
    requires forall t :: NoDuplicates(Keys(InTable(AllRows(txs, chain, get), t)))
    ensures AllApart(txs, get)
  {
    if !AllApart(txs, get) {
      var table := NotApartSpoils(txs, chain, get);
      assert false;
    }
  }

  /** All batches are free of repeated keys exactly when no two entries of one side have one id. */
  lemma BatchesHaveDistinctKeysIff(txs: seq<Tx>, chain: string, get: Resolver)
    requires DistinctTxs(txs)
    ensures (forall t :: NoDuplicates(Keys(InTable(AllRows(txs, chain, get), t)))) <==> AllApart(txs, get)
  {
    var rows := AllRows(txs, chain, get);
    if AllApart(txs, get) {
      KeysCollideIff(txs, chain, get);
      forall t
        ensures NoDuplicates(Keys(InTable(rows, t)))
      {
        InTableKeysDistinct(rows, t);
      }
    } else {
      var table := NotApartSpoils(txs, chain, get);
    }
  }

  /** The cache as a resolver: part of a table with one positive id per address. */
  lemma CacheResolves(cached: map<string, int>, table: map<string, int>)
    requires SubMap(cached, table)
    requires forall a :: a in table ==> table[a] >= 1
    requires forall a, b :: a in table && b in table && table[a] == table[b] ==> a == b
    ensures CacheLike(Resolve(cached), cached.Keys)
  {
  }

  /**
   * In terms of what arrives: all of a chunk's batches are free of repeated keys exactly when no message repeats an
   * address on one side and none has two addresses on one side that the cache does not know.
   */
  lemma ChunkKeysDistinctIff(txs: seq<Tx>, chain: string, cached: map<string, int>)
    requires DistinctTxs(txs) && CacheLike(Resolve(cached), cached.Keys)
    ensures (forall t :: NoDuplicates(Keys(InTable(AllRows(txs, chain, Resolve(cached)), t)))) <==>
              NoneRepeats(txs) && AllFewUnknown(txs, cached.Keys)
  {
    BatchesHaveDistinctKeysIff(txs, chain, Resolve(cached));
    AllApartIff(txs, Resolve(cached), cached.Keys);
  }

  /** When every collected address was resolved, exactly the chunks without a repeated address have distinct keys. */
  lemma ResolvedKeysDistinctIff(txs: seq<Incoming>, ids: map<string, int>, chain: string,
                                cached: map<string, int>, table: map<string, int>)
    requires Injective(ids) && DistinctStamps(txs)
    requires Resolved(txs, cached, table) && CacheLike(Resolve(cached), cached.Keys)
    ensures (forall t :: NoDuplicates(Keys(InTable(AllRows(Known(txs, ids), chain, Resolve(cached)), t)))) <==>
              NoneRepeats(Known(txs, ids))
  {
    var known := Known(txs, ids);
    KnownIdsDistinct(txs, ids);
    ChunkKeysDistinctIff(known, chain, cached);
    forall t, i | 0 <= t < |known| && 0 <= i < |known[t].decoded.msgs|
      ensures FewUnknown(known[t].decoded.msgs[i], cached.Keys)
    {
      var m := known[t].decoded.msgs[i];
      forall a | a in Addresses(m)
        ensures a in cached
      {
        CollectedContains(known[t].decoded.msgs, i, a);
        KnownAreCollected(txs, ids, t, a);
      }
      KnownMeansFew(m, cached.Keys);
    }
  }

  lemma InTableKeysDistinct(rows: seq<Row>, t: string)
    requires NoDuplicates(Keys(rows))
    ensures NoDuplicates(Keys(InTable(rows, t)))
  {
    PositionsExact(rows, t);
    BatchKeepsOrder(rows, t);
    var p, batch := Positions(rows, t), InTable(rows, t);
    hide TableName, KeyOf, InTable, Positions;
    forall a, b | 0 <= a < b < |batch|
      ensures Keys(batch)[a] != Keys(batch)[b]
    {
      assert p[a] < p[b];
      assert Keys(rows)[p[a]] != Keys(rows)[p[b]];
    }
  }

  function TimesOf(txs: seq<Incoming>): seq<int> {
    if txs == [] then [] else TimesOf(txs[..|txs| - 1]) + [txs[|txs| - 1].timestamp]
  }

  lemma {:induction false} ColumnsAre(txs: seq<Incoming>)
    ensures |HashesOf(txs)| == |TimesOf(txs)| == |txs|
    ensures forall i :: 0 <= i < |txs| ==> HashesOf(txs)[i] == txs[i].hash && TimesOf(txs)[i] == txs[i].timestamp
    decreases |txs|
  {
    if txs != [] {
      ColumnsAre(txs[..|txs| - 1]);
    }
  }

  lemma DistinctPairsStamps(txs: seq<Incoming>)
    requires AllDecode(HashesOf(txs)) && |Raws(HashesOf(txs))| == |TimesOf(txs)|
    requires PairsDistinct(Raws(HashesOf(txs)), TimesOf(txs))
    ensures DistinctStamps(txs)
  {
    hide Raw, Raws, HashesOf, TimesOf;
    ColumnsAre(txs);
    RawsLength(HashesOf(txs));
  }

  /** What `collectTransactionsFromBlocks` delivers, decoded. */
  function Arrivals(joined: seq<Collecting.TransactionsData>, decode: string -> DecodedMsg): seq<Incoming> {
    seq(|joined|, i requires 0 <= i < |joined| =>
      Incoming(joined[i].response.hash, joined[i].timestamp, decode(joined[i].response.tx)))
  }

  /** Arrivals are distinct if and only if no hash with a time is answered times listed more than once. */
  lemma StampsDistinctIff(fetched: seq<Option<Collecting.TxResponse>>, listed: seq<Collecting.BlockTx>,
                          decode: string -> DecodedMsg)
    ensures DistinctStamps(Arrivals(Collecting.Join(fetched, listed), decode)) <==>
              forall h, t :: Collecting.AtMostOnce(fetched, listed, Collecting.Stamp(h, Some(t)))
  {
    var joined := Collecting.Join(fetched, listed);
    var txs := Arrivals(joined, decode);
    Collecting.DistinctInIff(fetched, listed, true);
    assert DistinctStamps(txs) <==> Collecting.DistinctIn(joined, true) by {
      forall i, j | 0 <= i < j < |joined|
        ensures Collecting.JoinedStamp(joined[i], true) != Collecting.JoinedStamp(joined[j], true) <==>
                  txs[i].hash != txs[j].hash || txs[i].timestamp != txs[j].timestamp
      {
      }
    }
    hide DistinctStamps, Collecting.DistinctIn, Collecting.AtMostOnce;
    if forall h, t :: Collecting.AtMostOnce(fetched, listed, Collecting.Stamp(h, Some(t))) {
      forall s: Collecting.Stamp | s.time.Some?
        ensures Collecting.AtMostOnce(fetched, listed, s)
      {
        assert s == Collecting.Stamp(s.hash, Some(s.time.value));
      }
    }
  }

  /** A listed transaction that is fetched twice arrives twice with one time. */
  lemma RepeatedFetchStopsIds(fetched: seq<Option<Collecting.TxResponse>>, listed: seq<Collecting.BlockTx>, i: nat,
                              decode: string -> DecodedMsg)
    requires i < |listed| && Collecting.CountFetched(fetched, listed[i].hash) >= 2
    ensures !DistinctStamps(Arrivals(Collecting.Join(fetched, listed), decode))
  {
    var s := Collecting.Stamp(listed[i].hash, Some(listed[i].timestamp));
    StampsDistinctIff(fetched, listed, decode);
    Collecting.ListedIsCounted(listed, i);
    Twofold(Collecting.CountFetched(fetched, s.hash), Collecting.CountListed(listed, s));
    assert !Collecting.AtMostOnce(fetched, listed, s);
  }

  lemma Twofold(a: nat, b: nat)
    requires a >= 2 && b >= 1
    ensures a * b >= 2
  {
  }

  /** So does one that a block lists twice, although only one of the two fetches answers. */
  lemma ListedTwiceStopsIds(tx: Collecting.TxResponse, height: Uint64, timestamp: int, decode: string -> DecodedMsg)
    ensures var b := Collecting.BlockTx(tx.hash, height, timestamp);
            var listed, fetched := [b, b], [Some(tx), None];
            && Collecting.Faithful(fetched, listed) && Collecting.CountFetched(fetched, tx.hash) == 1
            && !DistinctStamps(Arrivals(Collecting.Join(fetched, listed), decode))
  {
    var b := Collecting.BlockTx(tx.hash, height, timestamp);
    var listed, fetched := [b, b], [Some(tx), None];
    var s := Collecting.Stamp(tx.hash, Some(timestamp));
    assert listed[..1] == [b] && [b][..0] == [];
    assert fetched[..1] == [Some(tx)] && [Some(tx)][..0] == [];
    assert Collecting.CountListed([b], s) == 1;
    assert Collecting.CountListed(listed, s) == 2;
    assert Collecting.CountFetched([Some(tx)], tx.hash) == 1;
    StampsDistinctIff(fetched, listed, decode);
    assert !Collecting.AtMostOnce(fetched, listed, s);
  }

  predicate AllStrict(txs: seq<Incoming>) {
    forall i :: 0 <= i < |txs| ==> StrictHash(txs[i].hash)
  }

  /** For strict hashes, distinct texts are distinct hashes. */
  lemma StrictPairsIff(txs: seq<Incoming>)
    requires AllStrict(txs)
    ensures AllDecode(HashesOf(txs)) && |Raws(HashesOf(txs))| == |TimesOf(txs)|
    ensures PairsDistinct(Raws(HashesOf(txs)), TimesOf(txs)) <==> DistinctStamps(txs)
  {
    hide Raw, Canonical, StrictHash, Raws, HashesOf, TimesOf;
    ColumnsAre(txs);
    forall i | 0 <= i < |txs|
      ensures Raw(txs[i].hash).Some? && Canonical(Raw(txs[i].hash).value) == txs[i].hash
    {
      StrictHashIsCanonical(txs[i].hash);
    }
    RawsLength(HashesOf(txs));
    var raws := Raws(HashesOf(txs));
    forall i | 0 <= i < |txs|
      ensures raws[i] == Raw(txs[i].hash).value
    {
      assert HashesOf(txs)[i] == txs[i].hash;
    }
  }

  lemma ArrivalsAreStrict(sha: Collecting.Digest, blocks: seq<Option<Collecting.Block>>,
                          fetched: seq<Option<Collecting.TxResponse>>, decode: string -> DecodedMsg)
    ensures AllStrict(Arrivals(Collecting.Join(fetched, Collecting.ListBlocks(sha, blocks)), decode))
  {
    var listed := Collecting.ListBlocks(sha, blocks);
    var txs := Arrivals(Collecting.Join(fetched, listed), decode);
    forall k | 0 <= k < |txs|
      ensures StrictHash(txs[k].hash)
    {
      var i := Collecting.JoinIsListed(fetched, listed, k);
      Collecting.ListedIsEncoded(sha, blocks, listed[i]);
      hide StrictHash, Base64.Encode;
      var raw :| listed[i].hash == Base64.Encode(Base64.Standard, sha(raw));
      CanonicalIsStrict(sha(raw));
    }
  }

  /**
   * What a chunk's blocks and the node's answers must look like for its ids to be inserted: there is something to
   * insert, no hash with a time is answered times listed more than once, and nothing is stored already.
   */
  lemma ChunkInsertableIff(sha: Collecting.Digest, blocks: seq<Option<Collecting.Block>>,
                           fetched: seq<Option<Collecting.TxResponse>>, decode: string -> DecodedMsg,
                           ids: map<(Base64.Bytes, int), int>)
    ensures var listed := Collecting.ListBlocks(sha, blocks);
            var txs := Arrivals(Collecting.Join(fetched, listed), decode);
            && |Raws(HashesOf(txs))| == |TimesOf(txs)|
            && (Insertable(HashesOf(txs), TimesOf(txs), ids) <==>
                  && txs != []
                  && (forall h, t :: Collecting.AtMostOnce(fetched, listed, Collecting.Stamp(h, Some(t))))
                  && NoneStored(Raws(HashesOf(txs)), TimesOf(txs), ids))
  {
    var listed := Collecting.ListBlocks(sha, blocks);
    var txs := Arrivals(Collecting.Join(fetched, listed), decode);
    hide AllStrict, PairsDistinct, DistinctStamps, NoneStored, AllDecode, Raws, HashesOf, TimesOf, Arrivals;
    hide Collecting.AtMostOnce, Collecting.Join, Collecting.ListBlocks;
    ArrivalsAreStrict(sha, blocks, fetched, decode);
    StrictPairsIff(txs);
    StampsDistinctIff(fetched, listed, decode);
    ColumnsAre(txs);
  }

  function HashesOf(txs: seq<Incoming>): seq<string> {
    if txs == [] then [] else HashesOf(txs[..|txs| - 1]) + [txs[|txs| - 1].hash]
  }

  // ----- What is converted, without leaving anything out -----

  /** The rows of one message of an arriving transaction. */
  function MessageRows(t: Incoming, id: int, chain: string, get: Resolver, m: nat): seq<Row>
    requires m < |t.decoded.msgs|
  {
    Convert(t.decoded.msgs[m], Ctx(id, chain, t.timestamp, Map(get, t.decoded.signers), m), get)
  }

  /**
   * Row `inner` of message `middle` of arrival `outer`, if the arrival's hash has an id: converted under that id, the
   * arrival's time and the message's position.
   */
  function ArrivalRow(txs: seq<Incoming>, ids: map<string, int>, chain: string, get: Resolver, p: Place): Option<Row> {
    if p.outer < |txs| && txs[p.outer].hash in ids then TxRow(txs[p.outer], ids[txs[p.outer].hash], chain, get, p)
    else None
  }

  function TxRow(t: Incoming, id: int, chain: string, get: Resolver, p: Place): Option<Row> {
    if p.middle < |t.decoded.msgs| && p.inner < |MessageRows(t, id, chain, get, p.middle)|
    then Some(MessageRows(t, id, chain, get, p.middle)[p.inner])
    else None
  }

  function ArrivalRows(txs: seq<Incoming>, ids: map<string, int>, chain: string, get: Resolver): Place -> Option<Row> {
    (p: Place) => ArrivalRow(txs, ids, chain, get, p)
  }

  /** The same for the rows of one table. */
  function TableRows(txs: seq<Incoming>, ids: map<string, int>, chain: string, get: Resolver, table: string)
    : Place -> Option<Row>
  {
    (p: Place) =>
      var r := ArrivalRow(txs, ids, chain, get, p);
      if r.Some? && TableName(r.value) == table then r else None
  }

  function TxRowsBelow(t: Incoming, id: int, chain: string, get: Resolver, i: nat, n: nat): Place -> Option<Row> {
    (p: Place) => if p.outer == i && p.middle < n then TxRow(t, id, chain, get, p) else None
  }

  function OneMessage(t: Incoming, id: int, chain: string, get: Resolver, i: nat, m: nat): Place -> Option<Row> {
    (p: Place) => if p.outer == i && p.middle == m then TxRow(t, id, chain, get, p) else None
  }

  lemma OneMessageListed(t: Incoming, id: int, chain: string, get: Resolver, i: nat, m: nat)
    requires m < |t.decoded.msgs|
    ensures Listed(MessageRows(t, id, chain, get, m), OneMessage(t, id, chain, get, i, m))
  {
    hide Convert;
    RowListed(MessageRows(t, id, chain, get, m), i, m, OneMessage(t, id, chain, get, i, m));
  }

  lemma {:induction false} TxListed(t: Incoming, id: int, chain: string, get: Resolver, i: nat, n: nat)
    requires n <= |t.decoded.msgs|
    ensures Listed(RowsOf(t.decoded.msgs, n, Context(t.decoded, get, id, chain, t.timestamp), get),
                   TxRowsBelow(t, id, chain, get, i, n))
  {
    hide Convert, Listed;
    var c := Context(t.decoded, get, id, chain, t.timestamp);
    var at := TxRowsBelow(t, id, chain, get, i, n);
    if n == 0 {
      NothingIsListed(at);
    } else {
      TxListed(t, id, chain, get, i, n - 1);
      OneMessageListed(t, id, chain, get, i, n - 1);
      ListedConcat(RowsOf(t.decoded.msgs, n - 1, c, get), TxRowsBelow(t, id, chain, get, i, n - 1),
                   MessageRows(t, id, chain, get, n - 1), OneMessage(t, id, chain, get, i, n - 1), at);
    }
  }

  /** What arrival i contributes, nothing when its hash has no id. */
  function OneArrival(txs: seq<Incoming>, ids: map<string, int>, chain: string, get: Resolver, i: nat)
    : Place -> Option<Row>
  {
    (p: Place) => if p.outer == i then ArrivalRow(txs, ids, chain, get, p) else None
  }

  function RowsOfArrival(t: Incoming, ids: map<string, int>, chain: string, get: Resolver): seq<Row> {
    if t.hash in ids then TxRows(Tx(ids[t.hash], t.timestamp, t.decoded), chain, get) else []
  }

  lemma OneArrivalListed(txs: seq<Incoming>, ids: map<string, int>, chain: string, get: Resolver, i: nat)
    requires i < |txs|
    ensures Listed(RowsOfArrival(txs[i], ids, chain, get), OneArrival(txs, ids, chain, get, i))
  {
    hide MessageRows, Listed, RowsOf;
    var t, at := txs[i], OneArrival(txs, ids, chain, get, i);
    if t.hash in ids {
      var n := |t.decoded.msgs|;
      TxListed(t, ids[t.hash], chain, get, i, n);
      ListedSame(RowsOfArrival(t, ids, chain, get), TxRowsBelow(t, ids[t.hash], chain, get, i, n), at);
    } else {
      NothingIsListed(at);
    }
  }

  lemma AllRowsGrow(txs: seq<Incoming>, ids: map<string, int>, chain: string, get: Resolver)
    requires txs != []
    ensures AllRows(Known(txs, ids), chain, get) ==
            AllRows(Known(txs[..|txs| - 1], ids), chain, get) + RowsOfArrival(txs[|txs| - 1], ids, chain, get)
  {
    hide TxRows;
    var front, last := Known(txs[..|txs| - 1], ids), txs[|txs| - 1];
    if last.hash in ids {
      var t := Tx(ids[last.hash], last.timestamp, last.decoded);
      assert (front + [t])[..|front|] == front;
    }
  }

  /**
   * The rows of a chunk, arrival by arrival: every message of every arriving transaction whose hash has an id is
   * converted, in order, under that id, and nothing else is.
   */
  lemma {:induction false} ChunkRowsAreExact(txs: seq<Incoming>, ids: map<string, int>, chain: string, get: Resolver)
    ensures Listed(AllRows(Known(txs, ids), chain, get), ArrivalRows(txs, ids, chain, get))
    decreases |txs|
  {
    hide TxRow, Listed, RowsOfArrival;
    if txs == [] {
      NothingIsListed(ArrivalRows(txs, ids, chain, get));
    } else {
      var n := |txs| - 1;
      ChunkRowsAreExact(txs[..n], ids, chain, get);
      OneArrivalListed(txs, ids, chain, get, n);
      AllRowsGrow(txs, ids, chain, get);
      ListedConcat(AllRows(Known(txs[..n], ids), chain, get), ArrivalRows(txs[..n], ids, chain, get),
                   RowsOfArrival(txs[n], ids, chain, get), OneArrival(txs, ids, chain, get, n),
                   ArrivalRows(txs, ids, chain, get));
    }
  }

  function InTableOf(table: string): Row -> bool {
    (r: Row) => TableName(r) == table
  }

  lemma {:induction false} InTableIsSelect(rows: seq<Row>, table: string)
    ensures InTable(rows, table) == Select(rows, InTableOf(table))
    decreases |rows|
  {
    hide TableName;
    if rows != [] {
      InTableIsSelect(rows[..|rows| - 1], table);
    }
  }

  /** The same for one table. */
  lemma TableRowsAreExact(txs: seq<Incoming>, ids: map<string, int>, chain: string, get: Resolver, table: string)
    ensures Listed(InTable(AllRows(Known(txs, ids), chain, get), table), TableRows(txs, ids, chain, get, table))
  {
    hide TableName, ArrivalRow;
    var rows, at := AllRows(Known(txs, ids), chain, get), ArrivalRows(txs, ids, chain, get);
    ChunkRowsAreExact(txs, ids, chain, get);
    var places :| Lists(rows, places, at);
    InTableIsSelect(rows, table);
    SelectedListed(rows, places, at, InTable(rows, table), InTableOf(table), TableRows(txs, ids, chain, get, table));
  }

  /** Whether the whole chunk converts: every arrival whose hash has an id does. */
  lemma {:induction false} AllConvertibleIff(txs: seq<Incoming>, ids: map<string, int>)
    ensures AllConvertible(Known(txs, ids)) <==>
              forall i :: 0 <= i < |txs| && txs[i].hash in ids ==> Convertible(txs[i].decoded.msgs)
    decreases |txs|
  {
    hide Convertible;
    if txs != [] {
      var init, last := txs[..|txs| - 1], txs[|txs| - 1];
      AllConvertibleIff(init, ids);
      assert forall i :: 0 <= i < |init| ==> init[i] == txs[i];
      var front, known := Known(init, ids), Known(txs, ids);
      assert forall t :: 0 <= t < |front| ==> known[t] == front[t];
      if last.hash in ids {
        assert known[|front|] == Tx(ids[last.hash], last.timestamp, last.decoded);
      }
    }
  }

  // ----- What is reported -----

  /** An `address_tx` entry as the rows call for it: some row reports its key, and the first that does has its time. */
  ghost predicate FirstReport(at: Place -> Option<Row>, e: AddressTx) {
    exists p ::
      && at(p).Some? && e.key in RowKeys(at(p).value) && e.timestamp == at(p).value.timestamp
      && forall q :: Before(q, p) && at(q).Some? ==> e.key !in RowKeys(at(q).value)
  }

  /** The first row that reports the key, among rows with these places. */
  predicate FirstAt(rows: seq<Row>, e: AddressTx, i: nat) {
    && i < |rows| && e.key in RowKeys(rows[i]) && e.timestamp == rows[i].timestamp
    && forall j :: 0 <= j < i ==> e.key !in RowKeys(rows[j])
  }

  lemma FirstAtReports(rows: seq<Row>, at: Place -> Option<Row>, e: AddressTx, i: nat)
    requires Listed(rows, at) && FirstAt(rows, e, i)
    ensures FirstReport(at, e)
  {
    hide RowKeys, Listed;
    var places := PlacesListed(rows, at);
    var p := places[i];
    forall q | Before(q, p) && at(q).Some?
      ensures e.key !in RowKeys(at(q).value)
    {
      var j :| 0 <= j < |places| && places[j] == q;
      assert i < j ==> Before(p, q);
    }
  }

  lemma ReportIsFirst(rows: seq<Row>, at: Place -> Option<Row>, e: AddressTx) returns (i: nat)
    requires Listed(rows, at) && FirstReport(at, e)
    ensures FirstAt(rows, e, i)
  {
    hide RowKeys, Listed;
    var places := PlacesListed(rows, at);
    var p :| at(p).Some? && e.key in RowKeys(at(p).value) && e.timestamp == at(p).value.timestamp
             && forall q :: Before(q, p) && at(q).Some? ==> e.key !in RowKeys(at(q).value);
    i :| 0 <= i < |places| && places[i] == p;
    forall j | 0 <= j < i
      ensures e.key !in RowKeys(rows[j])
    {
      assert Before(places[j], p) && at(places[j]) == Some(rows[j]);
    }
  }

  lemma RecordedIsFirst(rows: seq<Row>, e: AddressTx)
    ensures e in Recorded(rows).Values <==> exists i :: FirstAt(rows, e, i)
  {
    hide RowKeys, Recorded;
    RecordedExactly(rows, e.key);
    if e in Recorded(rows).Values {
      RecordedHasKey(rows, e);
      var i :| 0 <= i < |rows| && e.key in RowKeys(rows[i]) && Recorded(rows)[e.key].timestamp == rows[i].timestamp
               && forall j :: 0 <= j < i ==> e.key !in RowKeys(rows[j]);
      assert FirstAt(rows, e, i);
    }
    if i :| FirstAt(rows, e, i) {
      var k :| 0 <= k < |rows| && e.key in RowKeys(rows[k]) && Recorded(rows)[e.key].timestamp == rows[k].timestamp
               && forall j :: 0 <= j < k ==> e.key !in RowKeys(rows[j]);
      assert k == i;
      assert Recorded(rows)[e.key] == e;
    }
  }

  lemma RecordedIsFirstReport(rows: seq<Row>, at: Place -> Option<Row>, e: AddressTx)
    requires Listed(rows, at)
    ensures e in Recorded(rows).Values <==> FirstReport(at, e)
  {
    hide FirstAt, FirstReport, Recorded, Listed;
    RecordedIsFirst(rows, e);
    if i :| FirstAt(rows, e, i) {
      FirstAtReports(rows, at, e, i);
    }
    if FirstReport(at, e) {
      var i := ReportIsFirst(rows, at, e);
    }
  }

  lemma RecordedHasKey(rows: seq<Row>, e: AddressTx)
    requires e in Recorded(rows).Values
    ensures e.key in Recorded(rows) && Recorded(rows)[e.key] == e
  {
    var k :| k in Recorded(rows) && Recorded(rows)[k] == e;
    RecordedExactly(rows, k);
  }
}
