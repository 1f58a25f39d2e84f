/**
 * `collectTransactionsFromBlocks`: lists the transaction hashes of a chunk's blocks, fetches the transactions
 * and joins the answers with the blocks they came from, by hash. SHA-256 is a parameter.
 */
module Collecting {
  import opened Results
  import opened Listings
  import Base64

  /** `height` is None when the block's height does not parse; a missing block is None in the list. */
  datatype Block = Block(txs: Option<seq<string>>, height: Option<Uint64>, timestamp: int)

  datatype BlockTx = BlockTx(hash: string, height: Uint64, timestamp: int)

  datatype TxResponse = TxResponse(hash: string, tx: string)

  datatype TransactionsData = TransactionsData(response: TxResponse, timestamp: int, height: Uint64)

  type Digest = Base64.Bytes -> Base64.Bytes

  // ----- Listing the hashes -----

  /** The entry for one transaction of a block, None when it is passed over. */
  function EntryFor(sha: Digest, b: Block, tx: string): Option<BlockTx> {
    match Base64.Decode(Base64.Standard, false, tx)
    case None => None
    case Some(raw) =>
      if b.height.None? then None
      else Some(BlockTx(Base64.Encode(Base64.Standard, sha(raw)), b.height.value, b.timestamp))
  }

  function ListTxs(sha: Digest, b: Block, txs: seq<string>): seq<BlockTx> {
    if txs == [] then []
    else
      var e := EntryFor(sha, b, txs[|txs| - 1]);
      ListTxs(sha, b, txs[..|txs| - 1]) + if e.Some? then [e.value] else []
  }

  function ListBlocks(sha: Digest, blocks: seq<Option<Block>>): seq<BlockTx> {
    if blocks == [] then []
    else
      ListBlocks(sha, blocks[..|blocks| - 1]) + InBlock(sha, blocks[|blocks| - 1])
  }

  function Hashes(listed: seq<BlockTx>): seq<string> {
    if listed == [] then [] else Hashes(listed[..|listed| - 1]) + [listed[|listed| - 1].hash]
  }

  lemma {:induction false} HashesAre(listed: seq<BlockTx>)
    ensures |Hashes(listed)| == |listed| && forall i :: 0 <= i < |listed| ==> Hashes(listed)[i] == listed[i].hash
    decreases |listed|
  {
    if listed != [] {
      HashesAre(listed[..|listed| - 1]);
    }
  }

  lemma HashesGrow(listed: seq<BlockTx>, e: BlockTx)
    ensures Hashes(listed + [e]) == Hashes(listed) + [e.hash]
  {
    assert (listed + [e])[..|listed|] == listed;
  }

  ghost predicate ListsAs(sha: Digest, blocks: seq<Option<Block>>, i: nat, j: nat, e: BlockTx) {
    && i < |blocks| && blocks[i].Some? && blocks[i].value.txs.Some? && j < |blocks[i].value.txs.value|
    && EntryFor(sha, blocks[i].value, blocks[i].value.txs.value[j]) == Some(e)
  }

  lemma {:induction false} ListTxsExactly(sha: Digest, b: Block, txs: seq<string>, e: BlockTx)
    ensures e in ListTxs(sha, b, txs) <==> exists j :: 0 <= j < |txs| && EntryFor(sha, b, txs[j]) == Some(e)
    decreases |txs|
  {
    hide EntryFor;
    if txs != [] {
      var init := txs[..|txs| - 1];
      ListTxsExactly(sha, b, init, e);
      if j :| 0 <= j < |txs| && EntryFor(sha, b, txs[j]) == Some(e) {
        assert j < |init| ==> EntryFor(sha, b, init[j]) == Some(e);
      }
    }
  }

  /** Exactly the decodable transactions of present blocks with a height are listed, under their own block. */
  lemma {:induction false} ListedExactly(sha: Digest, blocks: seq<Option<Block>>, e: BlockTx)
    ensures e in ListBlocks(sha, blocks) <==> exists i: nat, j: nat :: ListsAs(sha, blocks, i, j, e)
    decreases |blocks|
  {
    hide EntryFor, ListTxs;
    if blocks != [] {
      var n := |blocks| - 1;
      var init := blocks[..n];
      ListedExactly(sha, init, e);
      InBlockExactly(sha, blocks, n, e);
      forall i: nat, j: nat | i < n
        ensures ListsAs(sha, init, i, j, e) <==> ListsAs(sha, blocks, i, j, e)
      {
        assert init[i] == blocks[i];
      }
      forall i: nat, j: nat | ListsAs(sha, blocks, i, j, e) || ListsAs(sha, init, i, j, e)
        ensures ListsAs(sha, blocks, i, j, e) && (i < n ==> ListsAs(sha, init, i, j, e))
      {
      }
      hide Lists;
      if e in ListBlocks(sha, blocks) && e !in ListBlocks(sha, init) {
        assert e in InBlock(sha, blocks[n]);
      }
    }
  }

  function InBlock(sha: Digest, b: Option<Block>): seq<BlockTx> {
    if b.Some? && b.value.txs.Some? then ListTxs(sha, b.value, b.value.txs.value) else []
  }

  lemma InBlockExactly(sha: Digest, blocks: seq<Option<Block>>, n: nat, e: BlockTx)
    requires n < |blocks|
    ensures e in InBlock(sha, blocks[n]) <==> exists j: nat :: ListsAs(sha, blocks, n, j, e)
  {
    hide EntryFor;
    var b := blocks[n];
    if b.Some? && b.value.txs.Some? {
      ListTxsExactly(sha, b.value, b.value.txs.value, e);
      if j: nat :| j < |b.value.txs.value| && EntryFor(sha, b.value, b.value.txs.value[j]) == Some(e) {
        assert ListsAs(sha, blocks, n, j, e);
      }
    }
  }

  function TxEntry(sha: Digest, b: Block, txs: seq<string>, i: nat, p: Place): Option<BlockTx> {
    if p.outer == i && p.middle < |txs| && p.inner == 0 then EntryFor(sha, b, txs[p.middle]) else None
  }

  function BlockEntry(sha: Digest, b: Option<Block>, i: nat, p: Place): Option<BlockTx> {
    if b.Some? && b.value.txs.Some? then TxEntry(sha, b.value, b.value.txs.value, i, p) else None
  }

  /** What transaction `middle` of block `outer` contributes. */
  function Entry(sha: Digest, blocks: seq<Option<Block>>, p: Place): Option<BlockTx> {
    if p.outer < |blocks| then BlockEntry(sha, blocks[p.outer], p.outer, p) else None
  }

  function TxsAt(sha: Digest, b: Block, txs: seq<string>, i: nat): Place -> Option<BlockTx> {
    (p: Place) => TxEntry(sha, b, txs, i, p)
  }

  function BlockAt(sha: Digest, b: Option<Block>, i: nat): Place -> Option<BlockTx> {
    (p: Place) => BlockEntry(sha, b, i, p)
  }

  function BlocksAt(sha: Digest, blocks: seq<Option<Block>>): Place -> Option<BlockTx> {
    (p: Place) => Entry(sha, blocks, p)
  }

  lemma {:induction false} TxsListed(sha: Digest, b: Block, txs: seq<string>, i: nat)
    ensures Listed(ListTxs(sha, b, txs), TxsAt(sha, b, txs, i))
    decreases |txs|
  {
    hide EntryFor;
    if txs == [] {
      NothingIsListed(TxsAt(sha, b, txs, i));
    } else {
      var n := |txs| - 1;
      var e := EntryFor(sha, b, txs[n]);
      var last := (p: Place) => if p == Place(i, n, 0) then e else None;
      TxsListed(sha, b, txs[..n], i);
      OneListed(e, Place(i, n, 0), last);
      ListedConcat(ListTxs(sha, b, txs[..n]), TxsAt(sha, b, txs[..n], i),
                   if e.Some? then [e.value] else [], last, TxsAt(sha, b, txs, i));
    }
  }

  lemma BlockListed(sha: Digest, b: Option<Block>, i: nat)
    ensures Listed(InBlock(sha, b), BlockAt(sha, b, i))
  {
    if b.Some? && b.value.txs.Some? {
      TxsListed(sha, b.value, b.value.txs.value, i);
      ListedSame(InBlock(sha, b), TxsAt(sha, b.value, b.value.txs.value, i), BlockAt(sha, b, i));
    } else {
      NothingIsListed(BlockAt(sha, b, i));
    }
  }

  lemma {:induction false} BlocksListed(sha: Digest, blocks: seq<Option<Block>>)
    ensures Listed(ListBlocks(sha, blocks), BlocksAt(sha, blocks))
    decreases |blocks|
  {
    hide EntryFor, ListTxs;
    if blocks == [] {
      NothingIsListed(BlocksAt(sha, blocks));
    } else {
      var n := |blocks| - 1;
      BlocksListed(sha, blocks[..n]);
      BlockListed(sha, blocks[n], n);
      ListedConcat(ListBlocks(sha, blocks[..n]), BlocksAt(sha, blocks[..n]),
                   InBlock(sha, blocks[n]), BlockAt(sha, blocks[n], n), BlocksAt(sha, blocks));
    }
  }

  /** A transaction that is to be listed: its block is there and has a height, its text decodes. */
  predicate Listable(blocks: seq<Option<Block>>, i: nat, j: nat) {
    && i < |blocks| && blocks[i].Some? && blocks[i].value.height.Some?
    && blocks[i].value.txs.Some? && j < |blocks[i].value.txs.value|
    && Base64.Decode(Base64.Standard, false, blocks[i].value.txs.value[j]).Some?
  }

  /**
   * The listing, entry by entry: block after block and transaction after transaction, each listable transaction has
   * exactly one entry, with the digest of its bytes and the height and time of its block, and there are no others.
   */
  lemma ListingIsExact(sha: Digest, blocks: seq<Option<Block>>) returns (places: seq<Place>)
    ensures |places| == |ListBlocks(sha, blocks)| && Increasing(places)
    ensures forall i: nat, j: nat :: Place(i, j, 0) in places <==> Listable(blocks, i, j)
    ensures forall k :: 0 <= k < |places| ==>
              var e, p := ListBlocks(sha, blocks)[k], places[k];
              && Listable(blocks, p.outer, p.middle) && p.inner == 0
              && var b := blocks[p.outer].value;
              && e.height == b.height.value && e.timestamp == b.timestamp
              && e.hash == Base64.Encode(Base64.Standard,
                                         sha(Base64.Decode(Base64.Standard, false, b.txs.value[p.middle]).value))
  {
    hide Base64.Decode, Base64.Encode, ListBlocks, Listed;
    BlocksListed(sha, blocks);
    places := PlacesListed(ListBlocks(sha, blocks), BlocksAt(sha, blocks));
    forall p: Place
      ensures Entry(sha, blocks, p).Some? <==> p.inner == 0 && Listable(blocks, p.outer, p.middle)
    {
    }
    forall k | 0 <= k < |places|
      ensures Entry(sha, blocks, places[k]) == Some(ListBlocks(sha, blocks)[k])
    {
      assert BlocksAt(sha, blocks)(places[k]) == Some(ListBlocks(sha, blocks)[k]);
    }
    forall i: nat, j: nat
      ensures Place(i, j, 0) in places <==> Listable(blocks, i, j)
    {
      assert BlocksAt(sha, blocks)(Place(i, j, 0)) == Entry(sha, blocks, Place(i, j, 0));
    }
  }

  // ----- Joining the answers -----

  function JoinOne(tx: TxResponse, listed: seq<BlockTx>): seq<TransactionsData> {
    if listed == [] then []
    else
      var b := listed[|listed| - 1];
      JoinOne(tx, listed[..|listed| - 1])
        + if b.hash == tx.hash then [TransactionsData(tx, b.timestamp, b.height)] else []
  }

  function Join(fetched: seq<Option<TxResponse>>, listed: seq<BlockTx>): seq<TransactionsData> {
    if fetched == [] then []
    else
      var tx := fetched[|fetched| - 1];
      Join(fetched[..|fetched| - 1], listed) + if tx.Some? then JoinOne(tx.value, listed) else []
  }

  /** A hash, alone or with a time: what entries can have in common. */
  datatype Stamp = Stamp(hash: string, time: Option<int>)

  function StampOf(hash: string, timestamp: int, timed: bool): Stamp {
    Stamp(hash, if timed then Some(timestamp) else None)
  }

  function JoinedStamp(d: TransactionsData, timed: bool): Stamp {
    StampOf(d.response.hash, d.timestamp, timed)
  }

  /** Listed entries with that hash, and with that time if the stamp has one. */
  function CountListed(listed: seq<BlockTx>, s: Stamp): nat {
    if listed == [] then 0
    else
      var b := listed[|listed| - 1];
      CountListed(listed[..|listed| - 1], s) + if StampOf(b.hash, b.timestamp, s.time.Some?) == s then 1 else 0
  }

  function CountFetched(fetched: seq<Option<TxResponse>>, h: string): nat {
    if fetched == [] then 0
    else
      var tx := fetched[|fetched| - 1];
      CountFetched(fetched[..|fetched| - 1], h) + if tx.Some? && tx.value.hash == h then 1 else 0
  }

  function CountJoined(joined: seq<TransactionsData>, s: Stamp): nat {
    if joined == [] then 0
    else
      CountJoined(joined[..|joined| - 1], s) + if JoinedStamp(joined[|joined| - 1], s.time.Some?) == s then 1 else 0
  }

  lemma {:induction false} CountConcat(a: seq<TransactionsData>, b: seq<TransactionsData>, s: Stamp)
    ensures CountJoined(a + b, s) == CountJoined(a, s) + CountJoined(b, s)
    decreases |b|
  {
    if b == [] {
      assert a + b == a;
    } else {
      var init := b[..|b| - 1];
      CountConcat(a, init, s);
      assert (a + b)[..|a + b| - 1] == a + init;
    }
  }

  lemma CountMore(joined: seq<TransactionsData>, d: TransactionsData, s: Stamp)
    ensures CountJoined(joined + [d], s) == CountJoined(joined, s) + if JoinedStamp(d, s.time.Some?) == s then 1 else 0
    ensures joined + [] == joined
  {
    assert (joined + [d])[..|joined|] == joined;
  }

  lemma {:induction false} JoinOneCount(tx: TxResponse, listed: seq<BlockTx>, s: Stamp)
    ensures CountJoined(JoinOne(tx, listed), s) == if tx.hash == s.hash then CountListed(listed, s) else 0
    decreases |listed|
  {
    if listed != [] {
      var b := listed[|listed| - 1];
      JoinOneCount(tx, listed[..|listed| - 1], s);
      CountMore(JoinOne(tx, listed[..|listed| - 1]), TransactionsData(tx, b.timestamp, b.height), s);
      hide CountJoined;
    }
  }

  /**
   * Answers times listings, for a hash and for a hash with a time: a hash that is listed k times and fetched k times
   * comes out k * k times.
   */
  lemma {:induction false} JoinMultiplies(fetched: seq<Option<TxResponse>>, listed: seq<BlockTx>, s: Stamp)
    ensures CountJoined(Join(fetched, listed), s) == CountFetched(fetched, s.hash) * CountListed(listed, s)
    decreases |fetched|
  {
    if fetched != [] {
      var init, tx := fetched[..|fetched| - 1], fetched[|fetched| - 1];
      JoinMultiplies(init, listed, s);
      var here := if tx.Some? then JoinOne(tx.value, listed) else [];
      if tx.Some? {
        JoinOneCount(tx.value, listed, s);
      }
      CountConcat(Join(init, listed), here, s);
      OneMoreTime(CountFetched(init, s.hash), CountListed(listed, s));
    }
  }

  lemma OneMoreTime(a: nat, b: nat)
    ensures (a + 1) * b == a * b + b
  {
  }

  function OneMatch(tx: Option<TxResponse>, listed: seq<BlockTx>, i: nat, p: Place): Option<TransactionsData> {
    if tx.Some? && p.outer == i && p.middle < |listed| && p.inner == 0 && listed[p.middle].hash == tx.value.hash
    then Some(TransactionsData(tx.value, listed[p.middle].timestamp, listed[p.middle].height))
    else None
  }

  /** What answer `outer` makes of listed entry `middle`. */
  function Match(fetched: seq<Option<TxResponse>>, listed: seq<BlockTx>, p: Place): Option<TransactionsData> {
    if p.outer < |fetched| then OneMatch(fetched[p.outer], listed, p.outer, p) else None
  }

  function OneAt(tx: Option<TxResponse>, listed: seq<BlockTx>, i: nat): Place -> Option<TransactionsData> {
    (p: Place) => OneMatch(tx, listed, i, p)
  }

  function MatchAt(fetched: seq<Option<TxResponse>>, listed: seq<BlockTx>): Place -> Option<TransactionsData> {
    (p: Place) => Match(fetched, listed, p)
  }

  lemma {:induction false} JoinOneListed(tx: TxResponse, listed: seq<BlockTx>, i: nat)
    ensures Listed(JoinOne(tx, listed), OneAt(Some(tx), listed, i))
    decreases |listed|
  {
    if listed == [] {
      NothingIsListed(OneAt(Some(tx), listed, i));
    } else {
      var n := |listed| - 1;
      var b := listed[n];
      var d := if b.hash == tx.hash then Some(TransactionsData(tx, b.timestamp, b.height)) else None;
      var last := (p: Place) => if p == Place(i, n, 0) then d else None;
      JoinOneListed(tx, listed[..n], i);
      OneListed(d, Place(i, n, 0), last);
      ListedConcat(JoinOne(tx, listed[..n]), OneAt(Some(tx), listed[..n], i),
                   if d.Some? then [d.value] else [], last, OneAt(Some(tx), listed, i));
    }
  }

  /**
   * The join, item by item: answer after answer and entry after entry, one item for each answer and listed entry of
   * the same hash, with that entry's time and height.
   */
  lemma {:induction false} JoinIsExact(fetched: seq<Option<TxResponse>>, listed: seq<BlockTx>)
    ensures Listed(Join(fetched, listed), MatchAt(fetched, listed))
    decreases |fetched|
  {
    if fetched == [] {
      NothingIsListed(MatchAt(fetched, listed));
    } else {
      var n := |fetched| - 1;
      var here := if fetched[n].Some? then JoinOne(fetched[n].value, listed) else [];
      JoinIsExact(fetched[..n], listed);
      if fetched[n].Some? {
        JoinOneListed(fetched[n].value, listed, n);
      } else {
        NothingIsListed(OneAt(fetched[n], listed, n));
      }
      ListedConcat(Join(fetched[..n], listed), MatchAt(fetched[..n], listed),
                   here, OneAt(fetched[n], listed, n), MatchAt(fetched, listed));
    }
  }

  // ----- When everything comes out once -----

  /** No hash comes out twice; if `timed`, no hash with one time. */
  predicate DistinctIn(joined: seq<TransactionsData>, timed: bool) {
    forall i, j :: 0 <= i < j < |joined| ==> JoinedStamp(joined[i], timed) != JoinedStamp(joined[j], timed)
  }

  lemma {:induction false} CountPositive(joined: seq<TransactionsData>, i: nat, timed: bool)
    requires i < |joined|
    ensures CountJoined(joined, JoinedStamp(joined[i], timed)) >= 1
    decreases |joined|
  {
    if i < |joined| - 1 {
      CountPositive(joined[..|joined| - 1], i, timed);
    }
  }

  lemma {:induction false} PositiveOccurs(joined: seq<TransactionsData>, s: Stamp)
    requires CountJoined(joined, s) >= 1
    ensures exists i :: 0 <= i < |joined| && JoinedStamp(joined[i], s.time.Some?) == s
    decreases |joined|
  {
    if JoinedStamp(joined[|joined| - 1], s.time.Some?) != s {
      PositiveOccurs(joined[..|joined| - 1], s);
      var i :| 0 <= i < |joined| - 1 && JoinedStamp(joined[..|joined| - 1][i], s.time.Some?) == s;
      assert JoinedStamp(joined[i], s.time.Some?) == s;
    }
  }

  lemma {:induction false} DistinctMeansOnce(joined: seq<TransactionsData>, s: Stamp)
    requires DistinctIn(joined, s.time.Some?)
    ensures CountJoined(joined, s) <= 1
    decreases |joined|
  {
    if joined != [] {
      var init := joined[..|joined| - 1];
      DistinctMeansOnce(init, s);
      if CountJoined(init, s) >= 1 {
        PositiveOccurs(init, s);
        var i :| 0 <= i < |init| && JoinedStamp(init[i], s.time.Some?) == s;
        assert JoinedStamp(joined[i], s.time.Some?) == s;
      }
    }
  }

  lemma {:induction false} TwiceIsCounted(joined: seq<TransactionsData>, i: nat, j: nat, timed: bool)
    requires i < j < |joined| && JoinedStamp(joined[i], timed) == JoinedStamp(joined[j], timed)
    ensures CountJoined(joined, JoinedStamp(joined[i], timed)) >= 2
    decreases |joined|
  {
    var init := joined[..|joined| - 1];
    if j < |init| {
      TwiceIsCounted(init, i, j, timed);
    } else {
      CountPositive(init, i, timed);
    }
  }

  /** Fetched at most once or not listed; listed at most once or not fetched. */
  predicate AtMostOnce(fetched: seq<Option<TxResponse>>, listed: seq<BlockTx>, s: Stamp) {
    CountFetched(fetched, s.hash) * CountListed(listed, s) <= 1
  }

  lemma {:induction false} ListedIsCounted(listed: seq<BlockTx>, i: nat)
    requires i < |listed|
    ensures CountListed(listed, Stamp(listed[i].hash, Some(listed[i].timestamp))) >= 1
    decreases |listed|
  {
    if i < |listed| - 1 {
      ListedIsCounted(listed[..|listed| - 1], i);
    }
  }

  /** What comes out is distinct if and only if answers times listings never exceed one, whatever the node answers. */
  lemma DistinctInIff(fetched: seq<Option<TxResponse>>, listed: seq<BlockTx>, timed: bool)
    ensures DistinctIn(Join(fetched, listed), timed) <==>
              forall s: Stamp :: s.time.Some? == timed ==> AtMostOnce(fetched, listed, s)
  {
    var joined := Join(fetched, listed);
    forall s: Stamp
      ensures AtMostOnce(fetched, listed, s) <==> CountJoined(joined, s) <= 1
    {
      JoinMultiplies(fetched, listed, s);
    }
    if DistinctIn(joined, timed) {
      forall s: Stamp | s.time.Some? == timed
        ensures AtMostOnce(fetched, listed, s)
      {
        DistinctMeansOnce(joined, s);
      }
    } else {
      var i, j :| 0 <= i < j < |joined| && JoinedStamp(joined[i], timed) == JoinedStamp(joined[j], timed);
      TwiceIsCounted(joined, i, j, timed);
      assert !AtMostOnce(fetched, listed, JoinedStamp(joined[i], timed));
    }
  }

  /** The node answers with the transaction it was asked for, or not at all. */
  predicate Faithful(fetched: seq<Option<TxResponse>>, listed: seq<BlockTx>) {
    && |fetched| == |listed|
    && forall i :: 0 <= i < |listed| && fetched[i].Some? ==> fetched[i].value.hash == listed[i].hash
  }

  lemma {:induction false} FetchedIsListed(fetched: seq<Option<TxResponse>>, listed: seq<BlockTx>, h: string)
    requires Faithful(fetched, listed)
    ensures CountFetched(fetched, h) <= CountListed(listed, Stamp(h, None))
    decreases |listed|
  {
    if listed != [] {
      FetchedIsListed(fetched[..|fetched| - 1], listed[..|listed| - 1], h);
    }
  }

  predicate FetchedAgain(fetched: seq<Option<TxResponse>>, listed: seq<BlockTx>, h: string) {
    CountListed(listed, Stamp(h, None)) > 1 && CountFetched(fetched, h) > 0
  }

  /** Each transaction comes out once if and only if no transaction that was fetched is listed twice. */
  lemma DistinctIff(fetched: seq<Option<TxResponse>>, listed: seq<BlockTx>)
    requires Faithful(fetched, listed)
    ensures DistinctIn(Join(fetched, listed), false) <==> forall h :: !FetchedAgain(fetched, listed, h)
  {
    DistinctInIff(fetched, listed, false);
    forall h
      ensures AtMostOnce(fetched, listed, Stamp(h, None)) <==> !FetchedAgain(fetched, listed, h)
    {
      FetchedIsListed(fetched, listed, h);
      SmallProduct(CountFetched(fetched, h), CountListed(listed, Stamp(h, None)));
    }
    hide AtMostOnce, FetchedAgain;
    if forall h :: !FetchedAgain(fetched, listed, h) {
      forall s: Stamp | s.time.None?
        ensures AtMostOnce(fetched, listed, s)
      {
        assert s == Stamp(s.hash, None);
      }
    }
  }

  lemma SmallProduct(a: nat, b: nat)
    requires a <= b
    ensures a * b > 1 <==> b > 1 && a > 0
  {
    if a >= 1 && b > 1 {
      assert a * b >= b;
    }
  }

  predicate ListedOnce(listed: seq<BlockTx>) {
    forall i, j :: 0 <= i < j < |listed| ==> listed[i].hash != listed[j].hash
  }

  /** Answer by answer: each with the height and time of the block that lists it. */
  function InOrder(fetched: seq<Option<TxResponse>>, listed: seq<BlockTx>): seq<TransactionsData>
    requires |fetched| <= |listed|
  {
    if fetched == [] then []
    else
      var n := |fetched| - 1;
      InOrder(fetched[..n], listed)
        + if fetched[n].Some? then [TransactionsData(fetched[n].value, listed[n].timestamp, listed[n].height)] else []
  }

  lemma {:induction false} JoinOneIs(tx: TxResponse, listed: seq<BlockTx>, i: nat)
    requires i < |listed| && ListedOnce(listed) && listed[i].hash == tx.hash
    ensures JoinOne(tx, listed) == [TransactionsData(tx, listed[i].timestamp, listed[i].height)]
    decreases |listed|
  {
    var n := |listed| - 1;
    if i < n {
      JoinOneIs(tx, listed[..n], i);
    } else {
      JoinOneNone(tx, listed[..n]);
    }
  }

  lemma {:induction false} JoinOneNone(tx: TxResponse, listed: seq<BlockTx>)
    requires forall i :: 0 <= i < |listed| ==> listed[i].hash != tx.hash
    ensures JoinOne(tx, listed) == []
    decreases |listed|
  {
    if listed != [] {
      JoinOneNone(tx, listed[..|listed| - 1]);
    }
  }

  /**
   * When every hash is listed once, the join is the answers in order, each with the height and the time of its
   * own block; transactions that could not be fetched are left out.
   */
  lemma {:induction false} JoinIsInOrder(fetched: seq<Option<TxResponse>>, listed: seq<BlockTx>)
    requires |fetched| <= |listed| && ListedOnce(listed)
    requires forall i :: 0 <= i < |fetched| && fetched[i].Some? ==> fetched[i].value.hash == listed[i].hash
    ensures Join(fetched, listed) == InOrder(fetched, listed)
    decreases |fetched|
  {
    if fetched != [] {
      var n := |fetched| - 1;
      JoinIsInOrder(fetched[..n], listed);
      if fetched[n].Some? {
        JoinOneIs(fetched[n].value, listed, n);
      }
    }
  }

  // ----- What comes out was listed -----

  lemma {:induction false} JoinOneIsListed(tx: TxResponse, listed: seq<BlockTx>, k: nat) returns (i: nat)
    requires k < |JoinOne(tx, listed)|
    ensures i < |listed| && JoinOne(tx, listed)[k].response == tx && listed[i].hash == tx.hash
    decreases |listed|
  {
    var n := |listed| - 1;
    var front := JoinOne(tx, listed[..n]);
    if k < |front| {
      i := JoinOneIsListed(tx, listed[..n], k);
      assert JoinOne(tx, listed)[k] == front[k];
    } else {
      i := n;
    }
  }

  /** Whatever the node answers, only listed hashes come out. */
  lemma {:induction false} JoinIsListed(fetched: seq<Option<TxResponse>>, listed: seq<BlockTx>, k: nat) returns (i: nat)
    requires k < |Join(fetched, listed)|
    ensures i < |listed| && Join(fetched, listed)[k].response.hash == listed[i].hash
    decreases |fetched|
  {
    var tx := fetched[|fetched| - 1];
    var front := Join(fetched[..|fetched| - 1], listed);
    if k < |front| {
      i := JoinIsListed(fetched[..|fetched| - 1], listed, k);
      assert Join(fetched, listed)[k] == front[k];
    } else {
      i := JoinOneIsListed(tx.value, listed, k - |front|);
      assert Join(fetched, listed)[k] == JoinOne(tx.value, listed)[k - |front|];
    }
  }

  /** Listed hashes are digests in the standard encoding. */
  lemma ListedIsEncoded(sha: Digest, blocks: seq<Option<Block>>, e: BlockTx)
    requires e in ListBlocks(sha, blocks)
    ensures exists raw :: e.hash == Base64.Encode(Base64.Standard, sha(raw))
  {
    ListedExactly(sha, blocks, e);
    hide Base64.Encode, Base64.Decode;
    var i: nat, j: nat :| ListsAs(sha, blocks, i, j, e);
    var tx := blocks[i].value.txs.value[j];
    assert e.hash == Base64.Encode(Base64.Standard, sha(Base64.Decode(Base64.Standard, false, tx).value));
  }

  // ----- The loops -----

  method ListBlock(sha: Digest, b: Block, txs: seq<string>, hashes0: seq<string>, listed0: seq<BlockTx>)
    returns (hashes: seq<string>, listed: seq<BlockTx>)
    requires hashes0 == Hashes(listed0)
    ensures listed == listed0 + ListTxs(sha, b, txs) && hashes == Hashes(listed)
  {
    hide EntryFor, Hashes;
    hashes, listed := hashes0, listed0;
    for j := 0 to |txs|
      invariant listed == listed0 + ListTxs(sha, b, txs[..j]) && hashes == Hashes(listed)
    {
      assert txs[..j + 1][..j] == txs[..j];
      var e := EntryFor(sha, b, txs[j]);
      if e.None? {
        continue;
      }
      HashesGrow(listed, e.value);
      hashes, listed := hashes + [e.value.hash], listed + [e.value];
    }
    assert txs[..|txs|] == txs;
  }

  method ListAll(sha: Digest, blocks: seq<Option<Block>>) returns (hashes: seq<string>, listed: seq<BlockTx>)
    ensures listed == ListBlocks(sha, blocks) && hashes == Hashes(listed)
  {
    hide EntryFor, ListTxs;
    hashes, listed := [], [];
    for i := 0 to |blocks|
      invariant listed == ListBlocks(sha, blocks[..i]) && hashes == Hashes(listed)
    {
      assert blocks[..i + 1][..i] == blocks[..i];
      if blocks[i].None? || blocks[i].value.txs.None? {
        continue;
      }
      hashes, listed := ListBlock(sha, blocks[i].value, blocks[i].value.txs.value, hashes, listed);
    }
    assert blocks[..|blocks|] == blocks;
  }

  method JoinAll(fetched: seq<Option<TxResponse>>, listed: seq<BlockTx>) returns (joined: seq<TransactionsData>)
    ensures joined == Join(fetched, listed)
  {
    joined := [];
    for i := 0 to |fetched|
      invariant joined == Join(fetched[..i], listed)
    {
      assert fetched[..i + 1][..i] == fetched[..i];
      if fetched[i].Some? {
        ghost var before := joined;
        var tx := fetched[i].value;
        for j := 0 to |listed|
          invariant joined == before + JoinOne(tx, listed[..j])
        {
          assert listed[..j + 1][..j] == listed[..j];
          if listed[j].hash == tx.hash {
            joined := joined + [TransactionsData(tx, listed[j].timestamp, listed[j].height)];
          }
        }
        assert listed[..|listed|] == listed;
      }
    }
    assert fetched[..|fetched|] == fetched;
  }

  /** `fetch` is `GetTransactions`: a slot for each hash it is given, nil where it failed. */
  method CollectTransactionsFromBlocks(
    sha: Digest, blocks: seq<Option<Block>>, fetch: seq<string> -> seq<Option<TxResponse>>)
    returns (data: seq<TransactionsData>)
    ensures var listed := ListBlocks(sha, blocks);
            data == if listed == [] then [] else Join(fetch(Hashes(listed)), listed)
  {
    var hashes, listed := ListAll(sha, blocks);
    HashesAre(listed);
    if |hashes| == 0 {
      return [];
    }
    data := JoinAll(fetch(hashes), listed);
  }
}
