/**
 * Transaction hashes and their ids: `InsertTxHashIds` and the table it writes to, over a database that fails at
 * will or commits and still reports an error.
 */
module HashIds {
  import opened Results
  import opened AddressCaching
  import Base64

  function Raw(hash: string): Option<Base64.Bytes> {
    Base64.Decode(Base64.Standard, false, hash)
  }

  function Canonical(raw: Base64.Bytes): string {
    Base64.Encode(Base64.Standard, raw)
  }

  predicate Injective(m: map<string, int>) {
    forall a, b :: a in m && b in m && m[a] == m[b] ==> a == b
  }

  predicate AllDecode(hashes: seq<string>) {
    forall i :: 0 <= i < |hashes| ==> Raw(hashes[i]).Some?
  }

  function Raws(hashes: seq<string>): seq<Base64.Bytes> {
    if hashes == [] then []
    else
      var last := Raw(hashes[|hashes| - 1]);
      Raws(hashes[..|hashes| - 1]) + [if last.Some? then last.value else []]
  }

  lemma {:induction false} RawsLength(hashes: seq<string>)
    ensures |Raws(hashes)| == |hashes|
    ensures forall i :: 0 <= i < |hashes| && Raw(hashes[i]).Some? ==> Raws(hashes)[i] == Raw(hashes[i]).value
    decreases |hashes|
  {
    if hashes != [] {
      RawsLength(hashes[..|hashes| - 1]);
    }
  }

  method DecodeHashes(hashes: seq<string>) returns (raws: Option<seq<Base64.Bytes>>)
    ensures raws == if AllDecode(hashes) then Some(Raws(hashes)) else None
  {
    hide Raw;
    var done: seq<Base64.Bytes> := [];
    for i := 0 to |hashes|
      invariant done == Raws(hashes[..i])
      invariant AllDecode(hashes[..i])
    {
      var raw := Raw(hashes[i]);
      if raw.None? {
        return None;
      }
      assert hashes[..i + 1] == hashes[..i] + [hashes[i]];
      assert hashes[..i + 1][..i] == hashes[..i];
      done := done + [raw.value];
    }
    assert hashes[..|hashes|] == hashes;
    raws := Some(done);
  }

  function Names(raws: seq<Base64.Bytes>): set<string> {
    set raw | raw in raws :: Canonical(raw)
  }

  lemma NoNames()
    ensures Names([]) == {}
  {
  }

  lemma NamesGrow(raws: seq<Base64.Bytes>, i: nat)
    requires i < |raws|
    ensures Names(raws[..i + 1]) == Names(raws[..i]) + {Canonical(raws[i])}
  {
    assert raws[..i + 1] == raws[..i] + [raws[i]];
    assert forall raw :: raw in raws[..i + 1] <==> raw in raws[..i] || raw == raws[i];
  }

  /** No (hash, time) occurs twice: `tx_hash_id` holds each once. */
  predicate PairsDistinct(raws: seq<Base64.Bytes>, timestamps: seq<int>)
    requires |raws| == |timestamps|
  {
    forall i, j :: 0 <= i < j < |raws| ==> raws[i] != raws[j] || timestamps[i] != timestamps[j]
  }

  /** None of these is in the table yet. */
  predicate NoneStored(raws: seq<Base64.Bytes>, timestamps: seq<int>, ids: map<(Base64.Bytes, int), int>)
    requires |raws| == |timestamps|
  {
    forall i :: 0 <= i < |raws| ==> (raws[i], timestamps[i]) !in ids
  }

  predicate Accepts(raws: seq<Base64.Bytes>, timestamps: seq<int>, ids: map<(Base64.Bytes, int), int>)
    requires |raws| == |timestamps|
  {
    PairsDistinct(raws, timestamps) && NoneStored(raws, timestamps, ids)
  }

  /** What an insert of hashes with their times needs, the database willing. */
  predicate Insertable(hashes: seq<string>, timestamps: seq<int>, ids: map<(Base64.Bytes, int), int>) {
    && 0 < |hashes| == |timestamps| == |Raws(hashes)|
    && AllDecode(hashes)
    && Accepts(Raws(hashes), timestamps, ids)
  }

  function PairsOf(raws: seq<Base64.Bytes>, timestamps: seq<int>): set<(Base64.Bytes, int)>
    requires |raws| == |timestamps|
  {
    set i | 0 <= i < |raws| :: (raws[i], timestamps[i])
  }

  lemma PairsGrow(raws: seq<Base64.Bytes>, timestamps: seq<int>, i: nat)
    requires i < |raws| == |timestamps|
    ensures PairsOf(raws[..i + 1], timestamps[..i + 1]) ==
            PairsOf(raws[..i], timestamps[..i]) + {(raws[i], timestamps[i])}
  {
    var a, b := raws[..i], timestamps[..i];
    var c, d := raws[..i + 1], timestamps[..i + 1];
    forall p
      ensures p in PairsOf(c, d) <==> p in PairsOf(a, b) + {(raws[i], timestamps[i])}
    {
      if p in PairsOf(c, d) {
        var j :| 0 <= j < i + 1 && p == (c[j], d[j]);
        assert j < i ==> p == (a[j], b[j]);
      }
      if p in PairsOf(a, b) {
        var j :| 0 <= j < i && p == (a[j], b[j]);
        assert p == (c[j], d[j]);
      }
      assert (c[i], d[i]) == (raws[i], timestamps[i]);
    }
  }

  lemma NoPairs(raws: seq<Base64.Bytes>, timestamps: seq<int>, stored: map<(Base64.Bytes, int), int>)
    requires |raws| == |timestamps|
    ensures PairsOf(raws[..0], timestamps[..0]) == {}
    ensures PairsDistinct(raws[..0], timestamps[..0]) && NoneStored(raws[..0], timestamps[..0], stored)
  {
  }

  /** A row is refused exactly when its pair is stored or came before. */
  lemma PairStep(raws: seq<Base64.Bytes>, timestamps: seq<int>, stored: map<(Base64.Bytes, int), int>, i: nat)
    requires i < |raws| == |timestamps|
    requires PairsDistinct(raws[..i], timestamps[..i]) && NoneStored(raws[..i], timestamps[..i], stored)
    ensures (raws[i], timestamps[i]) !in stored.Keys + PairsOf(raws[..i], timestamps[..i]) ==>
              && PairsDistinct(raws[..i + 1], timestamps[..i + 1])
              && NoneStored(raws[..i + 1], timestamps[..i + 1], stored)
    ensures (raws[i], timestamps[i]) in stored.Keys + PairsOf(raws[..i], timestamps[..i]) ==>
              !PairsDistinct(raws, timestamps) || !NoneStored(raws, timestamps, stored)
  {
    var a, b := raws[..i], timestamps[..i];
    var c, d := raws[..i + 1], timestamps[..i + 1];
    if (raws[i], timestamps[i]) in PairsOf(a, b) {
      var j :| 0 <= j < i && (raws[i], timestamps[i]) == (a[j], b[j]);
      assert raws[j] == raws[i] && timestamps[j] == timestamps[i];
    } else {
      forall j | 0 <= j < i
        ensures raws[j] != raws[i] || timestamps[j] != timestamps[i]
      {
        assert (a[j], b[j]) in PairsOf(a, b);
      }
      forall j, k | 0 <= j < k < |c|
        ensures c[j] != c[k] || d[j] != d[k]
      {
        if k < i {
          assert a[j] != a[k] || b[j] != b[k];
        }
      }
      forall j | 0 <= j < |c|
        ensures (raws[i], timestamps[i]) !in stored ==> (c[j], d[j]) !in stored
      {
        assert j < i ==> (a[j], b[j]) !in stored;
      }
    }
  }

  /** The table holds `id` for one of the rows whose hash is written `name`. */
  predicate HoldsId(raws: seq<Base64.Bytes>, timestamps: seq<int>, ids: map<(Base64.Bytes, int), int>,
                    name: string, id: int)
    requires |raws| == |timestamps|
  {
    exists j :: 0 <= j < |raws| && Canonical(raws[j]) == name
                && (raws[j], timestamps[j]) in ids && ids[(raws[j], timestamps[j])] == id
  }

  /** One more row keeps what the others hold, and holds its own. */
  lemma IdsGrow(raws: seq<Base64.Bytes>, timestamps: seq<int>, ids: map<(Base64.Bytes, int), int>, id: int, i: nat)
    requires i < |raws| == |timestamps| && (raws[i], timestamps[i]) !in ids
    ensures var more := ids[(raws[i], timestamps[i]) := id];
            && HoldsId(raws[..i + 1], timestamps[..i + 1], more, Canonical(raws[i]), id)
            && forall name, n :: HoldsId(raws[..i], timestamps[..i], ids, name, n) ==>
                 HoldsId(raws[..i + 1], timestamps[..i + 1], more, name, n)
  {
    hide Canonical;
    var more := ids[(raws[i], timestamps[i]) := id];
    var a, b := raws[..i], timestamps[..i];
    var c, d := raws[..i + 1], timestamps[..i + 1];
    assert c[i] == raws[i] && d[i] == timestamps[i];
    forall name, n | HoldsId(a, b, ids, name, n)
      ensures HoldsId(c, d, more, name, n)
    {
      var j :| 0 <= j < |a| && Canonical(a[j]) == name && (a[j], b[j]) in ids && ids[(a[j], b[j])] == n;
      assert c[j] == a[j] && d[j] == b[j];
    }
  }

  /** One new id for each hash, no two alike, each stored for one of the hash's rows. */
  predicate Answers(raws: seq<Base64.Bytes>, timestamps: seq<int>, answer: map<string, int>, first: int,
                    ids: map<(Base64.Bytes, int), int>)
    requires |raws| == |timestamps|
  {
    && answer.Keys == Names(raws) && Injective(answer)
    && forall k :: k in answer ==> answer[k] >= first && HoldsId(raws, timestamps, ids, k, answer[k])
  }

  /** `tx_hash_id`: an identity column hands out the ids. */
  class TxHashTable {
    var ids: map<(Base64.Bytes, int), int>
    var nextId: int
    var plan: seq<Fault>

    ghost predicate Valid()
      reads this
    {
      forall k :: k in ids ==> ids[k] < nextId
    }

    constructor (plan: seq<Fault>)
      ensures Valid() && ids == map[] && this.plan == plan
    {
      ids, nextId, this.plan := map[], 1, plan;
    }

    /** The INSERT ... RETURNING: one new id per row, or nothing when a row is there already. */
    method Assign(raws: seq<Base64.Bytes>, timestamps: seq<int>) returns (r: Option<map<string, int>>)
      requires Valid() && |raws| == |timestamps|
      modifies this`ids, this`nextId
      ensures Valid() && SubMap(old(ids), ids)
      ensures r.Some? ==> Answers(raws, timestamps, r.value, old(nextId), ids)
      ensures r.Some? <==> Accepts(raws, timestamps, old(ids))
      ensures r.Some? ==> ids.Keys == old(ids.Keys) + PairsOf(raws, timestamps)
      ensures r.None? ==> ids == old(ids)
    {
      hide Canonical, Names, PairsDistinct, NoneStored, PairsOf, HoldsId;
      var before, answer: map<string, int> := ids, map[];
      NoNames();
      NoPairs(raws, timestamps, ids);
      for i := 0 to |raws|
        invariant Valid() && old(nextId) <= nextId
        invariant SubMap(before, ids)
        invariant ids.Keys == before.Keys + PairsOf(raws[..i], timestamps[..i])
        invariant forall k :: k in answer ==> HoldsId(raws[..i], timestamps[..i], ids, k, answer[k])
        invariant Injective(answer) && forall k :: k in answer ==> old(nextId) <= answer[k] < nextId
        invariant answer.Keys == Names(raws[..i])
        invariant PairsDistinct(raws[..i], timestamps[..i]) && NoneStored(raws[..i], timestamps[..i], before)
      {
        PairStep(raws, timestamps, before, i);
        if (raws[i], timestamps[i]) in ids {
          ids := before;
          return None;
        }
        NamesGrow(raws, i);
        PairsGrow(raws, timestamps, i);
        IdsGrow(raws, timestamps, ids, nextId, i);
        ids := ids[(raws[i], timestamps[i]) := nextId];
        answer := answer[Canonical(raws[i]) := nextId];
        nextId := nextId + 1;
      }
      assert raws[..|raws|] == raws && timestamps[..|timestamps|] == timestamps;
      r := Some(answer);
    }

    /** The statement as the outside world lets it run. */
    method Insert(raws: seq<Base64.Bytes>, timestamps: seq<int>) returns (r: Option<map<string, int>>)
      requires Valid() && |raws| == |timestamps|
      modifies this
      ensures Valid() && SubMap(old(ids), ids) && plan == LaterFaults(old(plan))
      ensures r.Some? ==> Answers(raws, timestamps, r.value, old(nextId), ids)
      ensures r.Some? <==> Accepts(raws, timestamps, old(ids)) && NextFault(old(plan)).Works?
      ensures if Accepts(raws, timestamps, old(ids)) && !NextFault(old(plan)).Fails?
              then ids.Keys == old(ids.Keys) + PairsOf(raws, timestamps) else ids == old(ids)
    {
      hide Canonical, Names, PairsDistinct, NoneStored, PairsOf, HoldsId;
      var fault := NextFault(plan);
      plan := LaterFaults(plan);
      if fault.Fails? {
        return None;
      }
      r := Assign(raws, timestamps);
      if fault.Unreported? {
        r := None;
      }
    }

    /**
     * `InsertTxHashIds`: the answer is keyed by the hashes encoded again. All ids in it are new, no two hashes share
     * one, and each is the stored id of one of its rows. When the call works, an answer comes exactly for decodable
     * hashes no two of which are one hash with one time, and none of which is stored with its time.
     */
    method InsertTxHashIds(hashes: seq<string>, timestamps: seq<int>) returns (r: Option<map<string, int>>)
      requires Valid()
      modifies this
      ensures Valid() && SubMap(old(ids), ids)
      ensures |Raws(hashes)| == |hashes|
      ensures r.Some? ==> |hashes| == |timestamps| && Answers(Raws(hashes), timestamps, r.value, old(nextId), ids)
      ensures r.Some? <==> Insertable(hashes, timestamps, old(ids)) && NextFault(old(plan)).Works?
      ensures if Insertable(hashes, timestamps, old(ids)) && !NextFault(old(plan)).Fails?
              then ids.Keys == old(ids.Keys) + PairsOf(Raws(hashes), timestamps) else ids == old(ids)
    {
      hide PairsOf, Raws, AllDecode, Accepts, Answers;
      RawsLength(hashes);
      if |hashes| == 0 || |timestamps| == 0 || |hashes| != |timestamps| {
        return None;
      }
      var raws := DecodeHashes(hashes);
      if raws.None? {
        return None;
      }
      r := Insert(raws.value, timestamps);
    }
  }

  predicate StrictHash(h: string) {
    Base64.Decode(Base64.Standard, true, h).Some? && Base64.StripNewlines(h) == h
  }

  lemma StrictHashIsCanonical(h: string)
    requires StrictHash(h)
    ensures Raw(h).Some? && Canonical(Raw(h).value) == h
  {
    hide Base64.Decode, Base64.Encode, Base64.StripNewlines;
    var raw := Base64.Decode(Base64.Standard, true, h).value;
    Base64.StrictDecodeIsInverse(Base64.Standard, h, raw);
    Base64.DecodeOfEncode(Base64.Standard, false, raw);
  }

  lemma CanonicalIsStrict(raw: Base64.Bytes)
    ensures StrictHash(Canonical(raw))
  {
    hide Base64.Decode, Base64.Encode, Base64.StripNewlines, Base64.Plain;
    Base64.DecodeOfEncode(Base64.Standard, true, raw);
    Base64.EncodeIsPlain(Base64.Standard, raw);
    Base64.StripOfPlain(Canonical(raw));
  }

  /** After decoding and encoding again, a hash is found under its own text exactly when it is strict, on one line. */
  lemma StrictHashIsFound(hashes: seq<string>, i: nat)
    requires i < |hashes| && AllDecode(hashes)
    ensures hashes[i] in Names(Raws(hashes)) <==> StrictHash(hashes[i])
  {
    hide Raw, Canonical, StrictHash, Raws;
    RawsLength(hashes);
    assert Raws(hashes)[i] in Raws(hashes);
    if StrictHash(hashes[i]) {
      StrictHashIsCanonical(hashes[i]);
    }
    if raw :| raw in Raws(hashes) && hashes[i] == Canonical(raw) {
      CanonicalIsStrict(raw);
    }
  }
}
