/**
 * Multi-send messages there and back: the codec fans a message out into one row per entry, and
 * `getBankMultiSendResponse` regroups whatever order of rows the database returns.
 */
module MultiSends {
  import opened Results
  import opened Decoder

  /** What `GetBankMultiSend` reads for one stored row; `base` stands for hash, timestamp and signers. */
  datatype ReadRow<B> = ReadRow(counter: int, direction: bool, entry: Entry, base: B)

  datatype Reply<B> = Reply(base: B, inputs: seq<Entry>, outputs: seq<Entry>)

  /** The multi-send rows of a transaction with their address ids joined back to addresses. */
  function ReadBack<B>(rows: seq<Row>, names: int -> string, base: B): seq<ReadRow<B>> {
    if rows == [] then [] else ReadOne(rows[0], names, base) + ReadBack(rows[1..], names, base)
  }

  function ReadOne<B>(r: Row, names: int -> string, base: B): seq<ReadRow<B>> {
    match r.detail
    case MultiSendRow(direction, id, coins) => [ReadRow(r.counter, direction, Entry(names(id), coins), base)]
    case _ => []
  }

  /** The entries of one message and direction, in the order they were read. */
  function EntriesOf<B>(rows: seq<ReadRow<B>>, counter: int, direction: bool): seq<Entry> {
    if rows == [] then []
    else
      var before, r := EntriesOf(rows[..|rows| - 1], counter, direction), rows[|rows| - 1];
      if r.counter == counter && r.direction == direction then before + [r.entry] else before
  }

  /** The base of the first row read for a message. */
  function FirstBase<B>(rows: seq<ReadRow<B>>, counter: int): Option<B> {
    if rows == [] then None
    else
      var before, r := FirstBase(rows[..|rows| - 1], counter), rows[|rows| - 1];
      if before.None? && r.counter == counter then Some(r.base) else before
  }

  function Counters<B(==)>(rows: seq<ReadRow<B>>): set<int> {
    set r | r in rows :: r.counter
  }

  /** `getBankMultiSendResponse`: entries appended to the aggregate of their counter, then copied into the response. */
  method GetBankMultiSendResponse<B>(rows: seq<ReadRow<B>>, response: map<int, Reply<B>>)
    returns (response': map<int, Reply<B>>)
    ensures response'.Keys == response.Keys + Counters(rows)
    ensures forall c :: c in response && c !in Counters(rows) ==> response'[c] == response[c]
    ensures forall c :: c in Counters(rows) ==>
              && response'[c].inputs == EntriesOf(rows, c, false) && response'[c].outputs == EntriesOf(rows, c, true)
              && FirstBase(rows, c) == Some(response'[c].base)
  {
    var byCounter: map<int, Reply<B>> := map[];
    for i := 0 to |rows|
      invariant byCounter.Keys == Counters(rows[..i])
      invariant forall c :: c in byCounter ==>
                  && byCounter[c].inputs == EntriesOf(rows[..i], c, false)
                  && byCounter[c].outputs == EntriesOf(rows[..i], c, true)
                  && FirstBase(rows[..i], c) == Some(byCounter[c].base)
    {
      var d := rows[i];
      assert rows[..i + 1] == rows[..i] + [d];
      assert rows[..i + 1][..i] == rows[..i];
      if d.counter !in byCounter {
        NoEntries(rows[..i], d.counter);
        NoBase(rows[..i], d.counter);
        byCounter := byCounter[d.counter := Reply(d.base, [], [])];
      }
      var a := byCounter[d.counter];
      if d.direction {
        byCounter := byCounter[d.counter := a.(outputs := a.outputs + [d.entry])];
      } else {
        byCounter := byCounter[d.counter := a.(inputs := a.inputs + [d.entry])];
      }
    }
    assert rows[..|rows|] == rows;
    response' := response + byCounter;
  }

  lemma {:induction false} NoBase<B>(rows: seq<ReadRow<B>>, counter: int)
    requires counter !in Counters(rows)
    ensures FirstBase(rows, counter).None?
  {
    if rows != [] {
      assert rows[|rows| - 1] in rows;
      forall r | r in rows[..|rows| - 1] ensures r in rows {
      }
      NoBase(rows[..|rows| - 1], counter);
    }
  }

  lemma {:induction false} NoEntries<B>(rows: seq<ReadRow<B>>, counter: int)
    requires counter !in Counters(rows)
    ensures EntriesOf(rows, counter, false) == [] && EntriesOf(rows, counter, true) == []
  {
    if rows != [] {
      assert rows[|rows| - 1] in rows;
      forall r | r in rows[..|rows| - 1] ensures r in rows {
      }
      NoEntries(rows[..|rows| - 1], counter);
    }
  }

  // ----- Order does not matter -----

  ghost predicate OneBase<B>(rows: seq<ReadRow<B>>, base: B) {
    forall r :: r in rows ==> r.base == base
  }

  /** How often an entry is regrouped is how often its row was read. */
  lemma {:induction false} EntryCount<B>(rows: seq<ReadRow<B>>, counter: int, direction: bool, e: Entry, base: B)
    requires OneBase(rows, base)
    ensures multiset(EntriesOf(rows, counter, direction))[e] == multiset(rows)[ReadRow(counter, direction, e, base)]
  {
    if rows != [] {
      var n := |rows| - 1;
      assert rows == rows[..n] + [rows[n]];
      assert rows[n] in rows;
      EntryCount(rows[..n], counter, direction, e, base);
    }
  }

  lemma SameEntries<B>(a: seq<ReadRow<B>>, b: seq<ReadRow<B>>, counter: int, direction: bool, base: B)
    requires multiset(a) == multiset(b) && OneBase(b, base)
    ensures multiset(EntriesOf(a, counter, direction)) == multiset(EntriesOf(b, counter, direction))
  {
    SameBase(a, b, base);
    forall e ensures multiset(EntriesOf(a, counter, direction))[e] == multiset(EntriesOf(b, counter, direction))[e] {
      EntryCount(a, counter, direction, e, base);
      EntryCount(b, counter, direction, e, base);
    }
  }

  // ----- The rows of a transaction -----

  lemma {:induction false} ReadBackConcat<B>(a: seq<Row>, b: seq<Row>, names: int -> string, base: B)
    ensures ReadBack(a + b, names, base) == ReadBack(a, names, base) + ReadBack(b, names, base)
  {
    hide ReadOne;
    if a == [] {
      assert a + b == b;
    } else {
      ReadBackConcat(a[1..], b, names, base);
      assert (a + b)[1..] == a[1..] + b && (a + b)[0] == a[0];
      Associative(ReadOne(a[0], names, base), ReadBack(a[1..], names, base), ReadBack(b, names, base));
    }
  }

  lemma {:induction false} EntriesConcat<B>(a: seq<ReadRow<B>>, b: seq<ReadRow<B>>, counter: int, direction: bool)
    ensures EntriesOf(a + b, counter, direction) == EntriesOf(a, counter, direction) + EntriesOf(b, counter, direction)
  {
    if b == [] {
      assert a + b == a;
    } else {
      var n := |b| - 1;
      EntriesConcat(a, b[..n], counter, direction);
      assert (a + b)[..|a + b| - 1] == a + b[..n] && (a + b)[|a + b| - 1] == b[n];
    }
  }

  lemma {:induction false} EntryRowsReadBack<B>(
    entries: seq<Entry>, side: bool, c: Ctx, get: Resolver, names: int -> string, base: B,
    counter: int, direction: bool)
    requires forall i :: 0 <= i < |entries| ==> Undoes(names, get, entries[i].address)
    ensures EntriesOf(ReadBack(EntryRows(entries, side, c, get), names, base), counter, direction)
            == if counter == c.counter && direction == side then entries else []
  {
    hide Undoes, ReadBack, EntriesOf, EntryRows;
    if entries == [] {
      NoEntryRows(side, c, get, names, base, counter, direction);
    } else {
      EntryRowsReadBack(entries[1..], side, c, get, names, base, counter, direction);
      OneMoreEntry(entries, side, c, get, names, base, counter, direction);
    }
  }

  lemma OneMoreEntry<B>(
    entries: seq<Entry>, side: bool, c: Ctx, get: Resolver, names: int -> string, base: B,
    counter: int, direction: bool)
    requires entries != [] && Undoes(names, get, entries[0].address)
    requires EntriesOf(ReadBack(EntryRows(entries[1..], side, c, get), names, base), counter, direction)
             == if counter == c.counter && direction == side then entries[1..] else []
    ensures EntriesOf(ReadBack(EntryRows(entries, side, c, get), names, base), counter, direction)
            == if counter == c.counter && direction == side then entries else []
  {
    hide ReadBack, EntriesOf, EntryRows;
    var first := ReadRow(c.counter, side, entries[0], base);
    var rest := ReadBack(EntryRows(entries[1..], side, c, get), names, base);
    UndoesIs(names, get, entries[0].address);
    FirstRowReads(entries, side, c, get, names, base);
    EntriesConcat([first], rest, counter, direction);
    OneEntry(first, counter, direction);
    assert entries == [entries[0]] + entries[1..];
  }

  lemma UndoesIs(names: int -> string, get: Resolver, a: string)
    requires Undoes(names, get, a)
    ensures names(get(a)) == a
  {
  }

  lemma NoEntryRows<B>(side: bool, c: Ctx, get: Resolver, names: int -> string, base: B, counter: int, direction: bool)
    ensures EntriesOf(ReadBack(EntryRows([], side, c, get), names, base), counter, direction) == []
  {
  }

  lemma FirstRowReads<B>(
    entries: seq<Entry>, side: bool, c: Ctx, get: Resolver, names: int -> string, base: B)
    requires entries != [] && names(get(entries[0].address)) == entries[0].address
    ensures ReadBack(EntryRows(entries, side, c, get), names, base) ==
            [ReadRow(c.counter, side, entries[0], base)] + ReadBack(EntryRows(entries[1..], side, c, get), names, base)
  {
    assert EntryRows(entries, side, c, get)[1..] == EntryRows(entries[1..], side, c, get);
  }

  lemma OneEntry<B>(r: ReadRow<B>, counter: int, direction: bool)
    ensures EntriesOf([r], counter, direction) ==
            if r.counter == counter && r.direction == direction then [r.entry] else []
  {
    assert [r][..0] == [];
  }

  ghost predicate AllUndone(names: int -> string, get: Resolver, msgs: seq<Msg>) {
    forall i, a :: 0 <= i < |msgs| && a in Addresses(msgs[i]) ==> Undoes(names, get, a)
  }

  function SideOf(m: Msg, direction: bool): seq<Entry> {
    if m.MultiSend? then (if direction then m.outputs else m.inputs) else []
  }

  lemma MessageReadsBack<B>(
    m: Msg, c: Ctx, get: Resolver, names: int -> string, base: B, counter: int, direction: bool)
    requires forall a :: a in Addresses(m) ==> Undoes(names, get, a)
    ensures EntriesOf(ReadBack(Convert(m, c, get), names, base), counter, direction)
            == if counter == c.counter then SideOf(m, direction) else []
  {
    if m.MultiSend? {
      forall i | 0 <= i < |m.inputs| ensures Undoes(names, get, m.inputs[i].address) {
        assert Addresses(m)[i] in Addresses(m);
      }
      forall i | 0 <= i < |m.outputs| ensures Undoes(names, get, m.outputs[i].address) {
        assert Addresses(m)[|m.inputs| + i] in Addresses(m);
      }
      var ins, outs := EntryRows(m.inputs, false, c, get), EntryRows(m.outputs, true, c, get);
      EntryRowsReadBack(m.inputs, false, c, get, names, base, counter, direction);
      EntryRowsReadBack(m.outputs, true, c, get, names, base, counter, direction);
      ReadBackConcat(ins, outs, names, base);
      EntriesConcat(ReadBack(ins, names, base), ReadBack(outs, names, base), counter, direction);
    } else {
      var rows := Convert(m, c, get);
      assert |rows| <= 1;
      assert rows != [] ==> ReadBack(rows, names, base) == ReadBack(rows[1..], names, base) == [];
    }
  }

  lemma OneMoreReadsBack<B>(
    msgs: seq<Msg>, i: nat, c: Ctx, get: Resolver, names: int -> string, base: B, counter: nat, direction: bool)
    requires i < |msgs| && AllUndone(names, get, msgs)
    ensures EntriesOf(ReadBack(RowsOf(msgs, i + 1, c, get), names, base), counter, direction)
            == EntriesOf(ReadBack(RowsOf(msgs, i, c, get), names, base), counter, direction)
               + (if counter == i then SideOf(msgs[i], direction) else [])
  {
    hide Convert;
    var front, last := RowsOf(msgs, i, c, get), Convert(msgs[i], c.(counter := i), get);
    MessageReadsBack(msgs[i], c.(counter := i), get, names, base, counter, direction);
    ReadBackConcat(front, last, names, base);
    EntriesConcat(ReadBack(front, names, base), ReadBack(last, names, base), counter, direction);
  }

  lemma {:induction false} TransactionReadsBack<B>(
    msgs: seq<Msg>, n: nat, c: Ctx, get: Resolver, names: int -> string, base: B, counter: nat, direction: bool)
    requires n <= |msgs| && AllUndone(names, get, msgs)
    ensures EntriesOf(ReadBack(RowsOf(msgs, n, c, get), names, base), counter, direction)
            == if counter < n then SideOf(msgs[counter], direction) else []
  {
    hide Convert, SideOf, AllUndone, EntriesOf, ReadBack, RowsOf;
    if n == 0 {
      NothingRead(msgs, c, get, names, base, counter, direction);
    } else {
      TransactionReadsBack(msgs, n - 1, c, get, names, base, counter, direction);
      OneMoreReadsBack(msgs, n - 1, c, get, names, base, counter, direction);
      if counter < n {
        EmptyEnds(SideOf(msgs[counter], direction));
      }
    }
  }

  lemma NothingRead<B>(
    msgs: seq<Msg>, c: Ctx, get: Resolver, names: int -> string, base: B, counter: nat, direction: bool)
    ensures EntriesOf(ReadBack(RowsOf(msgs, 0, c, get), names, base), counter, direction) == []
  {
  }

  lemma EmptyEnds<T>(s: seq<T>)
    ensures s + [] == s && [] + s == s
  {
  }

  lemma {:induction false} ReadBackHasOneBase<B>(rows: seq<Row>, names: int -> string, base: B)
    ensures OneBase(ReadBack(rows, names, base), base)
  {
    if rows != [] {
      ReadBackHasOneBase(rows[1..], names, base);
    }
  }

  /**
   * Whatever order the database returns the rows of a transaction in, regrouping them gives each multi-send
   * message its own inputs and outputs back, as multisets, for any number of such messages; and a message
   * is missing from the response exactly when it has no entry at all.
   */
  lemma RegroupingRestores<B>(
    dm: DecodedMsg, c: Ctx, get: Resolver, names: int -> string, base: B, read: seq<ReadRow<B>>, i: nat)
    requires AllUndone(names, get, dm.msgs) && i < |dm.msgs|
    requires multiset(read) == multiset(ReadBack(RowsOf(dm.msgs, |dm.msgs|, c, get), names, base))
    ensures multiset(EntriesOf(read, i, false)) == multiset(SideOf(dm.msgs[i], false))
    ensures multiset(EntriesOf(read, i, true)) == multiset(SideOf(dm.msgs[i], true))
    ensures i in Counters(read) <==> SideOf(dm.msgs[i], false) + SideOf(dm.msgs[i], true) != []
    ensures i in Counters(read) ==> FirstBase(read, i) == Some(base)
  {
    var stored := ReadBack(RowsOf(dm.msgs, |dm.msgs|, c, get), names, base);
    TransactionReadsBack(dm.msgs, |dm.msgs|, c, get, names, base, i, false);
    TransactionReadsBack(dm.msgs, |dm.msgs|, c, get, names, base, i, true);
    ReadBackHasOneBase(RowsOf(dm.msgs, |dm.msgs|, c, get), names, base);
    SameEntries(read, stored, i, false, base);
    SameEntries(read, stored, i, true, base);
    CounterHasEntries(read, i);
    SameBase(read, stored, base);
    FirstBaseIs(read, i, base);
  }

  lemma SameBase<B>(a: seq<ReadRow<B>>, b: seq<ReadRow<B>>, base: B)
    requires multiset(a) == multiset(b) && OneBase(b, base)
    ensures OneBase(a, base)
  {
    forall r | r in a ensures r.base == base {
      assert r in multiset(a);
      assert r in b;
    }
  }

  lemma {:induction false} FirstBaseIs<B>(rows: seq<ReadRow<B>>, counter: int, base: B)
    requires OneBase(rows, base)
    ensures FirstBase(rows, counter) == if counter in Counters(rows) then Some(base) else None
  {
    if rows != [] {
      var n := |rows| - 1;
      FirstBaseIs(rows[..n], counter, base);
      assert rows == rows[..n] + [rows[n]];
      assert rows[n] in rows;
      assert Counters(rows) == Counters(rows[..n]) + {rows[n].counter};
    }
  }

  lemma {:induction false} CounterHasEntries<B>(rows: seq<ReadRow<B>>, counter: int)
    ensures counter in Counters(rows) <==>
            |EntriesOf(rows, counter, false)| + |EntriesOf(rows, counter, true)| > 0
  {
    if rows != [] {
      var n := |rows| - 1;
      CounterHasEntries(rows[..n], counter);
      assert rows == rows[..n] + [rows[n]];
      assert Counters(rows) == Counters(rows[..n]) + {rows[n].counter};
    }
  }
}
