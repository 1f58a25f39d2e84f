/**
 * Decoded transactions and their database rows: the eight codecs of the message registry,
 * `CollectAllAddresses`, `GetMsgTypes` and `ConvertToDbMessages`.
 */
module Decoder {
  import opened Results
  import opened AddressCaching

  datatype Coin = Coin(amount: int, denom: string)

  datatype Entry = Entry(address: string, coins: seq<Coin>)

  /** The amino message types; `Unregistered` is any other. Session keys stand for their bech32 address. */
  datatype Msg =
    | Send(from: string, to_: string, amount: seq<Coin>)
    | MultiSend(inputs: seq<Entry>, outputs: seq<Entry>)
    | Call(caller: string, pkgPath: string, funcName: string, args: seq<string>, send: seq<Coin>, maxDeposit: seq<Coin>)
    | AddPackage(creator: string, pkgPath: string, pkgName: string, files: seq<string>,
                 send: seq<Coin>, maxDeposit: seq<Coin>)
    | Execute(caller: string, pkgPath: string, pkgName: string, files: seq<string>,
                 send: seq<Coin>, maxDeposit: seq<Coin>)
    | CreateSession(creator: string, sessionKey: string, expiresAt: int,
                    spendLimit: seq<Coin>, spendPeriod: int, allowPaths: seq<string>)
    | RevokeSession(creator: string, sessionKey: string)
    | RevokeAllSessions(creator: string)
    | Unregistered

  /** What the row types have in common, and the part that differs. Ids refer to the address table. */
  datatype Row = Row(txId: int, chain: string, timestamp: int, counter: int, signers: seq<int>, detail: Detail)

  datatype Detail =
    | SendRow(from: int, to_: int, amount: seq<Coin>)
    | MultiSendRow(direction: bool, addressId: int, coins: seq<Coin>)
    | CallRow(caller: int, pkgPath: string, funcName: string, args: string, send: seq<Coin>, maxDeposit: seq<Coin>)
    | AddPackageRow(creator: int, pkgPath: string, pkgName: string, files: seq<string>,
                 send: seq<Coin>, maxDeposit: seq<Coin>)
    | ExecuteRow(caller: int, pkgPath: string, pkgName: string, files: seq<string>,
                 send: seq<Coin>, maxDeposit: seq<Coin>)
    | CreateSessionRow(creator: int, sessionKey: int, expiresAt: int,
                    spendLimit: seq<Coin>, spendPeriod: int, allowPaths: seq<string>)
    | RevokeSessionRow(creator: int, sessionKey: int)
    | RevokeAllSessionsRow(creator: int)

  datatype Ctx = Ctx(txId: int, chain: string, timestamp: int, signerIds: seq<int>, counter: int)

  type Resolver = string -> int

  function Map<A, B>(f: A -> B, s: seq<A>): (r: seq<B>)
    ensures |r| == |s|
    ensures forall i :: 0 <= i < |s| ==> r[i] == f(s[i])
  {
    if s == [] then [] else [f(s[0])] + Map(f, s[1..])
  }

  function Elements<T>(s: seq<T>): set<T> {
    set x | x in s
  }

  function JoinComma(s: seq<string>): string {
    if s == [] then "" else if |s| == 1 then s[0] else s[0] + "," + JoinComma(s[1..])
  }

  // ----- The codecs -----

  function TypeName(m: Msg): Option<string> {
    match m
    case Send(_, _, _) => Some("bank_msg_send")
    case MultiSend(_, _) => Some("bank_msg_multi_send")
    case Call(_, _, _, _, _, _) => Some("vm_msg_call")
    case AddPackage(_, _, _, _, _, _) => Some("vm_msg_add_package")
    case Execute(_, _, _, _, _, _) => Some("vm_msg_run")
    case CreateSession(_, _, _, _, _, _) => Some("auth_msg_create_session")
    case RevokeSession(_, _) => Some("auth_msg_revoke_session")
    case RevokeAllSessions(_) => Some("auth_msg_revoke_all_sessions")
    case Unregistered => None
  }

  function TableName(r: Row): string {
    match r.detail
    case SendRow(_, _, _) => "bank_msg_send"
    case MultiSendRow(_, _, _) => "bank_msg_multi_send"
    case CallRow(_, _, _, _, _, _) => "vm_msg_call"
    case AddPackageRow(_, _, _, _, _, _) => "vm_msg_add_package"
    case ExecuteRow(_, _, _, _, _, _) => "vm_msg_run"
    case CreateSessionRow(_, _, _, _, _, _) => "auth_msg_create_session"
    case RevokeSessionRow(_, _) => "auth_msg_revoke_session"
    case RevokeAllSessionsRow(_) => "auth_msg_revoke_all_sessions"
  }

  function EntryAddress(e: Entry): string {
    e.address
  }

  /** The `addresses` half of each codec. */
  function Addresses(m: Msg): seq<string> {
    match m
    case Send(from, to_, _) => [from, to_]
    case MultiSend(inputs, outputs) => Map(EntryAddress, inputs) + Map(EntryAddress, outputs)
    case Call(caller, _, _, _, _, _) => [caller]
    case AddPackage(creator, _, _, _, _, _) => [creator]
    case Execute(caller, _, _, _, _, _) => [caller]
    case CreateSession(creator, key, _, _, _, _) => [creator, key]
    case RevokeSession(creator, key) => [creator, key]
    case RevokeAllSessions(creator) => [creator]
    case Unregistered => []
  }

  function EntryRows(entries: seq<Entry>, direction: bool, c: Ctx, get: Resolver): seq<Row> {
    if entries == [] then []
    else [RowOf(c, MultiSendRow(direction, get(entries[0].address), entries[0].coins))]
         + EntryRows(entries[1..], direction, c, get)
  }

  function RowOf(c: Ctx, d: Detail): Row {
    Row(c.txId, c.chain, c.timestamp, c.counter, c.signerIds, d)
  }

  /** The `convert` half of each codec. */
  function Convert(m: Msg, c: Ctx, get: Resolver): seq<Row> {
    match m
    case Send(from, to_, amount) => [RowOf(c, SendRow(get(from), get(to_), amount))]
    case MultiSend(inputs, outputs) => EntryRows(inputs, false, c, get) + EntryRows(outputs, true, c, get)
    case Call(caller, path, func, args, send, deposit) =>
      [RowOf(c, CallRow(get(caller), path, func, JoinComma(args), send, deposit))]
    case AddPackage(creator, path, name, files, send, deposit) =>
      [RowOf(c, AddPackageRow(get(creator), path, name, files, send, deposit))]
    case Execute(caller, path, name, files, send, deposit) =>
      [RowOf(c, ExecuteRow(get(caller), path, name, files, send, deposit))]
    case CreateSession(creator, key, expires, limit, period, paths) =>
      [RowOf(c, CreateSessionRow(get(creator), get(key), expires, limit, period, paths))]
    case RevokeSession(creator, key) => [RowOf(c, RevokeSessionRow(get(creator), get(key)))]
    case RevokeAllSessions(creator) => [RowOf(c, RevokeAllSessionsRow(get(creator)))]
    case Unregistered => []
  }

  /** The id columns of a row, apart from the signers. */
  function IdColumns(r: Row): seq<int> {
    match r.detail
    case SendRow(from, to_, _) => [from, to_]
    case MultiSendRow(_, id, _) => [id]
    case CallRow(caller, _, _, _, _, _) => [caller]
    case AddPackageRow(creator, _, _, _, _, _) => [creator]
    case ExecuteRow(caller, _, _, _, _, _) => [caller]
    case CreateSessionRow(creator, key, _, _, _, _) => [creator, key]
    case RevokeSessionRow(creator, key) => [creator, key]
    case RevokeAllSessionsRow(creator) => [creator]
  }

  function AllIdColumns(rows: seq<Row>): seq<int> {
    if rows == [] then [] else IdColumns(rows[0]) + AllIdColumns(rows[1..])
  }

  /** The set each row's `GetAllAddresses` fills: multi-send rows leave the signers out, a zero recipient is skipped. */
  function GetAllAddresses(r: Row): set<int> {
    var signers := Elements(r.signers);
    match r.detail
    case SendRow(from, to_, _) => {from} + (if to_ != 0 then {to_} else {}) + signers
    case MultiSendRow(_, id, _) => {id}
    case _ => Elements(IdColumns(r)) + signers
  }

  lemma {:induction false} EntryIds(entries: seq<Entry>, direction: bool, c: Ctx, get: Resolver)
    ensures AllIdColumns(EntryRows(entries, direction, c, get)) == Map(get, Map(EntryAddress, entries))
  {
    if entries != [] {
      EntryIds(entries[1..], direction, c, get);
      var row := RowOf(c, MultiSendRow(direction, get(entries[0].address), entries[0].coins));
      assert EntryRows(entries, direction, c, get)[1..] == EntryRows(entries[1..], direction, c, get);
      assert Map(EntryAddress, entries)[1..] == Map(EntryAddress, entries[1..]);
    }
  }

  lemma Associative<T>(a: seq<T>, b: seq<T>, c: seq<T>)
    ensures a + (b + c) == (a + b) + c
  {
  }

  lemma {:induction false} AllIdColumnsConcat(a: seq<Row>, b: seq<Row>)
    ensures AllIdColumns(a + b) == AllIdColumns(a) + AllIdColumns(b)
  {
    if a == [] {
      assert a + b == b;
    } else {
      AllIdColumnsConcat(a[1..], b);
      assert (a + b)[1..] == a[1..] + b && (a + b)[0] == a[0];
      Associative(IdColumns(a[0]), AllIdColumns(a[1..]), AllIdColumns(b));
    }
  }

  lemma {:induction false} MapConcat<A, B>(f: A -> B, a: seq<A>, b: seq<A>)
    ensures Map(f, a + b) == Map(f, a) + Map(f, b)
  {
  }

  /**
   * The two halves of every codec agree: the ids in the rows of a message are the resolutions of exactly the
   * addresses it reports, column by column in the same order.
   */
  lemma IdsAreReportedAddresses(m: Msg, c: Ctx, get: Resolver)
    ensures AllIdColumns(Convert(m, c, get)) == Map(get, Addresses(m))
  {
    if m.MultiSend? {
      EntryIds(m.inputs, false, c, get);
      EntryIds(m.outputs, true, c, get);
      AllIdColumnsConcat(EntryRows(m.inputs, false, c, get), EntryRows(m.outputs, true, c, get));
      MapConcat(get, Map(EntryAddress, m.inputs), Map(EntryAddress, m.outputs));
    } else {
      var rows := Convert(m, c, get);
      if rows != [] {
        assert AllIdColumns(rows[1..]) == [];
        assert AllIdColumns(rows) == IdColumns(rows[0]) + [];
      }
    }
  }

  lemma {:induction false} EntryRowsShape(entries: seq<Entry>, direction: bool, c: Ctx, get: Resolver)
    ensures |EntryRows(entries, direction, c, get)| == |entries|
    ensures forall i :: 0 <= i < |entries| ==>
              EntryRows(entries, direction, c, get)[i]
              == RowOf(c, MultiSendRow(direction, get(entries[i].address), entries[i].coins))
  {
    if entries != [] {
      EntryRowsShape(entries[1..], direction, c, get);
    }
  }

  /** Every row of a message goes to the table named by the message's type, with the message's context. */
  lemma RowsCarryContext(m: Msg, c: Ctx, get: Resolver, r: Row)
    requires r in Convert(m, c, get)
    ensures TypeName(m) == Some(TableName(r))
    ensures r.txId == c.txId && r.chain == c.chain && r.timestamp == c.timestamp
    ensures r.counter == c.counter && r.signers == c.signerIds
    ensures r.detail.MultiSendRow? <==> m.MultiSend?
  {
    if m.MultiSend? {
      EntryRowsShape(m.inputs, false, c, get);
      EntryRowsShape(m.outputs, true, c, get);
    }
  }

  // ----- Reading a row back -----

  /** Reading the address of an id undoes the resolution of an address. */
  predicate Undoes(names: int -> string, get: Resolver, a: string) {
    names(get(a)) == a
  }

  /** Arguments as a reader of the joined text sees them. */
  function SplitComma(s: string): seq<string> {
    if s == "" then [] else Pieces(s)
  }

  function Pieces(s: string): seq<string>
    ensures |Pieces(s)| > 0
  {
    if s == "" then [""]
    else if s[0] == ',' then [""] + Pieces(s[1..])
    else
      var rest := Pieces(s[1..]);
      [[s[0]] + rest[0]] + rest[1..]
  }

  lemma {:induction false} PiecesOf(a: string, t: string)
    requires ',' !in a
    ensures Pieces(a) == [a]
    ensures Pieces(a + "," + t) == [a] + Pieces(t)
    decreases |a|
  {
    var s := a + "," + t;
    if a == "" {
      assert s[1..] == t;
    } else {
      assert a == [a[0]] + a[1..];
      PiecesOf(a[1..], t);
      assert s[1..] == a[1..] + "," + t;
    }
  }

  lemma {:induction false} PiecesOfJoin(args: seq<string>)
    requires args != [] && forall i :: 0 <= i < |args| ==> ',' !in args[i]
    ensures Pieces(JoinComma(args)) == args
  {
    if |args| == 1 {
      PiecesOf(args[0], "");
    } else {
      PiecesOf(args[0], JoinComma(args[1..]));
      PiecesOfJoin(args[1..]);
      assert JoinComma(args) == args[0] + "," + JoinComma(args[1..]);
      assert args == [args[0]] + args[1..];
    }
  }

  lemma {:induction false} PiecesHaveNoComma(s: string)
    ensures forall i :: 0 <= i < |Pieces(s)| ==> ',' !in Pieces(s)[i]
  {
    if s != "" {
      PiecesHaveNoComma(s[1..]);
    }
  }

  lemma JoinIsEmptyIff(args: seq<string>)
    ensures JoinComma(args) == "" <==> args == [] || args == [""]
  {
    if |args| > 1 {
      assert JoinComma(args) == args[0] + "," + JoinComma(args[1..]);
    }
  }

  /** The arguments of a call can be read back exactly when none holds a comma and they are not one empty text. */
  lemma ArgsReadBackIff(args: seq<string>)
    ensures SplitComma(JoinComma(args)) == args <==>
              (forall i :: 0 <= i < |args| ==> ',' !in args[i]) && args != [""]
  {
    JoinIsEmptyIff(args);
    PiecesHaveNoComma(JoinComma(args));
    if args != [] && forall i :: 0 <= i < |args| ==> ',' !in args[i] {
      PiecesOfJoin(args);
    }
  }

  /** The message that a row outside the multi-send table tells of. */
  function ReadDetail(d: Detail, names: int -> string): Option<Msg> {
    match d
    case SendRow(from, to_, amount) => Some(Send(names(from), names(to_), amount))
    case MultiSendRow(_, _, _) => None
    case CallRow(caller, path, func, args, send, deposit) =>
      Some(Call(names(caller), path, func, SplitComma(args), send, deposit))
    case AddPackageRow(creator, path, name, files, send, deposit) =>
      Some(AddPackage(names(creator), path, name, files, send, deposit))
    case ExecuteRow(caller, path, name, files, send, deposit) =>
      Some(Execute(names(caller), path, name, files, send, deposit))
    case CreateSessionRow(creator, key, expires, limit, period, paths) =>
      Some(CreateSession(names(creator), names(key), expires, limit, period, paths))
    case RevokeSessionRow(creator, key) => Some(RevokeSession(names(creator), names(key)))
    case RevokeAllSessionsRow(creator) => Some(RevokeAllSessions(names(creator)))
  }

  /** A message without the one thing its row cannot tell: how the joined arguments were divided. */
  function Stored(m: Msg): Msg {
    if m.Call? then m.(args := SplitComma(JoinComma(m.args))) else m
  }

  /**
   * Every message type but the multi-send is stored as one row from which the message can be read back, field by
   * field, whenever `names` undoes the resolver on its addresses.
   */
  lemma SingleRowReadsBack(m: Msg, c: Ctx, get: Resolver, names: int -> string)
    requires TypeName(m).Some? && !m.MultiSend?
    requires forall a :: a in Addresses(m) ==> Undoes(names, get, a)
    ensures |Convert(m, c, get)| == 1 && ReadDetail(Convert(m, c, get)[0].detail, names) == Some(Stored(m))
    ensures Stored(m) == m <==> m.Call? ==> (forall i :: 0 <= i < |m.args| ==> ',' !in m.args[i]) && m.args != [""]
  {
    if m.Call? {
      ArgsReadBackIff(m.args);
    }
    assert |Addresses(m)| >= 1 && Addresses(m)[0] in Addresses(m);
    assert |Addresses(m)| > 1 ==> Addresses(m)[1] in Addresses(m);
  }

  /** A row's recorded addresses: every non-zero id column, and every signer outside multi-sends, and no others. */
  lemma RecordedAddresses(r: Row, id: int)
    requires id != 0
    ensures id in GetAllAddresses(r) <==> id in IdColumns(r) || (!r.detail.MultiSendRow? && id in r.signers)
  {
  }

  // ----- A whole transaction -----

  datatype DecodedMsg = DecodedMsg(signers: seq<string>, msgs: seq<Msg>)

  datatype ConvertError = TooManyMessages | UnknownType

  const MAX_INT16 := 32767

  /** What `CollectAllAddresses` gathers: the signers and whatever the messages report. */
  function Collected(dm: DecodedMsg): set<string> {
    Elements(dm.signers) + CollectedFrom(dm.msgs)
  }

  function CollectedFrom(msgs: seq<Msg>): set<string> {
    if msgs == [] then {}
    else CollectedFrom(msgs[..|msgs| - 1]) + Elements(Addresses(msgs[|msgs| - 1]))
  }

  method AddAll(addressSet: set<string>, addresses: seq<string>) returns (r: set<string>)
    ensures r == addressSet + Elements(addresses)
  {
    r := addressSet;
    for i := 0 to |addresses|
      invariant r == addressSet + Elements(addresses[..i])
    {
      assert addresses[..i + 1] == addresses[..i] + [addresses[i]];
      r := r + {addresses[i]};
    }
    assert addresses[..|addresses|] == addresses;
  }

  /** Ranging over a Go map or set: its keys, in whatever order it yields them, each once. */
  method Drain<T(==)>(s: set<T>) returns (items: seq<T>)
    ensures NoDuplicates(items) && Elements(items) == s
  {
    items := [];
    var left := s;
    while left != {}
      invariant Elements(items) + left == s && Elements(items) !! left
      invariant NoDuplicates(items)
      decreases left
    {
      var x :| x in left;
      forall i | 0 <= i < |items| ensures items[i] != x {
        assert items[i] in Elements(items);
      }
      items := items + [x];
      left := left - {x};
    }
  }

  method CollectAllAddresses(dm: DecodedMsg) returns (addresses: seq<string>)
    ensures NoDuplicates(addresses)
    ensures Elements(addresses) == Collected(dm)
  {
    var addressSet := AddAll({}, dm.signers);
    for i := 0 to |dm.msgs|
      invariant addressSet == Elements(dm.signers) + CollectedFrom(dm.msgs[..i])
    {
      assert dm.msgs[..i + 1][..i] == dm.msgs[..i];
      if TypeName(dm.msgs[i]).None? {
        assert Addresses(dm.msgs[i]) == [];
        continue;
      }
      addressSet := AddAll(addressSet, Addresses(dm.msgs[i]));
    }
    assert dm.msgs[..|dm.msgs|] == dm.msgs;
    addresses := Drain(addressSet);
  }

  /** An address is collected exactly when it signs or some message reports it. */
  lemma {:induction false} CollectedExactly(dm: DecodedMsg, a: string)
    ensures a in Collected(dm) <==>
              a in dm.signers || exists i :: 0 <= i < |dm.msgs| && a in Addresses(dm.msgs[i])
  {
    CollectedFromExactly(dm.msgs, a);
  }

  lemma {:induction false} CollectedFromExactly(msgs: seq<Msg>, a: string)
    ensures a in CollectedFrom(msgs) <==> exists i :: 0 <= i < |msgs| && a in Addresses(msgs[i])
    decreases |msgs|
  {
    hide Addresses;
    if msgs != [] {
      var front := msgs[..|msgs| - 1];
      CollectedFromExactly(front, a);
      if i :| 0 <= i < |front| && a in Addresses(front[i]) {
        assert a in Addresses(msgs[i]);
      }
      if i :| 0 <= i < |msgs| && a in Addresses(msgs[i]) {
        assert i < |front| ==> a in Addresses(front[i]);
      }
    }
  }

  /** The rows of the first `n` messages; message `i` is counted by its position. */
  function RowsOf(msgs: seq<Msg>, n: nat, c: Ctx, get: Resolver): seq<Row>
    requires n <= |msgs|
  {
    if n == 0 then [] else RowsOf(msgs, n - 1, c, get) + Convert(msgs[n - 1], c.(counter := n - 1), get)
  }

  predicate Convertible(msgs: seq<Msg>) {
    |msgs| <= MAX_INT16 + 1 && forall i :: 0 <= i < |msgs| ==> TypeName(msgs[i]).Some?
  }

  function Context(dm: DecodedMsg, get: Resolver, txId: int, chain: string, timestamp: int): Ctx {
    Ctx(txId, chain, timestamp, Map(get, dm.signers), 0)
  }

  method ResolveSigners(signers: seq<string>, get: Resolver) returns (ids: seq<int>)
    ensures ids == Map(get, signers)
  {
    ids := [];
    for k := 0 to |signers|
      invariant ids == Map(get, signers[..k])
    {
      MapConcat(get, signers[..k], [signers[k]]);
      assert signers[..k + 1] == signers[..k] + [signers[k]];
      ids := ids + [get(signers[k])];
    }
    assert signers[..|signers|] == signers;
  }

  /** One iteration: look the codec up, convert, append. */
  method AppendRows(msgs: seq<Msg>, i: nat, c: Ctx, get: Resolver, rows: seq<Row>) returns (r: Option<seq<Row>>)
    requires i < |msgs| && rows == RowsOf(msgs, i, c, get)
    ensures r.Some? <==> TypeName(msgs[i]).Some?
    ensures r.Some? ==> r.value == RowsOf(msgs, i + 1, c, get)
  {
    if TypeName(msgs[i]).None? {
      return None;
    }
    var converted := Convert(msgs[i], c.(counter := i), get);
    r := Some(rows + converted);
  }

  /** `ConvertToDbMessages`: succeeds exactly on known types and positions that fit an int16. */
  method ConvertToDbMessages(dm: DecodedMsg, get: Resolver, txId: int, chain: string, timestamp: int)
    returns (r: Result<seq<Row>, ConvertError>)
    ensures r.Ok? <==> Convertible(dm.msgs)
    ensures r.Ok? ==> r.value == RowsOf(dm.msgs, |dm.msgs|, Context(dm, get, txId, chain, timestamp), get)
    ensures r == Err(UnknownType) ==>
              exists i :: 0 <= i < |dm.msgs| && i <= MAX_INT16 && TypeName(dm.msgs[i]).None?
  {
    hide Convert, TypeName, Map;
    var signerIds := ResolveSigners(dm.signers, get);
    var c := Ctx(txId, chain, timestamp, signerIds, 0);
    var rows := [];
    for i := 0 to |dm.msgs|
      invariant i <= MAX_INT16 + 1
      invariant forall j :: 0 <= j < i ==> TypeName(dm.msgs[j]).Some?
      invariant rows == RowsOf(dm.msgs, i, c, get)
    {
      if i > MAX_INT16 {
        return Err(TooManyMessages);
      }
      var more := AppendRows(dm.msgs, i, c, get, rows);
      if more.None? {
        return Err(UnknownType);
      }
      rows := more.value;
    }
    r := Ok(rows);
  }

  lemma {:induction false} CollectedContains(msgs: seq<Msg>, i: nat, a: string)
    requires i < |msgs| && a in Addresses(msgs[i])
    ensures a in CollectedFrom(msgs)
  {
    if i < |msgs| - 1 {
      CollectedContains(msgs[..|msgs| - 1], i, a);
    }
  }

  /** A row among the rows of a transaction comes from the message at its counter. */
  lemma {:induction false} RowsHaveOrigins(msgs: seq<Msg>, n: nat, c: Ctx, get: Resolver, r: Row)
    requires n <= |msgs| && r in RowsOf(msgs, n, c, get)
    ensures 0 <= r.counter < n
    ensures r in Convert(msgs[r.counter], c.(counter := r.counter), get)
    ensures r.txId == c.txId && r.chain == c.chain && r.timestamp == c.timestamp && r.signers == c.signerIds
  {
    if r in RowsOf(msgs, n - 1, c, get) {
      RowsHaveOrigins(msgs, n - 1, c, get, r);
    } else {
      RowsCarryContext(msgs[n - 1], c.(counter := n - 1), get, r);
    }
  }

  lemma {:induction false} InAllIdColumns(rows: seq<Row>, r: Row, id: int)
    requires r in rows && id in IdColumns(r)
    ensures id in AllIdColumns(rows)
  {
    if rows[0] != r {
      assert rows == [rows[0]] + rows[1..];
      InAllIdColumns(rows[1..], r, id);
    }
  }

  ghost predicate Resolves(id: int, get: Resolver, from: set<string>) {
    exists a :: a in from && id == get(a)
  }

  /** A column of a row of one message resolves an address of that message. */
  lemma ColumnResolves(m: Msg, c: Ctx, get: Resolver, r: Row, id: int)
    requires r in Convert(m, c, get) && id in IdColumns(r)
    ensures Resolves(id, get, Elements(Addresses(m)))
  {
    IdsAreReportedAddresses(m, c, get);
    InAllIdColumns(Convert(m, c, get), r, id);
    var p :| 0 <= p < |Addresses(m)| && Map(get, Addresses(m))[p] == id;
    assert Addresses(m)[p] in Elements(Addresses(m));
  }

  /** Every id in every row of a transaction, signers included, is the resolution of a collected address. */
  lemma IdsAreCollected(dm: DecodedMsg, get: Resolver, txId: int, chain: string, timestamp: int, r: Row, id: int)
    requires r in RowsOf(dm.msgs, |dm.msgs|, Context(dm, get, txId, chain, timestamp), get)
    requires id in IdColumns(r) || id in r.signers
    ensures Resolves(id, get, Collected(dm))
  {
    var c := Context(dm, get, txId, chain, timestamp);
    RowsHaveOrigins(dm.msgs, |dm.msgs|, c, get, r);
    if id in IdColumns(r) {
      ColumnResolves(dm.msgs[r.counter], c.(counter := r.counter), get, r, id);
      var a :| a in Elements(Addresses(dm.msgs[r.counter])) && id == get(a);
      CollectedContains(dm.msgs, r.counter, a);
    } else {
      var k :| 0 <= k < |r.signers| && r.signers[k] == id;
      assert dm.signers[k] in Collected(dm);
    }
  }

  lemma RecordedAddressesAreColumns(r: Row, id: int)
    requires id in GetAllAddresses(r)
    ensures id in IdColumns(r) || id in r.signers
  {
  }

  /**
   * Collect, resolve, convert: when the cache answers every collected address with its database id, every id
   * in every row is non-zero and the database id of a collected address, and the addresses recorded for
   * the row are among them.
   */
  lemma RowsHoldDatabaseIds(
    dm: DecodedMsg, get: Resolver, table: map<string, int>, txId: int, chain: string, timestamp: int, r: Row, id: int)
    requires forall a :: a in Collected(dm) ==> get(a) != 0 && a in table && table[a] == get(a)
    requires r in RowsOf(dm.msgs, |dm.msgs|, Context(dm, get, txId, chain, timestamp), get)
    requires id in IdColumns(r) || id in r.signers || id in GetAllAddresses(r)
    ensures id != 0 && exists a :: a in Collected(dm) && a in table && table[a] == id
  {
    if id in GetAllAddresses(r) {
      RecordedAddressesAreColumns(r, id);
    }
    IdsAreCollected(dm, get, txId, chain, timestamp, r, id);
  }

  /** No other address is looked up: resolvers that agree on the collected addresses produce the same rows. */
  lemma {:induction false} OnlyCollectedMatter(dm: DecodedMsg, get: Resolver, get': Resolver, c: Ctx, n: nat)
    requires n <= |dm.msgs| && forall a :: a in Collected(dm) ==> get(a) == get'(a)
    ensures RowsOf(dm.msgs, n, c, get) == RowsOf(dm.msgs, n, c, get')
  {
    if n > 0 {
      OnlyCollectedMatter(dm, get, get', c, n - 1);
      forall a | a in Addresses(dm.msgs[n - 1]) ensures get(a) == get'(a) {
        CollectedContains(dm.msgs, n - 1, a);
      }
      SameConversion(dm.msgs[n - 1], c.(counter := n - 1), get, get');
    }
  }

  lemma SameConversion(m: Msg, c: Ctx, get: Resolver, get': Resolver)
    requires forall a :: a in Addresses(m) ==> get(a) == get'(a)
    ensures Convert(m, c, get) == Convert(m, c, get')
  {
    if m.MultiSend? {
      forall i | 0 <= i < |m.inputs| ensures get(m.inputs[i].address) == get'(m.inputs[i].address) {
        assert Addresses(m)[i] in Addresses(m);
      }
      forall i | 0 <= i < |m.outputs| ensures get(m.outputs[i].address) == get'(m.outputs[i].address) {
        assert Addresses(m)[|m.inputs| + i] in Addresses(m);
      }
      EntryRowsShape(m.inputs, false, c, get);
      EntryRowsShape(m.inputs, false, c, get');
      EntryRowsShape(m.outputs, true, c, get);
      EntryRowsShape(m.outputs, true, c, get');
    }
  }

  // ----- Message types -----

  /** Type names in order of first appearance. */
  function TypesOf(msgs: seq<Msg>): seq<string> {
    if msgs == [] then []
    else
      var before := TypesOf(msgs[..|msgs| - 1]);
      match TypeName(msgs[|msgs| - 1])
      case Some(t) => if t in before then before else before + [t]
      case None => before
  }

  method GetMsgTypes(dm: DecodedMsg) returns (types: seq<string>)
    ensures types == TypesOf(dm.msgs)
  {
    var msgSet: set<string> := {};
    types := [];
    for i := 0 to |dm.msgs|
      invariant types == TypesOf(dm.msgs[..i]) && msgSet == set t | t in types
    {
      assert dm.msgs[..i + 1][..i] == dm.msgs[..i];
      match TypeName(dm.msgs[i]) {
        case Some(t) =>
          if t !in msgSet {
            types := types + [t];
            msgSet := msgSet + {t};
          }
        case None =>
      }
    }
    assert dm.msgs[..|dm.msgs|] == dm.msgs;
  }

  lemma {:induction false} TypesAreThoseUsed(msgs: seq<Msg>)
    ensures NoDuplicates(TypesOf(msgs))
    ensures forall t :: t in TypesOf(msgs) <==> exists i :: 0 <= i < |msgs| && TypeName(msgs[i]) == Some(t)
  {
    if msgs != [] {
      var front := msgs[..|msgs| - 1];
      TypesAreThoseUsed(front);
      assert forall i :: 0 <= i < |front| ==> front[i] == msgs[i];
      forall t ensures t in TypesOf(msgs) <==> exists i :: 0 <= i < |msgs| && TypeName(msgs[i]) == Some(t) {
        if i :| 0 <= i < |msgs| && TypeName(msgs[i]) == Some(t) {
          assert i < |front| ==> TypeName(front[i]) == Some(t);
        }
      }
    }
  }

  /** The position of the first message of a type. */
  predicate FirstOfType(msgs: seq<Msg>, t: string, i: nat) {
    i < |msgs| && TypeName(msgs[i]) == Some(t) && forall j :: 0 <= j < i ==> TypeName(msgs[j]) != Some(t)
  }

  /** The types stand in the order in which they first appear. */
  lemma {:induction false} TypesInOrder(msgs: seq<Msg>, a: nat, b: nat, i: nat, j: nat)
    requires a < b < |TypesOf(msgs)|
    requires FirstOfType(msgs, TypesOf(msgs)[a], i) && FirstOfType(msgs, TypesOf(msgs)[b], j)
    ensures i < j
  {
    hide TypeName;
    var n := |msgs| - 1;
    var front := msgs[..n];
    TypesAreThoseUsed(front);
    TypesGrow(msgs);
    var t, u := TypesOf(msgs)[a], TypesOf(msgs)[b];
    assert t == TypesOf(front)[a];
    var k :| 0 <= k < |front| && TypeName(front[k]) == Some(t);
    assert msgs[k] == front[k] && i <= k;
    assert FirstOfType(front, t, i) by {
      assert front[i] == msgs[i];
    }
    if b < |TypesOf(front)| {
      var l :| 0 <= l < |front| && TypeName(front[l]) == Some(u);
      assert msgs[l] == front[l] && j <= l;
      assert FirstOfType(front, u, j) by {
        assert front[j] == msgs[j];
      }
      TypesInOrder(front, a, b, i, j);
    } else {
      forall l | 0 <= l < n
        ensures TypeName(msgs[l]) != Some(u)
      {
        assert msgs[l] == front[l];
      }
    }
  }

  lemma TypesGrow(msgs: seq<Msg>)
    requires msgs != []
    ensures var front := TypesOf(msgs[..|msgs| - 1]);
            || TypesOf(msgs) == front
            || exists t :: t !in front && TypeName(msgs[|msgs| - 1]) == Some(t) && TypesOf(msgs) == front + [t]
  {
    hide TypeName;
  }

  /** The table of every row is listed in the transaction's message types, so a reader knows where to look. */
  lemma RowTablesAreListed(dm: DecodedMsg, get: Resolver, txId: int, chain: string, timestamp: int, r: Row)
    requires r in RowsOf(dm.msgs, |dm.msgs|, Context(dm, get, txId, chain, timestamp), get)
    ensures TableName(r) in TypesOf(dm.msgs)
  {
    var c := Context(dm, get, txId, chain, timestamp);
    RowsHaveOrigins(dm.msgs, |dm.msgs|, c, get, r);
    RowsCarryContext(dm.msgs[r.counter], c.(counter := r.counter), get, r);
    TypesAreThoseUsed(dm.msgs);
  }
}
