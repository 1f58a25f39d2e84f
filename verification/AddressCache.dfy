/**
 * `AddressSolver` and its helpers over a database that fails at will: lookups may fail or stop half way, inserts
 * may fail, or commit and still report an error, and other writers may insert between any two calls.
 */
module AddressCaching {
  import opened Results

  ghost predicate SubMap<K(!new), V(!new)>(m: map<K, V>, n: map<K, V>) {
    forall k :: k in m ==> k in n && m[k] == n[k]
  }

  predicate NoDuplicates<T(==)>(s: seq<T>) {
    forall i, j :: 0 <= i < j < |s| ==> s[i] != s[j]
  }

  function Members(addresses: seq<string>): set<string> {
    set a | a in addresses
  }

  /**
   * What the outside world does in one database call: the addresses other writers insert just before it, whether it
   * fails without effect, whether a lookup breaks off after some rows, and whether an insert commits but reports an
   * error.
   */
  datatype Reply = Reply(others: seq<string>, fails: bool, breaks: Option<set<string>>, lost: bool)
  {
    predicate Complete() {
      !fails && breaks.None?
    }
  }

  const CLEAN := Reply([], false, None, false)

  /** The reply to call k from here; past the end of the plan nothing goes wrong. */
  function Nth(plan: seq<Reply>, k: nat): Reply {
    if k < |plan| then plan[k] else CLEAN
  }

  function Drop(plan: seq<Reply>, k: nat): seq<Reply> {
    if k <= |plan| then plan[k..] else []
  }

  lemma DropDrop(plan: seq<Reply>, j: nat, k: nat)
    ensures Drop(Drop(plan, j), k) == Drop(plan, j + k)
    ensures Nth(Drop(plan, j), k) == Nth(plan, j + k)
  {
  }

  /** COPY accepts addresses that are neither repeated nor stored. */
  predicate Legal(addresses: seq<string>, stored: set<string>) {
    NoDuplicates(addresses) && forall a :: a in addresses ==> a !in stored
  }

  /** What is stored after k batch inserts of the same addresses. */
  function StoredAfter(stored: set<string>, plan: seq<Reply>, addresses: seq<string>, k: nat): set<string> {
    if k == 0 then stored
    else
      var before := StoredAfter(stored, plan, addresses, k - 1) + Members(Nth(plan, k - 1).others);
      if Legal(addresses, before) && !Nth(plan, k - 1).fails then before + Members(addresses) else before
  }

  /** Batch insert number k, counted from 0, reports success. */
  predicate Succeeds(stored: set<string>, plan: seq<Reply>, addresses: seq<string>, k: nat) {
    && Legal(addresses, StoredAfter(stored, plan, addresses, k) + Members(Nth(plan, k).others))
    && !Nth(plan, k).fails && !Nth(plan, k).lost
  }

  /**
   * The table `gno_addresses` or `gno_validators` of one chain: unique addresses, ids from an identity column,
   * so positive, never reused, and one per address. `plan` is what the outside world will do, call by call.
   */
  class AddressTable {
    var rows: map<string, int>
    var nextId: int
    var plan: seq<Reply>

    ghost predicate Valid()
      reads this
    {
      && nextId >= 1
      && (forall a :: a in rows ==> 1 <= rows[a] < nextId)
      && (forall a, b :: a in rows && b in rows && rows[a] == rows[b] ==> a == b)
    }

    constructor (plan: seq<Reply>)
      ensures Valid() && rows == map[] && this.plan == plan
    {
      rows, nextId, this.plan := map[], 1, plan;
    }

    /** Adds the addresses that are not there yet, in order. */
    method Append(addresses: seq<string>)
      requires Valid()
      modifies this`rows, this`nextId
      ensures Valid() && SubMap(old(rows), rows)
      ensures rows.Keys == old(rows.Keys) + Members(addresses)
    {
      for i := 0 to |addresses|
        invariant Valid() && SubMap(old(rows), rows)
        invariant rows.Keys == old(rows.Keys) + Members(addresses[..i])
      {
        assert addresses[..i + 1] == addresses[..i] + [addresses[i]];
        if addresses[i] !in rows {
          rows, nextId := rows[addresses[i] := nextId], nextId + 1;
        }
      }
      assert addresses[..|addresses|] == addresses;
    }

    /** The next reply; other writers come first. */
    method Call() returns (reply: Reply)
      requires Valid()
      modifies this
      ensures Valid() && SubMap(old(rows), rows)
      ensures reply == Nth(old(plan), 0) && plan == Drop(old(plan), 1)
      ensures rows.Keys == old(rows.Keys) + Members(reply.others)
    {
      reply, plan := Nth(plan, 0), Drop(plan, 1);
      Append(reply.others);
    }

    /**
     * `FindExistingAccounts`. The rows are drained without asking for the error that ended them, so a broken
     * connection yields some of the rows and no error, and the caller cannot tell.
     */
    method FindExistingAccounts(addresses: seq<string>) returns (found: Option<map<string, int>>)
      requires Valid()
      modifies this
      ensures Valid() && SubMap(old(rows), rows)
      ensures plan == Drop(old(plan), 1)
      ensures rows.Keys == old(rows.Keys) + Members(Nth(old(plan), 0).others)
      ensures found.None? <==> Nth(old(plan), 0).fails
      ensures found.Some? ==> SubMap(found.value, rows) && forall a :: a in found.value ==> a in addresses
      ensures Nth(old(plan), 0).Complete() ==> forall a :: a in addresses && a in rows ==> a in found.value
    {
      var reply := Call();
      if reply.fails {
        return None;
      }
      var all := map a | a in addresses && a in rows :: rows[a];
      if reply.breaks.Some? {
        return Some(map a | a in all && a in reply.breaks.value :: all[a]);
      }
      return Some(all);
    }

    /** `InsertAddresses` by COPY: all rows or none. */
    method InsertAddresses(addresses: seq<string>) returns (ok: bool)
      requires Valid()
      modifies this
      ensures Valid() && SubMap(old(rows), rows)
      ensures plan == Drop(old(plan), 1)
      ensures rows.Keys == StoredAfter(old(rows.Keys), old(plan), addresses, 1)
      ensures ok <==> Succeeds(old(rows.Keys), old(plan), addresses, 0)
    {
      var reply := Call();
      assert StoredAfter(old(rows.Keys), old(plan), addresses, 0) == old(rows.Keys);
      if reply.fails || !NoDuplicates(addresses) || exists a | a in addresses :: a in rows {
        return false;
      }
      Append(addresses);
      ok := !reply.lost;
    }
  }

  /** The k-th insert commits after k failures without effect, and the lookups before and after are complete. */
  predicate Recovers(plan: seq<Reply>, addresses: set<string>, retryAttempts: nat, oneByOne: Option<bool>, k: nat) {
    && k < retryAttempts
    && (forall j :: 0 <= j < |plan| ==> Members(plan[j].others) !! addresses)
    && Nth(plan, 0).Complete()
    && (forall j :: 1 <= j <= k ==> Nth(plan, j).fails)
    && !Nth(plan, k + 1).fails
    && (Nth(plan, k + 1).lost ==> oneByOne != Some(true))
    && Nth(plan, if Nth(plan, k + 1).lost then retryAttempts + 1 else k + 2).Complete()
  }

  predicate CanRecover(plan: seq<Reply>, addresses: set<string>, retryAttempts: nat, oneByOne: Option<bool>) {
    exists k :: 0 <= k < retryAttempts && Recovers(plan, addresses, retryAttempts, oneByOne, k)
  }

  /** Every attempt but a last successful one fails, and there are `retryAttempts` without one. */
  predicate StopsAtSuccess(stored: set<string>, plan: seq<Reply>, addresses: seq<string>, retryAttempts: nat,
                           inserted: bool, attempts: nat) {
    && attempts <= retryAttempts && (!inserted ==> attempts == retryAttempts) && (inserted ==> attempts > 0)
    && forall k :: 0 <= k < attempts ==> (Succeeds(stored, plan, addresses, k) <==> inserted && k == attempts - 1)
  }

  /** After n batch inserts, one call per address was made, and those that did not fail are stored. */
  predicate OneByOneDone(plan: seq<Reply>, addresses: seq<string>, n: nat, rest: seq<Reply>, stored: set<string>) {
    && rest == Drop(plan, n + |addresses|)
    && forall i :: 0 <= i < |addresses| && !Nth(plan, n + i).fails ==> addresses[i] in stored
  }

  lemma NothingDone(stored: set<string>, plan: seq<Reply>, addresses: seq<string>)
    ensures Drop(plan, 0) == plan && StoredAfter(stored, plan, addresses, 0) == stored
  {
  }

  lemma OneMoreInsert(stored: set<string>, plan: seq<Reply>, addresses: seq<string>, i: nat)
    ensures var now, rest := StoredAfter(stored, plan, addresses, i), Drop(plan, i);
            && StoredAfter(now, rest, addresses, 1) == StoredAfter(stored, plan, addresses, i + 1)
            && (Succeeds(now, rest, addresses, 0) <==> Succeeds(stored, plan, addresses, i))
  {
    DropDrop(plan, i, 0);
    var now, rest := StoredAfter(stored, plan, addresses, i), Drop(plan, i);
    assert StoredAfter(now, rest, addresses, 0) == now;
    assert Nth(rest, 0) == Nth(plan, i);
  }

  /** Failed inserts leave the addresses out; once they are in they stay. */
  lemma {:induction false} StoredSteps(
    stored: set<string>, plan: seq<Reply>, addresses: seq<string>, k: nat, n: nat)
    requires Members(addresses) !! stored && NoDuplicates(addresses) && k < n
    requires forall j :: 0 <= j < n ==> Members(Nth(plan, j).others) !! Members(addresses)
    requires forall j :: 0 <= j < k ==> Nth(plan, j).fails
    requires !Nth(plan, k).fails
    ensures forall j :: 0 <= j < k ==> !Succeeds(stored, plan, addresses, j)
    ensures Succeeds(stored, plan, addresses, k) <==> !Nth(plan, k).lost
    ensures Members(addresses) <= StoredAfter(stored, plan, addresses, n)
    ensures addresses != [] ==> forall j :: k < j < n ==> !Succeeds(stored, plan, addresses, j)
  {
    StillOut(stored, plan, addresses, k);
    assert Legal(addresses, StoredAfter(stored, plan, addresses, k) + Members(Nth(plan, k).others)) by {
      forall a | a in addresses
        ensures a !in StoredAfter(stored, plan, addresses, k) + Members(Nth(plan, k).others)
      {
        assert a in Members(addresses);
      }
    }
    forall j | k < j <= n
      ensures Members(addresses) <= StoredAfter(stored, plan, addresses, j)
    {
      StillIn(stored, plan, addresses, k + 1, j);
    }
    if addresses != [] {
      forall j | k < j < n
        ensures !Succeeds(stored, plan, addresses, j)
      {
        assert addresses[0] in Members(addresses);
      }
    }
  }

  lemma {:induction false} StillOut(stored: set<string>, plan: seq<Reply>, addresses: seq<string>, k: nat)
    requires Members(addresses) !! stored
    requires forall j :: 0 <= j < k ==> Nth(plan, j).fails && Members(Nth(plan, j).others) !! Members(addresses)
    ensures Members(addresses) !! StoredAfter(stored, plan, addresses, k)
  {
    if k > 0 {
      StillOut(stored, plan, addresses, k - 1);
    }
  }

  lemma {:induction false} StillIn(stored: set<string>, plan: seq<Reply>, addresses: seq<string>, k: nat, n: nat)
    requires k <= n && Members(addresses) <= StoredAfter(stored, plan, addresses, k)
    ensures Members(addresses) <= StoredAfter(stored, plan, addresses, n)
    decreases n
  {
    if k < n {
      StillIn(stored, plan, addresses, k, n - 1);
    }
  }

  /** What the insert loop did under a plan that recovers. */
  lemma Recovered(plan: seq<Reply>, requested: set<string>, toAdd: seq<string>, stored: set<string>,
                  retryAttempts: nat, oneByOne: Option<bool>, inserted: bool, attempts: nat)
    requires CanRecover(plan, requested, retryAttempts, oneByOne)
    requires toAdd != [] && NoDuplicates(toAdd) && Members(toAdd) <= requested && Members(toAdd) !! stored
    requires StopsAtSuccess(stored, Drop(plan, 1), toAdd, retryAttempts, inserted, attempts)
    ensures Members(toAdd) <= StoredAfter(stored, Drop(plan, 1), toAdd, attempts)
    ensures Nth(plan, 1 + attempts).Complete()
    ensures !inserted ==> oneByOne != Some(true)
  {
    hide StoredAfter, Succeeds, NoDuplicates;
    var k :| 0 <= k < retryAttempts && Recovers(plan, requested, retryAttempts, oneByOne, k);
    var rest := Drop(plan, 1);
    forall j: nat
      ensures Nth(rest, j) == Nth(plan, j + 1)
      ensures Members(Nth(rest, j).others) !! Members(toAdd)
    {
      DropDrop(plan, 1, j);
    }
    StoredSteps(stored, rest, toAdd, k, retryAttempts);
    if inserted {
      StoredSteps(stored, rest, toAdd, k, k + 1);
      assert Succeeds(stored, rest, toAdd, attempts - 1);
    }
  }

  class AddressCache {
    var address: map<string, int>
    const db: AddressTable

    /** The cache agrees with the table: it is a part of it. */
    ghost predicate Valid()
      reads this, db
    {
      db.Valid() && SubMap(address, db.rows)
    }

    /** `NewAddressCache`: a complete load; a failed load ends the program. */
    constructor (table: AddressTable)
      requires table.Valid()
      ensures db == table && Valid() && address == table.rows
    {
      db := table;
      address := table.rows;
    }

    /** `GetAddress`: the cached id, or 0. */
    function GetAddress(a: string): (id: int)
      requires Valid()
      reads this, db
      ensures id == 0 <==> a !in address
      ensures id != 0 ==> a in db.rows && db.rows[a] == id
    {
      if a in address then address[a] else 0
    }

    method AddAddresses(newAddresses: map<string, int>)
      requires Valid() && SubMap(newAddresses, db.rows)
      modifies this
      ensures Valid() && address == old(address) + newAddresses
    {
      address := address + newAddresses;
    }

    method FindUncached(addresses: seq<string>) returns (missing: seq<string>)
      ensures forall a :: a in missing <==> a in addresses && a !in address
      ensures NoDuplicates(addresses) ==> NoDuplicates(missing)
    {
      missing := [];
      for i := 0 to |addresses|
        invariant forall a :: a in missing <==> a in addresses[..i] && a !in address
        invariant NoDuplicates(addresses) ==> NoDuplicates(missing)
      {
        assert addresses[..i + 1] == addresses[..i] + [addresses[i]];
        if addresses[i] !in address {
          missing := missing + [addresses[i]];
        }
      }
    }

    /** What every helper keeps: agreement with the table, and everything known before. */
    twostate predicate Keeps()
      reads this, db
    {
      && Valid()
      && SubMap(old(address), address)
      && SubMap(old(db.rows), db.rows)
    }

    method SyncExistingFromDB(addresses: seq<string>) returns (toAdd: seq<string>)
      requires Valid()
      modifies this, db
      ensures Keeps() && db.plan == Drop(old(db.plan), 1)
      ensures address.Keys <= old(address.Keys) + Members(addresses)
      ensures db.rows.Keys == old(db.rows.Keys) + Members(Nth(old(db.plan), 0).others)
      ensures Nth(old(db.plan), 0).fails ==> toAdd == [] && address == old(address)
      ensures !Nth(old(db.plan), 0).fails ==> forall a :: a in toAdd <==> a in addresses && a !in address
      ensures Nth(old(db.plan), 0).Complete() ==> forall a :: a in addresses && a in db.rows ==> a in address
      ensures NoDuplicates(addresses) ==> NoDuplicates(toAdd)
    {
      var existing := db.FindExistingAccounts(addresses);
      if existing.None? {
        return [];
      }
      AddAddresses(existing.value);
      toAdd := FindUncached(addresses);
    }

    /** Each address has a call of its own; whatever does not fail is stored afterwards. */
    method InsertOneByOne(addresses: seq<string>)
      requires Valid()
      modifies db
      ensures Keeps() && db.plan == Drop(old(db.plan), |addresses|)
      ensures forall i :: 0 <= i < |addresses| && !Nth(old(db.plan), i).fails ==> addresses[i] in db.rows
    {
      for i := 0 to |addresses|
        invariant Keeps() && db.plan == Drop(old(db.plan), i)
        invariant forall j :: 0 <= j < i && !Nth(old(db.plan), j).fails ==> addresses[j] in db.rows
      {
        DropDrop(old(db.plan), i, 0);
        DropDrop(old(db.plan), i, 1);
        var before := db.rows.Keys;
        label call:
        var _ := db.InsertAddresses([addresses[i]]);
        assert StoredAfter(before, old@call(db.plan), [addresses[i]], 0) == before;
      }
    }

    /** Batch insert number i of a run that began with `plan` and `stored`. */
    method InsertOnce(ghost plan: seq<Reply>, ghost stored: set<string>, addresses: seq<string>, ghost i: nat)
      returns (ok: bool)
      requires Valid() && db.plan == Drop(plan, i) && db.rows.Keys == StoredAfter(stored, plan, addresses, i)
      modifies db
      ensures Keeps() && db.plan == Drop(plan, i + 1) && db.rows.Keys == StoredAfter(stored, plan, addresses, i + 1)
      ensures ok <==> Succeeds(stored, plan, addresses, i)
      ensures ok ==> forall a :: a in addresses ==> a in db.rows
    {
      DropDrop(plan, i, 1);
      OneMoreInsert(stored, plan, addresses, i);
      ok := db.InsertAddresses(addresses);
    }

    /** The one-by-one inserts after n batch inserts. */
    method FallBack(ghost plan: seq<Reply>, addresses: seq<string>, ghost n: nat)
      requires Valid() && db.plan == Drop(plan, n)
      modifies db
      ensures Keeps() && OneByOneDone(plan, addresses, n, db.plan, db.rows.Keys)
    {
      InsertOneByOne(addresses);
      DropDrop(plan, n, |addresses|);
      forall j | 0 <= j < |addresses| && !Nth(plan, n + j).fails
        ensures addresses[j] in db.rows
      {
        DropDrop(plan, n, j);
      }
    }

    /**
     * The batch insert until it reports success, at most `retryAttempts` times; after the last failure one by one
     * where that is allowed.
     */
    method InsertWithRetry(addresses: seq<string>, retryAttempts: nat, oneByOne: Option<bool>)
      returns (ghost inserted: bool, attempts: nat)
      requires Valid() && retryAttempts < 256
      modifies db
      ensures Keeps()
      ensures inserted ==> forall a :: a in addresses ==> a in db.rows
      ensures addresses == [] ==> inserted && attempts == 0 && db.plan == old(db.plan)
      ensures addresses != [] ==>
                && StopsAtSuccess(old(db.rows.Keys), old(db.plan), addresses, retryAttempts, inserted, attempts)
                && StoredAfter(old(db.rows.Keys), old(db.plan), addresses, attempts) <= db.rows.Keys
      ensures addresses != [] && (inserted || oneByOne != Some(true) || retryAttempts == 0) ==>
                db.plan == Drop(old(db.plan), attempts)
      ensures addresses != [] && !inserted && oneByOne == Some(true) && retryAttempts > 0 ==>
                OneByOneDone(old(db.plan), addresses, attempts, db.plan, db.rows.Keys)
    {
      hide Succeeds, Drop, OneByOneDone, StoredAfter;
      inserted, attempts := false, 0;
      if |addresses| == 0 {
        return true, 0;
      }
      ghost var plan, stored, alone := db.plan, db.rows.Keys, false;
      NothingDone(stored, plan, addresses);
      var i := 0;
      while i < retryAttempts
        invariant Keeps() && attempts == i <= retryAttempts
        invariant forall k :: 0 <= k < i ==> !Succeeds(stored, plan, addresses, k)
        invariant StoredAfter(stored, plan, addresses, i) <= db.rows.Keys
        invariant alone <==> i == retryAttempts > 0 && oneByOne == Some(true)
        invariant !alone ==> db.plan == Drop(plan, i) && db.rows.Keys == StoredAfter(stored, plan, addresses, i)
        invariant alone ==> OneByOneDone(plan, addresses, i, db.plan, db.rows.Keys)
      {
        attempts := attempts + 1;
        var ok := InsertOnce(plan, stored, addresses, i);
        if ok {
          inserted := true;
          return;
        }
        if oneByOne == Some(true) && i == retryAttempts - 1 {
          FallBack(plan, addresses, i + 1);
          alone := true;
        }
        i := i + 1;
      }
    }

    method FetchAndCacheInserted(addresses: seq<string>)
      requires Valid()
      modifies this, db
      ensures Keeps()
      ensures address.Keys <= old(address.Keys) + Members(addresses)
      ensures addresses == [] || Nth(old(db.plan), 0).Complete() ==>
                forall a :: a in addresses && a in db.rows ==> a in address
    {
      if |addresses| == 0 {
        return;
      }
      var found := db.FindExistingAccounts(addresses);
      if found.None? {
        return;
      }
      AddAddresses(found.value);
    }

    /**
     * `AddressSolver`, under every failure pattern: the cache stays a part of the table, keeps every id it had,
     * and learns only requested addresses. When the first lookup answered and the last one was complete
     * (`lookedUp`), a requested address is uncached exactly when it is not stored. When the plan lets it recover -
     * no other writer interferes, at most `retryAttempts - 1` failed inserts come before one that commits, and both
     * lookups are complete - every requested address is stored and resolves to its id.
     */
    method AddressSolver(addresses: seq<string>, retryAttempts: nat, oneByOne: Option<bool>)
      returns (ghost lookedUp: bool, ghost inserted: bool)
      requires Valid() && retryAttempts < 256
      modifies this, db
      ensures Keeps()
      ensures address.Keys <= old(address.Keys) + Members(addresses)
      ensures lookedUp ==> forall a :: a in addresses ==> (a in address <==> a in db.rows)
      ensures lookedUp && inserted ==> forall a :: a in addresses ==> GetAddress(a) != 0 && GetAddress(a) == db.rows[a]
      ensures NoDuplicates(addresses) && CanRecover(old(db.plan), Members(addresses), retryAttempts, oneByOne) ==>
                forall a :: a in addresses ==> a in db.rows && GetAddress(a) == db.rows[a] != 0
    {
      ghost var plan := db.plan;
      var newAddresses := FindUncached(addresses);
      if |newAddresses| == 0 {
        return true, true;
      }
      var toAdd := SyncExistingFromDB(newAddresses);
      lookedUp := !Nth(plan, 0).fails;
      label synced:
      ghost var stored, rest := db.rows.Keys, db.plan;
      var attempts;
      inserted, attempts := InsertWithRetry(toAdd, retryAttempts, oneByOne);
      label filled:
      if NoDuplicates(addresses) && CanRecover(plan, Members(addresses), retryAttempts, oneByOne) && toAdd != [] {
        Recovered(plan, Members(addresses), toAdd, stored, retryAttempts, oneByOne, inserted, attempts);
      }
      ghost var complete := toAdd == [] || Nth(db.plan, 0).Complete();
      FetchAndCacheInserted(toAdd);
      assert address.Keys <= old@synced(address.Keys) + Members(toAdd);
      lookedUp := lookedUp && complete;
    }

    /** Any number of calls, one after the other, whatever fails in them. */
    method SolveAll(requests: seq<seq<string>>, retryAttempts: nat, oneByOne: Option<bool>)
      requires Valid() && retryAttempts < 256
      modifies this, db
      ensures Keeps()
      ensures forall a :: a in address && a !in old(address) ==> exists i :: 0 <= i < |requests| && a in requests[i]
    {
      for i := 0 to |requests|
        invariant Keeps()
        invariant forall a :: a in address && a !in old(address) ==> exists j :: 0 <= j < i && a in requests[j]
      {
        label before:
        var lookedUp, inserted := AddressSolver(requests[i], retryAttempts, oneByOne);
        forall a | a in address && a !in old(address) ensures exists j :: 0 <= j < i + 1 && a in requests[j] {
          if a !in old@before(address) {
            assert a in requests[i];
          }
        }
      }
    }
  }
}
