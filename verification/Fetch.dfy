/**
 * The concurrent fetch of `GetFromToBlocks`, `GetFromToCommits` and `GetTransactions` with the bounded
 * retry of `RetryWithContext`, as interleaved steps: one task per slot, a shared slice behind a
 * mutex, a wait group, and RPC answers that fail at will.
 */
module Fetch {
  import opened Results

  datatype Outcome<+V> = Answer(value: V) | Failure

  datatype Call<+K, +V> = Call(key: K, outcome: Outcome<V>)

  /** Where the work for one slot stands; `result` is nil (`None`) once every attempt has failed. */
  datatype Task<+V> =
    | Starting
    | Retrying(failures: nat)
    | Sent(result: Option<V>)
    | Called(result: Option<V>)
    | Locked(result: Option<V>)
    | Stored
    | Unlocked
    | Finished

  datatype State<+K, +V> = State(
    tasks: seq<Task<V>>,
    slots: seq<Option<V>>,
    holder: Option<nat>,
    pending: int,
    returned: bool,
    calls: seq<seq<Call<K, V>>>)

  /** What the goroutines working for one slot do, one atomic action at a time. */
  datatype Action<+V> =
    | AskFirst(outcome: Outcome<V>)
    | AskAgain(outcome: Outcome<V>)
    | GiveUp
    | Callback
    | Lock
    | Store
    | Unlock
    | Signal

  /** One scheduling step: an action for slot `i`, or the waiting caller returning. */
  datatype Event<+V> = At(i: nat, action: Action<V>) | Return

  /** The slots start out nil and the wait group at the number of slots. */
  function Launch<K, V>(keys: seq<K>): State<K, V> {
    State(seq(|keys|, _ => Starting), seq(|keys|, _ => None), None, |keys|, false, seq(|keys|, _ => []))
  }

  /**
   * The local effect of an action, or None where it cannot happen. `retries` is the number of iterations
   * `range retryAmount` makes. A first answer goes straight to the store, a later one through the channel.
   */
  function Advance<V>(retries: nat, t: Task<V>, a: Action<V>): Option<Task<V>> {
    if a.AskFirst? && t.Starting? then
      Some(if a.outcome.Answer? then Called(Some(a.outcome.value)) else Retrying(0))
    else if a.AskAgain? && t.Retrying? && t.failures < retries then
      Some(if a.outcome.Answer? then Sent(Some(a.outcome.value)) else Retrying(t.failures + 1))
    else if a.GiveUp? && t.Retrying? && t.failures == retries then Some(Sent(None))
    else if a.Callback? && t.Sent? then Some(Called(t.result))
    else if a.Lock? && t.Called? then Some(Locked(t.result))
    else if a.Store? && t.Locked? then Some(Stored)
    else if a.Unlock? && t.Stored? then Some(Unlocked)
    else if a.Signal? && t.Unlocked? then Some(Finished)
    else None
  }

  function CallsAfter<K, V>(key: K, calls: seq<Call<K, V>>, a: Action<V>): seq<Call<K, V>> {
    if a.AskFirst? || a.AskAgain? then calls + [Call(key, a.outcome)] else calls
  }

  function SlotAfter<V>(slot: Option<V>, t: Task<V>, a: Action<V>): Option<V> {
    if a.Store? && t.Locked? then t.result else slot
  }

  function Step<K, V>(keys: seq<K>, retries: nat, s: State<K, V>, e: Event<V>): Option<State<K, V>>
    requires |s.tasks| == |s.slots| == |s.calls| == |keys|
  {
    match e
    case Return => if s.pending == 0 && !s.returned then Some(s.(returned := true)) else None
    case At(i, a) =>
      if i >= |keys| || (a.Lock? && s.holder.Some?) then None
      else
        match Advance(retries, s.tasks[i], a)
        case None => None
        case Some(t) =>
          Some(State(
            s.tasks[i := t],
            s.slots[i := SlotAfter(s.slots[i], s.tasks[i], a)],
            if a.Lock? then Some(i) else if a.Unlock? then None else s.holder,
            if a.Signal? then s.pending - 1 else s.pending,
            s.returned,
            s.calls[i := CallsAfter(keys[i], s.calls[i], a)]))
  }

  /** Runs a schedule; None if some event in it could not happen. */
  function Run<K, V>(keys: seq<K>, retries: nat, events: seq<Event<V>>): (r: Option<State<K, V>>)
    ensures r.Some? ==> |r.value.tasks| == |r.value.slots| == |r.value.calls| == |keys|
  {
    if events == [] then Some(Launch(keys))
    else
      match Run(keys, retries, events[..|events| - 1])
      case None => None
      case Some(s) => Step(keys, retries, s, events[|events| - 1])
  }

  // ----- What every step keeps -----

  predicate AllFailed<K, V>(calls: seq<Call<K, V>>) {
    forall j :: 0 <= j < |calls| ==> calls[j].outcome.Failure?
  }

  /** The calls a slot's result rests on: the first answer, or 1 + `retries` failures and nothing else. */
  predicate Settles<K(==), V(==)>(key: K, retries: nat, calls: seq<Call<K, V>>, result: Option<V>) {
    && (forall j :: 0 <= j < |calls| ==> calls[j].key == key)
    && match result
       case None => |calls| == 1 + retries && AllFailed(calls)
       case Some(v) =>
         && 1 <= |calls| <= 1 + retries
         && calls[|calls| - 1].outcome == Answer(v)
         && AllFailed(calls[..|calls| - 1])
  }

  predicate TaskInv<K(==), V(==)>(key: K, retries: nat, t: Task<V>, calls: seq<Call<K, V>>, slot: Option<V>) {
    match t
    case Starting => calls == [] && slot.None?
    case Retrying(n) =>
      && n <= retries && |calls| == n + 1 && AllFailed(calls) && slot.None?
      && (forall j :: 0 <= j < |calls| ==> calls[j].key == key)
    case Sent(r) => Settles(key, retries, calls, r) && slot.None?
    case Called(r) => Settles(key, retries, calls, r) && slot.None?
    case Locked(r) => Settles(key, retries, calls, r) && slot.None?
    case _ => Settles(key, retries, calls, slot)
  }

  function Unfinished<V>(tasks: seq<Task<V>>): nat {
    if tasks == [] then 0 else (if tasks[0].Finished? then 0 else 1) + Unfinished(tasks[1..])
  }

  predicate Holds<V>(t: Task<V>) {
    t.Locked? || t.Stored?
  }

  /** The mutex is held by exactly the task that is between locking and unlocking it. */
  predicate LockInv<K, V>(s: State<K, V>) {
    && (forall i :: 0 <= i < |s.tasks| ==> (Holds(s.tasks[i]) <==> s.holder == Some(i)))
    && (s.holder.Some? ==> s.holder.value < |s.tasks|)
  }

  predicate Inv<K(==), V(==)>(keys: seq<K>, retries: nat, s: State<K, V>) {
    && |s.tasks| == |s.slots| == |s.calls| == |keys|
    && TasksInv(keys, retries, s)
    && LockInv(s)
    && s.pending == Unfinished(s.tasks)
    && (s.returned ==> s.pending == 0)
  }

  lemma {:induction false} UnfinishedUpdate<V>(tasks: seq<Task<V>>, i: nat, t: Task<V>)
    requires i < |tasks|
    ensures Unfinished(tasks[i := t])
            == Unfinished(tasks) - (if tasks[i].Finished? then 0 else 1) + (if t.Finished? then 0 else 1)
  {
    if i == 0 {
      assert tasks[0 := t][1..] == tasks[1..];
    } else {
      UnfinishedUpdate(tasks[1..], i - 1, t);
      assert tasks[i := t][1..] == tasks[1..][i - 1 := t];
    }
  }

  lemma {:induction false} NoneUnfinished<V>(tasks: seq<Task<V>>)
    ensures Unfinished(tasks) == 0 <==> forall i :: 0 <= i < |tasks| ==> tasks[i].Finished?
  {
    if tasks != [] {
      NoneUnfinished(tasks[1..]);
      assert forall i :: 0 < i < |tasks| ==> tasks[i] == tasks[1..][i - 1];
    }
  }

  lemma {:induction false} AllUnfinished<V>(tasks: seq<Task<V>>)
    requires forall i :: 0 <= i < |tasks| ==> tasks[i].Starting?
    ensures Unfinished(tasks) == |tasks|
  {
    if tasks != [] {
      AllUnfinished(tasks[1..]);
    }
  }

  lemma LaunchInv<K, V>(keys: seq<K>, retries: nat)
    ensures Inv(keys, retries, Launch<K, V>(keys))
  {
    AllUnfinished(Launch<K, V>(keys).tasks);
  }

  /** The acting task keeps its own invariant. */
  lemma AdvanceKeeps<K, V>(key: K, retries: nat, t: Task<V>, a: Action<V>, calls: seq<Call<K, V>>, slot: Option<V>)
    requires TaskInv(key, retries, t, calls, slot) && Advance(retries, t, a).Some?
    ensures TaskInv(key, retries, Advance(retries, t, a).value, CallsAfter(key, calls, a), SlotAfter(slot, t, a))
  {
    var calls' := CallsAfter(key, calls, a);
    if a.AskFirst? || a.AskAgain? {
      assert calls'[..|calls'| - 1] == calls;
    }
  }

  lemma StepLock<K, V>(keys: seq<K>, retries: nat, s: State<K, V>, e: Event<V>)
    requires |s.tasks| == |s.slots| == |s.calls| == |keys|
    requires LockInv(s) && Step(keys, retries, s, e).Some?
    ensures LockInv(Step(keys, retries, s, e).value)
  {
  }

  predicate TasksInv<K(==), V(==)>(keys: seq<K>, retries: nat, s: State<K, V>)
    requires |s.tasks| == |s.slots| == |s.calls| == |keys|
  {
    forall i :: 0 <= i < |keys| ==> TaskInv(keys[i], retries, s.tasks[i], s.calls[i], s.slots[i])
  }

  /** The other tasks are not touched. */
  lemma StepTasks<K, V>(keys: seq<K>, retries: nat, s: State<K, V>, e: Event<V>)
    requires |s.tasks| == |s.slots| == |s.calls| == |keys|
    requires TasksInv(keys, retries, s) && Step(keys, retries, s, e).Some?
    ensures TasksInv(keys, retries, Step(keys, retries, s, e).value)
  {
    hide TaskInv, Advance, CallsAfter, SlotAfter;
    if e.At? {
      var i := e.i;
      assert TaskInv(keys[i], retries, s.tasks[i], s.calls[i], s.slots[i]);
      AdvanceKeeps(keys[i], retries, s.tasks[i], e.action, s.calls[i], s.slots[i]);
    }
  }

  lemma StepCounts<K, V>(keys: seq<K>, retries: nat, s: State<K, V>, e: Event<V>)
    requires |s.tasks| == |s.slots| == |s.calls| == |keys| && Step(keys, retries, s, e).Some?
    requires s.pending == Unfinished(s.tasks) && (s.returned ==> s.pending == 0)
    ensures var s' := Step(keys, retries, s, e).value;
            s'.pending == Unfinished(s'.tasks) && (s'.returned ==> s'.pending == 0)
  {
    if e.At? {
      UnfinishedUpdate(s.tasks, e.i, Advance(retries, s.tasks[e.i], e.action).value);
      if s.returned {
        NoneUnfinished(s.tasks);
      }
    }
  }

  lemma StepInv<K, V>(keys: seq<K>, retries: nat, s: State<K, V>, e: Event<V>)
    requires Inv(keys, retries, s) && Step(keys, retries, s, e).Some?
    ensures Inv(keys, retries, Step(keys, retries, s, e).value)
  {
    StepLock(keys, retries, s, e);
    StepTasks(keys, retries, s, e);
    StepCounts(keys, retries, s, e);
    hide TaskInv, LockInv, Unfinished;
  }

  lemma {:induction false} RunInv<K, V>(keys: seq<K>, retries: nat, events: seq<Event<V>>)
    requires Run<K, V>(keys, retries, events).Some?
    ensures Inv(keys, retries, Run<K, V>(keys, retries, events).value)
  {
    if events == [] {
      LaunchInv<K, V>(keys, retries);
    } else {
      var before := events[..|events| - 1];
      RunInv<K, V>(keys, retries, before);
      StepInv(keys, retries, Run<K, V>(keys, retries, before).value, events[|events| - 1]);
    }
  }

  // ----- What the caller gets -----

  /**
   * For every interleaving and every failure pattern: when the wait returns, slot `i` holds the first
   * answer to key `i`, or nil after exactly 1 + `retries` failed calls for key `i`; at most one task was
   * ever inside the mutex; and from then on no event can happen, so nothing is written afterwards.
   */
  lemma ReturnedSlotsAreSettled<K, V>(keys: seq<K>, retries: nat, events: seq<Event<V>>)
    requires Run<K, V>(keys, retries, events).Some?
    ensures var s := Run<K, V>(keys, retries, events).value;
            && s.pending >= 0
            && (forall i, j :: 0 <= i < |keys| && 0 <= j < |keys| && Holds(s.tasks[i]) && Holds(s.tasks[j]) ==> i == j)
            && (s.returned ==>
                  && (forall i :: 0 <= i < |keys| ==> Settles(keys[i], retries, s.calls[i], s.slots[i]))
                  && (forall e :: Step(keys, retries, s, e).None?))
  {
    RunInv<K, V>(keys, retries, events);
    var s := Run<K, V>(keys, retries, events).value;
    NoneUnfinished(s.tasks);
    if s.returned {
      forall i | 0 <= i < |keys| ensures Settles(keys[i], retries, s.calls[i], s.slots[i]) {
        assert TaskInv(keys[i], retries, s.tasks[i], s.calls[i], s.slots[i]);
      }
    }
  }

  function Signals<V(==)>(events: seq<Event<V>>, i: nat): nat {
    if events == [] then 0
    else Signals(events[..|events| - 1], i) +
         (if events[|events| - 1] == At(i, Signal) then 1 else 0)
  }

  lemma StepSignals<K, V>(keys: seq<K>, retries: nat, s: State<K, V>, e: Event<V>, i: nat)
    requires |s.tasks| == |s.slots| == |s.calls| == |keys| && i < |keys|
    requires Step(keys, retries, s, e).Some?
    ensures Step(keys, retries, s, e).value.tasks[i].Finished? <==> s.tasks[i].Finished? || e == At(i, Signal)
    ensures s.tasks[i].Finished? ==> e != At(i, Signal)
  {
  }

  lemma {:induction false} SignalsFinish<K, V>(keys: seq<K>, retries: nat, events: seq<Event<V>>, i: nat)
    requires Run<K, V>(keys, retries, events).Some? && i < |keys|
    ensures Signals(events, i) == if Run<K, V>(keys, retries, events).value.tasks[i].Finished? then 1 else 0
  {
    if events != [] {
      var before := events[..|events| - 1];
      SignalsFinish<K, V>(keys, retries, before, i);
      StepSignals(keys, retries, Run<K, V>(keys, retries, before).value, events[|events| - 1], i);
    }
  }

  /** Every slot signals `Done` at most once, and exactly once by the time the wait returns. */
  lemma DoneExactlyOnce<K, V>(keys: seq<K>, retries: nat, events: seq<Event<V>>, i: nat)
    requires Run<K, V>(keys, retries, events).Some? && i < |keys|
    ensures Signals(events, i) <= 1
    ensures Run<K, V>(keys, retries, events).value.returned ==> Signals(events, i) == 1
  {
    RunInv<K, V>(keys, retries, events);
    NoneUnfinished(Run<K, V>(keys, retries, events).value.tasks);
    SignalsFinish<K, V>(keys, retries, events, i);
  }

  // ----- Every schedule ends, and ends returned -----

  function Remaining<V>(retries: nat, t: Task<V>): int {
    match t
    case Starting => retries + 8
    case Retrying(n) => retries - n + 7
    case Sent(_) => 6
    case Called(_) => 5
    case Locked(_) => 4
    case Stored => 3
    case Unlocked => 2
    case Finished => 0
  }

  function TotalRemaining<V>(retries: nat, tasks: seq<Task<V>>): int {
    if tasks == [] then 0 else Remaining(retries, tasks[0]) + TotalRemaining(retries, tasks[1..])
  }

  lemma {:induction false} TotalUpdate<V>(retries: nat, tasks: seq<Task<V>>, i: nat, t: Task<V>)
    requires i < |tasks|
    ensures TotalRemaining(retries, tasks[i := t])
            == TotalRemaining(retries, tasks) - Remaining(retries, tasks[i]) + Remaining(retries, t)
  {
    if i == 0 {
      assert tasks[0 := t][1..] == tasks[1..];
    } else {
      TotalUpdate(retries, tasks[1..], i - 1, t);
      assert tasks[i := t][1..] == tasks[1..][i - 1 := t];
    }
  }

  lemma {:induction false} TotalAtLaunch<V>(retries: nat, tasks: seq<Task<V>>)
    requires forall i :: 0 <= i < |tasks| ==> tasks[i].Starting?
    ensures TotalRemaining(retries, tasks) == |tasks| * (retries + 8)
  {
    if tasks != [] {
      TotalAtLaunch(retries, tasks[1..]);
      assert |tasks| * (retries + 8) == |tasks[1..]| * (retries + 8) + (retries + 8);
    }
  }

  lemma {:induction false} TotalIsNatural<V>(retries: nat, tasks: seq<Task<V>>)
    requires forall i :: 0 <= i < |tasks| ==> tasks[i].Retrying? ==> tasks[i].failures <= retries
    ensures TotalRemaining(retries, tasks) >= 0
  {
    if tasks != [] {
      assert forall i :: 0 <= i < |tasks| - 1 ==> tasks[1..][i] == tasks[i + 1];
      TotalIsNatural(retries, tasks[1..]);
    }
  }

  lemma StepShrinks<K, V>(keys: seq<K>, retries: nat, s: State<K, V>, e: Event<V>)
    requires |s.tasks| == |s.slots| == |s.calls| == |keys| && Step(keys, retries, s, e).Some?
    ensures Work(retries, Step(keys, retries, s, e).value) < Work(retries, s)
  {
    if e.At? {
      TotalUpdate(retries, s.tasks, e.i, Advance(retries, s.tasks[e.i], e.action).value);
    }
  }

  /** An upper bound on the steps still to come. */
  function Work<K, V>(retries: nat, s: State<K, V>): int {
    TotalRemaining(retries, s.tasks) + (if s.returned then 0 else 1)
  }

  lemma {:induction false} RunIsShort<K, V>(keys: seq<K>, retries: nat, events: seq<Event<V>>)
    requires Run<K, V>(keys, retries, events).Some?
    ensures |events| + Work(retries, Run<K, V>(keys, retries, events).value) <= |keys| * (retries + 8) + 1
  {
    if events == [] {
      TotalAtLaunch(retries, Launch<K, V>(keys).tasks);
    } else {
      var before := events[..|events| - 1];
      RunIsShort<K, V>(keys, retries, before);
      StepShrinks(keys, retries, Run<K, V>(keys, retries, before).value, events[|events| - 1]);
    }
  }

  /** The next action of a task that is not finished. */
  function NextAction<V>(retries: nat, t: Task<V>): Action<V> {
    match t
    case Starting => AskFirst(Failure)
    case Retrying(n) => if n < retries then AskAgain(Failure) else GiveUp
    case Sent(_) => Callback
    case Called(_) => Lock
    case Locked(_) => Store
    case Stored => Unlock
    case _ => Signal
  }

  lemma NoDeadlock<K, V>(keys: seq<K>, retries: nat, s: State<K, V>)
    requires Inv(keys, retries, s) && !s.returned
    ensures exists e :: Step(keys, retries, s, e).Some?
  {
    NoneUnfinished(s.tasks);
    if s.pending == 0 {
      assert Step(keys, retries, s, Return).Some?;
    } else {
      var i :| 0 <= i < |keys| && !s.tasks[i].Finished?;
      var k := if s.holder.Some? then s.holder.value else i;
      assert TaskInv(keys[k], retries, s.tasks[k], s.calls[k], s.slots[k]);
      assert Step(keys, retries, s, At(k, NextAction(retries, s.tasks[k]))).Some?;
    }
  }

  /**
   * No schedule runs for more than |keys| * (retries + 8) + 1 steps, and one that cannot be extended has
   * returned: there is no deadlock, whoever holds the mutex.
   */
  lemma EveryScheduleReturns<K, V>(keys: seq<K>, retries: nat, events: seq<Event<V>>)
    requires Run<K, V>(keys, retries, events).Some?
    ensures |events| <= |keys| * (retries + 8) + 1
    ensures var s := Run<K, V>(keys, retries, events).value;
            (forall e :: Step(keys, retries, s, e).None?) <==> s.returned
  {
    RunIsShort<K, V>(keys, retries, events);
    RunInv<K, V>(keys, retries, events);
    var s := Run<K, V>(keys, retries, events).value;
    assert forall i :: 0 <= i < |keys| ==> TaskInv(keys[i], retries, s.tasks[i], s.calls[i], s.slots[i]);
    TotalIsNatural(retries, s.tasks);
    ReturnedSlotsAreSettled<K, V>(keys, retries, events);
    if !s.returned {
      NoDeadlock(keys, retries, s);
    }
  }

  // ----- The slots of a height range -----

  /** `Nothing`: a nil slice. `Panics`: `make` refuses the length. */
  datatype Launched = Nothing | Slots(heights: seq<Uint64>) | Panics

  /**
   * `diff := toHeight - fromHeight + 1` and one slot per `fromHeight + i`, all in uint64 arithmetic; `longest` is the
   * largest length the runtime's `make` accepts.
   */
  function Heights(from: Uint64, to: Uint64, longest: Uint64): Launched {
    var diff := Add64(Sub64(to, from), 1);
    if diff < 1 then Nothing
    else if diff > longest then Panics
    else Slots(seq(diff, i requires 0 <= i < diff => Add64(from, i)))
  }

  /** How many slots are asked for: an empty range wraps around. */
  function Asked(from: Uint64, to: Uint64): nat {
    if from <= to then to - from + 1 else TWO_TO_THE_64 - (from - to - 1)
  }

  /**
   * The slots are the heights of the inclusive range, in order, exactly when the range is not empty and `make` accepts
   * its length. There are none exactly when `from` follows `to`, also around the end of uint64. Every other range
   * asks for a wrapped or too large number of slots, and panics exactly when that is more than `make` accepts.
   */
  lemma HeightsCoverRange(from: Uint64, to: Uint64, longest: Uint64)
    ensures var launched := Heights(from, to, longest);
            && (launched.Nothing? <==> from == Add64(to, 1))
            && (launched.Panics? <==> from != Add64(to, 1) && Asked(from, to) > longest)
            && (from <= to && to - from + 1 <= longest <==>
                  launched.Slots? && |launched.heights| == to - from + 1
                  && forall i :: 0 <= i <= to - from ==> launched.heights[i] == from + i)
  {
    Wrap64(to, from);
    Wrap64(to, 1);
    Wrap64(Sub64(to, from), 1);
    if from <= to {
      forall i: nat | i <= to - from
        ensures Add64(from, i) == from + i
      {
        Wrap64(from, i);
      }
    }
    hide Add64, Sub64;
  }

  // ----- The retry loop and its sleeps -----

  /** Total sleep after the first `n` failed attempts that are followed by another. */
  function SleptAfter(n: nat, pause: nat, pauseTime: nat, backoff: nat): nat
    requires pause > 0
  {
    if n == 0 then 0
    else SleptAfter(n - 1, pause, pauseTime, backoff) + backoff * n + (if n % pause == 0 then pauseTime else 0)
  }

  lemma NextMultiple(n: nat, pause: nat)
    requires pause > 0
    ensures (n + 1) / pause == n / pause + if (n + 1) % pause == 0 then 1 else 0
  {
    var q, r := n / pause, n % pause;
    assert n == q * pause + r && r < pause;
    if r + 1 == pause {
      assert n + 1 == (q + 1) * pause;
      DivisionIs(n + 1, pause, q + 1, 0);
    } else {
      DivisionIs(n + 1, pause, q, r + 1);
    }
  }

  lemma DivisionIs(n: nat, d: nat, q: nat, r: nat)
    requires r < d && n == q * d + r
    ensures n / d == q && n % d == r
  {
    var p := n / d;
    assert n == p * d + n % d;
    assert (p - q) * d == r - n % d;
    MultipleGrows(p - q, d);
  }

  lemma MultipleGrows(k: int, d: nat)
    ensures k >= 1 ==> k * d >= d
    ensures k <= -1 ==> k * d <= 0 - d
  {
  }

  /** The sleeps in closed form: the back-off grows by its unit each time, and every `pause` failures add a pause. */
  lemma {:induction false} SleptExactly(n: nat, pause: nat, pauseTime: nat, backoff: nat)
    requires pause > 0
    ensures 2 * SleptAfter(n, pause, pauseTime, backoff) == backoff * (n * (n + 1)) + 2 * (pauseTime * (n / pause))
  {
    if n > 0 {
      SleptExactly(n - 1, pause, pauseTime, backoff);
      NextMultiple(n - 1, pause);
      OneMoreSleep(n, backoff);
      OneMorePause(pauseTime, (n - 1) / pause);
    } else {
      assert 0 / pause == 0;
    }
  }

  lemma OneMoreSleep(n: nat, backoff: nat)
    requires n > 0
    ensures backoff * (n * (n + 1)) == backoff * ((n - 1) * n) + 2 * (backoff * n)
  {
    assert n * (n + 1) == (n - 1) * n + 2 * n;
  }

  lemma OneMorePause(pauseTime: nat, k: nat)
    ensures pauseTime * (k + 1) == pauseTime * k + pauseTime
  {
  }

  /**
   * `GenericRetryQuery`'s loop; `fn(j)` is the outcome of attempt `j`. A count of zero or less makes no
   * attempt at all. The last failure is not followed by a sleep.
   */
  method GenericRetryQuery<V>(retryAmount: int, pause: nat, pauseTime: nat, backoff: nat, fn: nat -> Outcome<V>)
    returns (result: Option<V>, attempts: nat, slept: nat)
    requires pause > 0
    ensures result.None? <==> forall j :: 0 <= j < retryAmount ==> fn(j).Failure?
    ensures result.None? ==> attempts == Max(0, retryAmount)
    ensures result.Some? ==> 1 <= attempts <= retryAmount && fn(attempts - 1) == Answer(result.value)
    ensures forall j :: 0 <= j < attempts - 1 ==> fn(j).Failure?
    ensures slept == SleptAfter(Max(0, attempts - 1), pause, pauseTime, backoff)
  {
    attempts, slept, result := 0, 0, None;
    var i := 0;
    while i < retryAmount
      invariant 0 <= i <= Max(0, retryAmount) && attempts == i
      invariant forall j :: 0 <= j < i ==> fn(j).Failure?
      invariant slept == SleptAfter(if i == retryAmount then Max(0, i - 1) else i, pause, pauseTime, backoff)
    {
      attempts := attempts + 1;
      match fn(i) {
        case Answer(v) =>
          result := Some(v);
          return;
        case Failure =>
      }
      if i < retryAmount - 1 {
        slept := slept + backoff * (i + 1);
        if (i + 1) % pause == 0 {
          slept := slept + pauseTime;
        }
      }
      i := i + 1;
    }
  }
}
