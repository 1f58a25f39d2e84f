/**
 * The REST API's request limiter: a counter per caller in Valkey, incremented
 * once per request, with a time to live set by EXPIRE ... NX. Requests run
 * concurrently; Valkey executes single commands, so a run is an interleaving of
 * commands, of answers and of time passing. Times are nanoseconds.
 */
module FixedWindow {
  import opened Results

  const SECOND: nat := 1_000_000_000

  /** `int64(window.Seconds())`: the time to live is cut down to whole seconds. */
  function Ttl(window: nat): nat {
    window / SECOND * SECOND
  }

  /** The counter of one caller as Valkey stores it. */
  datatype Cell = Absent | Present(count: nat, deadline: Option<nat>)

  /** What a command sees: a counter past its deadline is gone. */
  function Seen(c: Cell, now: nat): Cell {
    if c.Present? && c.deadline.Some? && c.deadline.value <= now then Absent else c
  }

  function Incremented(c: Cell): Cell {
    match c
    case Absent => Present(1, None)
    case Present(count, deadline) => Present(count + 1, deadline)
  }

  /** EXPIRE key seconds NX: nothing happens to an absent key or a running window. */
  function ExpireNX(c: Cell, now: nat, ttl: nat): Cell {
    if c.Present? && c.deadline.None? then c.(deadline := Some(now + ttl)) else c
  }

  /**
   * History of an applied increment: the lifetime of the key it fell into, the
   * count it produced and when it happened.
   */
  datatype Mark = Mark(life: nat, count: nat, at: nat)

  /** Where one request stands in the middleware. */
  datatype Request =
    | Fresh
    | Counted(mark: Mark)    // the increment was answered
    | Windowed(mark: Mark)   // EXPIRE NX was answered or failed
    | Passed(mark: Mark, forwarded: nat)  // within the limit, handed on at that instant
    | Refused(mark: Mark)    // 429
    | Lost(mark: Mark)       // incremented, but the reply was an error: forwarded
    | Dropped                // not incremented, or not yet, error: forwarded
  {
    predicate Marked() {
      !Fresh? && !Dropped?
    }
  }

  /** `births[g]` is when lifetime g of the key began. */
  datatype State = State(now: nat, cell: Cell, births: seq<nat>, requests: seq<Request>)

  datatype Event =
    | Tick(duration: nat)
    | Incr(id: nat, applied: bool, answered: bool)
    | Expire(id: nat, applied: bool)
    | Answer(id: nat)

  datatype Config = Config(window: nat, limit: int)

  function Start(n: nat): State {
    State(0, Absent, [], seq(n, _ => Fresh))
  }

  /** The state after an increment that Valkey applied, and the mark it leaves. */
  function Applied(s: State): (State, Mark) {
    var cell := Seen(s.cell, s.now);
    var births := if cell.Absent? then s.births + [s.now] else s.births;
    (s.(cell := Incremented(cell), births := births),
     Mark(if |births| == 0 then 0 else |births| - 1, Incremented(cell).count, s.now))
  }

  function Become(s: State, id: nat, r: Request): State
    requires id < |s.requests|
  {
    s.(requests := s.requests[id := r])
  }

  /**
   * One event; an event that its request is not ready for changes nothing. Valkey may execute a command after the
   * client gave up on it: an increment whose request was forwarded as Dropped still counts, and an EXPIRE takes
   * effect in any state.
   */
  function Step(cfg: Config, s: State, e: Event): State {
    match e
    case Tick(duration) => s.(now := s.now + duration)
    case Incr(id, applied, answered) =>
      if id < |s.requests| && (s.requests[id].Fresh? || s.requests[id].Dropped?) then
        if applied then
          var (t, mark) := Applied(s);
          Become(t, id, if s.requests[id].Fresh? && answered then Counted(mark) else Lost(mark))
        else
          Become(s, id, Dropped)
      else s
    case Expire(id, applied) =>
      var t := if applied then s.(cell := ExpireNX(Seen(s.cell, s.now), s.now, Ttl(cfg.window))) else s;
      if id < |s.requests| && s.requests[id].Counted? then Become(t, id, Windowed(s.requests[id].mark)) else t
    case Answer(id) =>
      if id < |s.requests| && s.requests[id].Windowed? then
        var mark := s.requests[id].mark;
        Become(s, id, if mark.count > cfg.limit then Refused(mark) else Passed(mark, s.now))
      else s
  }

  function Run(cfg: Config, s: State, es: seq<Event>): State
    decreases |es|
  {
    if es == [] then s else Run(cfg, Step(cfg, s, es[0]), es[1..])
  }

  lemma {:induction false} RunAppend(cfg: Config, s: State, es: seq<Event>, fs: seq<Event>)
    ensures Run(cfg, s, es + fs) == Run(cfg, Run(cfg, s, es), fs)
    decreases |es|
  {
    if es == [] {
      assert es + fs == fs;
    } else {
      assert (es + fs)[1..] == es[1..] + fs;
      RunAppend(cfg, Step(cfg, s, es[0]), es[1..], fs);
    }
  }

  // ----- What every step keeps -----

  /** Lifetimes follow each other at least one time to live apart. */
  predicate Spaced(births: seq<nat>, ttl: nat) {
    forall g, h :: 0 <= g < h < |births| ==> births[g] + ttl <= births[h]
  }

  predicate CellInv(ttl: nat, s: State) {
    && Spaced(s.births, ttl)
    && (forall g :: 0 <= g < |s.births| ==> s.births[g] <= s.now)
    && (s.cell.Present? ==> |s.births| > 0 && s.cell.count > 0)
    && (s.cell.Present? && s.cell.deadline.Some? ==> s.births[|s.births| - 1] + ttl <= s.cell.deadline.value)
    && (s.cell.Absent? && |s.births| > 0 ==> s.births[|s.births| - 1] + ttl <= s.now)
  }

  /** A mark lies inside its lifetime, and its lifetime's first mark began it. */
  predicate MarkInv(s: State, m: Mark) {
    && m.life < |s.births|
    && m.count > 0
    && s.births[m.life] <= m.at <= s.now
    && (m.count == 1 ==> m.at == s.births[m.life])
    && (m.life == |s.births| - 1 && s.cell.Present? ==> m.count <= s.cell.count)
  }

  /** An increment precedes the end of its lifetime. */
  predicate BeforeNext(s: State, m: Mark) {
    && (forall h :: m.life < h < |s.births| ==> m.at < s.births[h])
    && (m.life == |s.births| - 1 && s.cell.Absent? ==> m.at < s.now)
    && (m.life == |s.births| - 1 && s.cell.Present? && s.cell.deadline.Some? ==> m.at < s.cell.deadline.value)
  }

  predicate MarksInv(s: State) {
    forall i :: 0 <= i < |s.requests| && s.requests[i].Marked() ==> MarkInv(s, s.requests[i].mark)
  }

  predicate AllBeforeNext(s: State) {
    forall i :: 0 <= i < |s.requests| && s.requests[i].Marked() ==> BeforeNext(s, s.requests[i].mark)
  }

  /** No two increments of one lifetime produced the same count. */
  predicate CountsDistinct(s: State) {
    forall i, j :: 0 <= i < j < |s.requests| && s.requests[i].Marked() && s.requests[j].Marked()
      ==> s.requests[i].mark.life == s.requests[j].mark.life ==> s.requests[i].mark.count != s.requests[j].mark.count
  }

  function Current(s: State): int {
    |s.births| - 1
  }

  predicate Holds(s: State, life: int, count: int) {
    exists j :: 0 <= j < |s.requests| && s.requests[j].Marked()
      && s.requests[j].mark.life == life && s.requests[j].mark.count == count
  }

  /** Counts are handed out without gaps. */
  predicate NoGaps(s: State) {
    && (forall i, c :: 0 <= i < |s.requests| && s.requests[i].Marked() && 1 <= c <= s.requests[i].mark.count
          ==> Holds(s, s.requests[i].mark.life, c))
    && (s.cell.Present? ==> forall c :: 1 <= c <= s.cell.count ==> Holds(s, Current(s), c))
  }

  predicate Answered(cfg: Config, s: State) {
    forall i :: 0 <= i < |s.requests| ==>
      && (s.requests[i].Passed? ==>
            s.requests[i].mark.count <= cfg.limit && s.requests[i].mark.at <= s.requests[i].forwarded)
      && (s.requests[i].Refused? ==> s.requests[i].mark.count > cfg.limit)
  }

  predicate Inv(cfg: Config, s: State) {
    && CellInv(Ttl(cfg.window), s)
    && MarksInv(s)
    && (Ttl(cfg.window) > 0 ==> AllBeforeNext(s))
    && CountsDistinct(s)
    && NoGaps(s)
    && Answered(cfg, s)
  }

  lemma StartKeepsInv(cfg: Config, n: nat)
    ensures Inv(cfg, Start(n))
  {
  }

  /** Holds depends on the requests' marks only, and marks stay. */
  lemma HoldsStay(s: State, t: State, life: int, c: int)
    requires |t.requests| == |s.requests|
    requires forall i :: 0 <= i < |s.requests| && s.requests[i].Marked() ==>
               t.requests[i].Marked() && t.requests[i].mark == s.requests[i].mark
    requires Holds(s, life, c)
    ensures Holds(t, life, c)
  {
    var j :| 0 <= j < |s.requests| && s.requests[j].Marked()
             && s.requests[j].mark.life == life && s.requests[j].mark.count == c;
    assert t.requests[j].Marked();
  }

  lemma NoGapsStay(s: State, t: State)
    requires NoGaps(s)
    requires |t.requests| == |s.requests| && t.births == s.births
    requires forall i :: 0 <= i < |s.requests| ==>
               && s.requests[i].Marked() == t.requests[i].Marked()
               && (s.requests[i].Marked() ==> t.requests[i].mark == s.requests[i].mark)
    requires t.cell.Present? ==> s.cell.Present? && s.cell.count == t.cell.count
    ensures NoGaps(t)
  {
    forall i, c | 0 <= i < |t.requests| && t.requests[i].Marked() && 1 <= c <= t.requests[i].mark.count
      ensures Holds(t, t.requests[i].mark.life, c)
    {
      assert s.requests[i].Marked();
      HoldsStay(s, t, s.requests[i].mark.life, c);
    }
    if t.cell.Present? {
      forall c | 1 <= c <= t.cell.count
        ensures Holds(t, Current(t), c)
      {
        HoldsStay(s, t, Current(s), c);
      }
    }
  }

  lemma TickKeepsInv(cfg: Config, s: State, d: nat)
    requires Inv(cfg, s)
    ensures Inv(cfg, s.(now := s.now + d))
  {
    NoGapsStay(s, s.(now := s.now + d));
    hide NoGaps;
  }

  /** An answer or an EXPIRE moves a request on but leaves its mark. */
  lemma AdvanceKeepsInv(cfg: Config, s: State, id: nat, r: Request)
    requires Inv(cfg, s) && id < |s.requests|
    requires s.requests[id].Marked() && r.Marked() && r.mark == s.requests[id].mark
    requires r.Passed? ==> r.mark.count <= cfg.limit && r.mark.at <= r.forwarded
    requires r.Refused? ==> r.mark.count > cfg.limit
    ensures Inv(cfg, Become(s, id, r))
  {
    NoGapsStay(s, Become(s, id, r));
    hide NoGaps;
  }

  lemma ExpireKeepsInv(cfg: Config, s: State)
    requires Inv(cfg, s)
    ensures Inv(cfg, s.(cell := ExpireNX(Seen(s.cell, s.now), s.now, Ttl(cfg.window))))
  {
    NoGapsStay(s, s.(cell := ExpireNX(Seen(s.cell, s.now), s.now, Ttl(cfg.window))));
    hide NoGaps;
  }

  lemma DropKeepsInv(cfg: Config, s: State, id: nat)
    requires Inv(cfg, s) && id < |s.requests| && !s.requests[id].Marked()
    ensures Inv(cfg, Become(s, id, Dropped))
  {
    NoGapsStay(s, Become(s, id, Dropped));
    hide NoGaps;
  }

  lemma IncrKeepsCell(cfg: Config, s: State)
    requires Inv(cfg, s)
    ensures var (t, mark) := Applied(s);
            && CellInv(Ttl(cfg.window), t)
            && MarkInv(t, mark)
            && (Ttl(cfg.window) > 0 ==> BeforeNext(t, mark))
  {
    hide NoGaps, CountsDistinct, AllBeforeNext, MarksInv, Answered;
  }

  lemma IncrKeepsMark(cfg: Config, s: State, m: Mark)
    requires Inv(cfg, s) && MarkInv(s, m)
    ensures var (t, mark) := Applied(s); MarkInv(t, m) && (m.life == mark.life ==> m.count < mark.count)
    ensures Ttl(cfg.window) > 0 && BeforeNext(s, m) ==> BeforeNext(Applied(s).0, m)
  {
    hide NoGaps, CountsDistinct, AllBeforeNext, MarksInv, Answered;
  }

  lemma IncrKeepsMarks(cfg: Config, s: State, id: nat, r: Request)
    requires Inv(cfg, s) && id < |s.requests| && !s.requests[id].Marked()
    requires r.Counted? || r.Lost?
    requires r.mark == Applied(s).1
    ensures var t := Become(Applied(s).0, id, r);
            CellInv(Ttl(cfg.window), t) && MarksInv(t) && CountsDistinct(t) && Answered(cfg, t)
    ensures var t := Become(Applied(s).0, id, r); Ttl(cfg.window) > 0 ==> AllBeforeNext(t)
  {
    var u := Applied(s).0;
    var t := Become(u, id, r);
    IncrKeepsCell(cfg, s);
    forall i | 0 <= i < |s.requests| && s.requests[i].Marked()
      ensures MarkInv(u, s.requests[i].mark)
      ensures s.requests[i].mark.life == r.mark.life ==> s.requests[i].mark.count < r.mark.count
      ensures Ttl(cfg.window) > 0 ==> BeforeNext(u, s.requests[i].mark)
    {
      IncrKeepsMark(cfg, s, s.requests[i].mark);
    }
    hide NoGaps, Applied;
    MarksOver(cfg, s, u, id, r);
  }

  /** The request table after `id` becomes `r`, once every single mark is fine in `u`. */
  lemma MarksOver(cfg: Config, s: State, u: State, id: nat, r: Request)
    requires id < |s.requests| && u.requests == s.requests && !s.requests[id].Marked()
    requires CountsDistinct(s) && Answered(cfg, s)
    requires (r.Counted? || r.Lost?) && MarkInv(u, r.mark) && (Ttl(cfg.window) > 0 ==> BeforeNext(u, r.mark))
    requires forall i :: 0 <= i < |s.requests| && s.requests[i].Marked() ==>
               && MarkInv(u, s.requests[i].mark)
               && (s.requests[i].mark.life == r.mark.life ==> s.requests[i].mark.count < r.mark.count)
               && (Ttl(cfg.window) > 0 ==> BeforeNext(u, s.requests[i].mark))
    ensures var t := Become(u, id, r); MarksInv(t) && CountsDistinct(t) && Answered(cfg, t)
    ensures var t := Become(u, id, r); Ttl(cfg.window) > 0 ==> AllBeforeNext(t)
  {
    var t := Become(u, id, r);
    forall m: Mark
      ensures MarkInv(t, m) == MarkInv(u, m) && BeforeNext(t, m) == BeforeNext(u, m)
    {
    }
    hide MarkInv, BeforeNext;
  }

  lemma IncrKeepsNoGaps(cfg: Config, s: State, id: nat, r: Request)
    requires NoGaps(s) && CellInv(Ttl(cfg.window), s) && id < |s.requests| && !s.requests[id].Marked()
    requires r.Counted? || r.Lost?
    requires r.mark == Applied(s).1
    ensures NoGaps(Become(Applied(s).0, id, r))
  {
    var t := Become(Applied(s).0, id, r);
    assert t.requests[id] == r;
    forall c | 1 <= c <= r.mark.count
      ensures Holds(t, Current(t), c)
    {
      if c < r.mark.count {
        assert Current(t) == Current(s);
        HoldsStay(s, t, Current(s), c);
      }
    }
    forall i, c | 0 <= i < |t.requests| && t.requests[i].Marked() && 1 <= c <= t.requests[i].mark.count
      ensures Holds(t, t.requests[i].mark.life, c)
    {
      if i != id {
        assert s.requests[i].Marked();
        HoldsStay(s, t, s.requests[i].mark.life, c);
      } else {
        assert Current(t) == r.mark.life && Holds(t, Current(t), c);
      }
    }
  }

  lemma StepKeepsInv(cfg: Config, s: State, e: Event)
    requires Inv(cfg, s)
    ensures Inv(cfg, Step(cfg, s, e))
  {
    match e
    case Tick(d) => TickKeepsInv(cfg, s, d);
    case Incr(id, applied, answered) =>
      if id < |s.requests| && (s.requests[id].Fresh? || s.requests[id].Dropped?) {
        if applied {
          var r := if s.requests[id].Fresh? && answered then Counted(Applied(s).1) else Lost(Applied(s).1);
          IncrKeepsMarks(cfg, s, id, r);
          IncrKeepsNoGaps(cfg, s, id, r);
        } else {
          DropKeepsInv(cfg, s, id);
        }
      }
    case Expire(id, applied) =>
      ExpireKeepsInv(cfg, s);
      var t := if applied then s.(cell := ExpireNX(Seen(s.cell, s.now), s.now, Ttl(cfg.window))) else s;
      if id < |s.requests| && s.requests[id].Counted? {
        AdvanceKeepsInv(cfg, t, id, Windowed(s.requests[id].mark));
      }
    case Answer(id) =>
      if id < |s.requests| && s.requests[id].Windowed? {
        var mark := s.requests[id].mark;
        AdvanceKeepsInv(cfg, s, id, if mark.count > cfg.limit then Refused(mark) else Passed(mark, s.now));
      }
  }

  lemma {:induction false} RunKeepsInv(cfg: Config, s: State, es: seq<Event>)
    requires Inv(cfg, s)
    ensures Inv(cfg, Run(cfg, s, es))
    decreases |es|
  {
    if es != [] {
      StepKeepsInv(cfg, s, es[0]);
      RunKeepsInv(cfg, Step(cfg, s, es[0]), es[1..]);
    }
  }

  // ----- What a run guarantees -----

  function PassedOfLife(s: State, life: nat): set<nat> {
    set i: nat | i < |s.requests| && s.requests[i].Passed? && s.requests[i].mark.life == life
  }

  lemma {:induction false} InjectiveBound(m: map<nat, int>, n: nat)
    requires forall i :: i in m ==> 0 < m[i] <= n
    requires forall i, j :: i in m && j in m && m[i] == m[j] ==> i == j
    ensures |m.Keys| <= n
    decreases n
  {
    if m.Keys != {} {
      if k :| k in m && m[k] == n {
        InjectiveBound(m - {k}, n - 1);
        assert m.Keys == (m - {k}).Keys + {k};
      } else {
        InjectiveBound(m, n - 1);
      }
    }
  }

  /** Distinct counts in 1..n: at most n of them. */
  lemma CountBound(s: State, life: nat, chosen: set<nat>, n: nat)
    requires CountsDistinct(s)
    requires forall i <- chosen :: i < |s.requests| && s.requests[i].Marked()
               && s.requests[i].mark.life == life && 0 < s.requests[i].mark.count <= n
    ensures |chosen| <= n
  {
    var counts := map i | i in chosen :: s.requests[i].mark.count;
    assert counts.Keys == chosen;
    forall i, j | i in counts && j in counts && counts[i] == counts[j]
      ensures i == j
    {
    }
    InjectiveBound(counts, n);
  }

  /** Every lifetime of the key forwards at most `limit` requests, in every run. */
  lemma LifetimeBound(cfg: Config, n: nat, es: seq<Event>, life: nat)
    ensures |PassedOfLife(Run(cfg, Start(n), es), life)| <= Max(cfg.limit, 0)
  {
    StartKeepsInv(cfg, n);
    RunKeepsInv(cfg, Start(n), es);
    var s := Run(cfg, Start(n), es);
    CountBound(s, life, PassedOfLife(s, life), Max(cfg.limit, 0));
  }

  /** A request is refused only when its lifetime already counted `limit` others. */
  lemma RefusedOnlyWhenSpent(cfg: Config, n: nat, es: seq<Event>, i: nat, c: int)
    requires i < n
    requires |Run(cfg, Start(n), es).requests| == n && Run(cfg, Start(n), es).requests[i].Refused?
    requires 1 <= c <= cfg.limit
    ensures Holds(Run(cfg, Start(n), es), Run(cfg, Start(n), es).requests[i].mark.life, c)
    ensures c < Run(cfg, Start(n), es).requests[i].mark.count
  {
    StartKeepsInv(cfg, n);
    RunKeepsInv(cfg, Start(n), es);
  }

  /**
   * A running window is never moved: until its deadline, whatever the requests
   * do, the key keeps that deadline and its lifetime; each increment adds to it.
   */
  lemma {:induction false} WindowNeverMoves(cfg: Config, s: State, es: seq<Event>)
    requires s.cell.Present? && s.cell.deadline.Some? && s.now < s.cell.deadline.value
    ensures s.now <= Run(cfg, s, es).now
    ensures Run(cfg, s, es).now < s.cell.deadline.value ==>
              && Run(cfg, s, es).cell.Present?
              && Run(cfg, s, es).cell.deadline == s.cell.deadline
              && Run(cfg, s, es).cell.count >= s.cell.count
              && Run(cfg, s, es).births == s.births
    decreases |es|
  {
    if es != [] {
      var t := Step(cfg, s, es[0]);
      if t.now < s.cell.deadline.value {
        WindowNeverMoves(cfg, t, es[1..]);
      } else {
        TimeGoesOn(cfg, t, es[1..]);
      }
    }
  }

  lemma {:induction false} TimeGoesOn(cfg: Config, s: State, es: seq<Event>)
    ensures s.now <= Run(cfg, s, es).now
    decreases |es|
  {
    if es != [] {
      TimeGoesOn(cfg, Step(cfg, s, es[0]), es[1..]);
    }
  }

  // ----- The middleware itself -----

  /** Who a request is counted for: an API key by the first 8 bytes of its SHA-256, or an address. */
  datatype Caller = Key(digest: string) | Address(ip: string)
  {
    predicate Valid() {
      Key? ==> |digest| == 64
    }
  }

  function CounterName(c: Caller): string
    requires c.Valid()
  {
    match c
    case Key(digest) => "rl:" + ("key:" + digest[..16])
    case Address(ip) => "rl:" + ("ip:" + ip)
  }

  /** Two callers share a counter exactly when they are one address or their digests begin alike. */
  lemma CountersSharedIff(c: Caller, d: Caller)
    requires c.Valid() && d.Valid()
    ensures CounterName(c) == CounterName(d) <==>
              (c.Key? && d.Key? && c.digest[..16] == d.digest[..16]) || (c.Address? && c == d)
  {
    if c.Key? && d.Key? {
      assert CounterName(c)[7..] == c.digest[..16] && CounterName(d)[7..] == d.digest[..16];
    } else if c.Address? && d.Address? {
      assert CounterName(c)[6..] == c.ip && CounterName(d)[6..] == d.ip;
    } else {
      assert CounterName(c)[3] != CounterName(d)[3];
    }
  }

  datatype Reply = Forwarded(remaining: Option<int>) | Unauthorized | TooManyRequests

  predicate HasPrefix(path: string, prefix: string) {
    prefix <= path
  }

  predicate Limited(ratePaths: seq<string>, path: string) {
    |ratePaths| == 0 || exists k :: 0 <= k < |ratePaths| && HasPrefix(path, ratePaths[k])
  }

  /** With the API's one prefix the limiter sees exactly the paths below /v1; with none it sees every path. */
  lemma LimitedIff(path: string)
    ensures Limited([], path)
    ensures Limited(["/v1"], path) <==> |path| >= 3 && path[0] == '/' && path[1] == 'v' && path[2] == '1'
  {
    var paths := ["/v1"];
    if |path| >= 3 && path[0] == '/' && path[1] == 'v' && path[2] == '1' {
      assert path[..3] == "/v1";
      assert HasPrefix(path, paths[0]);
    }
    if Limited(paths, path) {
      assert HasPrefix(path, paths[0]);
    }
  }

  /** A path is seen exactly when it begins with one of the configured texts. */
  lemma LimitedAny(ratePaths: seq<string>, path: string)
    requires ratePaths != []
    ensures Limited(ratePaths, path) <==>
              exists k, rest :: 0 <= k < |ratePaths| && path == ratePaths[k] + rest
  {
    if Limited(ratePaths, path) {
      var k :| 0 <= k < |ratePaths| && HasPrefix(path, ratePaths[k]);
      assert path == ratePaths[k] + path[|ratePaths[k]|..];
    }
    if k, rest :| 0 <= k < |ratePaths| && path == ratePaths[k] + rest {
      assert HasPrefix(path, ratePaths[k]);
    }
  }

  function CellOf(store: map<string, Cell>, name: string): Cell {
    if name in store then store[name] else Absent
  }

  /** What the caller of the middleware sees of a request that ended as `r`. */
  function ReplyFor(r: Request, limit: int): Reply {
    match r
    case Refused(_) => TooManyRequests
    case Passed(mark, _) => Forwarded(Some(Max(limit - mark.count, 0)))
    case _ => Forwarded(None)
  }

  /** One request with nothing else in between, as events of the interleaved model. */
  function Alone(applied: bool, answered: bool, expires: bool): seq<Event> {
    if applied && answered then [Incr(0, applied, answered), Expire(0, expires), Answer(0)]
    else [Incr(0, applied, answered)]
  }

  function AloneFrom(now: nat, cell: Cell): State {
    State(now, cell, [], [Fresh])
  }

  lemma AloneRuns(cfg: Config, s: State, applied: bool, answered: bool, expires: bool)
    ensures Run(cfg, s, Alone(applied, answered, expires)) ==
            var counted := Step(cfg, s, Incr(0, applied, answered));
            if applied && answered then Step(cfg, Step(cfg, counted, Expire(0, expires)), Answer(0)) else counted
  {
    var s1 := Step(cfg, s, Incr(0, applied, answered));
    var es := Alone(applied, answered, expires);
    if applied && answered {
      var s2 := Step(cfg, s1, Expire(0, expires));
      assert es[1..] == [Expire(0, expires), Answer(0)];
      assert es[1..][1..] == [Answer(0)];
      assert Run(cfg, s2, [Answer(0)]) == Run(cfg, Step(cfg, s2, Answer(0)), []);
      assert Run(cfg, s1, es[1..]) == Run(cfg, s2, [Answer(0)]);
    } else {
      assert Run(cfg, s1, es[1..]) == s1;
    }
  }

  lemma AloneOutcome(cfg: Config, now: nat, cell: Cell, applied: bool, answered: bool, expires: bool)
    ensures var end := Run(cfg, AloneFrom(now, cell), Alone(applied, answered, expires));
            var counted := Incremented(Seen(cell, now));
            && |end.requests| == 1
            && end.cell == (if !applied then cell
                            else if answered && expires then ExpireNX(Seen(counted, now), now, Ttl(cfg.window))
                            else counted)
            && ReplyFor(end.requests[0], cfg.limit) ==
               (if !applied || !answered then Forwarded(None)
                else if counted.count > cfg.limit then TooManyRequests
                else Forwarded(Some(Max(cfg.limit - counted.count, 0))))
  {
    AloneRuns(cfg, AloneFrom(now, cell), applied, answered, expires);
    hide Run;
  }

  class RateLimiter {
    var store: map<string, Cell>         // Valkey
    var keyLimits: map<string, int>      // the key store's snapshot, by digest
    var ipRPM: int
    var window: nat
    var ratePaths: seq<string>

    constructor (keyLimits: map<string, int>, ipRPM: int, window: nat)
      ensures this.keyLimits == keyLimits && this.ipRPM == ipRPM && this.window == window
      ensures store == map[] && ratePaths == []
    {
      this.store, this.keyLimits := map[], keyLimits;
      this.ipRPM, this.window, this.ratePaths := ipRPM, window, [];
    }

    /** Handles one request at `now`; the booleans say what Valkey did with its two commands. */
    method Middleware(path: string, caller: Caller, now: nat, applied: bool, answered: bool, expires: bool)
      returns (reply: Reply)
      requires caller.Valid()
      modifies this`store
      ensures !Limited(ratePaths, path) ==> reply == Forwarded(None) && store == old(store)
      ensures Limited(ratePaths, path) && caller.Key? && caller.digest !in keyLimits ==>
                reply == Unauthorized && store == old(store)
      ensures Limited(ratePaths, path) && (caller.Key? ==> caller.digest in keyLimits) ==>
                var name := CounterName(caller);
                var limit := if caller.Key? then keyLimits[caller.digest] else ipRPM;
                var end := Run(Config(window, limit), AloneFrom(now, CellOf(old(store), name)),
                               Alone(applied, answered, expires));
                && |end.requests| == 1 && reply == ReplyFor(end.requests[0], limit)
                && CellOf(store, name) == end.cell
                && (forall other :: other != name ==> CellOf(store, other) == CellOf(old(store), other))
                && (!applied || !answered ==> reply == Forwarded(None))
                && (applied && answered ==>
                      var count := if Seen(CellOf(old(store), name), now).Present?
                                   then CellOf(old(store), name).count + 1 else 1;
                      reply == if count > limit then TooManyRequests else Forwarded(Some(limit - count)))
    {
      hide Run, Alone, ReplyFor;
      if |ratePaths| > 0 {
        var matched, k := false, 0;
        while k < |ratePaths| && !matched
          invariant 0 <= k <= |ratePaths|
          invariant matched ==> Limited(ratePaths, path)
          invariant !matched ==> forall j :: 0 <= j < k ==> !HasPrefix(path, ratePaths[j])
        {
          if HasPrefix(path, ratePaths[k]) {
            matched := true;
          }
          k := k + 1;
        }
        if !matched {
          return Forwarded(None);
        }
      }
      var limit := ipRPM;
      if caller.Key? {
        if caller.digest !in keyLimits {
          return Unauthorized;
        }
        limit := keyLimits[caller.digest];
      }
      var name := CounterName(caller);
      ghost var cfg := Config(window, limit);
      AloneOutcome(cfg, now, CellOf(store, name), applied, answered, expires);
      var cell := Seen(CellOf(store, name), now);
      if applied {
        cell := Incremented(cell);
        store := store[name := cell];
      }
      if !applied || !answered {
        return Forwarded(None);
      }
      var count := cell.count;
      if expires {
        store := store[name := ExpireNX(Seen(cell, now), now, Ttl(window))];
      }
      if count > limit {
        return TooManyRequests;
      }
      return Forwarded(Some(Max(limit - count, 0)));
    }
  }
}
