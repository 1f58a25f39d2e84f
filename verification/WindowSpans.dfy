/**
 * What FixedWindow's limiter means for spans of time: of the requests counted in a span, and of the requests
 * forwarded in a span, how many can there be?
 */
module WindowSpans {
  import opened Results
  import opened FixedWindow

  // ----- Spans of increments -----

  /** Requests forwarded within the limit whose increment happened in [a, b], whenever they were forwarded. */
  function PassedIn(s: State, a: nat, b: nat): set<nat> {
    set i: nat | i < |s.requests| && s.requests[i].Passed? && a <= s.requests[i].mark.at <= b
  }

  lemma TwoApart(births: seq<nat>, ttl: nat, g: nat, h: nat)
    requires Spaced(births, ttl) && g < |births| && h < |births|
    ensures g + 1 < h ==> births[g] + ttl <= births[g + 1] && births[g + 1] + ttl <= births[h]
  {
  }

  /** Requests whose increments lie within one time to live share at most two lifetimes. */
  lemma TwoLifetimes(cfg: Config, s: State, a: nat, b: nat, i: nat, j: nat)
    requires Inv(cfg, s) && Ttl(cfg.window) > 0 && b <= a + Ttl(cfg.window)
    requires i in PassedIn(s, a, b) && j in PassedIn(s, a, b)
    ensures s.requests[j].mark.life <= s.requests[i].mark.life + 1
  {
    var m, k := s.requests[i].mark, s.requests[j].mark;
    assert s.requests[i].Marked() && s.requests[j].Marked();
    assert MarkInv(s, k) && BeforeNext(s, m);
    TwoApart(s.births, Ttl(cfg.window), m.life, k.life);
  }

  lemma TwoLivesBound(s: State, chosen: set<nat>, life: nat, n: nat)
    requires CountsDistinct(s)
    requires forall i <- chosen :: i < |s.requests| && s.requests[i].Marked()
               && life <= s.requests[i].mark.life <= life + 1 && 0 < s.requests[i].mark.count <= n
    ensures |chosen| <= 2 * n
  {
    var early := set i | i in chosen && s.requests[i].mark.life == life;
    var late := chosen - early;
    CountBound(s, life, early, n) by {
      hide CountsDistinct;
    }
    CountBound(s, life + 1, late, n) by {
      hide CountsDistinct;
    }
    assert chosen == early + late;
  }

  /** The earliest lifetime among chosen requests. */
  lemma {:induction false} Earliest(s: State, chosen: set<nat>) returns (i: nat)
    requires chosen != {}
    requires forall k <- chosen :: k < |s.requests| && s.requests[k].Passed?
    ensures i in chosen && forall k <- chosen :: s.requests[i].mark.life <= s.requests[k].mark.life
    decreases |chosen|
  {
    i :| i in chosen;
    var rest := chosen - {i};
    if rest != {} {
      var j := Earliest(s, rest);
      var i0 := i;
      i := if s.requests[j].mark.life < s.requests[i0].mark.life then j else i0;
      forall k | k in chosen
        ensures s.requests[i].mark.life <= s.requests[k].mark.life
      {
        assert k == i0 || k in rest;
      }
    } else {
      assert forall k <- chosen :: k == i || k in rest;
    }
  }

  /**
   * Of the requests counted within one time to live, at most 2 * limit are forwarded, whatever EXPIRE did and
   * however late they are answered. For spans of forwarding instants see ForwardSpanIff.
   */
  lemma SpanBound(cfg: Config, n: nat, es: seq<Event>, a: nat, b: nat)
    requires Ttl(cfg.window) > 0 && b <= a + Ttl(cfg.window)
    ensures |PassedIn(Run(cfg, Start(n), es), a, b)| <= 2 * Max(cfg.limit, 0)
  {
    StartKeepsInv(cfg, n);
    RunKeepsInv(cfg, Start(n), es);
    var s := Run(cfg, Start(n), es);
    var chosen := PassedIn(s, a, b);
    if chosen != {} {
      var i := Earliest(s, chosen);
      forall j | j in chosen
        ensures s.requests[j].mark.life <= s.requests[i].mark.life + 1
      {
        TwoLifetimes(cfg, s, a, b, i, j);
      }
      TwoLivesBound(s, chosen, s.requests[i].mark.life, Max(cfg.limit, 0));
    }
  }

  /** With a limit of one, at most two of the requests counted within less than two times to live are forwarded. */
  lemma SingleSpanBound(cfg: Config, n: nat, es: seq<Event>, a: nat, b: nat)
    requires cfg.limit == 1 && Ttl(cfg.window) > 0 && b < a + 2 * Ttl(cfg.window)
    ensures |PassedIn(Run(cfg, Start(n), es), a, b)| <= 2
  {
    StartKeepsInv(cfg, n);
    RunKeepsInv(cfg, Start(n), es);
    var s := Run(cfg, Start(n), es);
    var chosen := PassedIn(s, a, b);
    if chosen != {} {
      var i := Earliest(s, chosen);
      var m := s.requests[i].mark;
      forall j | j in chosen
        ensures s.requests[j].mark.life <= m.life + 1
      {
        var k := s.requests[j].mark;
        assert s.requests[i].Marked() && s.requests[j].Marked();
        assert MarkInv(s, m) && MarkInv(s, k);
        TwoApart(s.births, Ttl(cfg.window), m.life, k.life);
      }
      TwoLivesBound(s, chosen, m.life, 1);
    }
  }

  // ----- Spans of increments as long as the configured window -----

  /** Of the requests counted within one window no more than 2 * limit are forwarded. */
  ghost predicate BoundsItsWindow(cfg: Config) {
    forall n: nat, es: seq<Event>, a: nat, b: nat | b <= a + cfg.window ::
      |PassedIn(Run(cfg, Start(n), es), a, b)| <= 2 * Max(cfg.limit, 0)
  }

  /** Requests from, from + 1, ... increment and set the window without failures. */
  function Opens(from: nat, k: nat): seq<Event>
    decreases k
  {
    if k == 0 then [] else [Incr(from, true, true), Expire(from, true)] + Opens(from + 1, k - 1)
  }

  /** They are answered. */
  function Closes(from: nat, k: nat): seq<Event>
    decreases k
  {
    if k == 0 then [] else [Answer(from)] + Closes(from + 1, k - 1)
  }

  function Serve(from: nat, k: nat): seq<Event> {
    Opens(from, k) + Closes(from, k)
  }

  /** The next k requests at this instant are all within the limit. */
  predicate Room(cfg: Config, s: State, k: nat) {
    match Seen(s.cell, s.now)
    case Absent => k <= cfg.limit || (Ttl(cfg.window) == 0 && cfg.limit >= 1)
    case Present(count, deadline) => deadline.Some? && count + k <= cfg.limit
  }

  /** The deadline in force once a request was counted at this instant. */
  function DeadlineAfter(cfg: Config, s: State): Option<nat> {
    match Seen(s.cell, s.now)
    case Absent => Some(s.now + Ttl(cfg.window))
    case Present(_, deadline) => deadline
  }

  predicate Counts(cfg: Config, r: Request, at: nat) {
    r.Windowed? && r.mark.at == at && r.mark.count <= cfg.limit
  }

  lemma OpenOne(cfg: Config, s: State, i: nat) returns (t: State)
    requires i < |s.requests| && s.requests[i].Fresh? && Room(cfg, s, 1)
    ensures t == Run(cfg, s, [Incr(i, true, true), Expire(i, true)])
    ensures t.now == s.now && |t.requests| == |s.requests|
    ensures forall j :: 0 <= j < |s.requests| && j != i ==> t.requests[j] == s.requests[j]
    ensures Counts(cfg, t.requests[i], s.now)
    ensures t.cell.Present? && t.cell.deadline == DeadlineAfter(cfg, s)
    ensures forall k: nat :: k > 0 && Room(cfg, s, k) ==> Room(cfg, t, k - 1)
  {
    var s1 := Step(cfg, s, Incr(i, true, true));
    t := Step(cfg, s1, Expire(i, true));
    assert [Incr(i, true, true), Expire(i, true)][1..] == [Expire(i, true)];
    assert Run(cfg, s1, [Expire(i, true)]) == Run(cfg, t, []);
  }

  /** A burst of k requests at one instant, all within the limit. */
  lemma {:induction false} OpenBurst(cfg: Config, s: State, from: nat, k: nat) returns (t: State)
    requires from + k <= |s.requests| && Room(cfg, s, k) && k > 0
    requires forall j :: from <= j < |s.requests| ==> s.requests[j].Fresh?
    ensures t == Run(cfg, s, Opens(from, k))
    ensures t.now == s.now && |t.requests| == |s.requests|
    ensures forall j :: 0 <= j < from || from + k <= j < |s.requests| ==> t.requests[j] == s.requests[j]
    ensures forall j :: from <= j < from + k ==> Counts(cfg, t.requests[j], s.now)
    ensures Ttl(cfg.window) > 0 ==> t.cell.Present? && t.cell.deadline == DeadlineAfter(cfg, s)
    ensures forall n: nat :: n >= k && Room(cfg, s, n) ==> Room(cfg, t, n - k)
    decreases k
  {
    assert Room(cfg, s, 1);
    var u := OpenOne(cfg, s, from);
    RunAppend(cfg, s, [Incr(from, true, true), Expire(from, true)], Opens(from + 1, k - 1));
    if k == 1 {
      t := u;
      assert Opens(from + 1, 0) == [];
    } else {
      t := OpenBurst(cfg, u, from + 1, k - 1);
    }
  }

  /** Requests from .. from + k - 1 of t are those of s, forwarded at s.now. */
  predicate Forwards(s: State, t: State, from: nat, k: nat)
    requires from + k <= |s.requests| == |t.requests|
  {
    forall j :: from <= j < from + k ==>
      s.requests[j].Windowed? && t.requests[j] == Passed(s.requests[j].mark, s.now)
  }

  lemma {:induction false} CloseBurst(cfg: Config, s: State, from: nat, k: nat) returns (t: State)
    requires from + k <= |s.requests|
    requires forall j :: from <= j < from + k ==> s.requests[j].Windowed? && s.requests[j].mark.count <= cfg.limit
    ensures t == Run(cfg, s, Closes(from, k))
    ensures t.now == s.now && t.cell == s.cell && |t.requests| == |s.requests|
    ensures forall j :: 0 <= j < from || from + k <= j < |s.requests| ==> t.requests[j] == s.requests[j]
    ensures Forwards(s, t, from, k)
    decreases k
  {
    if k == 0 {
      t := s;
    } else {
      var u := Step(cfg, s, Answer(from));
      t := CloseBurst(cfg, u, from + 1, k - 1);
    }
  }

  lemma ServeBurst(cfg: Config, s: State, from: nat, k: nat) returns (t: State)
    requires from + k <= |s.requests| && Room(cfg, s, k) && k > 0
    requires forall j :: from <= j < |s.requests| ==> s.requests[j].Fresh?
    ensures t == Run(cfg, s, Serve(from, k))
    ensures t.now == s.now && |t.requests| == |s.requests|
    ensures forall j :: 0 <= j < from || from + k <= j < |s.requests| ==> t.requests[j] == s.requests[j]
    ensures forall j :: from <= j < from + k ==>
              t.requests[j].Passed? && t.requests[j].mark.at == t.requests[j].forwarded == s.now
    ensures Ttl(cfg.window) > 0 ==> t.cell.Present? && t.cell.deadline == DeadlineAfter(cfg, s)
    ensures forall n: nat :: n >= k && Room(cfg, s, n) ==> Room(cfg, t, n - k)
  {
    var u := OpenBurst(cfg, s, from, k);
    t := CloseBurst(cfg, u, from, k);
    RunAppend(cfg, s, Opens(from, k), Closes(from, k));
  }

  lemma {:induction false} AtLeast(chosen: set<nat>, from: nat, k: nat)
    requires forall j :: from <= j < from + k ==> j in chosen
    ensures |chosen| >= k
    decreases k
  {
    if k > 0 {
      AtLeast(chosen - {from}, from + 1, k - 1);
    }
  }

  /** Less than a second: EXPIRE 0 removes the counter, and nothing is ever refused. */
  lemma SubSecondWindowLeaks(cfg: Config, k: nat)
    requires Ttl(cfg.window) == 0 && cfg.limit >= 1 && k > 0
    ensures |PassedIn(Run(cfg, Start(k), Serve(0, k)), 0, 0)| >= k
  {
    var t := ServeBurst(cfg, Start(k), 0, k);
    AtLeast(PassedIn(t, 0, 0), 0, k);
  }

  /**
   * A window that is not whole seconds: one request opens a lifetime, the rest of
   * its quota comes at the last instant, and two more lifetimes follow.
   */
  function ThreeLives(limit: nat, ttl: nat): seq<Event>
    requires limit >= 2 && ttl > 0
  {
    Serve(0, 1) + ([Tick(ttl - 1)] + (Serve(1, limit - 1) + ([Tick(1)] + (Serve(limit, limit)
      + ([Tick(ttl)] + Serve(2 * limit, limit))))))
  }

  lemma TickRuns(cfg: Config, s: State, d: nat, es: seq<Event>)
    ensures Run(cfg, s, [Tick(d)] + es) == Run(cfg, s.(now := s.now + d), es)
  {
    assert ([Tick(d)] + es)[1..] == es;
  }

  lemma FractionalWindowLeaks(cfg: Config)
    requires 0 < Ttl(cfg.window) && cfg.limit >= 2
    ensures var ttl := Ttl(cfg.window);
            var s := Run(cfg, Start(3 * cfg.limit), ThreeLives(cfg.limit, ttl));
            |PassedIn(s, ttl - 1, 2 * ttl)| >= 3 * cfg.limit - 1
  {
    hide Run, Serve;
    var ttl: nat, limit: nat := Ttl(cfg.window), cfg.limit;
    var s0 := Start(3 * limit);
    var s1 := ServeBurst(cfg, s0, 0, 1);
    assert Room(cfg, s0, limit);
    assert Room(cfg, s1, limit - 1);
    var s2 := s1.(now := s1.now + (ttl - 1));
    var s3 := ServeBurst(cfg, s2, 1, limit - 1);
    var s4 := s3.(now := s3.now + 1);
    var s5 := ServeBurst(cfg, s4, limit, limit);
    var s6 := s5.(now := s5.now + ttl);
    var s7 := ServeBurst(cfg, s6, 2 * limit, limit);
    var e7 := Serve(2 * limit, limit);
    var e5 := Serve(limit, limit) + ([Tick(ttl)] + e7);
    var e3 := Serve(1, limit - 1) + ([Tick(1)] + e5);
    RunAppend(cfg, s4, Serve(limit, limit), [Tick(ttl)] + e7);
    TickRuns(cfg, s5, ttl, e7);
    RunAppend(cfg, s2, Serve(1, limit - 1), [Tick(1)] + e5);
    TickRuns(cfg, s3, 1, e5);
    RunAppend(cfg, s0, Serve(0, 1), [Tick(ttl - 1)] + e3);
    TickRuns(cfg, s1, ttl - 1, e3);
    AtLeast(PassedIn(s7, ttl - 1, 2 * ttl), 1, 3 * limit - 1);
  }

  lemma NothingPasses(cfg: Config, n: nat, es: seq<Event>, a: nat, b: nat)
    requires cfg.limit <= 0
    ensures PassedIn(Run(cfg, Start(n), es), a, b) == {}
  {
    StartKeepsInv(cfg, n);
    RunKeepsInv(cfg, Start(n), es);
  }

  /**
   * For increment instants, the bound holds for the configured window exactly when the window is at least
   * a second and loses nothing to truncation, or the limit is too small to show it.
   */
  lemma SpanBoundIff(cfg: Config)
    ensures BoundsItsWindow(cfg) <==>
              cfg.limit <= 0 || (cfg.window >= SECOND && (cfg.limit == 1 || cfg.window % SECOND == 0))
  {
    if cfg.limit <= 0 {
      forall n: nat, es: seq<Event>, a: nat, b: nat | b <= a + cfg.window
        ensures |PassedIn(Run(cfg, Start(n), es), a, b)| <= 2 * Max(cfg.limit, 0)
      {
        NothingPasses(cfg, n, es, a, b);
      }
    } else if cfg.window < SECOND {
      SubSecondWindowLeaks(cfg, 2 * cfg.limit + 1);
    } else if cfg.window % SECOND == 0 {
      forall n: nat, es: seq<Event>, a: nat, b: nat | b <= a + cfg.window
        ensures |PassedIn(Run(cfg, Start(n), es), a, b)| <= 2 * Max(cfg.limit, 0)
      {
        SpanBound(cfg, n, es, a, b);
      }
    } else if cfg.limit == 1 {
      forall n: nat, es: seq<Event>, a: nat, b: nat | b <= a + cfg.window
        ensures |PassedIn(Run(cfg, Start(n), es), a, b)| <= 2 * Max(cfg.limit, 0)
      {
        SingleSpanBound(cfg, n, es, a, b);
      }
    } else {
      FractionalWindowLeaks(cfg);
      var ttl := Ttl(cfg.window);
      assert ttl + 1 <= cfg.window;
      assert 2 * ttl <= (ttl - 1) + cfg.window;
    }
  }

  /** The API's own configuration: one minute, any limit. */
  lemma MinuteWindow(limit: int)
    ensures BoundsItsWindow(Config(60 * SECOND, limit))
  {
    SpanBoundIff(Config(60 * SECOND, limit));
  }

  // ----- Spans of forwarding instants -----

  /** Requests forwarded within the limit, and in [a, b]. */
  function ForwardedIn(s: State, a: nat, b: nat): set<nat> {
    set i: nat | i < |s.requests| && s.requests[i].Passed? && a <= s.requests[i].forwarded <= b
  }

  /** No request was forwarded more than `delay` after its increment. */
  predicate Prompt(s: State, delay: nat) {
    forall i :: 0 <= i < |s.requests| && s.requests[i].Passed? ==>
      s.requests[i].forwarded <= s.requests[i].mark.at + delay
  }

  /** No span of `length` forwards more than 2 * limit, in runs that answer within `delay`. */
  ghost predicate BoundsForwards(cfg: Config, length: nat, delay: nat) {
    forall n: nat, es: seq<Event>, a: nat, b: nat | b <= a + length && Prompt(Run(cfg, Start(n), es), delay) ::
      |ForwardedIn(Run(cfg, Start(n), es), a, b)| <= 2 * Max(cfg.limit, 0)
  }

  /** A request forwarded in [a, b] was counted in [a - delay, b]. */
  lemma ForwardedWereCounted(cfg: Config, s: State, a: nat, b: nat, delay: nat)
    requires Inv(cfg, s) && Prompt(s, delay)
    ensures |ForwardedIn(s, a, b)| <= |PassedIn(s, Max(a - delay, 0), b)|
  {
    SubsetSize(ForwardedIn(s, a, b), PassedIn(s, Max(a - delay, 0), b));
  }

  lemma {:induction false} SubsetSize(small: set<nat>, large: set<nat>)
    requires small <= large
    ensures |small| <= |large|
  {
    if small != {} {
      var x :| x in small;
      SubsetSize(small - {x}, large - {x});
    }
  }

  /** What limit, length and delay must satisfy; `ttl` is the window cut to whole seconds. */
  predicate DelaysFit(limit: int, ttl: nat, length: nat, delay: nat) {
    limit <= 0 || (ttl > 0 && (length + delay <= ttl || (limit == 1 && length + delay < 2 * ttl)))
  }

  lemma ForwardSpanBound(cfg: Config, n: nat, es: seq<Event>, a: nat, b: nat, length: nat, delay: nat)
    requires DelaysFit(cfg.limit, Ttl(cfg.window), length, delay)
    requires b <= a + length && Prompt(Run(cfg, Start(n), es), delay)
    ensures |ForwardedIn(Run(cfg, Start(n), es), a, b)| <= 2 * Max(cfg.limit, 0)
  {
    var s, from: nat := Run(cfg, Start(n), es), Max(a - delay, 0);
    StartKeepsInv(cfg, n);
    RunKeepsInv(cfg, Start(n), es);
    ForwardedWereCounted(cfg, s, a, b, delay);
    if cfg.limit <= 0 {
      NothingPasses(cfg, n, es, from, b);
    } else if length + delay <= Ttl(cfg.window) {
      SpanBound(cfg, n, es, from, b);
    } else {
      SingleSpanBound(cfg, n, es, from, b);
    }
  }

  /** A run, and a span of it in which more than 2 * limit requests are forwarded. */
  datatype Leak = Leak(n: nat, events: seq<Event>, from: nat, until: nat)

  predicate Leaks(cfg: Config, length: nat, delay: nat, l: Leak) {
    && l.until <= l.from + length
    && Prompt(Run(cfg, Start(l.n), l.events), delay)
    && |ForwardedIn(Run(cfg, Start(l.n), l.events), l.from, l.until)| > 2 * Max(cfg.limit, 0)
  }

  /** A run in the making: what has happened, and where it led. */
  datatype Trace = Trace(n: nat, events: seq<Event>, state: State)
  {
    predicate Valid(cfg: Config) {
      state == Run(cfg, Start(n), events) && |state.requests| == n
    }
  }

  lemma Begin(cfg: Config, n: nat) returns (t: Trace)
    ensures t.Valid(cfg) && t.n == n && t.state == Start(n) && t.events == []
  {
    t := Trace(n, [], Start(n));
  }

  lemma Wait(cfg: Config, t: Trace, d: nat) returns (u: Trace)
    requires t.Valid(cfg)
    ensures u.Valid(cfg) && u.n == t.n && u.state == t.state.(now := t.state.now + d)
    ensures u.events == t.events + [Tick(d)]
  {
    u := Trace(t.n, t.events + [Tick(d)], t.state.(now := t.state.now + d));
    RunAppend(cfg, Start(t.n), t.events, [Tick(d)]);
    TickRuns(cfg, t.state, d, []);
    assert [Tick(d)] + [] == [Tick(d)];
  }

  /** k requests are counted at this instant, all within the limit. */
  lemma Open(cfg: Config, t: Trace, from: nat, k: nat) returns (u: Trace)
    requires t.Valid(cfg) && from + k <= t.n && Room(cfg, t.state, k) && k > 0 && Ttl(cfg.window) > 0
    requires forall j :: from <= j < t.n ==> t.state.requests[j].Fresh?
    ensures u.Valid(cfg) && u.n == t.n && u.state.now == t.state.now && u.events == t.events + Opens(from, k)
    ensures forall j :: 0 <= j < from || from + k <= j < t.n ==> u.state.requests[j] == t.state.requests[j]
    ensures forall j :: from <= j < from + k ==> Counts(cfg, u.state.requests[j], t.state.now)
    ensures u.state.cell.Present? && u.state.cell.deadline == DeadlineAfter(cfg, t.state)
    ensures forall n: nat :: n >= k && Room(cfg, t.state, n) ==> Room(cfg, u.state, n - k)
  {
    var s := OpenBurst(cfg, t.state, from, k);
    RunAppend(cfg, Start(t.n), t.events, Opens(from, k));
    u := Trace(t.n, t.events + Opens(from, k), s);
  }

  lemma Close(cfg: Config, t: Trace, from: nat, k: nat) returns (u: Trace)
    requires t.Valid(cfg) && from + k <= t.n
    requires forall j :: from <= j < from + k ==>
               t.state.requests[j].Windowed? && t.state.requests[j].mark.count <= cfg.limit
    ensures u.Valid(cfg) && u.n == t.n && u.state.now == t.state.now && u.state.cell == t.state.cell
    ensures u.events == t.events + Closes(from, k)
    ensures forall j :: 0 <= j < from || from + k <= j < t.n ==> u.state.requests[j] == t.state.requests[j]
    ensures Forwards(t.state, u.state, from, k)
  {
    var s := CloseBurst(cfg, t.state, from, k);
    RunAppend(cfg, Start(t.n), t.events, Closes(from, k));
    u := Trace(t.n, t.events + Closes(from, k), s);
  }

  /** No time to live: a burst at one instant. */
  lemma LeakWithoutTtl(cfg: Config, length: nat, delay: nat) returns (l: Leak)
    requires Ttl(cfg.window) == 0 && cfg.limit >= 1
    ensures Leaks(cfg, length, delay, l)
  {
    hide Run, Serve;
    var k: nat := 2 * cfg.limit + 1;
    var t := ServeBurst(cfg, Start(k), 0, k);
    AtLeast(ForwardedIn(t, 0, 0), 0, k);
    l := Leak(k, Serve(0, k), 0, 0);
  }

  /**
   * One request opens a lifetime, the rest of its quota comes at the last instant, a full quota follows at the next
   * instant and another one time to live later. The first answers wait when `length` is too short without that.
   */
  lemma LeakOfThree(cfg: Config, length: nat, delay: nat) returns (l: Leak)
    requires 0 < Ttl(cfg.window) < length + delay && cfg.limit >= 2
    ensures Leaks(cfg, length, delay, l)
  {
    hide Run, Opens, Closes;
    var ttl: nat, k: nat := Ttl(cfg.window), cfg.limit;
    var t := Begin(cfg, 3 * k);
    assert Room(cfg, t.state, k);
    t := Open(cfg, t, 0, 1);
    assert Room(cfg, t.state, k - 1);
    t := Close(cfg, t, 0, 1);
    t := Wait(cfg, t, ttl - 1);
    t := Open(cfg, t, 1, k - 1);
    if length > ttl {
      l := LeakAtOnce(cfg, t, length, delay);
    } else {
      l := LeakHeldBack(cfg, t, length, delay);
    }
  }

  /** The first lifetime's quota is counted: one at 0 and answered, the others just before the deadline. */
  predicate LastInstant(cfg: Config, t: Trace) {
    && t.Valid(cfg) && cfg.limit >= 2 && t.n == 3 * cfg.limit && 0 < Ttl(cfg.window)
    && t.state.now == Ttl(cfg.window) - 1
    && t.state.cell.Present? && t.state.cell.deadline == Some(Ttl(cfg.window))
    && t.state.requests[0].Passed? && t.state.requests[0].forwarded == 0
    && (forall j :: 1 <= j < cfg.limit ==> Counts(cfg, t.state.requests[j], t.state.now))
    && (forall j :: cfg.limit <= j < t.n ==> t.state.requests[j].Fresh?)
  }

  /** Everything answered at once: enough when `length` exceeds the time to live. */
  lemma LeakAtOnce(cfg: Config, first: Trace, length: nat, delay: nat) returns (l: Leak)
    requires LastInstant(cfg, first) && Ttl(cfg.window) < length
    ensures Leaks(cfg, length, delay, l)
  {
    hide Run, Opens, Closes;
    var ttl: nat, k: nat := Ttl(cfg.window), cfg.limit;
    var t := Close(cfg, first, 1, k - 1);
    t := Wait(cfg, t, 1);
    t := Open(cfg, t, k, k);
    t := Close(cfg, t, k, k);
    t := Wait(cfg, t, ttl);
    t := Open(cfg, t, 2 * k, k);
    t := Close(cfg, t, 2 * k, k);
    AtLeast(ForwardedIn(t.state, ttl - 1, 2 * ttl), 1, 3 * k - 1);
    l := Leak(t.n, t.events, ttl - 1, 2 * ttl);
  }

  /** The answers of two lifetimes held back until `length` before the third begins. */
  lemma LeakHeldBack(cfg: Config, first: Trace, length: nat, delay: nat) returns (l: Leak)
    requires LastInstant(cfg, first) && length <= Ttl(cfg.window) < length + delay
    ensures Leaks(cfg, length, delay, l)
  {
    hide Run, Opens, Closes;
    var ttl: nat, k: nat := Ttl(cfg.window), cfg.limit;
    var t := Wait(cfg, first, 1);
    t := Open(cfg, t, k, k);
    t := Wait(cfg, t, ttl - length);
    t := Close(cfg, t, 1, 2 * k - 1);
    t := Wait(cfg, t, length);
    t := Open(cfg, t, 2 * k, k);
    t := Close(cfg, t, 2 * k, k);
    AtLeast(ForwardedIn(t.state, 2 * ttl - length, 2 * ttl), 1, 3 * k - 1);
    l := Leak(t.n, t.events, 2 * ttl - length, 2 * ttl);
  }

  /** A limit of one: two lifetimes were answered at or after `from`, and the third may begin. */
  predicate TwoAnswered(cfg: Config, t: Trace, from: nat, delay: nat) {
    && t.Valid(cfg) && t.n == 3 && t.state.now == 2 * Ttl(cfg.window)
    && Seen(t.state.cell, t.state.now).Absent?
    && (forall j :: 0 <= j < 2 ==>
          t.state.requests[j].Passed? && from <= t.state.requests[j].forwarded <= t.state.now
          && t.state.requests[j].forwarded <= t.state.requests[j].mark.at + delay)
    && t.state.requests[2].Fresh?
  }

  /** The first answer waits, the second request is served when it comes. */
  lemma OneHeldBack(cfg: Config, from: nat, delay: nat) returns (t: Trace)
    requires cfg.limit == 1 && 0 < Ttl(cfg.window) && from <= Ttl(cfg.window) && from <= delay
    ensures TwoAnswered(cfg, t, from, delay)
  {
    hide Run, Opens, Closes;
    var ttl: nat := Ttl(cfg.window);
    t := Begin(cfg, 3);
    t := Open(cfg, t, 0, 1);
    t := Wait(cfg, t, from);
    t := Close(cfg, t, 0, 1);
    t := Wait(cfg, t, ttl - from);
    t := Open(cfg, t, 1, 1);
    t := Close(cfg, t, 1, 1);
    t := Wait(cfg, t, ttl);
  }

  /** Both answers wait. */
  lemma BothHeldBack(cfg: Config, from: nat, delay: nat) returns (t: Trace)
    requires cfg.limit == 1 && 0 < Ttl(cfg.window) < from <= 2 * Ttl(cfg.window) && from <= delay
    ensures TwoAnswered(cfg, t, from, delay)
  {
    hide Run, Opens, Closes;
    var ttl: nat := Ttl(cfg.window);
    t := Begin(cfg, 3);
    t := Open(cfg, t, 0, 1);
    t := Wait(cfg, t, ttl);
    t := Open(cfg, t, 1, 1);
    t := Wait(cfg, t, from - ttl);
    t := Close(cfg, t, 0, 2);
    t := Wait(cfg, t, 2 * ttl - from);
  }

  /** A limit of one: three lifetimes of one request each, the first answers late. */
  lemma LeakOfOne(cfg: Config, length: nat, delay: nat) returns (l: Leak)
    requires cfg.limit == 1 && 0 < Ttl(cfg.window) && 2 * Ttl(cfg.window) <= length + delay
    ensures Leaks(cfg, length, delay, l)
  {
    hide Run, Opens, Closes;
    var ttl: nat := Ttl(cfg.window);
    var from: nat := Max(2 * ttl - length, 0);
    var t;
    if from <= ttl {
      t := OneHeldBack(cfg, from, delay);
    } else {
      t := BothHeldBack(cfg, from, delay);
    }
    t := Open(cfg, t, 2, 1);
    t := Close(cfg, t, 2, 1);
    AtLeast(ForwardedIn(t.state, from, 2 * ttl), 0, 3);
    l := Leak(3, t.events, from, 2 * ttl);
  }

  /**
   * For forwarding instants: when no request is answered more than `delay` after its increment, spans of `length`
   * forward at most 2 * limit exactly when length and delay together fit into the time to live, or, with a limit
   * of one, into less than two of them, or the limit is not positive.
   */
  lemma ForwardSpanIff(cfg: Config, length: nat, delay: nat)
    ensures BoundsForwards(cfg, length, delay) <==> DelaysFit(cfg.limit, Ttl(cfg.window), length, delay)
  {
    if DelaysFit(cfg.limit, Ttl(cfg.window), length, delay) {
      forall n: nat, es: seq<Event>, a: nat, b: nat | b <= a + length && Prompt(Run(cfg, Start(n), es), delay)
        ensures |ForwardedIn(Run(cfg, Start(n), es), a, b)| <= 2 * Max(cfg.limit, 0)
      {
        ForwardSpanBound(cfg, n, es, a, b, length, delay);
      }
    } else {
      var l;
      if Ttl(cfg.window) == 0 {
        l := LeakWithoutTtl(cfg, length, delay);
      } else if cfg.limit == 1 {
        l := LeakOfOne(cfg, length, delay);
      } else {
        l := LeakOfThree(cfg, length, delay);
      }
      assert Leaks(cfg, length, delay, l);
    }
  }

  /** With the API's one minute: spans of a minute are bounded only while answers are immediate, or nearly so. */
  lemma MinuteWindowForwards(limit: int, delay: nat)
    ensures BoundsForwards(Config(60 * SECOND, limit), 60 * SECOND, delay) <==>
              limit <= 0 || delay == 0 || (limit == 1 && delay < 60 * SECOND)
  {
    ForwardSpanIff(Config(60 * SECOND, limit), 60 * SECOND, delay);
  }

  /** Three requests counted one minute apart, answered together. */
  function AnsweredTogether(ttl: nat): seq<Event> {
    [Incr(0, true, true), Expire(0, true), Tick(ttl), Incr(1, true, true), Expire(1, true), Tick(ttl),
     Incr(2, true, true), Expire(2, true), Answer(0), Answer(1), Answer(2)]
  }

  lemma TogetherIs(ttl: nat)
    ensures [] + Opens(0, 1) + [Tick(ttl)] + Opens(1, 1) + [Tick(ttl)] + Opens(2, 1) + Closes(0, 3)
            == AnsweredTogether(ttl)
  {
    assert Opens(0, 1) == [Incr(0, true, true), Expire(0, true)];
    assert Opens(1, 1) == [Incr(1, true, true), Expire(1, true)];
    assert Opens(2, 1) == [Incr(2, true, true), Expire(2, true)];
    assert Closes(0, 3) == [Answer(0), Answer(1), Answer(2)] by {
      assert Closes(1, 2) == [Answer(1), Answer(2)];
    }
  }

  /** Late answers: a limit of one forwards three requests at one instant, although their counts are a minute apart. */
  lemma LateAnswersMeet()
    ensures var cfg := Config(60 * SECOND, 1);
            var s := Run(cfg, Start(3), AnsweredTogether(60 * SECOND));
            && BoundsItsWindow(cfg)
            && ForwardedIn(s, 120 * SECOND, 120 * SECOND) == {0, 1, 2}
  {
    hide Run, Opens, Closes, AnsweredTogether, BoundsItsWindow;
    var cfg, ttl := Config(60 * SECOND, 1), 60 * SECOND;
    MinuteWindow(1);
    var t := Begin(cfg, 3);
    t := Open(cfg, t, 0, 1);
    t := Wait(cfg, t, ttl);
    t := Open(cfg, t, 1, 1);
    t := Wait(cfg, t, ttl);
    t := Open(cfg, t, 2, 1);
    t := Close(cfg, t, 0, 3);
    TogetherIs(ttl);
    assert forall i: nat :: i in ForwardedIn(t.state, 2 * ttl, 2 * ttl) <==> i < 3;
  }
}
