/**
 * The RPC client's rate limiter: a buffered channel of tokens, a ticker with a
 * one-slot channel, and a goroutine that turns ticks into tokens. A run
 * interleaves time, that goroutine's two steps and the callers' requests.
 * Times are nanoseconds.
 */
module TokenBucket {

  /** `requestsAllowed` and `timeWindow`; the constructor panics outside Valid. */
  datatype Config = Config(capacity: nat, window: nat)
  {
    predicate Valid() {
      capacity > 0 && window / capacity > 0
    }

    /** The ticker's period: the division truncates. */
    function Interval(): (i: nat)
      requires Valid()
    {
      window / capacity
    }
  }

  // ----- The bucket in place -----

  datatype Status = Status(available: nat, capacity: nat, isEmpty: bool, isFull: bool)

  class ChannelRateLimiter {
    var tokens: nat
    const capacity: nat
    const window: nat
    const interval: nat
    var closed: bool
    ghost var accepted: nat
    ghost var grants: nat

    ghost predicate Valid()
      reads this
    {
      && Cfg().Valid() && interval == Cfg().Interval()
      && tokens <= capacity && capacity + accepted == tokens + grants
    }

    function Cfg(): Config {
      Config(capacity, window)
    }

    /** This bucket in a run of the model below; the ticker, the goroutine and the clock are not its fields. */
    ghost function At(now: nat, buffered: bool, inHand: bool, running: bool): State
      reads this
    {
      State(now, tokens, buffered, inHand, closed, running, accepted, grants)
    }

    constructor (requestsAllowed: nat, timeWindow: nat)
      requires Config(requestsAllowed, timeWindow).Valid()
      ensures Valid() && Cfg() == Config(requestsAllowed, timeWindow)
      ensures At(0, false, false, true) == Start(Cfg())
    {
      capacity := requestsAllowed;
      window, interval := timeWindow, timeWindow / requestsAllowed;
      closed, accepted, grants := false, 0, 0;
      tokens := 0;
      new;
      var k := 0;
      while k < requestsAllowed
        invariant tokens == k <= requestsAllowed
        modifies this`tokens
      {
        tokens := tokens + 1;
        k := k + 1;
      }
    }

    /** One tick: the token is dropped when the bucket is full. */
    method Refill()
      requires Valid()
      modifies this`tokens, this`accepted
      ensures Valid()
      ensures tokens == if old(tokens) < capacity then old(tokens) + 1 else capacity
      ensures accepted == old(accepted) + (tokens - old(tokens))
      ensures forall now, buffered, running ::
                At(now, buffered, false, running) == Step(Cfg(), old(At(now, buffered, true, running)), Offer)
    {
      if tokens < capacity {
        tokens, accepted := tokens + 1, accepted + 1;
      }
    }

    method Allow() returns (granted: bool)
      requires Valid()
      modifies this`tokens, this`grants
      ensures Valid()
      ensures granted == (old(tokens) > 0)
      ensures tokens == if granted then old(tokens) - 1 else 0
      ensures grants == if granted then old(grants) + 1 else old(grants)
      ensures forall now, buffered, inHand, running ::
                At(now, buffered, inHand, running) == Step(Cfg(), old(At(now, buffered, inHand, running)), Event.Allow)
    {
      granted := tokens > 0;
      if granted {
        tokens, grants := tokens - 1, grants + 1;
      }
    }

    /** The receive a blocked Wait performs once there is a token. */
    method Wait()
      requires Valid() && tokens > 0
      modifies this`tokens, this`grants
      ensures Valid() && tokens == old(tokens) - 1 && grants == old(grants) + 1
      ensures forall now, buffered, inHand, running ::
                At(now, buffered, inHand, running) == Step(Cfg(), old(At(now, buffered, inHand, running)), Event.Allow)
    {
      tokens, grants := tokens - 1, grants + 1;
    }

    method Close()
      requires Valid()
      modifies this`closed
      ensures closed && Valid()
      ensures forall now, buffered, inHand, running ::
                At(now, buffered, inHand, running) == Step(Cfg(), old(At(now, buffered, inHand, running)), Event.Close)
    {
      closed := true;
    }

    method GetStatus() returns (s: Status)
      requires Valid()
      ensures s.capacity == capacity && s.available == capacity + accepted - grants
      ensures s.isEmpty <==> grants == capacity + accepted
      ensures s.isFull <==> grants == accepted
    {
      s := Status(tokens, capacity, tokens == 0, tokens == capacity);
    }
  }

  // ----- Runs -----

  /**
   * `buffered`: a tick waits in the ticker's channel. `inHand`: the goroutine has
   * received a tick and not yet offered its token. `accepted` and `grants` are history.
   */
  datatype State = State(now: nat, tokens: int, buffered: bool, inHand: bool,
                         closed: bool, running: bool, accepted: nat, grants: nat)

  datatype Event =
    | Elapse(duration: nat)  // the ticker drops a tick when its channel is full
    | Receive                // the goroutine takes a tick
    | Offer                  // ... and offers a token
    | Allow                  // also the receive of Wait
    | Close
    | Quit                   // the goroutine sees `done`

  function Start(cfg: Config): State {
    State(0, cfg.capacity, false, false, false, true, 0, 0)
  }

  /** Ticks in (from, until]: the ticker fires at each positive multiple of the interval. */
  function Ticks(cfg: Config, from: nat, until: nat): int
    requires cfg.Valid()
  {
    until / cfg.Interval() - from / cfg.Interval()
  }

  function Step(cfg: Config, s: State, e: Event): State
    requires cfg.Valid()
  {
    match e
    case Elapse(d) =>
      var fired := !s.closed && Ticks(cfg, s.now, s.now + d) > 0;
      s.(now := s.now + d, buffered := s.buffered || fired)
    case Receive =>
      if s.running && s.buffered && !s.inHand then s.(buffered := false, inHand := true) else s
    case Offer =>
      if !s.inHand then s
      else if s.tokens < cfg.capacity then s.(inHand := false, tokens := s.tokens + 1, accepted := s.accepted + 1)
      else s.(inHand := false)
    case Allow =>
      if s.tokens > 0 then s.(tokens := s.tokens - 1, grants := s.grants + 1) else s
    case Close => s.(closed := true)
    case Quit => if s.closed && !s.inHand then s.(running := false) else s
  }

  function Run(cfg: Config, s: State, es: seq<Event>): State
    requires cfg.Valid()
    decreases |es|
  {
    if es == [] then s else Run(cfg, Step(cfg, s, es[0]), es[1..])
  }

  lemma {:induction false} RunAppend(cfg: Config, s: State, es: seq<Event>, fs: seq<Event>)
    requires cfg.Valid()
    ensures Run(cfg, s, es + fs) == Run(cfg, Run(cfg, s, es), fs)
    decreases |es|
  {
    if es == [] {
      assert es + fs == fs;
    } else {
      assert (es + fs)[1..] == es[1..] + fs;
      RunAppend(cfg, Step(cfg, s, es[0]), es[1..], fs);
    }
  }

  /** No token is lost or made up: capacity and refills are grants and what is left. */
  predicate Balanced(cfg: Config, s: State) {
    0 <= s.tokens <= cfg.capacity && cfg.capacity + s.accepted == s.tokens + s.grants
  }

  lemma {:induction false} RunKeepsBalance(cfg: Config, s: State, es: seq<Event>)
    requires cfg.Valid() && Balanced(cfg, s)
    ensures Balanced(cfg, Run(cfg, s, es))
    decreases |es|
  {
    if es != [] {
      RunKeepsBalance(cfg, Step(cfg, s, es[0]), es[1..]);
    }
  }

  /** Ticks already fired that can still become tokens. */
  function Outstanding(s: State): nat {
    (if s.buffered then 1 else 0) + (if s.inHand then 1 else 0)
  }

  lemma TicksGrow(cfg: Config, a: nat, b: nat)
    requires cfg.Valid() && a <= b
    ensures Ticks(cfg, a, b) >= 0
    ensures Ticks(cfg, a, b) > 0 ==> Ticks(cfg, a, b) >= 1
  {
    DivisionGrows(a, b, cfg.Interval());
  }

  lemma MulMono(a: int, b: int, i: nat)
    requires a <= b
    ensures a * i <= b * i
  {
  }

  lemma DivAtLeast(x: nat, i: nat, q: nat)
    requires i > 0 && q * i <= x
    ensures q <= x / i
  {
    var p := x / i;
    assert x < p * i + i;
    if p + 1 <= q {
      MulMono(p + 1, q, i);
    }
  }

  lemma DivBelow(x: nat, i: nat, q: nat)
    requires i > 0 && x < q * i
    ensures x / i < q
  {
    var p := x / i;
    assert p * i <= x;
    if q <= p {
      MulMono(q, p, i);
    }
  }

  lemma DivisionGrows(a: nat, b: nat, i: nat)
    requires a <= b && i > 0
    ensures a / i <= b / i
  {
    assert a / i * i <= a;
    DivAtLeast(b, i, a / i);
  }

  lemma NextTick(a: nat, i: nat)
    requires i > 0
    ensures (a + i) / i == a / i + 1
  {
    var q := a / i;
    assert q * i <= a < q * i + i;
    DivAtLeast(a + i, i, q + 1);
    DivBelow(a + i, i, q + 2);
  }

  lemma StepSpendsTicks(cfg: Config, s: State, e: Event)
    requires cfg.Valid()
    ensures var t := Step(cfg, s, e);
            && s.now <= t.now
            && t.accepted + Outstanding(t) <= s.accepted + Outstanding(s) + Ticks(cfg, s.now, t.now)
  {
    if e.Elapse? {
      TicksGrow(cfg, s.now, s.now + e.duration);
    }
  }

  /** Every accepted refill used up a tick of its own. */
  lemma {:induction false} RunSpendsTicks(cfg: Config, s: State, es: seq<Event>)
    requires cfg.Valid()
    ensures var t := Run(cfg, s, es);
            && s.now <= t.now
            && t.accepted + Outstanding(t) <= s.accepted + Outstanding(s) + Ticks(cfg, s.now, t.now)
    decreases |es|
  {
    if es != [] {
      StepSpendsTicks(cfg, s, es[0]);
      RunSpendsTicks(cfg, Step(cfg, s, es[0]), es[1..]);
    }
  }

  function CeilDiv(a: nat, i: nat): nat
    requires i > 0
  {
    (a + i - 1) / i
  }

  /** A span of length d, wherever it starts, holds at most ceil(d / interval) ticks. */
  lemma TicksInSpan(cfg: Config, a: nat, b: nat, d: nat)
    requires cfg.Valid() && a <= b <= a + d
    ensures Ticks(cfg, a, b) <= CeilDiv(d, cfg.Interval())
  {
    var i := cfg.Interval();
    var p, c := a / i, CeilDiv(d, i);
    assert a < p * i + i;
    assert d + i - 1 < c * i + i;
    assert (p + c + 1) * i == p * i + i + c * i;
    DivBelow(b, i, p + c + 1);
  }

  lemma CeilFits(a: nat, i: nat)
    requires i > 0
    ensures (CeilDiv(a, i) - 1) * i < a + 1
  {
    var c := CeilDiv(a, i);
    assert c * i <= a + i - 1;
    assert (c - 1) * i == c * i - i;
  }

  lemma CeilOfShare(n: nat, i: nat, r: nat)
    requires n > 0 && i > 0 && r < n
    ensures n <= CeilDiv(n * i + r, i) < 2 * n
    ensures CeilDiv(n * i + r, i) == n <==> r == 0
  {
    var x := n * i + r + i - 1;
    DivAtLeast(x, i, n);
    MulMono(1, i, n - 1);
    assert (2 * n) * i == n * i + (n - 1) * i + i;
    DivBelow(x, i, 2 * n);
    if r == 0 {
      DivBelow(x, i, n + 1);
    } else {
      DivAtLeast(x, i, n + 1);
    }
  }

  /** The truncated interval makes up to 2N - 1 ticks fit into one window. */
  lemma TicksPerWindow(cfg: Config)
    requires cfg.Valid()
    ensures cfg.capacity <= CeilDiv(cfg.window, cfg.Interval()) <= 2 * cfg.capacity - 1
    ensures CeilDiv(cfg.window, cfg.Interval()) == cfg.capacity <==> cfg.window % cfg.capacity == 0
  {
    var n, i, r := cfg.capacity, cfg.Interval(), cfg.window % cfg.capacity;
    assert cfg.window == n * i + r;
    CeilOfShare(n, i, r);
  }

  /**
   * In every run, a stretch no longer than the window grants at most the bucket's
   * capacity, one request per tick that can fall into a window, and one for each
   * tick that was still outstanding when the stretch began.
   */
  lemma WindowBound(cfg: Config, before: seq<Event>, during: seq<Event>)
    requires cfg.Valid()
    requires var s := Run(cfg, Start(cfg), before); Run(cfg, s, during).now <= s.now + cfg.window
    ensures var s := Run(cfg, Start(cfg), before);
            var grants := Run(cfg, s, during).grants - s.grants;
            && grants <= cfg.capacity + CeilDiv(cfg.window, cfg.Interval()) + Outstanding(s)
            && grants <= 3 * cfg.capacity - 1 + Outstanding(s)
            && (cfg.window % cfg.capacity == 0 ==> grants <= 2 * cfg.capacity + Outstanding(s))
  {
    var s := Run(cfg, Start(cfg), before);
    var t := Run(cfg, s, during);
    RunKeepsBalance(cfg, Start(cfg), before);
    RunKeepsBalance(cfg, s, during);
    RunSpendsTicks(cfg, s, during);
    TicksInSpan(cfg, s.now, t.now, cfg.window);
    TicksPerWindow(cfg);
  }

  // ----- The bound is reached -----

  function Repeat(e: Event, n: nat): seq<Event> {
    seq(n, _ => e)
  }

  lemma {:induction false} Drain(cfg: Config, s: State, n: nat)
    requires cfg.Valid() && s.tokens >= n
    ensures Run(cfg, s, Repeat(Allow, n)) == s.(tokens := s.tokens - n, grants := s.grants + n)
    decreases n
  {
    if n > 0 {
      assert Repeat(Allow, n)[1..] == Repeat(Allow, n - 1);
      Drain(cfg, Step(cfg, s, Allow), n - 1);
    }
  }

  /** One tick at a time, each served at once: n of them. */
  function Serve(cfg: Config, n: nat): seq<Event>
    requires cfg.Valid()
    decreases n
  {
    if n == 0 then [] else [Elapse(cfg.Interval()), Receive, Offer, Allow] + Serve(cfg, n - 1)
  }

  lemma RunFour(cfg: Config, s: State, a: Event, b: Event, c: Event, d: Event)
    requires cfg.Valid()
    ensures Run(cfg, s, [a, b, c, d]) == Step(cfg, Step(cfg, Step(cfg, Step(cfg, s, a), b), c), d)
  {
    var s1 := Step(cfg, s, a);
    var s2 := Step(cfg, s1, b);
    var s3 := Step(cfg, s2, c);
    assert [c, d][1..] == [d] && [b, c, d][1..] == [c, d] && [a, b, c, d][1..] == [b, c, d];
    assert Run(cfg, s3, [d]) == Run(cfg, Step(cfg, s3, d), []);
    assert Run(cfg, s2, [c, d]) == Run(cfg, s3, [d]);
    assert Run(cfg, s1, [b, c, d]) == Run(cfg, s2, [c, d]);
  }

  predicate Ready(s: State) {
    s.tokens == 0 && !s.buffered && !s.inHand && !s.closed && s.running
  }

  lemma ServeOneTick(cfg: Config, s: State)
    requires cfg.Valid() && Ready(s)
    ensures Run(cfg, s, [Elapse(cfg.Interval()), Receive, Offer, Allow]) ==
            s.(now := s.now + cfg.Interval(), accepted := s.accepted + 1, grants := s.grants + 1)
  {
    NextTick(s.now, cfg.Interval());
    RunFour(cfg, s, Elapse(cfg.Interval()), Receive, Offer, Allow);
    hide Run;
  }

  lemma {:induction false} ServeGrants(cfg: Config, s: State, n: nat)
    requires cfg.Valid() && Ready(s)
    ensures var t := Run(cfg, s, Serve(cfg, n));
            Ready(t) && t.grants == s.grants + n && t.now == s.now + n * cfg.Interval()
    decreases n
  {
    if n > 0 {
      var one := [Elapse(cfg.Interval()), Receive, Offer, Allow];
      ServeOneTick(cfg, s);
      RunAppend(cfg, s, one, Serve(cfg, n - 1));
      ServeGrants(cfg, Run(cfg, s, one), n - 1);
      assert n * cfg.Interval() == (n - 1) * cfg.Interval() + cfg.Interval();
    }
  }

  /** Two ticks late, one nanosecond before the next: the worst start of a window. */
  function Backlog(cfg: Config): seq<Event>
    requires cfg.Valid()
  {
    [Elapse(cfg.Interval()), Receive, Elapse(cfg.Interval()), Elapse(cfg.Interval() - 1)]
  }

  /** Everything the bucket and the backlog hold, and the tick of the next instant. */
  function Opening(cfg: Config): seq<Event> {
    Repeat(Allow, cfg.capacity)
      + ([Offer, Allow, Receive, Offer] + ([Allow, Elapse(1), Receive, Offer] + Repeat(Allow, 1)))
  }

  /** The opening, then every tick of the window. */
  function Worst(cfg: Config): seq<Event>
    requires cfg.Valid()
  {
    Opening(cfg) + Serve(cfg, CeilDiv(cfg.window, cfg.Interval()) - 1)
  }

  lemma BacklogState(cfg: Config)
    requires cfg.Valid()
    ensures Run(cfg, Start(cfg), Backlog(cfg)) ==
            State(3 * cfg.Interval() - 1, cfg.capacity, true, true, false, true, 0, 0)
  {
    hide Run;
    var i := cfg.Interval();
    var first := State(i, cfg.capacity, true, false, false, true, 0, 0);
    var second := State(2 * i, cfg.capacity, true, true, false, true, 0, 0);
    NextTick(0, i);
    NextTick(i, i);
    assert i + i == 2 * i;
    assert Step(cfg, Start(cfg), Elapse(i)) == first;
    assert Step(cfg, Step(cfg, first, Receive), Elapse(i)) == second;
    assert Step(cfg, second, Elapse(i - 1)) == second.(now := 3 * i - 1);
    RunFour(cfg, Start(cfg), Elapse(i), Receive, Elapse(i), Elapse(i - 1));
  }

  /** The backlog and the bucket are spent, and the next tick falls into the window. */
  lemma WorstStart(cfg: Config, s: State)
    requires cfg.Valid()
    requires s == State(3 * cfg.Interval() - 1, cfg.capacity, true, true, false, true, 0, 0)
    ensures Run(cfg, s, Opening(cfg)) == State(3 * cfg.Interval(), 0, false, false, false, true, 3, cfg.capacity + 3)
  {
    var i := cfg.Interval();
    var n := cfg.capacity;
    Drain(cfg, s, n);
    var s1 := s.(tokens := 0, grants := n);
    RunFour(cfg, s1, Offer, Allow, Receive, Offer);
    var s2 := s1.(buffered := false, inHand := false, tokens := 1, grants := n + 1, accepted := 2);
    NextTick(2 * i - 1, i);
    DivAtLeast(3 * i, i, 3);
    DivBelow(3 * i - 1, i, 3);
    TicksGrow(cfg, 3 * i - 1, 3 * i);
    RunFour(cfg, s2, Allow, Elapse(1), Receive, Offer);
    var s3 := s2.(now := 3 * i, tokens := 1, grants := n + 2, accepted := 3);
    assert Ticks(cfg, 3 * i - 1, 3 * i) > 0;
    hide Run;
    assert Run(cfg, s2, [Allow, Elapse(1), Receive, Offer]) == s3;
    Drain(cfg, s3, 1);
    RunAppend(cfg, s2, [Allow, Elapse(1), Receive, Offer], Repeat(Allow, 1));
    RunAppend(cfg, s1, [Offer, Allow, Receive, Offer], [Allow, Elapse(1), Receive, Offer] + Repeat(Allow, 1));
    RunAppend(cfg, s, Repeat(Allow, n),
              [Offer, Allow, Receive, Offer] + ([Allow, Elapse(1), Receive, Offer] + Repeat(Allow, 1)));
  }

  /** The bound of WindowBound is reached, for every capacity and every window. */
  lemma WindowBoundReached(cfg: Config)
    requires cfg.Valid()
    ensures var s := Run(cfg, Start(cfg), Backlog(cfg));
            var t := Run(cfg, s, Worst(cfg));
            && Outstanding(s) == 2
            && t.now <= s.now + cfg.window
            && t.grants - s.grants == cfg.capacity + CeilDiv(cfg.window, cfg.Interval()) + 2
  {
    hide Run;
    var i := cfg.Interval();
    var ticks := CeilDiv(cfg.window, i);
    BacklogState(cfg);
    TicksPerWindow(cfg);
    var s := Run(cfg, Start(cfg), Backlog(cfg));
    WorstStart(cfg, s);
    var opening := Opening(cfg);
    RunAppend(cfg, s, opening, Serve(cfg, ticks - 1));
    ServeGrants(cfg, Run(cfg, s, opening), ticks - 1);
    CeilFits(cfg.window, i);
  }

  /** A blocked Wait is served: one interval later the goroutine can hand out a token. */
  lemma WaitEnds(cfg: Config, before: seq<Event>)
    requires cfg.Valid()
    requires !Run(cfg, Start(cfg), before).closed
    ensures var s := Run(cfg, Start(cfg), before);
            Run(cfg, s, [Elapse(cfg.Interval()), Offer, Receive, Offer]).tokens > 0
  {
    var s := Run(cfg, Start(cfg), before);
    RunKeepsBalance(cfg, Start(cfg), before);
    StaysOpen(cfg, Start(cfg), before);
    NextTick(s.now, cfg.Interval());
    RunFour(cfg, s, Elapse(cfg.Interval()), Offer, Receive, Offer);
    hide Run;
  }

  /** The goroutine ends only after Close. */
  lemma {:induction false} StaysOpen(cfg: Config, s: State, es: seq<Event>)
    requires cfg.Valid() && (s.running || s.closed)
    ensures Run(cfg, s, es).running || Run(cfg, s, es).closed
    decreases |es|
  {
    if es != [] {
      StaysOpen(cfg, Step(cfg, s, es[0]), es[1..]);
    }
  }
}
