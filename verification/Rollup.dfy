/**
 * Statistics read from hourly continuous aggregates instead of the raw rows:
 * counts of blocks and transactions, and fees per denomination, by hour, by day
 * and over the last 24 hours. Times are microseconds since the epoch, in UTC.
 */
module Rollup {

  const SECOND: int := 1_000_000
  const HOUR: int := 3600 * SECOND
  const DAY: int := 24 * HOUR

  /** A block or a transaction as the aggregates see it. */
  datatype Row = Row(at: int, chain: string, denom: string, amount: int)

  /** `block_counter` and `tx_counter` count; `fee_volume` sums fees per denomination. */
  datatype Aggregate = Counter | FeeVolume

  datatype Key = Key(hour: int, chain: string, denom: string)

  datatype Bucket = Bucket(key: Key, value: int)

  /** time_bucket('1 hour', t): the start of the hour. */
  function HourOf(t: int): int {
    t / HOUR * HOUR
  }

  /** The number of the day, counted from the epoch. */
  function DayOf(t: int): int {
    t / DAY
  }

  function KeyOf(agg: Aggregate, r: Row): Key {
    Key(HourOf(r.at), r.chain, if agg.FeeVolume? then r.denom else "")
  }

  function WeightOf(agg: Aggregate, r: Row): int {
    if agg.FeeVolume? then r.amount else 1
  }

  // ----- Materialising: GROUP BY hour, chain[, denomination] -----

  function Absorb(buckets: seq<Bucket>, key: Key, weight: int): seq<Bucket> {
    if buckets == [] then [Bucket(key, weight)]
    else if buckets[0].key == key then [Bucket(key, buckets[0].value + weight)] + buckets[1..]
    else [buckets[0]] + Absorb(buckets[1..], key, weight)
  }

  function Materialize(agg: Aggregate, rows: seq<Row>): seq<Bucket> {
    if rows == [] then []
    else
      var last := rows[|rows| - 1];
      Absorb(Materialize(agg, rows[..|rows| - 1]), KeyOf(agg, last), WeightOf(agg, last))
  }

  function RawSum(agg: Aggregate, rows: seq<Row>, keep: Row -> bool): int {
    if rows == [] then 0
    else
      var last := rows[|rows| - 1];
      RawSum(agg, rows[..|rows| - 1], keep) + if keep(last) then WeightOf(agg, last) else 0
  }

  function BucketSum(buckets: seq<Bucket>, keep: Key -> bool): int {
    if buckets == [] then 0
    else (if keep(buckets[0].key) then buckets[0].value else 0) + BucketSum(buckets[1..], keep)
  }

  function Keys(buckets: seq<Bucket>): set<Key> {
    if buckets == [] then {} else {buckets[0].key} + Keys(buckets[1..])
  }

  /** One bucket per group. */
  predicate Grouped(buckets: seq<Bucket>) {
    buckets == [] || (buckets[0].key !in Keys(buckets[1..]) && Grouped(buckets[1..]))
  }

  lemma {:induction false} AbsorbAdds(buckets: seq<Bucket>, key: Key, weight: int, keep: Key -> bool)
    ensures BucketSum(Absorb(buckets, key, weight), keep) == BucketSum(buckets, keep) + if keep(key) then weight else 0
    ensures Keys(Absorb(buckets, key, weight)) == Keys(buckets) + {key}
    ensures Grouped(buckets) ==> Grouped(Absorb(buckets, key, weight))
  {
    if buckets != [] && buckets[0].key != key {
      AbsorbAdds(buckets[1..], key, weight, keep);
      assert Absorb(buckets, key, weight)[1..] == Absorb(buckets[1..], key, weight);
    } else if buckets != [] {
      assert Absorb(buckets, key, weight)[1..] == buckets[1..];
    }
  }

  /**
   * Nothing is lost or counted twice by grouping: for any choice of groups the
   * buckets add up to the raw rows that belong to them, and a group exists
   * exactly when some row belongs to it.
   */
  lemma {:induction false} MaterializeConserves(agg: Aggregate, rows: seq<Row>, keep: Key -> bool)
    ensures BucketSum(Materialize(agg, rows), keep) == RawSum(agg, rows, r => keep(KeyOf(agg, r)))
    ensures Grouped(Materialize(agg, rows))
    ensures forall k :: k in Keys(Materialize(agg, rows)) <==> exists i :: 0 <= i < |rows| && KeyOf(agg, rows[i]) == k
    decreases |rows|
  {
    if rows != [] {
      var init, last := rows[..|rows| - 1], rows[|rows| - 1];
      MaterializeConserves(agg, init, keep);
      AbsorbAdds(Materialize(agg, init), KeyOf(agg, last), WeightOf(agg, last), keep);
      forall k
        ensures k in Keys(Materialize(agg, rows)) <==> exists i :: 0 <= i < |rows| && KeyOf(agg, rows[i]) == k
      {
        if i :| 0 <= i < |init| && KeyOf(agg, init[i]) == k {
          assert KeyOf(agg, rows[i]) == k;
        }
        if i :| 0 <= i < |rows| && KeyOf(agg, rows[i]) == k {
          assert i == |init| || KeyOf(agg, init[i]) == k;
        }
        assert k == KeyOf(agg, last) ==> KeyOf(agg, rows[|rows| - 1]) == k;
      }
    }
  }

  lemma {:induction false} RawSumAgrees(agg: Aggregate, rows: seq<Row>, p: Row -> bool, q: Row -> bool)
    requires forall i :: 0 <= i < |rows| ==> p(rows[i]) == q(rows[i])
    ensures RawSum(agg, rows, p) == RawSum(agg, rows, q)
    decreases |rows|
  {
    if rows != [] {
      RawSumAgrees(agg, rows[..|rows| - 1], p, q);
    }
  }

  /** Two disjoint selections add up to their union. */
  lemma {:induction false} RawSumSplits(
    agg: Aggregate, rows: seq<Row>, p: Row -> bool, q: Row -> bool, both: Row -> bool)
    requires forall r :: both(r) == (p(r) || q(r))
    requires forall r :: !(p(r) && q(r))
    ensures RawSum(agg, rows, both) == RawSum(agg, rows, p) + RawSum(agg, rows, q)
    decreases |rows|
  {
    if rows != [] {
      RawSumSplits(agg, rows[..|rows| - 1], p, q, both);
    }
  }

  /** What is summed: one for each block or transaction counted, the amount of each fee. */
  lemma SumGrows(rows: seq<Row>, r: Row, keep: Row -> bool)
    ensures RawSum(Counter, rows + [r], keep) == RawSum(Counter, rows, keep) + if keep(r) then 1 else 0
    ensures RawSum(FeeVolume, rows + [r], keep) == RawSum(FeeVolume, rows, keep) + if keep(r) then r.amount else 0
    ensures RawSum(Counter, [], keep) == RawSum(FeeVolume, [], keep) == 0
  {
    assert (rows + [r])[..|rows|] == rows;
  }

  /** A count is the number of the rows it is about. */
  lemma {:induction false} CountIsCardinality(rows: seq<Row>, keep: Row -> bool)
    ensures RawSum(Counter, rows, keep) == |set i | 0 <= i < |rows| && keep(rows[i])|
    decreases |rows|
  {
    var chosen := set i | 0 <= i < |rows| && keep(rows[i]);
    if rows != [] {
      var n := |rows| - 1;
      CountIsCardinality(rows[..n], keep);
      var front := set i | 0 <= i < |rows[..n]| && keep(rows[..n][i]);
      assert chosen == if keep(rows[n]) then front + {n} else front;
    }
  }

  // ----- Queries -----

  /** A chain's rows; for fees also one denomination's. */
  predicate Mine(agg: Aggregate, chain: string, denom: string, k: Key) {
    k.chain == chain && (agg.FeeVolume? ==> k.denom == denom)
  }

  predicate MineRaw(agg: Aggregate, chain: string, denom: string, r: Row) {
    r.chain == chain && (agg.FeeVolume? ==> r.denom == denom)
  }

  /** WHERE chain_name = $1 AND time_bucket >= from AND time_bucket <= until */
  function Filter(buckets: seq<Bucket>, chain: string, from: int, until: int): seq<Bucket> {
    if buckets == [] then []
    else
      (if buckets[0].key.chain == chain && from <= buckets[0].key.hour <= until then [buckets[0]] else [])
        + Filter(buckets[1..], chain, from, until)
  }

  /** The end of the range: `dateTo` plus 23:59:59. */
  function EndOf(day: int): int {
    day * DAY + 23 * HOUR + 59 * 60 * SECOND + 59 * SECOND
  }

  /** One entry of a series: a day or the start of an hour, and its figure. */
  datatype Point = Point(at: int, value: int)

  /** One row per day of the range, days without buckets filled with zero. */
  function Daily(agg: Aggregate, buckets: seq<Bucket>, chain: string, denom: string, from: int, until: int): seq<Point>
    decreases until - from
  {
    if from > until then []
    else DailyOver(agg, Filter(buckets, chain, from * DAY, EndOf(until)), chain, denom, from, until)
  }

  function DailyOver(agg: Aggregate, buckets: seq<Bucket>, chain: string, denom: string, from: int, until: int)
    : seq<Point>
    decreases until - from
  {
    if from > until then []
    else
      [Point(from, BucketSum(buckets, k => Mine(agg, chain, denom, k) && DayOf(k.hour) == from))]
        + DailyOver(agg, buckets, chain, denom, from + 1, until)
  }

  function TotalOf(days: seq<Point>): int {
    if days == [] then 0 else days[0].value + TotalOf(days[1..])
  }

  /** What a client would count itself: the chain's rows of one day. */
  function DayRaw(agg: Aggregate, rows: seq<Row>, chain: string, denom: string, day: int): int {
    RawSum(agg, rows, r => MineRaw(agg, chain, denom, r) && DayOf(r.at) == day)
  }

  lemma HourIs(t: int, q: int)
    requires q * HOUR <= t < q * HOUR + HOUR
    ensures t / HOUR == q && HourOf(t) == q * HOUR
  {
  }

  lemma DayIs(t: int, d: int)
    requires d * DAY <= t < d * DAY + DAY
    ensures DayOf(t) == d
  {
  }

  /** Days begin at full hours. */
  lemma HoursOfDay(t: int)
    ensures 24 * DayOf(t) <= t / HOUR <= 24 * DayOf(t) + 23
    ensures HourOf(t) == t / HOUR * HOUR <= t < HourOf(t) + HOUR
  {
    assert DayOf(t) * DAY <= t < DayOf(t) * DAY + DAY;
  }

  lemma HourInDay(t: int)
    ensures DayOf(HourOf(t)) == DayOf(t)
    ensures HourOf(t) <= t < HourOf(t) + HOUR
  {
    HoursOfDay(t);
    DayIs(HourOf(t), DayOf(t));
  }

  /** The last second of the last day is left out of the filter, but no hour starts in it. */
  lemma DayInRange(t: int, day: int, from: int, until: int)
    requires from <= day <= until
    ensures DayOf(t) == day ==> from * DAY <= HourOf(t) <= EndOf(until)
  {
    HoursOfDay(t);
    hide DayOf, HourOf;
  }

  lemma {:induction false} FilterKeeps(buckets: seq<Bucket>, chain: string, from: int, until: int, keep: Key -> bool)
    requires forall i :: 0 <= i < |buckets| && keep(buckets[i].key)
               ==> buckets[i].key.chain == chain && from <= buckets[i].key.hour <= until
    ensures BucketSum(Filter(buckets, chain, from, until), keep) == BucketSum(buckets, keep)
  {
    if buckets != [] {
      assert forall i :: 0 <= i < |buckets[1..]| ==> buckets[1..][i] == buckets[i + 1];
      FilterKeeps(buckets[1..], chain, from, until, keep);
      var rest := Filter(buckets[1..], chain, from, until);
      if buckets[0].key.chain == chain && from <= buckets[0].key.hour <= until {
        assert Filter(buckets, chain, from, until) == [buckets[0]] + rest;
        assert ([buckets[0]] + rest)[1..] == rest;
      } else {
        assert Filter(buckets, chain, from, until) == rest;
      }
    }
  }

  /** Every bucket starts at a full hour. */
  predicate OnTheHour(buckets: seq<Bucket>) {
    forall i :: 0 <= i < |buckets| ==> HourOf(buckets[i].key.hour) == buckets[i].key.hour
  }

  lemma {:induction false} AbsorbOnTheHour(buckets: seq<Bucket>, key: Key, weight: int)
    requires OnTheHour(buckets) && HourOf(key.hour) == key.hour
    ensures OnTheHour(Absorb(buckets, key, weight))
  {
    if buckets != [] && buckets[0].key != key {
      AbsorbOnTheHour(buckets[1..], key, weight);
    }
  }

  lemma {:induction false} BucketsOnTheHour(agg: Aggregate, rows: seq<Row>)
    ensures OnTheHour(Materialize(agg, rows))
    decreases |rows|
  {
    if rows != [] {
      BucketsOnTheHour(agg, rows[..|rows| - 1]);
      var last := rows[|rows| - 1];
      AbsorbOnTheHour(Materialize(agg, rows[..|rows| - 1]), KeyOf(agg, last), WeightOf(agg, last));
    }
  }

  /** The roll-up of one day of the range is the direct count or sum of that day's rows. */
  lemma DayIsDirect(agg: Aggregate, rows: seq<Row>, chain: string, denom: string, from: int, until: int, day: int)
    requires from <= day <= until
    ensures BucketSum(Filter(Materialize(agg, rows), chain, from * DAY, EndOf(until)),
                      k => Mine(agg, chain, denom, k) && DayOf(k.hour) == day)
            == DayRaw(agg, rows, chain, denom, day)
  {
    var buckets := Materialize(agg, rows);
    var keep := (k: Key) => Mine(agg, chain, denom, k) && DayOf(k.hour) == day;
    BucketsOnTheHour(agg, rows);
    forall i | 0 <= i < |buckets| && keep(buckets[i].key)
      ensures buckets[i].key.chain == chain && from * DAY <= buckets[i].key.hour <= EndOf(until)
    {
      DayInRange(buckets[i].key.hour, day, from, until);
    }
    FilterKeeps(buckets, chain, from * DAY, EndOf(until), keep);
    MaterializeConserves(agg, rows, keep);
    forall i | 0 <= i < |rows|
      ensures keep(KeyOf(agg, rows[i])) == (MineRaw(agg, chain, denom, rows[i]) && DayOf(rows[i].at) == day)
    {
      HourInDay(rows[i].at);
    }
    RawSumAgrees(agg, rows, r => keep(KeyOf(agg, r)), r => MineRaw(agg, chain, denom, r) && DayOf(r.at) == day);
  }

  lemma {:induction false} DailyOverIsDirect(agg: Aggregate, rows: seq<Row>, chain: string, denom: string,
                                             first: int, from: int, until: int)
    requires first <= from <= until + 1
    ensures var buckets := Filter(Materialize(agg, rows), chain, first * DAY, EndOf(until));
            var days := DailyOver(agg, buckets, chain, denom, from, until);
            && |days| == until + 1 - from
            && (forall i :: 0 <= i < |days| ==> days[i] == Point(from + i, DayRaw(agg, rows, chain, denom, from + i)))
            && TotalOf(days) == RawSum(agg, rows, r => MineRaw(agg, chain, denom, r) && from <= DayOf(r.at) <= until)
    decreases until - from
  {
    var buckets := Filter(Materialize(agg, rows), chain, first * DAY, EndOf(until));
    var all := (r: Row) => MineRaw(agg, chain, denom, r) && from <= DayOf(r.at) <= until;
    if from > until {
      RawSumNone(agg, rows, all);
    } else {
      var here := (r: Row) => MineRaw(agg, chain, denom, r) && DayOf(r.at) == from;
      var later := (r: Row) => MineRaw(agg, chain, denom, r) && from + 1 <= DayOf(r.at) <= until;
      DayIsDirect(agg, rows, chain, denom, first, until, from);
      DailyOverIsDirect(agg, rows, chain, denom, first, from + 1, until);
      RawSumSplits(agg, rows, here, later, all);
      var days := DailyOver(agg, buckets, chain, denom, from, until);
      assert days[1..] == DailyOver(agg, buckets, chain, denom, from + 1, until);
    }
  }

  lemma {:induction false} RawSumNone(agg: Aggregate, rows: seq<Row>, keep: Row -> bool)
    requires forall r :: !keep(r)
    ensures RawSum(agg, rows, keep) == 0
    decreases |rows|
  {
    if rows != [] {
      RawSumNone(agg, rows[..|rows| - 1], keep);
    }
  }

  /**
   * Rolling hourly buckets up per day is counting directly: one entry for each
   * day of the range, in order, each with the raw count or fee sum of that UTC
   * day; together they are the raw total over the whole range.
   */
  lemma DailyIsDirect(agg: Aggregate, rows: seq<Row>, chain: string, denom: string, from: int, until: int)
    requires from <= until
    ensures var days := Daily(agg, Materialize(agg, rows), chain, denom, from, until);
            && |days| == until + 1 - from
            && (forall i :: 0 <= i < |days| ==> days[i] == Point(from + i, DayRaw(agg, rows, chain, denom, from + i)))
            && TotalOf(days) == RawSum(agg, rows, r => MineRaw(agg, chain, denom, r) && from <= DayOf(r.at) <= until)
  {
    DailyOverIsDirect(agg, rows, chain, denom, from, from, until);
  }

  // ----- The last 24 hours -----

  /** SUM over buckets with time_bucket >= now - 24 hours AND time_bucket < now */
  function Last24(agg: Aggregate, buckets: seq<Bucket>, chain: string, denom: string, now: int): int {
    BucketSum(buckets, k => Mine(agg, chain, denom, k) && now - DAY <= k.hour < now)
  }

  function Between(agg: Aggregate, rows: seq<Row>, chain: string, denom: string, from: int, until: int): int {
    RawSum(agg, rows, r => MineRaw(agg, chain, denom, r) && from <= r.at < until)
  }

  /** The first full hour at or after t. */
  function NextHour(t: int): int {
    HourOf(t + HOUR - 1)
  }

  lemma BucketWindow(t: int, from: int, until: int)
    ensures from <= HourOf(t) < until <==> NextHour(from) <= t < NextHour(until)
  {
    HourAgainst(t, from);
    HourAgainst(t, until);
  }

  lemma HourAgainst(t: int, bound: int)
    ensures bound <= HourOf(t) <==> NextHour(bound) <= t
  {
    var p, q := t / HOUR, bound / HOUR;
    var next := if bound == q * HOUR then q else q + 1;
    assert q * HOUR <= bound < q * HOUR + HOUR;
    HourIs(bound + HOUR - 1, next);
  }

  lemma BetweenSplits(agg: Aggregate, rows: seq<Row>, chain: string, denom: string, a: int, b: int, c: int)
    requires a <= b <= c
    ensures Between(agg, rows, chain, denom, a, c) ==
            Between(agg, rows, chain, denom, a, b) + Between(agg, rows, chain, denom, b, c)
  {
    RawSumSplits(agg, rows,
                 r => MineRaw(agg, chain, denom, r) && a <= r.at < b,
                 r => MineRaw(agg, chain, denom, r) && b <= r.at < c,
                 r => MineRaw(agg, chain, denom, r) && a <= r.at < c);
  }

  lemma Last24IsWholeHours(agg: Aggregate, rows: seq<Row>, chain: string, denom: string, now: int)
    ensures Last24(agg, Materialize(agg, rows), chain, denom, now)
            == Between(agg, rows, chain, denom, NextHour(now - DAY), NextHour(now))
  {
    var keep := (k: Key) => Mine(agg, chain, denom, k) && now - DAY <= k.hour < now;
    var from, until := NextHour(now - DAY), NextHour(now);
    MaterializeConserves(agg, rows, keep);
    forall i | 0 <= i < |rows|
      ensures keep(KeyOf(agg, rows[i])) == (MineRaw(agg, chain, denom, rows[i]) && from <= rows[i].at < until)
    {
      BucketWindow(rows[i].at, now - DAY, now);
    }
    RawSumAgrees(agg, rows, r => keep(KeyOf(agg, r)), r => MineRaw(agg, chain, denom, r) && from <= r.at < until);
  }

  /**
   * The 24-hour figure counts whole hours: it leaves out the rows of the started
   * hour 24 hours ago and takes in whatever the current hour already holds
   * beyond `now`. It is the true figure exactly when those two are equal.
   */
  lemma Last24Exactly(agg: Aggregate, rows: seq<Row>, chain: string, denom: string, now: int)
    ensures Last24(agg, Materialize(agg, rows), chain, denom, now)
            == Between(agg, rows, chain, denom, now - DAY, now) <==>
            Between(agg, rows, chain, denom, now - DAY, NextHour(now - DAY))
            == Between(agg, rows, chain, denom, now, NextHour(now))
    ensures HourOf(now) == now ==>
              Last24(agg, Materialize(agg, rows), chain, denom, now) == Between(agg, rows, chain, denom, now - DAY, now)
  {
    hide Between, Last24, NextHour, HourOf, Materialize;
    Last24IsWholeHours(agg, rows, chain, denom, now);
    NextHourWithin(now - DAY);
    NextHourWithin(now);
    BetweenSplits(agg, rows, chain, denom, now - DAY, NextHour(now - DAY), NextHour(now));
    BetweenSplits(agg, rows, chain, denom, now - DAY, now, NextHour(now));
  }

  lemma NextHourWithin(t: int)
    ensures t <= NextHour(t) < t + HOUR
    ensures HourOf(t) == t ==> NextHour(t) == t && HourOf(t - DAY) == t - DAY
    ensures NextHour(t - DAY) == NextHour(t) - DAY
  {
    var q := t / HOUR;
    var next := if t == q * HOUR then q else q + 1;
    HourIs(t, q);
    HourIs(t - DAY, q - 24);
    HourIs(t + HOUR - 1, next);
    HourIs(t - DAY + HOUR - 1, next - 24);
    hide HourOf;
  }

  lemma OneRow(agg: Aggregate, row: Row, keep: Row -> bool)
    ensures RawSum(agg, [row], keep) == if keep(row) then WeightOf(agg, row) else 0
    ensures Materialize(agg, [row]) == [Bucket(KeyOf(agg, row), WeightOf(agg, row))]
  {
    var rows := [row];
    assert rows[..|rows| - 1] == [];
    assert Materialize(agg, []) == [];
  }

  lemma OneBucket(b: Bucket, keep: Key -> bool)
    ensures BucketSum([b], keep) == if keep(b.key) then b.value else 0
  {
  }

  /** A transaction 23 hours and 45 minutes old can be missing from the 24-hour count. */
  lemma Last24MissesARow(row: Row)
    requires 30 * 60 * SECOND <= row.at < HOUR
    ensures var now := DAY + 30 * 60 * SECOND;
            && Between(Counter, [row], row.chain, "", now - DAY, now) == 1
            && Last24(Counter, Materialize(Counter, [row]), row.chain, "", now) == 0
  {
    var now := DAY + 30 * 60 * SECOND;
    OneRow(Counter, row, r => MineRaw(Counter, row.chain, "", r) && now - DAY <= r.at < now);
    assert KeyOf(Counter, row) == Key(0, row.chain, "");
    OneBucket(Bucket(Key(0, row.chain, ""), 1), k => Mine(Counter, row.chain, "", k) && now - DAY <= k.hour < now);
  }

  // ----- Fees per denomination -----

  /** SELECT DISTINCT denom among the chain's buckets. */
  function Denoms(buckets: seq<Bucket>, chain: string): set<string> {
    set k | k in Keys(buckets) && k.chain == chain :: k.denom
  }

  /** `GetVolumeByDate`: a daily series for each denomination met in the range. */
  function VolumeByDate(buckets: seq<Bucket>, chain: string, from: int, until: int): map<string, seq<Point>> {
    map denom | denom in Denoms(Filter(buckets, chain, from * DAY, EndOf(until)), chain)
      :: Daily(FeeVolume, buckets, chain, denom, from, until)
  }

  predicate HasFee(rows: seq<Row>, chain: string, denom: string, from: int, until: int) {
    exists i :: 0 <= i < |rows| && MineRaw(FeeVolume, chain, denom, rows[i]) && from <= DayOf(rows[i].at) <= until
  }

  lemma {:induction false} FilterKeys(buckets: seq<Bucket>, chain: string, from: int, until: int, k: Key)
    ensures k in Keys(Filter(buckets, chain, from, until)) <==>
              k in Keys(buckets) && k.chain == chain && from <= k.hour <= until
  {
    if buckets != [] {
      FilterKeys(buckets[1..], chain, from, until, k);
      var rest := Filter(buckets[1..], chain, from, until);
      assert [buckets[0]] + rest == [buckets[0]] + rest && ([buckets[0]] + rest)[1..] == rest;
      if buckets[0].key.chain == chain && from <= buckets[0].key.hour <= until {
        assert Filter(buckets, chain, from, until) == [buckets[0]] + rest;
      } else {
        assert Filter(buckets, chain, from, until) == rest;
      }
    }
  }

  /** An hour starts inside the filter exactly when its day is in the range. */
  lemma HourInRangeIff(h: int, from: int, until: int)
    requires HourOf(h) == h
    ensures from * DAY <= h <= EndOf(until) <==> from <= DayOf(h) <= until
  {
    HoursOfDay(h);
    hide DayOf, HourOf;
  }

  lemma DenomListedIff(rows: seq<Row>, chain: string, from: int, until: int, denom: string)
    ensures denom in Denoms(Filter(Materialize(FeeVolume, rows), chain, from * DAY, EndOf(until)), chain)
            <==> HasFee(rows, chain, denom, from, until)
  {
    var buckets := Materialize(FeeVolume, rows);
    var filtered := Filter(buckets, chain, from * DAY, EndOf(until));
    MaterializeConserves(FeeVolume, rows, _ => true);
    hide Materialize, Filter, Keys, HourOf, DayOf, EndOf;
    if denom in Denoms(filtered, chain) {
      var k :| k in Keys(filtered) && k.chain == chain && k.denom == denom;
      FilterKeys(buckets, chain, from * DAY, EndOf(until), k);
      var i :| 0 <= i < |rows| && KeyOf(FeeVolume, rows[i]) == k;
      KeyInRangeIff(rows[i], from, until);
      assert MineRaw(FeeVolume, chain, denom, rows[i]);
    }
    if HasFee(rows, chain, denom, from, until) {
      var i :| 0 <= i < |rows| && MineRaw(FeeVolume, chain, denom, rows[i]) && from <= DayOf(rows[i].at) <= until;
      var k := KeyOf(FeeVolume, rows[i]);
      KeyInRangeIff(rows[i], from, until);
      FilterKeys(buckets, chain, from * DAY, EndOf(until), k);
      assert k in Keys(filtered) && k.chain == chain && k.denom == denom;
    }
  }

  lemma KeyInRangeIff(r: Row, from: int, until: int)
    ensures from * DAY <= KeyOf(FeeVolume, r).hour <= EndOf(until) <==> from <= DayOf(r.at) <= until
  {
    HourInDay(r.at);
    HourOfHour(r.at);
    HourInRangeIff(HourOf(r.at), from, until);
    hide DayOf, HourOf;
  }

  /**
   * Exactly the denominations that paid a fee in the range have a series, and
   * every series is the direct one.
   */
  lemma VolumeByDateIsDirect(rows: seq<Row>, chain: string, from: int, until: int, denom: string)
    requires from <= until
    ensures var volumes := VolumeByDate(Materialize(FeeVolume, rows), chain, from, until);
            && (denom in volumes <==> HasFee(rows, chain, denom, from, until))
            && (denom in volumes ==>
                  && |volumes[denom]| == until + 1 - from
                  && forall i :: 0 <= i < |volumes[denom]| ==>
                       volumes[denom][i] == Point(from + i, DayRaw(FeeVolume, rows, chain, denom, from + i)))
  {
    hide Materialize, Filter, Denoms, HasFee, Daily, DayRaw, EndOf;
    DailyIsDirect(FeeVolume, rows, chain, denom, from, until);
    DenomListedIff(rows, chain, from, until, denom);
  }

  // ----- Fees by the hour -----

  /** `GetVolumeByHour`: every hour from the one `from` lies in to the one `until` lies in. */
  function VolumeByHour(buckets: seq<Bucket>, chain: string, denom: string, from: int, until: int): seq<Point> {
    Hours(buckets, chain, denom, HourOf(from), HourOf(until))
  }

  function Hours(buckets: seq<Bucket>, chain: string, denom: string, h: int, last: int): seq<Point>
    decreases last - h
  {
    if h > last then []
    else
      [Point(h, BucketSum(buckets, k => Mine(FeeVolume, chain, denom, k) && k.hour == h))]
        + Hours(buckets, chain, denom, h + HOUR, last)
  }

  lemma {:induction false} HoursAreDirect(rows: seq<Row>, chain: string, denom: string, h: int, last: int)
    requires HourOf(h) == h && HourOf(last) == last && h <= last + HOUR
    ensures var hours := Hours(Materialize(FeeVolume, rows), chain, denom, h, last);
            && |hours| * HOUR == last + HOUR - h
            && (forall i :: 0 <= i < |hours| ==>
                  hours[i] == Point(h + i * HOUR,
                                    Between(FeeVolume, rows, chain, denom, h + i * HOUR, h + (i + 1) * HOUR)))
            && TotalOf(hours) == Between(FeeVolume, rows, chain, denom, h, last + HOUR)
    decreases last - h
  {
    var buckets := Materialize(FeeVolume, rows);
    if h == last + HOUR {
      RawSumNone(FeeVolume, rows, r => MineRaw(FeeVolume, chain, denom, r) && h <= r.at < h);
    } else {
      FullHours(h, last);
      HourIsDirect(rows, chain, denom, h);
      HoursAreDirect(rows, chain, denom, h + HOUR, last);
      BetweenSplits(FeeVolume, rows, chain, denom, h, h + HOUR, last + HOUR);
      HoursStep(buckets, chain, denom, h, last);
    }
  }

  lemma HoursStep(buckets: seq<Bucket>, chain: string, denom: string, h: int, last: int)
    requires h <= last
    ensures var hours := Hours(buckets, chain, denom, h, last);
            var rest := Hours(buckets, chain, denom, h + HOUR, last);
            && |hours| == |rest| + 1 && hours[1..] == rest
            && hours[0] == Point(h, BucketSum(buckets, k => Mine(FeeVolume, chain, denom, k) && k.hour == h))
            && (forall i :: 0 < i < |hours| ==> hours[i] == rest[i - 1])
            && TotalOf(hours) == hours[0].value + TotalOf(rest)
  {
    var hours := Hours(buckets, chain, denom, h, last);
    assert hours[1..] == Hours(buckets, chain, denom, h + HOUR, last);
  }

  lemma FullHours(h: int, last: int)
    requires HourOf(h) == h && HourOf(last) == last && h <= last + HOUR && h != last + HOUR
    ensures h <= last && HourOf(h + HOUR) == h + HOUR
  {
    HourIs(h + HOUR, h / HOUR + 1);
  }

  lemma HourOfHour(t: int)
    ensures HourOf(HourOf(t)) == HourOf(t)
  {
    HourIs(HourOf(t), t / HOUR);
  }

  /**
   * Every hour's figure is the direct sum of that hour, whole hours at both ends,
   * so that together they are the raw fees between two full hours.
   */
  lemma VolumeByHourIsDirect(rows: seq<Row>, chain: string, denom: string, from: int, until: int)
    requires HourOf(from) <= HourOf(until)
    ensures var hours := VolumeByHour(Materialize(FeeVolume, rows), chain, denom, from, until);
            && |hours| * HOUR == HourOf(until) + HOUR - HourOf(from)
            && (forall i :: 0 <= i < |hours| ==>
                  hours[i] == Point(HourOf(from) + i * HOUR,
                                       Between(FeeVolume, rows, chain, denom,
                                               HourOf(from) + i * HOUR, HourOf(from) + (i + 1) * HOUR)))
            && TotalOf(hours) == Between(FeeVolume, rows, chain, denom, HourOf(from), HourOf(until) + HOUR)
  {
    HourOfHour(from);
    HourOfHour(until);
    hide HourOf, Hours, Between, Materialize;
    HoursAreDirect(rows, chain, denom, HourOf(from), HourOf(until));
  }

  /** All of `GetVolumeByHour`: the hours crossed with every denomination the chain has ever paid fees in. */
  function VolumesByHour(buckets: seq<Bucket>, chain: string, from: int, until: int): map<string, seq<Point>> {
    if HourOf(from) > HourOf(until) then map[]
    else map denom | denom in Denoms(buckets, chain) :: VolumeByHour(buckets, chain, denom, from, until)
  }

  predicate EverPaid(rows: seq<Row>, chain: string, denom: string) {
    exists i :: 0 <= i < |rows| && MineRaw(FeeVolume, chain, denom, rows[i])
  }

  lemma DenomEverListedIff(rows: seq<Row>, chain: string, denom: string)
    ensures denom in Denoms(Materialize(FeeVolume, rows), chain) <==> EverPaid(rows, chain, denom)
  {
    var buckets := Materialize(FeeVolume, rows);
    MaterializeConserves(FeeVolume, rows, _ => true);
    hide Materialize, Keys, HourOf;
    if denom in Denoms(buckets, chain) {
      var k :| k in Keys(buckets) && k.chain == chain && k.denom == denom;
      var i :| 0 <= i < |rows| && KeyOf(FeeVolume, rows[i]) == k;
      assert MineRaw(FeeVolume, chain, denom, rows[i]);
    }
    if EverPaid(rows, chain, denom) {
      var i :| 0 <= i < |rows| && MineRaw(FeeVolume, chain, denom, rows[i]);
      var k := KeyOf(FeeVolume, rows[i]);
      assert k in Keys(buckets) && k.chain == chain && k.denom == denom;
    }
  }

  /**
   * The hourly answer: a series for exactly the denominations the chain ever paid fees in, inside the range or not,
   * and none when the range is empty; every series has one direct figure per hour.
   */
  lemma VolumesByHourAreDirect(rows: seq<Row>, chain: string, from: int, until: int, denom: string)
    ensures var volumes := VolumesByHour(Materialize(FeeVolume, rows), chain, from, until);
            && (denom in volumes <==> HourOf(from) <= HourOf(until) && EverPaid(rows, chain, denom))
            && (denom in volumes ==>
                  && |volumes[denom]| * HOUR == HourOf(until) + HOUR - HourOf(from)
                  && forall i :: 0 <= i < |volumes[denom]| ==>
                       volumes[denom][i] ==
                       Point(HourOf(from) + i * HOUR,
                             Between(FeeVolume, rows, chain, denom,
                                     HourOf(from) + i * HOUR, HourOf(from) + (i + 1) * HOUR)))
  {
    hide HourOf, Between, Materialize, Denoms, VolumeByHour, EverPaid;
    DenomEverListedIff(rows, chain, denom);
    if HourOf(from) <= HourOf(until) {
      VolumeByHourIsDirect(rows, chain, denom, from, until);
    }
  }

  lemma HourIsDirect(rows: seq<Row>, chain: string, denom: string, h: int)
    requires HourOf(h) == h
    ensures BucketSum(Materialize(FeeVolume, rows), k => Mine(FeeVolume, chain, denom, k) && k.hour == h)
            == Between(FeeVolume, rows, chain, denom, h, h + HOUR)
  {
    var keep := (k: Key) => Mine(FeeVolume, chain, denom, k) && k.hour == h;
    MaterializeConserves(FeeVolume, rows, keep);
    forall i | 0 <= i < |rows|
      ensures keep(KeyOf(FeeVolume, rows[i])) ==
              (MineRaw(FeeVolume, chain, denom, rows[i]) && h <= rows[i].at < h + HOUR)
    {
      HourIff(rows[i].at, h);
    }
    RawSumAgrees(FeeVolume, rows, r => keep(KeyOf(FeeVolume, r)),
                 r => MineRaw(FeeVolume, chain, denom, r) && h <= r.at < h + HOUR);
  }

  lemma HourIff(t: int, h: int)
    requires HourOf(h) == h
    ensures HourOf(t) == h <==> h <= t < h + HOUR
  {
    if h <= t < h + HOUR {
      HourIs(t, h / HOUR);
    }
  }
}
