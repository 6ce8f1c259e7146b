/** The relay's token bucket per origin: a burst of twenty, then five requests a second. */
module TokenBuckets {
  const CAPACITY: real := 20.0
  const REFILL_PER_SECOND: real := 5.0

  type Origin = nat
  datatype Bucket = Bucket(tokens: real, updated: real)
  type Buckets = map<Origin, Bucket>

  function Refill(elapsed: real): real {
    elapsed / 1000.0 * REFILL_PER_SECOND
  }

  function Refilled(b: Bucket, now: real): Bucket {
    var elapsed := if now - b.updated > 0.0 then now - b.updated else 0.0;
    var tokens := b.tokens + Refill(elapsed);
    Bucket(if tokens < CAPACITY then tokens else CAPACITY, now)
  }

  /** One request for an origin: admitted if a whole token is left. */
  function Taken(buckets: Buckets, key: Origin, now: real): (bool, Buckets) {
    var b := if key in buckets then Refilled(buckets[key], now) else Bucket(CAPACITY, now);
    if b.tokens < 1.0 then (false, buckets[key := b]) else (true, buckets[key := b.(tokens := b.tokens - 1.0)])
  }

  /** The tokens an origin has at that time, before it asks. */
  function Level(buckets: Buckets, key: Origin, now: real): real {
    if key in buckets then Refilled(buckets[key], now).tokens else CAPACITY
  }

  ghost predicate InRange(buckets: Buckets) {
    forall key :: key in buckets ==> 0.0 <= buckets[key].tokens <= CAPACITY
  }

  class OriginBuckets {
    var buckets: Buckets

    constructor ()
      ensures buckets == map[]
    {
      buckets := map[];
    }

    /** Admits a request exactly if a whole token is there once the bucket is refilled, and takes it.
        No other origin's bucket changes, and no bucket ever leaves its range. */
    method Take(key: Origin, now: real) returns (admitted: bool)
      modifies this
      ensures (admitted, buckets) == Taken(old(buckets), key, now)
      ensures admitted <==> Level(old(buckets), key, now) >= 1.0
      ensures buckets.Keys == old(buckets).Keys + {key}
      ensures buckets[key] == Bucket(Level(old(buckets), key, now) - (if admitted then 1.0 else 0.0), now)
      ensures forall other :: other in old(buckets) && other != key ==> buckets[other] == old(buckets)[other]
      ensures InRange(old(buckets)) ==> InRange(buckets)
    {
      var bucket := Bucket(CAPACITY, now);
      if key in buckets {
        bucket := buckets[key];
        var elapsed := if now - bucket.updated > 0.0 then now - bucket.updated else 0.0;
        var refill := elapsed / 1000.0 * REFILL_PER_SECOND;
        bucket := bucket.(tokens := if bucket.tokens + refill < CAPACITY then bucket.tokens + refill else CAPACITY);
        bucket := bucket.(updated := now);
      }
      if bucket.tokens < 1.0 {
        buckets := buckets[key := bucket];
        return false;
      }
      bucket := bucket.(tokens := bucket.tokens - 1.0);
      buckets := buckets[key := bucket];
      admitted := true;
    }
  }

  // ---- Whole runs -----------------------------------------------------------------------------

  datatype Request = Request(key: Origin, time: real)

  function After(requests: seq<Request>): Buckets {
    if requests == [] then map[]
    else
      var last := requests[|requests| - 1];
      Taken(After(requests[..|requests| - 1]), last.key, last.time).1
  }

  predicate Admits(requests: seq<Request>, last: Request) {
    Taken(After(requests), last.key, last.time).0
  }

  /** How many requests for the origin were admitted from `from` to `to`, both included. */
  function Admitted(requests: seq<Request>, key: Origin, from: real, to: real): nat {
    if requests == [] then 0
    else
      var before, last := requests[..|requests| - 1], requests[|requests| - 1];
      Admitted(before, key, from, to)
      + if last.key == key && from <= last.time <= to && Admits(before, last) then 1 else 0
  }

  ghost predicate Ordered(requests: seq<Request>) {
    forall i, j :: 0 <= i < j < |requests| ==> requests[i].time <= requests[j].time
  }

  ghost predicate NotAfter(requests: seq<Request>, to: real) {
    forall i :: 0 <= i < |requests| ==> requests[i].time <= to
  }

  /** Tokens stay between none and a full bucket, whatever the clock does. */
  lemma {:induction false} TokensInRange(requests: seq<Request>, key: Origin)
    ensures key in After(requests) ==> 0.0 <= After(requests)[key].tokens <= CAPACITY
  {
    if requests != [] {
      TokensInRange(requests[..|requests| - 1], key);
    }
  }

  /** The bucket was last touched by some request for its origin. */
  lemma {:induction false} UpdatedBefore(requests: seq<Request>, key: Origin, to: real)
    requires NotAfter(requests, to)
    ensures key in After(requests) ==> After(requests)[key].updated <= to
  {
    if requests != [] {
      UpdatedBefore(requests[..|requests| - 1], key, to);
      hide Refilled;
    }
  }

  function Since(from: real, updated: real): real {
    if updated >= from then Refill(updated - from) else 0.0
  }

  /** The potential: what was admitted since `from`, and what is left, never exceeds a full bucket
      and what was refilled since. */
  lemma {:induction false} Potential(requests: seq<Request>, key: Origin, from: real, to: real)
    requires Ordered(requests) && NotAfter(requests, to)
    ensures key !in After(requests) ==> Admitted(requests, key, from, to) == 0
    ensures key in After(requests) ==>
      var b := After(requests)[key];
      && Admitted(requests, key, from, to) as real + b.tokens <= CAPACITY + Since(from, b.updated)
      && (b.updated < from ==> Admitted(requests, key, from, to) == 0)
  {
    if requests != [] {
      var before, last := requests[..|requests| - 1], requests[|requests| - 1];
      Potential(before, key, from, to);
      TokensInRange(before, key);
      UpdatedBefore(before, key, last.time);
      if last.key == key {
        var buckets, n := After(before), Admitted(before, key, from, to) as real;
        hide After, Admitted, Ordered, NotAfter;
        if key in buckets { PotentialStep(buckets[key], n, from, last.time); }
      }
    }
  }

  /** Refilling adds no more than the time since allows. */
  lemma PotentialStep(b: Bucket, n: real, from: real, now: real)
    requires b.updated <= now && 0.0 <= b.tokens <= CAPACITY
    requires n + b.tokens <= CAPACITY + Since(from, b.updated) && (b.updated < from ==> n == 0.0)
    ensures n + Refilled(b, now).tokens <= CAPACITY + Since(from, now)
  {
    if b.updated >= from {
      assert Refill(now - from) == Refill(now - b.updated) + Refill(b.updated - from);
    }
  }

  /** In any interval an origin is admitted at most a full bucket and the interval's refill. */
  lemma {:induction false} BurstThenRate(requests: seq<Request>, key: Origin, from: real, to: real)
    requires Ordered(requests) && from <= to
    ensures Admitted(requests, key, from, to) as real <= CAPACITY + Refill(to - from)
  {
    if requests != [] && requests[|requests| - 1].time > to {
      BurstThenRate(requests[..|requests| - 1], key, from, to);
    } else {
      NoneAfter(requests, to);
      Potential(requests, key, from, to);
      TokensInRange(requests, key);
      UpdatedBefore(requests, key, to);
      hide After, Admitted;
      if key in After(requests) { SinceGrows(from, After(requests)[key].updated, to); }
    }
  }

  lemma NoneAfter(requests: seq<Request>, to: real)
    requires Ordered(requests) && (requests != [] ==> requests[|requests| - 1].time <= to)
    ensures NotAfter(requests, to)
  {
    forall i | 0 <= i < |requests|
      ensures requests[i].time <= to
    {
      if i < |requests| - 1 { assert requests[i].time <= requests[|requests| - 1].time; }
    }
  }

  lemma SinceGrows(from: real, updated: real, to: real)
    requires from <= to && updated <= to
    ensures 0.0 <= Since(from, updated) <= Refill(to - from)
  {
  }

  // ---- A clock that steps back ------------------------------------------------------------------

  function Burst(key: Origin, time: real, n: nat): seq<Request> {
    if n == 0 then [] else Burst(key, time, n - 1) + [Request(key, time)]
  }

  lemma OneMore(requests: seq<Request>, last: Request)
    ensures After(requests + [last]) == Taken(After(requests), last.key, last.time).1
    ensures forall from, to ::
      Admitted(requests + [last], last.key, from, to) ==
        Admitted(requests, last.key, from, to)
        + if from <= last.time <= to && Level(After(requests), last.key, last.time) >= 1.0 then 1 else 0
  {
    assert (requests + [last])[..|requests|] == requests;
  }

  /** A bucket that is full when a burst begins admits twenty of it. */
  lemma {:induction false} FullBurst(requests: seq<Request>, key: Origin, time: real, n: nat)
    requires Level(After(requests), key, time) == CAPACITY && n <= 20
    ensures Level(After(requests + Burst(key, time, n)), key, time) == CAPACITY - n as real
    ensures n > 0 ==>
      var b := After(requests + Burst(key, time, n)); key in b && b[key] == Bucket(CAPACITY - n as real, time)
    ensures forall from, to :: from <= time <= to ==>
      Admitted(requests + Burst(key, time, n), key, from, to) == Admitted(requests, key, from, to) + n
  {
    if n == 0 {
      assert requests + Burst(key, time, 0) == requests;
    } else {
      FullBurst(requests, key, time, n - 1);
      var before := requests + Burst(key, time, n - 1);
      assert requests + Burst(key, time, n) == before + [Request(key, time)];
      OneMore(before, Request(key, time));
      TakenFrom(After(before), key, time);
      hide After, Admitted, Burst, Taken, Level;
    }
  }

  /** A request that is admitted at a level of at least a token, and one that is not. */
  lemma TakenFrom(buckets: Buckets, key: Origin, time: real)
    requires Level(buckets, key, time) <= CAPACITY
    ensures var after, level := Taken(buckets, key, time).1, Level(buckets, key, time);
      && key in after && after[key] == Bucket(if level >= 1.0 then level - 1.0 else level, time)
      && Level(after, key, time) == after[key].tokens
  {
    assert Refill(0.0) == 0.0;
  }

  /** What is there later, however the clock went in between. */
  lemma LevelLater(buckets: Buckets, key: Origin, time: real)
    requires key in buckets && buckets[key].tokens <= CAPACITY
    ensures time <= buckets[key].updated ==> Level(buckets, key, time) == buckets[key].tokens
    ensures time > buckets[key].updated ==>
      var tokens := buckets[key].tokens + Refill(time - buckets[key].updated);
      Level(buckets, key, time) == if tokens < CAPACITY then tokens else CAPACITY
  {
    assert Refill(0.0) == 0.0;
  }

  /** Twenty requests, one at an earlier reading, and the run's end at a third. */
  function SteppingBack(key: Origin, u: real, v: real): seq<Request> {
    Burst(key, u, 20) + [Request(key, v)]
  }

  /** A burst empties the bucket; one request at an earlier reading then only sets the bucket's clock
      back, so that the same time is refilled twice. */
  lemma StepBackRefills(key: Origin, u: real, v: real)
    requires v < u
    ensures var b := After(SteppingBack(key, u, v)); key in b && b[key] == Bucket(0.0, v)
    ensures forall from, to :: from <= u <= to ==> Admitted(SteppingBack(key, u, v), key, from, to) == 20
  {
    FullBurst([], key, u, 20);
    assert [] + Burst(key, u, 20) == Burst(key, u, 20);
    var emptied := After(Burst(key, u, 20));
    LevelLater(emptied, key, v);
    OneMore(Burst(key, u, 20), Request(key, v));
    TakenFrom(emptied, key, v);
    assert forall from, to :: Admitted([], key, from, to) == 0;
    hide After, Admitted, Burst, Taken, Level;
  }

  /** With a clock that steps back the bound fails: twenty requests at one instant, one four seconds
      earlier, and twenty more at the first instant are all admitted but that one: forty at once. */
  lemma BackwardClock(key: Origin)
    ensures Admitted(SteppingBack(key, 4000.0, 0.0) + Burst(key, 4000.0, 20), key, 4000.0, 4000.0) == 40
  {
    var before := SteppingBack(key, 4000.0, 0.0);
    StepBackRefills(key, 4000.0, 0.0);
    LevelLater(After(before), key, 4000.0);
    assert Refill(4000.0) == 20.0;
    FullBurst(before, key, 4000.0, 20);
    hide After, Admitted, Burst, SteppingBack;
  }

  /** The later of the first reading and the moment a token is there again. */
  function TokenBack(u: real, v: real): real {
    if u > v + 200.0 then u else v + 200.0
  }

  /** Any step back, however small, lets one request too many through. */
  lemma AnyStepBackExceeds(key: Origin, u: real, v: real)
    requires v < u
    ensures var to := TokenBack(u, v); var requests := SteppingBack(key, u, v) + [Request(key, to)];
      u <= to && Admitted(requests, key, u, to) as real > CAPACITY + Refill(to - u)
  {
    var before, to := SteppingBack(key, u, v), TokenBack(u, v);
    StepBackRefills(key, u, v);
    LevelLater(After(before), key, to);
    OneMore(before, Request(key, to));
    assert Refill(200.0) == 1.0 && Refill(to - v) >= 1.0;
    assert Refill(to - u) < 1.0;
    hide After, Admitted, SteppingBack, Refilled, Taken;
  }

  /** Readings in order, but for one step from `u` to `v`. */
  ghost predicate OneStep(requests: seq<Request>, u: real, v: real, i: nat) {
    && i + 1 < |requests| && requests[i].time == u && requests[i + 1].time == v
    && Ordered(requests[..i + 1]) && Ordered(requests[i + 1..])
  }

  ghost predicate Bounded(requests: seq<Request>, key: Origin) {
    forall from, to :: from <= to ==> Admitted(requests, key, from, to) as real <= CAPACITY + Refill(to - from)
  }

  /** The bound survives a step of the clock from `u` to `v`, in every run with that step, exactly if
      it is not a step back. */
  lemma ClockExactly(key: Origin, u: real, v: real)
    ensures (forall requests, i :: OneStep(requests, u, v, i) ==> Bounded(requests, key)) <==> u <= v
  {
    if u <= v {
      forall requests, i | OneStep(requests, u, v, i)
        ensures Bounded(requests, key)
      {
        OneStepOrdered(requests, u, v, i);
        forall from: real, to: real | from <= to
          ensures Admitted(requests, key, from, to) as real <= CAPACITY + Refill(to - from)
        {
          BurstThenRate(requests, key, from, to);
        }
      }
    } else {
      AnyStepBackExceeds(key, u, v);
      var requests := SteppingBack(key, u, v) + [Request(key, TokenBack(u, v))];
      BurstTimes(key, u, 20);
      assert OneStep(requests, u, v, 19);
      assert !Bounded(requests, key);
    }
  }

  lemma OneStepOrdered(requests: seq<Request>, u: real, v: real, i: nat)
    requires OneStep(requests, u, v, i) && u <= v
    ensures Ordered(requests)
  {
    var front, back := requests[..i + 1], requests[i + 1..];
    forall j, k | 0 <= j < k < |requests|
      ensures requests[j].time <= requests[k].time
    {
      assert j <= i ==> front[j] == requests[j] && (j < i ==> front[j].time <= front[i].time);
      assert k > i ==> back[k - i - 1] == requests[k] && (k > i + 1 ==> back[0].time <= back[k - i - 1].time);
      if k <= i { assert front[j].time <= front[k].time; }
      if j > i { assert back[j - i - 1].time <= back[k - i - 1].time; }
    }
  }

  lemma {:induction false} BurstTimes(key: Origin, time: real, n: nat)
    ensures |Burst(key, time, n)| == n && forall i :: 0 <= i < n ==> Burst(key, time, n)[i].time == time
  {
    if n > 0 { BurstTimes(key, time, n - 1); }
  }
}
