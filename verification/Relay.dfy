/** The relay: one admission, then redirects followed and checked hop by hop, each hop fetched at
    most twice. */
module Relays {
  import opened Options
  import opened TokenBuckets

  type Url = nat

  datatype Response = Response(status: nat, location: Option<Url>)

  /** What the relay meets: the policy, how a location resolves, whether the origin has a key, the
      network's answers in order of the calls, and the aborts seen at each check. */
  datatype World = World(
    allowed: Url -> bool,
    resolve: (Url, Url) -> Option<Url>,
    origin: Url -> Option<Origin>,
    fetch: nat -> Option<Response>,
    aborted: nat -> bool)

  datatype Outcome =
    | Refused(status: nat)
    | Interrupted
    | NetworkError
    | MissingLocation
    | RedirectLimit
    | BadRedirect
    | RedirectDenied
    | NotModified
    | Relayed(status: nat, url: Url)

  datatype Fetch = Fetch(hop: nat, url: Url)

  // ---- What a run may look like -----------------------------------------------------------------

  predicate IsRedirect(status: nat) {
    300 <= status <= 399 && status != 304
  }

  /** The second of two calls in a row: the same hop again after its first answer was 429, or the
      next hop, which is where the answer redirected to and which the policy allows. */
  ghost predicate Continues(w: World, calls: seq<Fetch>, i: nat)
    requires 0 < i < |calls|
  {
    var before, call, answer := calls[i - 1], calls[i], w.fetch(i - 1);
    && answer.Some?
    && if call.hop == before.hop then
         call.url == before.url && answer.value.status == 429 && (i >= 2 ==> calls[i - 2].hop != call.hop)
       else
         && call.hop == before.hop + 1 && IsRedirect(answer.value.status) && answer.value.status != 304
         && answer.value.location.Some?
         && w.resolve(before.url, answer.value.location.value) == Some(call.url)
  }

  ghost predicate IsRun(w: World, target: Url, maxRedirects: nat, calls: seq<Fetch>) {
    && (calls != [] ==> calls[0] == Fetch(0, target))
    && (forall i :: 0 <= i < |calls| ==> w.allowed(calls[i].url) && calls[i].hop <= maxRedirects)
    && (forall i :: 0 < i < |calls| ==> Continues(w, calls, i))
  }

  /** How many calls a run makes for hops up to its last. */
  lemma {:induction false} TwoCallsAHop(w: World, target: Url, maxRedirects: nat, calls: seq<Fetch>)
    requires IsRun(w, target, maxRedirects, calls) && calls != []
    ensures |calls| <= 2 * calls[|calls| - 1].hop + 2
    ensures |calls| >= 2 && calls[|calls| - 2].hop != calls[|calls| - 1].hop ==>
      |calls| <= 2 * calls[|calls| - 1].hop + 1
    ensures |calls| == 1 ==> calls[0].hop == 0
  {
    var n := |calls| - 1;
    if n > 0 {
      var shorter := calls[..n];
      forall i | 0 < i < |shorter|
        ensures Continues(w, shorter, i)
      {
        assert Continues(w, calls, i);
      }
      TwoCallsAHop(w, target, maxRedirects, shorter);
      assert Continues(w, calls, n);
    }
  }

  /** No run makes more than two calls for each hop it may follow. */
  lemma CallsAreBounded(w: World, target: Url, maxRedirects: nat, calls: seq<Fetch>)
    requires IsRun(w, target, maxRedirects, calls)
    ensures |calls| <= 2 * (maxRedirects + 1)
  {
    if calls != [] { TwoCallsAHop(w, target, maxRedirects, calls); }
  }

  /** An abort was seen at one of these checks. */
  ghost predicate SeenBetween(w: World, from: nat, to: nat) {
    exists k: nat :: from <= k < to && w.aborted(k)
  }

  /** The outcome agrees with the last answer, or an abort was seen at one of the checks. */
  ghost predicate Agrees(w: World, maxRedirects: nat, calls: seq<Fetch>, checks: nat, outcome: Outcome) {
    var n := |calls| - 1;
    match outcome
    case Relayed(status, url) =>
      && calls != [] && w.fetch(n).Some? && status == w.fetch(n).value.status && url == calls[n].url
      && !IsRedirect(status) && status != 304
      && (status == 429 ==> n > 0 && calls[n - 1].hop == calls[n].hop)
    case NotModified => calls != [] && w.fetch(n).Some? && w.fetch(n).value.status == 304
    case RedirectLimit =>
      && calls != [] && w.fetch(n).Some? && IsRedirect(w.fetch(n).value.status)
      && w.fetch(n).value.location.Some? && calls[n].hop == maxRedirects
    case MissingLocation =>
      calls != [] && w.fetch(n).Some? && IsRedirect(w.fetch(n).value.status) && w.fetch(n).value.location.None?
    case RedirectDenied =>
      && calls != [] && w.fetch(n).Some? && IsRedirect(w.fetch(n).value.status) && calls[n].hop < maxRedirects
      && w.fetch(n).value.location.Some?
      && w.resolve(calls[n].url, w.fetch(n).value.location.value).Some?
      && !w.allowed(w.resolve(calls[n].url, w.fetch(n).value.location.value).value)
    case BadRedirect =>
      && calls != [] && w.fetch(n).Some? && IsRedirect(w.fetch(n).value.status) && calls[n].hop < maxRedirects
      && w.fetch(n).value.location.Some?
      && w.resolve(calls[n].url, w.fetch(n).value.location.value).None?
    case Refused(_) => calls == []
    case NetworkError => calls != [] && w.fetch(n).None?
    case Interrupted => exists k: nat :: k < checks && w.aborted(k)
  }

  lemma Appended(w: World, target: Url, maxRedirects: nat, calls: seq<Fetch>, call: Fetch)
    requires IsRun(w, target, maxRedirects, calls) && w.allowed(call.url) && call.hop <= maxRedirects
    requires calls == [] ==> call == Fetch(0, target)
    requires calls != [] ==> Continues(w, calls + [call], |calls|)
    ensures IsRun(w, target, maxRedirects, calls + [call])
  {
    var next := calls + [call];
    forall i | 0 < i < |next|
      ensures Continues(w, next, i)
    {
      if i < |calls| { assert Continues(w, calls, i); }
    }
  }

  // ---- The relay -------------------------------------------------------------------------------

  class Relay {
    const buckets: OriginBuckets
    const maxRedirects: nat
    var calls: seq<Fetch>
    var checks: nat

    constructor (buckets: OriginBuckets, maxRedirects: nat)
      ensures this.buckets == buckets && this.maxRedirects == maxRedirects && calls == [] && checks == 0
    {
      this.buckets, this.maxRedirects := buckets, maxRedirects;
      calls, checks := [], 0;
    }

    method Aborted(w: World) returns (r: bool)
      modifies this`checks
      ensures checks == old(checks) + 1 && r == w.aborted(old(checks))
    {
      r := w.aborted(checks);
      checks := checks + 1;
    }

    /** Fetches one hop, once more after a 429. */
    method FetchWithRetry(w: World, target: Url, hop: nat, current: Url) returns (r: Result<Response, Outcome>)
      requires IsRun(w, target, maxRedirects, calls) && w.allowed(current) && hop <= maxRedirects
      requires if calls == [] then hop == 0 && current == target
               else Continues(w, calls + [Fetch(hop, current)], |calls|)
      requires calls != [] ==> calls[|calls| - 1].hop != hop
      modifies this`calls, this`checks
      ensures IsRun(w, target, maxRedirects, calls)
      ensures calls != [] && calls[|calls| - 1] == Fetch(hop, current)
      ensures r.Ok? ==>
        && w.fetch(|calls| - 1) == Some(r.value)
        && (r.value.status == 429 ==> |calls| >= 2 && calls[|calls| - 2].hop == hop)
      ensures r.Err? ==> Agrees(w, maxRedirects, calls, checks, r.error) && !r.error.Refused?
      ensures r.Err? ==> r.error.Interrupted? || r.error.NetworkError?
      ensures (r.Err? && r.error.Interrupted?) <==> SeenBetween(w, old(checks), checks)
      ensures checks - old(checks) == |calls| - |old(calls)| - (if r.Err? then 0 else 1)
    {
      var attempts := 0;
      while true
        invariant attempts <= 1 && IsRun(w, target, maxRedirects, calls)
        invariant checks == old(checks) + attempts && !SeenBetween(w, old(checks), checks)
        invariant attempts == 0 ==> calls == old(calls)
        invariant attempts == 1 ==>
          && |calls| == |old(calls)| + 1 && calls == old(calls) + [Fetch(hop, current)]
          && w.fetch(|calls| - 1).Some? && w.fetch(|calls| - 1).value.status == 429
        decreases 1 - attempts
      {
        Appended(w, target, maxRedirects, calls, Fetch(hop, current));
        calls := calls + [Fetch(hop, current)];
        var answer := w.fetch(|calls| - 1);
        if answer.None? {
          var aborted := Aborted(w);
          return Err(if aborted then Interrupted else NetworkError);
        }
        if answer.value.status != 429 || attempts >= 1 { return Ok(answer.value); }
        attempts := attempts + 1;
        var aborted := Aborted(w);
        if aborted { return Err(Interrupted); }
      }
    }

    /** The next hop, or why there is none. */
    function CheckedRedirect(w: World, answer: Response, current: Url, hops: nat): Result<Url, Outcome> {
      if answer.location.None? then Err(MissingLocation)
      else if hops > maxRedirects then Err(RedirectLimit)
      else
        var next := w.resolve(current, answer.location.value);
        if next.None? then Err(BadRedirect)
        else if !w.allowed(next.value) then Err(RedirectDenied)
        else Ok(next.value)
    }

    method RelayResource(w: World, target: Url) returns (outcome: Outcome)
      requires calls == [] && w.allowed(target)
      modifies this`calls, this`checks
      ensures IsRun(w, target, maxRedirects, calls) && Agrees(w, maxRedirects, calls, checks, outcome)
      ensures !outcome.Refused?
      ensures outcome.Interrupted? <==> SeenBetween(w, old(checks), checks)
      ensures checks == old(checks) + |calls| + if outcome.Interrupted? || outcome.NetworkError? then 1 else 0
    {
      var current, hops := target, 0;
      while true
        invariant IsRun(w, target, maxRedirects, calls) && hops <= maxRedirects && w.allowed(current)
        invariant checks == old(checks) + |calls| && !SeenBetween(w, old(checks), checks)
        invariant if calls == [] then hops == 0 && current == target else
          Continues(w, calls + [Fetch(hops, current)], |calls|) && calls[|calls| - 1].hop != hops
        decreases maxRedirects - hops
      {
        var aborted := Aborted(w);
        if aborted { return Interrupted; }
        var fetched := FetchWithRetry(w, target, hops, current);
        if fetched.Err? { return fetched.error; }
        var answer := fetched.value;
        if answer.status == 304 { return NotModified; }
        if answer.status < 300 || answer.status > 399 { return Relayed(answer.status, current); }
        hops := hops + 1;
        var redirected := CheckedRedirect(w, answer, current, hops);
        if redirected.Err? { return redirected.error; }
        current := redirected.value;
      }
    }

    /** A request: the policy first, then the origin's bucket unless that is switched off, and only
        then the network. */
    method Handle(w: World, target: Url, now: real, disableOriginBucket: bool) returns (outcome: Outcome)
      requires calls == []
      modifies this`calls, this`checks, buckets
      ensures IsRun(w, target, maxRedirects, calls) && Agrees(w, maxRedirects, calls, checks, outcome)
      ensures |calls| <= 2 * (maxRedirects + 1)
      ensures outcome.Interrupted? <==> SeenBetween(w, old(checks), checks)
      ensures !w.allowed(target) ==> outcome == Refused(403) && calls == [] && buckets.buckets == old(buckets.buckets)
      ensures w.allowed(target) && disableOriginBucket ==> !outcome.Refused? && buckets.buckets == old(buckets.buckets)
      ensures w.allowed(target) && !disableOriginBucket && w.origin(target).None? ==>
        outcome == Refused(403) && calls == []
      ensures w.allowed(target) && !disableOriginBucket && w.origin(target).Some? ==>
        var (admitted, after) := Taken(old(buckets.buckets), w.origin(target).value, now);
        && buckets.buckets == after && (admitted <==> !outcome.Refused?)
        && (!admitted ==> outcome == Refused(429) && calls == [])
    {
      if !w.allowed(target) { return Refused(403); }
      if !disableOriginBucket {
        var key := w.origin(target);
        if key.None? { return Refused(403); }
        var admitted := buckets.Take(key.value, now);
        if !admitted { return Refused(429); }
      }
      outcome := RelayResource(w, target);
      CallsAreBounded(w, target, maxRedirects, calls);
    }
  }
}
