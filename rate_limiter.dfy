/**
  The HTTP fixed-window rate limiter. One store, shared by every limiter the
  server builds, keeps per client key a record of the requests counted in the
  current window, the end of that window and, once the client went over the
  limit, the time until which it is blocked. Times are milliseconds; the
  limiter's own parameters are in seconds, as in the source.
 */
module RateLimiter {
  import opened Common

  /** A limiter's parameters: requests per window, window length and block length, in seconds. */
  datatype Config = Config(maxRequests: nat, timeWindow: nat, blockDuration: nat)

  /** 100 requests a minute, then a five-minute block. */
  const ApiLimiter := Config(100, 60, 300)
  /** 20 messages a minute, then a two-minute block. */
  const MessageLimiter := Config(20, 60, 120)
  /** 20 requests a minute, then a ten-minute block. */
  const StrictLimiter := Config(20, 60, 600)

  /** The store's record for one client key. */
  datatype ClientData = ClientData(count: nat, resetTime: int, blockedUntil: Option<int>)

  /** The three rate-limit response headers: limit, remaining requests, window end in whole seconds. */
  datatype Headers = Headers(limit: nat, remaining: nat, reset: int)

  /**
    What happens to one request: it goes through with the headers set; it is
    refused because the client is still blocked (status 429, the wait rounded
    up to seconds, no headers); or it is refused because it went over the
    limit (status 429 after the headers were set, the wait being the whole
    block length).
   */
  datatype Outcome =
    | Allowed(headers: Headers)
    | Blocked(retryAfter: int)
    | LimitExceeded(headers: Headers, retryAfter: int)

  /** The new record and the outcome of one request. */
  datatype Decision = Decision(record: ClientData, outcome: Outcome)

  /** Division rounded towards positive infinity, as `Math.ceil(x / d)` on integers. */
  function CeilDiv(x: int, d: nat): (r: int)
    requires d > 0
    ensures d * (r - 1) < x <= d * r
  {
    var q := (-x) / d;
    assert -x == d * q + (-x) % d;
    -q
  }

  /** The record an unseen key starts with: nothing counted, a window of full length ahead. */
  function Fresh(cfg: Config, now: int): ClientData
  {
    ClientData(0, now + cfg.timeWindow * 1000, None)
  }

  /** The record a request from `ip` works on. */
  function Lookup(entries: map<string, ClientData>, ip: string, cfg: Config, now: int): ClientData
  {
    if ip in entries then entries[ip] else Fresh(cfg, now)
  }

  predicate IsBlocked(d: ClientData, now: int)
  {
    d.blockedUntil.Some? && now < d.blockedUntil.value
  }

  /** How many more requests the window still allows, never negative. */
  function Room(cfg: Config, d: ClientData): nat
  {
    if d.count >= cfg.maxRequests then 0 else cfg.maxRequests - d.count
  }

  /**
    The limiter's decision for a request at `now` on record `d`. A blocked
    client is refused and its record left alone. Otherwise the window
    restarts when it is over, the request is counted, and it is refused and
    the client blocked exactly when the count then exceeds the limit.
   */
  function Decide(cfg: Config, d: ClientData, now: int): (r: Decision)
    ensures r.outcome.Blocked? <==> IsBlocked(d, now)
    ensures r.outcome.Blocked? ==>
      r.record == d && r.outcome.retryAfter == CeilDiv(d.blockedUntil.value - now, 1000)
    ensures !r.outcome.Blocked? ==>
      && r.record.count == (if now > d.resetTime then 1 else d.count + 1)
      && r.record.resetTime == (if now > d.resetTime then now + cfg.timeWindow * 1000 else d.resetTime)
      && r.outcome.headers == Headers(cfg.maxRequests, Room(cfg, r.record), CeilDiv(r.record.resetTime, 1000))
    ensures r.outcome.LimitExceeded? <==> !IsBlocked(d, now) && r.record.count > cfg.maxRequests
    ensures r.outcome.LimitExceeded? ==>
      r.record.blockedUntil == Some(now + cfg.blockDuration * 1000)
      && r.outcome.retryAfter == cfg.blockDuration
    ensures r.outcome.Allowed? ==> r.record.count <= cfg.maxRequests && r.record.blockedUntil == d.blockedUntil
  {
    if IsBlocked(d, now) then
      Decision(d, Blocked(CeilDiv(d.blockedUntil.value - now, 1000)))
    else
      var windowed := if now > d.resetTime then d.(count := 0, resetTime := now + cfg.timeWindow * 1000) else d;
      var counted := windowed.(count := windowed.count + 1);
      var headers := Headers(cfg.maxRequests, Room(cfg, counted), CeilDiv(counted.resetTime, 1000));
      if counted.count > cfg.maxRequests then
        Decision(counted.(blockedUntil := Some(now + cfg.blockDuration * 1000)),
                 LimitExceeded(headers, cfg.blockDuration))
      else
        Decision(counted, Allowed(headers))
  }

  /** The final record and the outcomes of requests at `times`, in order, from one key. */
  function Run(cfg: Config, d: ClientData, times: seq<int>): (res: (ClientData, seq<Outcome>))
    ensures |res.1| == |times|
    decreases |times|
  {
    if times == [] then (d, [])
    else
      var first := Decide(cfg, d, times[0]);
      var rest := Run(cfg, first.record, times[1..]);
      (rest.0, [first.outcome] + rest.1)
  }

  function AllowedCount(os: seq<Outcome>): nat
  {
    if os == [] then 0 else (if os[0].Allowed? then 1 else 0) + AllowedCount(os[1..])
  }

  /**
    While a window lasts, no more requests go through than the window has
    room for: each one that is not blocked raises the count by one, and one
    is let through only while the count stays within the limit.
   */
  lemma {:induction false} WindowAllowsAtMostRoom(cfg: Config, d: ClientData, times: seq<int>)
    requires forall i :: 0 <= i < |times| ==> times[i] <= d.resetTime
    ensures AllowedCount(Run(cfg, d, times).1) <= Room(cfg, d)
    decreases |times|
  {
    if times != [] {
      var first := Decide(cfg, d, times[0]);
      assert first.record.resetTime == d.resetTime;
      assert forall i :: 0 <= i < |times[1..]| ==> times[1..][i] == times[i + 1];
      WindowAllowsAtMostRoom(cfg, first.record, times[1..]);
      assert Run(cfg, d, times).1 == [first.outcome] + Run(cfg, first.record, times[1..]).1;
      assert ([first.outcome] + Run(cfg, first.record, times[1..]).1)[1..] == Run(cfg, first.record, times[1..]).1;
    }
  }

  /** A key seen for the first time at `start` gets at most `maxRequests` requests through in that window. */
  lemma AtMostMaxPerWindow(cfg: Config, start: int, times: seq<int>)
    requires forall i :: 0 <= i < |times| ==> times[i] <= start + cfg.timeWindow * 1000
    ensures AllowedCount(Run(cfg, Fresh(cfg, start), times).1) <= cfg.maxRequests
  {
    WindowAllowsAtMostRoom(cfg, Fresh(cfg, start), times);
  }

  /** Until the block ends, every request is refused and the record does not change. */
  lemma {:induction false} BlockHolds(cfg: Config, d: ClientData, times: seq<int>)
    requires d.blockedUntil.Some?
    requires forall i :: 0 <= i < |times| ==> times[i] < d.blockedUntil.value
    ensures Run(cfg, d, times).0 == d
    ensures forall i :: 0 <= i < |times| ==> Run(cfg, d, times).1[i].Blocked?
    decreases |times|
  {
    if times != [] {
      assert forall i :: 0 <= i < |times[1..]| ==> times[1..][i] == times[i + 1];
      BlockHolds(cfg, d, times[1..]);
      assert Run(cfg, d, times).1 == [Blocked(CeilDiv(d.blockedUntil.value - times[0], 1000))] + Run(cfg, d, times[1..]).1;
    }
  }

  /** A request over the limit at `t` shuts the key out for the whole block length that follows. */
  lemma ExceedingBlocks(cfg: Config, d: ClientData, t: int, times: seq<int>)
    requires Decide(cfg, d, t).outcome.LimitExceeded?
    requires forall i :: 0 <= i < |times| ==> times[i] < t + cfg.blockDuration * 1000
    ensures forall i :: 0 <= i < |times| ==> Run(cfg, Decide(cfg, d, t).record, times).1[i].Blocked?
  {
    BlockHolds(cfg, Decide(cfg, d, t).record, times);
  }

  /** An entry the sweep may delete: not blocked at `now` and its window over before `now`. */
  predicate Expired(d: ClientData, now: int)
  {
    !(d.blockedUntil.Some? && d.blockedUntil.value > now) && d.resetTime < now
  }

  /** The store after a sweep at `now`. */
  function Pruned(entries: map<string, ClientData>, now: int): map<string, ClientData>
  {
    map ip | ip in entries && !Expired(entries[ip], now) :: entries[ip]
  }

  /**
    Deleting an expired entry does not change what any later request sees:
    a request at `later` gets the same outcome, count and window end whether
    it finds the old entry or starts afresh.
   */
  lemma PruningUnobservable(cfg: Config, entries: map<string, ClientData>, ip: string, now: int, later: int)
    requires now <= later
    ensures var kept := Decide(cfg, Lookup(entries, ip, cfg, later), later);
      var pruned := Decide(cfg, Lookup(Pruned(entries, now), ip, cfg, later), later);
      && pruned.outcome == kept.outcome
      && pruned.record.count == kept.record.count
      && pruned.record.resetTime == kept.record.resetTime
  {
    if ip in entries && ip !in Pruned(entries, now) {
      assert Expired(entries[ip], now);
      assert Lookup(Pruned(entries, now), ip, cfg, later) == Fresh(cfg, later);
    }
  }

  /** The limiter's store; the source keeps one per process, shared by all limiters. */
  class IpStore {
    var entries: map<string, ClientData>

    constructor ()
      ensures entries == map[]
    {
      entries := map[];
    }

    /**
      Handles one request from `ip` at `now` under `cfg`: the key's record
      becomes the decision's record and the decision's outcome is returned.
     */
    method Handle(cfg: Config, ip: string, now: int) returns (o: Outcome)
      modifies this
      ensures var r := Decide(cfg, Lookup(old(entries), ip, cfg, now), now);
        entries == old(entries)[ip := r.record] && o == r.outcome
    {
      if ip !in entries {
        entries := entries[ip := ClientData(0, now + cfg.timeWindow * 1000, None)];
      }
      var data := entries[ip];
      if data.blockedUntil.Some? && now < data.blockedUntil.value {
        return Blocked(CeilDiv(data.blockedUntil.value - now, 1000));
      }
      if now > data.resetTime {
        data := data.(count := 0, resetTime := now + cfg.timeWindow * 1000);
      }
      data := data.(count := data.count + 1);
      entries := entries[ip := data];
      var remaining := if cfg.maxRequests - data.count > 0 then cfg.maxRequests - data.count else 0;
      var headers := Headers(cfg.maxRequests, remaining, CeilDiv(data.resetTime, 1000));
      if data.count > cfg.maxRequests {
        data := data.(blockedUntil := Some(now + cfg.blockDuration * 1000));
        entries := entries[ip := data];
        return LimitExceeded(headers, cfg.blockDuration);
      }
      return Allowed(headers);
    }

    /** The periodic sweep at `now`: deletes exactly the expired entries. */
    method Cleanup(now: int)
      modifies this
      ensures entries == Pruned(old(entries), now)
    {
      ghost var start := entries;
      var pending := entries.Keys;
      while pending != {}
        invariant pending <= start.Keys
        invariant entries.Keys <= start.Keys
        invariant forall ip :: ip in entries ==> entries[ip] == start[ip]
        invariant forall ip :: ip in pending ==> ip in entries
        invariant forall ip :: ip in start && ip !in pending ==> (ip in entries <==> !Expired(start[ip], now))
        decreases pending
      {
        var ip :| ip in pending;
        var data := entries[ip];
        var isBlocked := data.blockedUntil.Some? && data.blockedUntil.value > now;
        if !isBlocked && data.resetTime < now {
          entries := entries - {ip};
        }
        pending := pending - {ip};
      }
    }
  }
}
