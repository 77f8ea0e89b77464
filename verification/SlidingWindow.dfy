/** The sliding-window rate limiter: the object, and what it guarantees over every run of calls. */
module SlidingWindow {
  import opened Results

  datatype Limit = Limit(key: string, limit: int)
  datatype Decision = Allowed | Refused(retryAfterMs: int) | ConfigInvalid

  type Events = map<string, seq<int>>

  function Get(events: Events, key: string): seq<int> { if key in events then events[key] else [] }

  /** The times after `cutoff`, in their order. */
  function After(times: seq<int>, cutoff: int): (active: seq<int>)
    ensures |active| <= |times| && forall t :: t in active ==> t > cutoff
  {
    if times == [] then []
    else
      var n := |times| - 1;
      After(times[..n], cutoff) + (if times[n] > cutoff then [times[n]] else [])
  }

  /** How often one call names `key`. */
  function Mentions(limits: seq<Limit>, key: string): nat {
    if limits == [] then 0
    else Mentions(limits[..|limits| - 1], key) + (if limits[|limits| - 1].key == key then 1 else 0)
  }

  lemma {:induction false} NamedIsMentioned(limits: seq<Limit>, key: string)
    ensures Mentions(limits, key) > 0 ==> exists i :: 0 <= i < |limits| && limits[i].key == key
    decreases |limits|
  {
    if limits != [] {
      var n := |limits| - 1;
      NamedIsMentioned(limits[..n], key);
      if limits[n].key != key && Mentions(limits[..n], key) > 0 {
        var i :| 0 <= i < n && limits[..n][i].key == key;
        assert limits[i].key == key;
      }
    }
  }

  /** `n` copies of one limit. */
  function Copies(l: Limit, n: nat): (limits: seq<Limit>)
    ensures |limits| == n && forall i :: 0 <= i < n ==> limits[i] == l
  {
    if n == 0 then [] else Copies(l, n - 1) + [l]
  }

  lemma {:induction false} CopiesMention(l: Limit, n: nat)
    ensures Mentions(Copies(l, n), l.key) == n
  {
    if n > 0 {
      CopiesMention(l, n - 1);
      assert Copies(l, n)[..n - 1] == Copies(l, n - 1);
    }
  }

  lemma {:induction false} OneMention(l: Limit)
    ensures Mentions([l], l.key) == 1 && Copies(l, 1) == [l]
  {
    CopiesMention(l, 1);
    assert Copies(l, 1) == [l];
  }

  function Max(a: int, b: int): int { if a >= b then a else b }

  /** The first loop of `admit` over the limits: it prunes each key and collects the waiting time. */
  datatype Scan = Scan(events: Events, retry: int, valid: bool)

  function ScanLimits(events: Events, limits: seq<Limit>, at: int, windowMs: int): Scan {
    if limits == [] then Scan(events, 0, true)
    else
      var n := |limits| - 1;
      var before := ScanLimits(events, limits[..n], at, windowMs);
      if !before.valid || limits[n].limit < 1 then before.(valid := false)
      else
        var active := After(Get(before.events, limits[n].key), at - windowMs);
        Scan(before.events[limits[n].key := active],
             if |active| >= limits[n].limit then Max(before.retry, active[0] + windowMs - at) else before.retry, true)
  }

  /** The second loop: it records the call under every key. */
  function RecordAll(events: Events, limits: seq<Limit>, at: int): Events {
    if limits == [] then events
    else
      var n := |limits| - 1;
      var before := RecordAll(events, limits[..n], at);
      before[limits[n].key := Get(before, limits[n].key) + [at]]
  }

  function AdmitCall(events: Events, limits: seq<Limit>, at: int, windowMs: int): (Decision, Events) {
    var scan := ScanLimits(events, limits, at, windowMs);
    if !scan.valid then (ConfigInvalid, scan.events)
    else if scan.retry > 0 then (Refused(scan.retry), scan.events)
    else (Allowed, RecordAll(scan.events, limits, at))
  }

  class Limiter {
    const windowMs: int
    var events: Events

    constructor (windowMs: int)
      ensures this.windowMs == windowMs && events == map[]
    {
      this.windowMs, events := windowMs, map[];
    }

    /** `at` is the clock's reading. */
    method Admit(limits: seq<Limit>, at: int) returns (r: Decision)
      modifies this
      ensures (r, events) == AdmitCall(old(events), limits, at, windowMs)
    {
      hide After;
      var retry := 0;
      for i := 0 to |limits|
        invariant ScanLimits(old(events), limits[..i], at, windowMs) == Scan(events, retry, true)
      {
        assert limits[..i + 1][..i] == limits[..i];
        if limits[i].limit < 1 {
          ScanStaysInvalid(old(events), limits, i + 1, at, windowMs);
          return ConfigInvalid;
        }
        var active := After(Get(events, limits[i].key), at - windowMs);
        events := events[limits[i].key := active];
        if |active| >= limits[i].limit { retry := Max(retry, active[0] + windowMs - at); }
      }
      assert limits[..|limits|] == limits;
      if retry > 0 { return Refused(retry); }
      ghost var scanned := events;
      for i := 0 to |limits|
        invariant events == RecordAll(scanned, limits[..i], at)
      {
        assert limits[..i + 1][..i] == limits[..i];
        events := events[limits[i].key := Get(events, limits[i].key) + [at]];
      }
      return Allowed;
    }
  }

  /** Building a limiter refuses a window under one millisecond. */
  method NewLimiter(windowMs: int) returns (r: Option<Limiter>)
    ensures r.Some? <==> windowMs >= 1
    ensures r.Some? ==> fresh(r.value) && r.value.windowMs == windowMs && r.value.events == map[]
  {
    if windowMs < 1 { return None; }
    var limiter := new Limiter(windowMs);
    return Some(limiter);
  }

  /** Once a limit is found invalid, the scan of the rest changes nothing. */
  lemma {:induction false} ScanStaysInvalid(events: Events, limits: seq<Limit>, i: nat, at: int, windowMs: int)
    requires i <= |limits| && !ScanLimits(events, limits[..i], at, windowMs).valid
    ensures ScanLimits(events, limits, at, windowMs).valid == false
    ensures ScanLimits(events, limits, at, windowMs).events == ScanLimits(events, limits[..i], at, windowMs).events
    decreases |limits| - i
  {
    if i == |limits| {
      assert limits[..i] == limits;
    } else {
      assert limits[..i + 1][..i] == limits[..i];
      ScanStaysInvalid(events, limits, i + 1, at, windowMs);
    }
  }
}
