/**
 * The limiter against its description: the pruned lists it keeps decide exactly as the full
 * history of admitted calls would, no window ever holds more than the limit, and the reported
 * waiting time is exact.
 */
module SlidingWindowRuns {
  import opened SlidingWindow

  datatype Call = Call(at: int, limits: seq<Limit>)

  /** `at`, once for each mention of `key`. */
  function Stamps(limits: seq<Limit>, key: string, at: int): seq<int> {
    if limits == [] then []
    else
      var n := |limits| - 1;
      Stamps(limits[..n], key, at) + (if limits[n].key == key then [at] else [])
  }

  /** The times of all the calls in `history` that name `key`. */
  function Times(history: seq<Call>, key: string): seq<int> {
    if history == [] then []
    else
      var n := |history| - 1;
      Times(history[..n], key) + Stamps(history[n].limits, key, history[n].at)
  }

  /** The admitted calls naming `key` in the window that ends at `at`. */
  function InWindow(history: seq<Call>, key: string, at: int, windowMs: int): seq<int> {
    After(Times(history, key), at - windowMs)
  }

  // ----- the description -----

  predicate ValidLimits(limits: seq<Limit>) { forall i :: 0 <= i < |limits| ==> limits[i].limit >= 1 }

  /** Every named key has fewer admitted calls in the window than its limit. */
  predicate HasRoom(history: seq<Call>, limits: seq<Limit>, at: int, windowMs: int) {
    forall i :: 0 <= i < |limits| ==> |InWindow(history, limits[i].key, at, windowMs)| < limits[i].limit
  }

  /** The longest wait until the oldest call in the window of a full key leaves it. */
  function Wait(history: seq<Call>, limits: seq<Limit>, at: int, windowMs: int): (r: int)
    requires ValidLimits(limits)
    ensures r >= 0
  {
    if limits == [] then 0
    else
      var n := |limits| - 1;
      var before := Wait(history, limits[..n], at, windowMs);
      var active := InWindow(history, limits[n].key, at, windowMs);
      if |active| >= limits[n].limit then Max(before, active[0] + windowMs - at) else before
  }

  /** What an admission decides and records, on the full history. */
  function Describe(history: seq<Call>, call: Call, windowMs: int): (Decision, seq<Call>) {
    if !ValidLimits(call.limits) then (ConfigInvalid, history)
    else if HasRoom(history, call.limits, call.at, windowMs) then (Allowed, history + [call])
    else (Refused(Wait(history, call.limits, call.at, windowMs)), history)
  }

  // ----- the pruned lists decide as the history does -----

  /** The kept lists agree with the history about every window that can still be asked for. */
  ghost predicate Tracks(events: Events, history: seq<Call>, last: int, windowMs: int) {
    forall key, cutoff :: cutoff >= last - windowMs ==>
      After(Get(events, key), cutoff) == After(Times(history, key), cutoff)
  }

  lemma {:induction false} AfterAfter(times: seq<int>, c: int, d: int)
    requires c <= d
    ensures After(After(times, c), d) == After(times, d)
    decreases |times|
  {
    if times != [] {
      var n := |times| - 1;
      AfterAfter(times[..n], c, d);
      AfterAppend(After(times[..n], c), if times[n] > c then [times[n]] else [], d);
    }
  }

  lemma {:induction false} AfterAppend(a: seq<int>, b: seq<int>, c: int)
    ensures After(a + b, c) == After(a, c) + After(b, c)
    decreases |b|
  {
    if b == [] {
      assert a + b == a;
    } else {
      var n := |b| - 1;
      assert (a + b)[..|a| + n] == a + b[..n];
      AfterAppend(a, b[..n], c);
    }
  }

  /** The scan leaves a key's list as it was or pruned. */
  lemma {:induction false} ScanGet(events: Events, limits: seq<Limit>, at: int, windowMs: int, key: string)
    ensures var kept := Get(ScanLimits(events, limits, at, windowMs).events, key);
            kept == Get(events, key) || kept == After(Get(events, key), at - windowMs)
    decreases |limits|
  {
    hide After;
    if limits != [] {
      ScanGet(events, limits[..|limits| - 1], at, windowMs, key);
      AfterAfter(Get(events, key), at - windowMs, at - windowMs);
    }
  }

  lemma {:induction false} ScanTracks(
    events: Events, history: seq<Call>, limits: seq<Limit>, last: int, at: int, windowMs: int)
    requires Tracks(events, history, last, windowMs) && last <= at
    ensures Tracks(ScanLimits(events, limits, at, windowMs).events, history, at, windowMs)
  {
    hide After, Times, ScanLimits, Get;
    var scanned := ScanLimits(events, limits, at, windowMs).events;
    forall key, cutoff | cutoff >= at - windowMs
      ensures After(Get(scanned, key), cutoff) == After(Times(history, key), cutoff)
    {
      ScanGet(events, limits, at, windowMs, key);
      AfterAfter(Get(events, key), at - windowMs, cutoff);
    }
  }

  /** The scan's verdict, in terms of the history. */
  lemma {:induction false} ScanDecides(
    events: Events, history: seq<Call>, limits: seq<Limit>, last: int, at: int, windowMs: int)
    requires Tracks(events, history, last, windowMs) && last <= at
    ensures var scan := ScanLimits(events, limits, at, windowMs);
            && (scan.valid <==> ValidLimits(limits))
            && (scan.valid ==> scan.retry == Wait(history, limits, at, windowMs))
            && (scan.valid ==> (scan.retry == 0 <==> HasRoom(history, limits, at, windowMs)))
    decreases |limits|
  {
    hide After, Times, Tracks, Get;
    if limits != [] {
      var n := |limits| - 1;
      var rest := limits[..n];
      ScanDecides(events, history, rest, last, at, windowMs);
      assert forall i :: 0 <= i < n ==> rest[i] == limits[i];
      var before := ScanLimits(events, rest, at, windowMs);
      if before.valid && limits[n].limit >= 1 {
        ScanTracks(events, history, rest, last, at, windowMs);
        TracksAt(before.events, history, at, windowMs, limits[n].key);
        var active := InWindow(history, limits[n].key, at, windowMs);
        assert |active| >= limits[n].limit ==> active[0] in active;
        assert HasRoom(history, limits, at, windowMs) <==>
               HasRoom(history, rest, at, windowMs) && |active| < limits[n].limit;
      }
    }
  }

  lemma {:induction false} TracksAt(events: Events, history: seq<Call>, at: int, windowMs: int, key: string)
    requires Tracks(events, history, at, windowMs)
    ensures After(Get(events, key), at - windowMs) == InWindow(history, key, at, windowMs)
    ensures forall t :: t in InWindow(history, key, at, windowMs) ==> t > at - windowMs
  {
  }

  lemma {:induction false} RecordAllGet(events: Events, limits: seq<Limit>, at: int, key: string)
    ensures Get(RecordAll(events, limits, at), key) == Get(events, key) + Stamps(limits, key, at)
    decreases |limits|
  {
    if limits == [] {
      assert Get(events, key) + [] == Get(events, key);
    } else {
      RecordAllGet(events, limits[..|limits| - 1], at, key);
    }
  }

  /**
   * The limiter refines its description: with a clock that does not go back, it decides, and
   * reports the wait, as the full history of admitted calls says, and keeps agreeing with it.
   */
  lemma {:induction false} AdmitRefines(events: Events, history: seq<Call>, last: int, call: Call, windowMs: int)
    requires Tracks(events, history, last, windowMs) && last <= call.at
    ensures var (decision, after) := AdmitCall(events, call.limits, call.at, windowMs);
            var (described, described') := Describe(history, call, windowMs);
            decision == described && Tracks(after, described', call.at, windowMs)
  {
    hide After, Times, Get, Wait, ScanLimits, RecordAll;
    ScanTracks(events, history, call.limits, last, call.at, windowMs);
    ScanDecides(events, history, call.limits, last, call.at, windowMs);
    var scan := ScanLimits(events, call.limits, call.at, windowMs);
    if scan.valid && scan.retry == 0 {
      var after, history' := RecordAll(scan.events, call.limits, call.at), history + [call];
      forall key, cutoff | cutoff >= call.at - windowMs
        ensures After(Get(after, key), cutoff) == After(Times(history', key), cutoff)
      {
        RecordAllGet(scan.events, call.limits, call.at, key);
        TimesAppend(history, call, key);
        AfterAppend(Get(scan.events, key), Stamps(call.limits, key, call.at), cutoff);
        AfterAppend(Times(history, key), Stamps(call.limits, key, call.at), cutoff);
      }
    }
  }

  lemma {:induction false} TimesAppend(history: seq<Call>, call: Call, key: string)
    ensures Times(history + [call], key) == Times(history, key) + Stamps(call.limits, key, call.at)
  {
    assert (history + [call])[..|history|] == history;
  }

  // ----- runs -----

  predicate ClockRuns(calls: seq<Call>) { forall i, j :: 0 <= i < j < |calls| ==> calls[i].at <= calls[j].at }

  function RunEvents(calls: seq<Call>, windowMs: int): Events {
    if calls == [] then map[]
    else
      var n := |calls| - 1;
      AdmitCall(RunEvents(calls[..n], windowMs), calls[n].limits, calls[n].at, windowMs).1
  }

  /** The admitted calls of a run, as described. */
  function Admitted(calls: seq<Call>, windowMs: int): seq<Call> {
    if calls == [] then []
    else
      var n := |calls| - 1;
      Describe(Admitted(calls[..n], windowMs), calls[n], windowMs).1
  }

  /** In every run the limiter's next decision is the described one. */
  lemma {:induction false} RunRefines(calls: seq<Call>, call: Call, windowMs: int)
    requires ClockRuns(calls + [call])
    ensures AdmitCall(RunEvents(calls, windowMs), call.limits, call.at, windowMs).0 ==
            Describe(Admitted(calls, windowMs), call, windowMs).0
  {
    hide AdmitCall, Describe;
    var all := calls + [call];
    assert all[|calls|] == call && all[..|calls|] == calls;
    RunTracks(calls, call.at, windowMs);
    AdmitRefines(RunEvents(calls, windowMs), Admitted(calls, windowMs), call.at, call, windowMs);
  }

  lemma {:induction false} RunTracks(calls: seq<Call>, last: int, windowMs: int)
    requires ClockRuns(calls) && (calls != [] ==> calls[|calls| - 1].at <= last)
    ensures Tracks(RunEvents(calls, windowMs), Admitted(calls, windowMs), last, windowMs)
    decreases |calls|
  {
    hide AdmitCall, Describe, After;
    if calls != [] {
      var n := |calls| - 1;
      RunTracks(calls[..n], calls[n].at, windowMs);
      AdmitRefines(RunEvents(calls[..n], windowMs), Admitted(calls[..n], windowMs), calls[n].at, calls[n], windowMs);
    } else {
      assert forall key :: Get(map[], key) == [] && Times([], key) == [];
    }
  }

  // ----- the bound -----

  /** The times in (from, to]. */
  function Between(times: seq<int>, from: int, to: int): seq<int> {
    if times == [] then []
    else
      var n := |times| - 1;
      Between(times[..n], from, to) + (if from < times[n] <= to then [times[n]] else [])
  }

  predicate DistinctKeys(limits: seq<Limit>) { forall i, j :: 0 <= i < j < |limits| ==> limits[i].key != limits[j].key }

  /** Every call that names `key` gives it this limit. */
  predicate FixedLimit(calls: seq<Call>, key: string, limit: int) {
    forall i, j :: 0 <= i < |calls| && 0 <= j < |calls[i].limits| && calls[i].limits[j].key == key ==>
      calls[i].limits[j].limit == limit
  }

  lemma {:induction false} BetweenAppend(a: seq<int>, b: seq<int>, from: int, to: int)
    ensures Between(a + b, from, to) == Between(a, from, to) + Between(b, from, to)
    decreases |b|
  {
    if b == [] {
      assert a + b == a;
    } else {
      var n := |b| - 1;
      assert (a + b)[..|a| + n] == a + b[..n];
      BetweenAppend(a, b[..n], from, to);
    }
  }

  lemma {:induction false} BetweenIsFewer(times: seq<int>, from: int, to: int, cutoff: int)
    requires cutoff <= from
    ensures |Between(times, from, to)| <= |After(times, cutoff)|
    decreases |times|
  {
    if times != [] { BetweenIsFewer(times[..|times| - 1], from, to, cutoff); }
  }

  lemma {:induction false} MentionsAnyTime(limits: seq<Limit>, key: string, at: int)
    ensures |Stamps(limits, key, at)| == Mentions(limits, key)
    ensures Stamps(limits, key, at) != [] ==> exists i :: 0 <= i < |limits| && limits[i].key == key
    decreases |limits|
  {
    if limits != [] { MentionsAnyTime(limits[..|limits| - 1], key, at); }
    NamedIsMentioned(limits, key);
  }

  /** One admission keeps every window within the limit its call names, but for repeats of the key. */
  lemma {:induction false} WindowStep(
    history: seq<Call>, call: Call, key: string, limit: int, m: nat, to: int, windowMs: int)
    requires |Between(Times(history, key), to - windowMs, to)| <= limit + m - 1
    requires Mentions(call.limits, key) <= m && FixedLimit([call], key, limit)
    requires HasRoom(history, call.limits, call.at, windowMs)
    ensures |Between(Times(history + [call], key), to - windowMs, to)| <= limit + m - 1
  {
    hide Between, After, Times, Stamps, Mentions;
    var stamps := Stamps(call.limits, key, call.at);
    TimesAppend(history, call, key);
    BetweenAppend(Times(history, key), stamps, to - windowMs, to);
    MentionsAnyTime(call.limits, key, call.at);
    StampsAreAt(call.limits, key, call.at);
    BetweenSame(stamps, call.at, to - windowMs, to);
    if stamps != [] && call.at <= to {
      var i :| 0 <= i < |call.limits| && call.limits[i].key == key;
      assert [call][0].limits[i].limit == limit;
      BetweenIsFewer(Times(history, key), to - windowMs, to, call.at - windowMs);
    }
  }

  lemma {:induction false} BetweenSame(times: seq<int>, at: int, from: int, to: int)
    requires forall i :: 0 <= i < |times| ==> times[i] == at
    ensures |Between(times, from, to)| == if from < at <= to then |times| else 0
    decreases |times|
  {
    if times != [] { BetweenSame(times[..|times| - 1], at, from, to); }
  }

  /**
   * The bound: over every run in which `key` has one limit and no call names it more than `m`
   * times, no window (to - windowMs, to] holds more than `limit + m - 1` admissions under it. With
   * distinct keys in each call (`m` is 1) that is the limit itself.
   */
  lemma {:induction false} WindowBound(calls: seq<Call>, key: string, limit: int, m: nat, to: int, windowMs: int)
    requires FixedLimit(calls, key, limit) && limit + m >= 1
    requires forall i :: 0 <= i < |calls| ==> Mentions(calls[i].limits, key) <= m
    ensures |Between(Times(Admitted(calls, windowMs), key), to - windowMs, to)| <= limit + m - 1
    decreases |calls|
  {
    hide Between, After, Times, Mentions, Wait, HasRoom, ValidLimits;
    if calls == [] {
      NothingBetween(key, to - windowMs, to);
    } else {
      var n := |calls| - 1;
      var call, before := calls[n], Admitted(calls[..n], windowMs);
      assert forall i :: 0 <= i < n ==> calls[..n][i] == calls[i];
      WindowBound(calls[..n], key, limit, m, to, windowMs);
      if Describe(before, call, windowMs).0 == Allowed {
        assert FixedLimit([call], key, limit);
        WindowStep(before, call, key, limit, m, to, windowMs);
      }
    }
  }

  lemma {:induction false} DistinctKeysMentionOnce(limits: seq<Limit>, key: string)
    requires DistinctKeys(limits)
    ensures Mentions(limits, key) <= 1
    decreases |limits|
  {
    if limits != [] {
      var n := |limits| - 1;
      DistinctKeysMentionOnce(limits[..n], key);
      MentionsAnyTime(limits[..n], key, 0);
      assert forall i :: 0 <= i < n ==> limits[..n][i] == limits[i];
    }
  }

  lemma {:induction false} NothingBetween(key: string, from: int, to: int)
    ensures Between(Times([], key), from, to) == []
  {
  }

  // ----- the waiting time -----

  predicate Sorted(times: seq<int>) { forall i, j :: 0 <= i < j < |times| ==> times[i] <= times[j] }

  /** The wait until fewer than `limit` of the calls in the window are left. */
  function WaitOfKey(active: seq<int>, limit: int, at: int, windowMs: int): int
    requires limit >= 1
  {
    if |active| < limit then 0 else active[|active| - limit] + windowMs - at
  }

  /** The longest such wait over all limits. */
  function TrueWait(history: seq<Call>, limits: seq<Limit>, at: int, windowMs: int): (r: int)
    requires ValidLimits(limits)
    ensures r >= 0
  {
    if limits == [] then 0
    else
      var n := |limits| - 1;
      Max(TrueWait(history, limits[..n], at, windowMs),
          WaitOfKey(InWindow(history, limits[n].key, at, windowMs), limits[n].limit, at, windowMs))
  }

  lemma {:induction false} AfterIsSorted(times: seq<int>, cutoff: int)
    requires Sorted(times)
    ensures Sorted(After(times, cutoff))
    ensures forall i :: 0 <= i < |After(times, cutoff)| ==> After(times, cutoff)[i] <= times[|times| - 1]
    decreases |times|
  {
    if times != [] {
      var n := |times| - 1;
      AfterIsSorted(times[..n], cutoff);
      assert n > 0 ==> times[..n][n - 1] == times[n - 1] <= times[n];
    }
  }

  /** Fewer than `limit` of a sorted list lie after `cutoff` exactly when the `limit`-th last does not. */
  lemma {:induction false} FewAfter(times: seq<int>, limit: int, cutoff: int)
    requires Sorted(times) && 1 <= limit <= |times|
    ensures |After(times, cutoff)| < limit <==> times[|times| - limit] <= cutoff
    decreases |times|
  {
    var n := |times| - 1;
    if times[n] > cutoff {
      if limit > 1 {
        FewAfter(times[..n], limit - 1, cutoff);
        assert times[..n][n - (limit - 1)] == times[|times| - limit];
      }
    } else {
      NoneAfter(times[..n], cutoff);
    }
  }

  lemma {:induction false} NoneAfter(times: seq<int>, cutoff: int)
    requires forall i :: 0 <= i < |times| ==> times[i] <= cutoff
    ensures After(times, cutoff) == []
    decreases |times|
  {
    if times != [] { NoneAfter(times[..|times| - 1], cutoff); }
  }

  /** One key, `d` later and nothing admitted in between. */
  lemma {:induction false} KeyFreesAt(history: seq<Call>, l: Limit, at: int, windowMs: int, d: nat)
    requires l.limit >= 1 && Sorted(Times(history, l.key))
    ensures |InWindow(history, l.key, at + d, windowMs)| < l.limit <==>
            WaitOfKey(InWindow(history, l.key, at, windowMs), l.limit, at, windowMs) <= d
  {
    hide Times, After, Sorted;
    var times := Times(history, l.key);
    var active := After(times, at - windowMs);
    AfterAfter(times, at - windowMs, at + d - windowMs);
    AfterIsSorted(times, at - windowMs);
    if |active| >= l.limit { FewAfter(active, l.limit, at + d - windowMs); }
  }

  /**
   * With nothing admitted in between, the same call is allowed after `d` milliseconds exactly when
   * `d` has reached the true wait.
   */
  lemma {:induction false} AllowedExactlyAfterWait(
    history: seq<Call>, limits: seq<Limit>, at: int, windowMs: int, d: nat)
    requires ValidLimits(limits) && forall key :: Sorted(Times(history, key))
    ensures HasRoom(history, limits, at + d, windowMs) <==> TrueWait(history, limits, at, windowMs) <= d
    decreases |limits|
  {
    hide InWindow, Times, Sorted, WaitOfKey;
    if limits != [] {
      var n := |limits| - 1;
      AllowedExactlyAfterWait(history, limits[..n], at, windowMs, d);
      KeyFreesAt(history, limits[n], at, windowMs, d);
      assert forall i :: 0 <= i < n ==> limits[..n][i] == limits[i];
    }
  }

  /** No named key holds more calls in the window than its limit, as when limits are fixed. */
  predicate WithinLimits(history: seq<Call>, limits: seq<Limit>, at: int, windowMs: int) {
    forall i :: 0 <= i < |limits| ==> |InWindow(history, limits[i].key, at, windowMs)| <= limits[i].limit
  }

  lemma {:induction false} ReportedWait(history: seq<Call>, limits: seq<Limit>, at: int, windowMs: int)
    requires ValidLimits(limits) && forall key :: Sorted(Times(history, key))
    ensures Wait(history, limits, at, windowMs) <= TrueWait(history, limits, at, windowMs)
    ensures WithinLimits(history, limits, at, windowMs) ==>
              Wait(history, limits, at, windowMs) == TrueWait(history, limits, at, windowMs)
    decreases |limits|
  {
    hide Times;
    if limits != [] {
      var n := |limits| - 1;
      ReportedWait(history, limits[..n], at, windowMs);
      assert forall i :: 0 <= i < n ==> limits[..n][i] == limits[i];
      AfterIsSorted(Times(history, limits[n].key), at - windowMs);
    }
  }

  /**
   * The wait a refusal reports is never too long, and it is exact - the call is refused until then
   * and allowed from then on - when no named key holds more than its limit.
   */
  lemma {:induction false} RetryAfterIsExact(history: seq<Call>, call: Call, windowMs: int, d: nat)
    requires ValidLimits(call.limits) && forall key :: Sorted(Times(history, key))
    requires Describe(history, call, windowMs).0.Refused?
    ensures var r := Describe(history, call, windowMs).0.retryAfterMs;
            var later := Describe(history, call.(at := call.at + d), windowMs).0;
            && (d < r ==> later.Refused?)
            && (WithinLimits(history, call.limits, call.at, windowMs) ==> (later == Allowed <==> d >= r))
  {
    hide Times, Sorted, Wait, TrueWait, InWindow;
    ReportedWait(history, call.limits, call.at, windowMs);
    AllowedExactlyAfterWait(history, call.limits, call.at, windowMs, d);
  }

  /** When limits vary the wait can be too short: it is when the oldest call leaves, not when there is room. */
  lemma {:induction false} VaryingLimitsUnderstate(key: string)
    ensures var history := [Call(0, [Limit(key, 2)]), Call(5, [Limit(key, 2)])];
            && Describe(history, Call(6, [Limit(key, 1)]), 10).0 == Refused(4)
            && Describe(history, Call(6 + 4, [Limit(key, 1)]), 10).0.Refused?
  {
    hide Describe, Times, After, Stamps;
    var history := [Call(0, [Limit(key, 2)]), Call(5, [Limit(key, 2)])];
    TwoCalls(key, 2, 0, 5);
    TwoInWindow(0, 5, 6 - 10);
    TwoInWindow(0, 5, 10 - 10);
    OneLimit(history, Limit(key, 1), 6, 10);
    OneLimit(history, Limit(key, 1), 10, 10);
  }

  lemma {:induction false} TwoCalls(key: string, limit: int, a: int, b: int)
    ensures Times([Call(a, [Limit(key, limit)]), Call(b, [Limit(key, limit)])], key) == [a, b]
  {
    hide Stamps;
    var history := [Call(a, [Limit(key, limit)]), Call(b, [Limit(key, limit)])];
    OneStamp(key, limit, a);
    OneStamp(key, limit, b);
    assert history[..1] == [Call(a, [Limit(key, limit)])] && history[..1][..0] == [];
    NoTimes(key);
    assert Times(history[..1], key) == [] + [a] == [a];
  }

  /** The decision on a call with one limit. */
  lemma {:induction false} OneLimit(history: seq<Call>, l: Limit, at: int, windowMs: int)
    requires l.limit >= 1
    ensures var active := InWindow(history, l.key, at, windowMs);
            && (|active| < l.limit ==> Describe(history, Call(at, [l]), windowMs).0 == Allowed)
            && (|active| >= l.limit ==>
                  Describe(history, Call(at, [l]), windowMs).0 == Refused(Max(0, active[0] + windowMs - at)))
  {
    hide InWindow;
    assert [l][..0] == [];
    assert [l][0] == l && ValidLimits([l]) && ValidLimits([l][..0]);
    var active := InWindow(history, l.key, at, windowMs);
    assert Wait(history, [l][..0], at, windowMs) == 0;
    assert |active| >= l.limit ==> Wait(history, [l], at, windowMs) == Max(0, active[0] + windowMs - at);
    assert HasRoom(history, [l], at, windowMs) <==> |InWindow(history, l.key, at, windowMs)| < l.limit;
  }

  lemma {:induction false} OneStamp(key: string, limit: int, at: int)
    ensures Stamps([Limit(key, limit)], key, at) == [at]
  {
    assert [Limit(key, limit)][..0] == [];
  }

  lemma {:induction false} TwoInWindow(a: int, b: int, cutoff: int)
    requires b > cutoff
    ensures After([a, b], cutoff) == if a > cutoff then [a, b] else [b]
  {
    assert [a, b][..1] == [a] && [a][..0] == [];
  }

  lemma {:induction false} AdmittedIsSorted(calls: seq<Call>, key: string, windowMs: int)
    requires ClockRuns(calls)
    ensures Sorted(Times(Admitted(calls, windowMs), key))
    ensures forall i :: 0 <= i < |Times(Admitted(calls, windowMs), key)| ==>
              calls != [] && Times(Admitted(calls, windowMs), key)[i] <= calls[|calls| - 1].at
    decreases |calls|
  {
    hide Describe, Times, Sorted, Stamps;
    if calls != [] {
      var n := |calls| - 1;
      AdmittedIsSorted(calls[..n], key, windowMs);
      var before := Admitted(calls[..n], windowMs);
      DescribeExtends(before, calls[n], windowMs);
      TimesAppend(before, calls[n], key);
      StampsAreAt(calls[n].limits, key, calls[n].at);
      assert n > 0 ==> calls[..n][n - 1].at == calls[n - 1].at <= calls[n].at;
      SortedJoin(Times(before, key), Stamps(calls[n].limits, key, calls[n].at), calls[n].at);
    } else {
      NoTimes(key);
    }
  }

  lemma {:induction false} NoTimes(key: string)
    ensures Times([], key) == [] && Sorted(Times([], key))
  {
  }

  lemma {:induction false} SortedJoin(times: seq<int>, stamps: seq<int>, at: int)
    requires Sorted(times) && forall i :: 0 <= i < |times| ==> times[i] <= at
    requires forall i :: 0 <= i < |stamps| ==> stamps[i] == at
    ensures Sorted(times + stamps) && forall i :: 0 <= i < |times + stamps| ==> (times + stamps)[i] <= at
  {
  }

  lemma {:induction false} DescribeExtends(history: seq<Call>, call: Call, windowMs: int)
    ensures Describe(history, call, windowMs).1 in {history, history + [call]}
  {
  }

  lemma {:induction false} StampsAreAt(limits: seq<Limit>, key: string, at: int)
    ensures forall i :: 0 <= i < |Stamps(limits, key, at)| ==> Stamps(limits, key, at)[i] == at
    decreases |limits|
  {
    if limits != [] { StampsAreAt(limits[..|limits| - 1], key, at); }
  }

  /** Fixed limits keep every key within its limit, so in such runs the reported wait is exact. */
  lemma {:induction false} FixedLimitsStayWithin(calls: seq<Call>, call: Call, windowMs: int)
    requires ClockRuns(calls + [call]) && ValidLimits(call.limits)
    requires forall i :: 0 <= i < |calls| ==> DistinctKeys(calls[i].limits)
    requires forall i :: 0 <= i < |call.limits| ==> FixedLimit(calls, call.limits[i].key, call.limits[i].limit)
    ensures WithinLimits(Admitted(calls, windowMs), call.limits, call.at, windowMs)
  {
    hide Times, DistinctKeys, FixedLimit, After, Between, Mentions;
    var all := calls + [call];
    assert all[|calls|] == call && forall i :: 0 <= i < |calls| ==> all[i] == calls[i];
    forall i | 0 <= i < |call.limits|
      ensures |InWindow(Admitted(calls, windowMs), call.limits[i].key, call.at, windowMs)| <= call.limits[i].limit
    {
      var key := call.limits[i].key;
      forall j | 0 <= j < |calls| ensures Mentions(calls[j].limits, key) <= 1 {
        DistinctKeysMentionOnce(calls[j].limits, key);
      }
      WindowBound(calls, key, call.limits[i].limit, 1, call.at, windowMs);
      AdmittedIsSorted(calls, key, windowMs);
      UpToNowIsBetween(Times(Admitted(calls, windowMs), key), call.at - windowMs, call.at);
    }
  }

  lemma {:induction false} UpToNowIsBetween(times: seq<int>, from: int, to: int)
    requires forall i :: 0 <= i < |times| ==> times[i] <= to
    ensures After(times, from) == Between(times, from, to)
    decreases |times|
  {
    if times != [] { UpToNowIsBetween(times[..|times| - 1], from, to); }
  }
}
