/**
 * The limiter's own runs, exactly: when its windows stay within the limit although calls may repeat
 * a key, how far they can pass it, and when the waiting time it reports is the true one.
 */
module SlidingWindowExact {
  import opened SlidingWindow
  import opened SlidingWindowRuns

  // ----- the calls the limiter admits -----

  function AdmittedByLimiter(calls: seq<Call>, windowMs: int): seq<Call> {
    if calls == [] then []
    else
      var n := |calls| - 1;
      var before := AdmittedByLimiter(calls[..n], windowMs);
      if AdmitCall(RunEvents(calls[..n], windowMs), calls[n].limits, calls[n].at, windowMs).0 == Allowed
      then before + [calls[n]] else before
  }

  /** They are the described ones. */
  lemma {:induction false} LimiterAdmitsAsDescribed(calls: seq<Call>, windowMs: int)
    requires ClockRuns(calls)
    ensures AdmittedByLimiter(calls, windowMs) == Admitted(calls, windowMs)
    decreases |calls|
  {
    hide AdmitCall, ValidLimits, HasRoom, Wait;
    if calls != [] {
      var n := |calls| - 1;
      LimiterAdmitsAsDescribed(calls[..n], windowMs);
      assert calls == calls[..n] + [calls[n]];
      RunRefines(calls[..n], calls[n], windowMs);
    }
  }

  /** How often the calls of `history` name `key` in the window (to - windowMs, to]. */
  function Load(history: seq<Call>, key: string, to: int, windowMs: int): nat {
    |Between(Times(history, key), to - windowMs, to)|
  }

  /** With one limit for the key and at most `m` mentions in a call, no window passes `limit + m - 1`. */
  lemma {:induction false} LimiterWindowBound(calls: seq<Call>, key: string, limit: int, m: nat, to: int, windowMs: int)
    requires ClockRuns(calls) && FixedLimit(calls, key, limit) && limit + m >= 1
    requires forall i :: 0 <= i < |calls| ==> Mentions(calls[i].limits, key) <= m
    ensures Load(AdmittedByLimiter(calls, windowMs), key, to, windowMs) <= limit + m - 1
  {
    hide ClockRuns, FixedLimit, Mentions, Between, Times, AdmittedByLimiter, Admitted;
    LimiterAdmitsAsDescribed(calls, windowMs);
    WindowBound(calls, key, limit, m, to, windowMs);
  }

  // ----- when the limit itself is kept -----

  /** There is room under `key` for every mention the call makes of it. */
  predicate Fits(history: seq<Call>, call: Call, key: string, limit: int, windowMs: int) {
    |InWindow(history, key, call.at, windowMs)| + Mentions(call.limits, key) <= limit
  }

  lemma {:induction false} AllAfter(times: seq<int>, at: int, cutoff: int)
    requires cutoff < at && forall i :: 0 <= i < |times| ==> times[i] == at
    ensures After(times, cutoff) == times
    decreases |times|
  {
    if times != [] {
      AllAfter(times[..|times| - 1], at, cutoff);
      assert times == times[..|times| - 1] + [times[|times| - 1]];
    }
  }

  /** One admission keeps the window that ends with it within the limit exactly when the call fits. */
  lemma {:induction false} AdmissionKeepsLimitExactly(
    history: seq<Call>, call: Call, key: string, limit: int, windowMs: int)
    requires windowMs >= 1
    ensures |InWindow(history + [call], key, call.at, windowMs)| ==
            |InWindow(history, key, call.at, windowMs)| + Mentions(call.limits, key)
    ensures |InWindow(history + [call], key, call.at, windowMs)| <= limit <==> Fits(history, call, key, limit, windowMs)
  {
    hide After, Times, Stamps, Mentions;
    var stamps := Stamps(call.limits, key, call.at);
    TimesAppend(history, call, key);
    AfterAppend(Times(history, key), stamps, call.at - windowMs);
    StampsAreAt(call.limits, key, call.at);
    AllAfter(stamps, call.at, call.at - windowMs);
    MentionsAnyTime(call.limits, key, call.at);
  }

  ghost predicate EveryWindowFits(history: seq<Call>, key: string, limit: int, windowMs: int) {
    forall to: int :: Load(history, key, to, windowMs) <= limit
  }

  /** One admission after earlier ones: what every window needs. */
  lemma {:induction false} AdmissionKeepsWindows(history: seq<Call>, call: Call, key: string, limit: int, windowMs: int)
    requires windowMs >= 1
    requires forall i :: 0 <= i < |Times(history, key)| ==> Times(history, key)[i] <= call.at
    ensures EveryWindowFits(history + [call], key, limit, windowMs) <==>
            EveryWindowFits(history, key, limit, windowMs) && Fits(history, call, key, limit, windowMs)
  {
    hide After, Between, Times, Stamps, Mentions, Fits;
    var after, stamps := history + [call], Stamps(call.limits, key, call.at);
    TimesAppend(history, call, key);
    StampsAreAt(call.limits, key, call.at);
    AdmissionKeepsLimitExactly(history, call, key, limit, windowMs);
    UpToNowIsBetween(Times(after, key), call.at - windowMs, call.at);
    forall to: int
      ensures Load(history, key, to, windowMs) <= Load(after, key, to, windowMs)
      ensures Load(after, key, to, windowMs) <= Load(history, key, to, windowMs) ||
              Load(after, key, to, windowMs) <= |InWindow(after, key, call.at, windowMs)|
    {
      BetweenAppend(Times(history, key), stamps, to - windowMs, to);
      BetweenSame(stamps, call.at, to - windowMs, to);
      if to >= call.at { BetweenIsFewer(Times(after, key), to - windowMs, to, call.at - windowMs); }
    }
    assert Load(after, key, call.at, windowMs) == |InWindow(after, key, call.at, windowMs)|;
  }

  /** Every call that the limiter admits had room for all its mentions of `key`. */
  ghost predicate EveryAdmissionFits(calls: seq<Call>, key: string, limit: int, windowMs: int) {
    forall i :: 0 <= i < |calls| && IsAdmitted(calls, i, windowMs) ==>
      Fits(AdmittedByLimiter(calls[..i], windowMs), calls[i], key, limit, windowMs)
  }

  predicate IsAdmitted(calls: seq<Call>, i: nat, windowMs: int)
    requires i < |calls|
  {
    AdmitCall(RunEvents(calls[..i], windowMs), calls[i].limits, calls[i].at, windowMs).0 == Allowed
  }

  lemma {:induction false} AdmissionsOfPrefix(calls: seq<Call>, key: string, limit: int, windowMs: int)
    requires calls != []
    ensures var n := |calls| - 1;
            EveryAdmissionFits(calls, key, limit, windowMs) <==>
            EveryAdmissionFits(calls[..n], key, limit, windowMs) &&
            (IsAdmitted(calls, n, windowMs) ==>
              Fits(AdmittedByLimiter(calls[..n], windowMs), calls[n], key, limit, windowMs))
  {
    hide AdmitCall, RunEvents, AdmittedByLimiter, Fits;
    var n := |calls| - 1;
    forall i | 0 <= i < n ensures calls[..n][i] == calls[i] && calls[..n][..i] == calls[..i] {}
    assert forall i :: 0 <= i < n ==> IsAdmitted(calls[..n], i, windowMs) == IsAdmitted(calls, i, windowMs);
  }

  /**
   * The limit exactly, with any repeats of keys and any limits the calls name: over a run no window
   * passes `limit` under `key` if and only if every admitted call had room for all its mentions.
   */
  lemma {:induction false} WindowsFitExactly(calls: seq<Call>, key: string, limit: nat, windowMs: int)
    requires ClockRuns(calls) && windowMs >= 1
    ensures EveryWindowFits(AdmittedByLimiter(calls, windowMs), key, limit, windowMs) <==>
            EveryAdmissionFits(calls, key, limit, windowMs)
    decreases |calls|
  {
    hide AdmitCall, Times, Fits, EveryWindowFits, EveryAdmissionFits, Admitted, RunEvents;
    if calls == [] {
      NothingFits(key, limit, windowMs);
    } else {
      var n := |calls| - 1;
      var before := AdmittedByLimiter(calls[..n], windowMs);
      WindowsFitExactly(calls[..n], key, limit, windowMs);
      LimiterAdmitsAsDescribed(calls[..n], windowMs);
      AdmittedIsSorted(calls[..n], key, windowMs);
      AdmissionsOfPrefix(calls, key, limit, windowMs);
      assert n > 0 ==> calls[..n][n - 1].at == calls[n - 1].at <= calls[n].at;
      AdmissionKeepsWindows(before, calls[n], key, limit, windowMs);
    }
  }

  lemma {:induction false} NothingFits(key: string, limit: nat, windowMs: int)
    ensures EveryWindowFits([], key, limit, windowMs) && EveryAdmissionFits([], key, limit, windowMs)
  {
    forall to: int ensures Load([], key, to, windowMs) <= limit {
      NothingBetween(key, to - windowMs, to);
    }
  }

  // ----- the excess is reached -----

  /** `n` calls at one time that name the key once. */
  function Singles(l: Limit, at: int, n: nat): (calls: seq<Call>)
    ensures |calls| == n && forall i :: 0 <= i < n ==> calls[i] == Call(at, [l])
  {
    if n == 0 then [] else Singles(l, at, n - 1) + [Call(at, [l])]
  }

  /** Calls at one time are admitted up to the limit. */
  lemma {:induction false} SinglesAreAdmitted(l: Limit, at: int, n: nat, windowMs: int)
    requires n <= l.limit && windowMs >= 1
    ensures Admitted(Singles(l, at, n), windowMs) == Singles(l, at, n)
    ensures |InWindow(Singles(l, at, n), l.key, at, windowMs)| == n
  {
    hide After, Times, Stamps, Mentions, Copies;
    if n == 0 {
      NoTimes(l.key);
      AllAfter([], at, at - windowMs);
    } else {
      SinglesAreAdmitted(l, at, n - 1, windowMs);
      var before := Singles(l, at, n - 1);
      assert Singles(l, at, n)[..n - 1] == before;
        OneMention(l);
      AdmissionKeepsLimitExactly(before, Call(at, [l]), l.key, n, windowMs);
      assert HasRoom(before, [l], at, windowMs) && ValidLimits([l]);
    }
  }

  /** The excess is reached, for every limit and every number of mentions in one call. */
  lemma {:induction false} BoundIsAttained(l: Limit, m: nat, at: int, windowMs: int)
    requires l.limit >= 1 && m >= 1 && windowMs >= 1
    ensures var calls := Singles(l, at, l.limit - 1) + [Call(at, Copies(l, m))];
            && ClockRuns(calls) && FixedLimit(calls, l.key, l.limit)
            && (forall i :: 0 <= i < |calls| ==> Mentions(calls[i].limits, l.key) <= m)
            && Load(AdmittedByLimiter(calls, windowMs), l.key, at, windowMs) == l.limit + m - 1
  {
    hide After, Times, Between, AdmittedByLimiter, Admitted, ClockRuns, FixedLimit, Mentions, InWindow;
    var before, last := Singles(l, at, l.limit - 1), Call(at, Copies(l, m));
    ExcessCalls(l, m, at);
    CopiesMention(l, m);
    ExcessIsAdmitted(l, m, at, windowMs);
    LimiterAdmitsAsDescribed(before + [last], windowMs);
    SinglesAreAdmitted(l, at, l.limit - 1, windowMs);
    AdmissionKeepsLimitExactly(before, last, l.key, l.limit, windowMs);
    LoadIsWindow(before + [last], l.key, at, windowMs);
  }

  lemma {:induction false} ExcessCalls(l: Limit, m: nat, at: int)
    requires l.limit >= 1 && m >= 1
    ensures var calls := Singles(l, at, l.limit - 1) + [Call(at, Copies(l, m))];
            && ClockRuns(calls) && FixedLimit(calls, l.key, l.limit)
            && (forall i :: 0 <= i < |calls| ==> Mentions(calls[i].limits, l.key) <= m)
            && forall i :: 0 <= i < |calls| ==> calls[i].at == at
  {
    hide Mentions;
    CopiesMention(l, m);
    OneMention(l);
  }

  lemma {:induction false} ExcessIsAdmitted(l: Limit, m: nat, at: int, windowMs: int)
    requires l.limit >= 1 && windowMs >= 1
    ensures var calls := Singles(l, at, l.limit - 1) + [Call(at, Copies(l, m))]; Admitted(calls, windowMs) == calls
  {
    hide InWindow, Copies, Singles, Times;
    var before, last := Singles(l, at, l.limit - 1), Call(at, Copies(l, m));
    SinglesAreAdmitted(l, at, l.limit - 1, windowMs);
    assert (before + [last])[..|before|] == before;
    assert HasRoom(before, last.limits, at, windowMs) && ValidLimits(last.limits);
  }

  /** When all calls are at one time, the window that ends there holds them all. */
  lemma {:induction false} LoadIsWindow(calls: seq<Call>, key: string, at: int, windowMs: int)
    requires forall i :: 0 <= i < |calls| ==> calls[i].at <= at
    ensures Load(calls, key, at, windowMs) == |InWindow(calls, key, at, windowMs)|
  {
    hide After, Between;
    TimesUpTo(calls, key, at);
    UpToNowIsBetween(Times(calls, key), at - windowMs, at);
  }

  lemma {:induction false} TimesUpTo(calls: seq<Call>, key: string, at: int)
    requires forall i :: 0 <= i < |calls| ==> calls[i].at <= at
    ensures forall i :: 0 <= i < |Times(calls, key)| ==> Times(calls, key)[i] <= at
    decreases |calls|
  {
    hide Stamps;
    if calls != [] {
      var n := |calls| - 1;
      TimesUpTo(calls[..n], key, at);
      StampsAreAt(calls[n].limits, key, calls[n].at);
    }
  }

  // ----- the waiting time -----

  predicate Full(history: seq<Call>, l: Limit, at: int, windowMs: int) {
    |InWindow(history, l.key, at, windowMs)| >= l.limit
  }

  /** When a full key has room again: the time the last call leaves that keeps it full. */
  function Frees(history: seq<Call>, l: Limit, at: int, windowMs: int): int
    requires l.limit >= 1 && Full(history, l, at, windowMs)
  {
    var active := InWindow(history, l.key, at, windowMs);
    active[|active| - l.limit]
  }

  function Oldest(history: seq<Call>, l: Limit, at: int, windowMs: int): int
    requires l.limit >= 1 && Full(history, l, at, windowMs)
  {
    InWindow(history, l.key, at, windowMs)[0]
  }

  /** For each full key, the oldest call of some full key leaves no earlier than it has room again. */
  predicate Covered(history: seq<Call>, limits: seq<Limit>, at: int, windowMs: int)
    requires ValidLimits(limits)
  {
    forall i :: 0 <= i < |limits| && Full(history, limits[i], at, windowMs) ==>
      exists j :: 0 <= j < |limits| && Full(history, limits[j], at, windowMs) &&
        Frees(history, limits[i], at, windowMs) <= Oldest(history, limits[j], at, windowMs)
  }

  lemma {:induction false} WaitIsOldest(history: seq<Call>, limits: seq<Limit>, at: int, windowMs: int)
    requires ValidLimits(limits)
    ensures var r := Wait(history, limits, at, windowMs);
            && (forall j :: 0 <= j < |limits| && Full(history, limits[j], at, windowMs) ==>
                  Oldest(history, limits[j], at, windowMs) + windowMs - at <= r)
            && (r > 0 ==> exists j :: 0 <= j < |limits| && Full(history, limits[j], at, windowMs) &&
                            Oldest(history, limits[j], at, windowMs) + windowMs - at == r)
    decreases |limits|
  {
    hide InWindow, Copies, Singles, Times;
    if limits != [] {
      var n := |limits| - 1;
      WaitIsOldest(history, limits[..n], at, windowMs);
      assert forall i :: 0 <= i < n ==> limits[..n][i] == limits[i];
    }
  }

  lemma {:induction false} TrueWaitIsFrees(history: seq<Call>, limits: seq<Limit>, at: int, windowMs: int)
    requires ValidLimits(limits)
    ensures var r := TrueWait(history, limits, at, windowMs);
            && (forall j :: 0 <= j < |limits| && Full(history, limits[j], at, windowMs) ==>
                  Frees(history, limits[j], at, windowMs) + windowMs - at <= r)
            && (r > 0 ==> exists j :: 0 <= j < |limits| && Full(history, limits[j], at, windowMs) &&
                            Frees(history, limits[j], at, windowMs) + windowMs - at == r)
    decreases |limits|
  {
    hide InWindow, Copies, Singles, Times;
    if limits != [] {
      var n := |limits| - 1;
      TrueWaitIsFrees(history, limits[..n], at, windowMs);
      assert forall i :: 0 <= i < n ==> limits[..n][i] == limits[i];
    }
  }

  /** The reported wait is the true one exactly when the full keys are covered. */
  lemma {:induction false} WaitIsTrueExactly(history: seq<Call>, limits: seq<Limit>, at: int, windowMs: int)
    requires ValidLimits(limits) && forall key :: Sorted(Times(history, key))
    ensures Wait(history, limits, at, windowMs) == TrueWait(history, limits, at, windowMs) <==>
            Covered(history, limits, at, windowMs)
  {
    hide Times, Wait, TrueWait, Full, Frees, Oldest;
    ReportedWait(history, limits, at, windowMs);
    WaitIsOldest(history, limits, at, windowMs);
    TrueWaitIsFrees(history, limits, at, windowMs);
    var r, t := Wait(history, limits, at, windowMs), TrueWait(history, limits, at, windowMs);
    if r == t {
      forall i | 0 <= i < |limits| && Full(history, limits[i], at, windowMs)
        ensures exists j :: 0 <= j < |limits| && Full(history, limits[j], at, windowMs) &&
                  Frees(history, limits[i], at, windowMs) <= Oldest(history, limits[j], at, windowMs)
      {
        FreesIsAfter(history, limits[i], at, windowMs);
        assert r > 0;
      }
    }
  }

  lemma {:induction false} FreesIsAfter(history: seq<Call>, l: Limit, at: int, windowMs: int)
    requires l.limit >= 1 && Full(history, l, at, windowMs)
    ensures Frees(history, l, at, windowMs) > at - windowMs
  {
    var active := InWindow(history, l.key, at, windowMs);
    assert active[|active| - l.limit] in active;
  }

  /** The same call `d` milliseconds later. */
  function Later(call: Call, d: nat): Call { call.(at := call.at + d) }

  /** The decision of the limiter on a call after a run of calls. */
  function Decide(calls: seq<Call>, call: Call, windowMs: int): Decision {
    AdmitCall(RunEvents(calls, windowMs), call.limits, call.at, windowMs).0
  }

  /** Asked again after `d` milliseconds, the refused call is allowed from `r` on and not before. */
  ghost predicate FreesAfter(calls: seq<Call>, call: Call, r: int, windowMs: int) {
    forall d: nat :: Decide(calls + [call], Later(call, d), windowMs) == Allowed <==> d >= r
  }

  /** After a refusal nothing is recorded: the next decision is on the calls admitted before it. */
  lemma {:induction false} AskedAgain(calls: seq<Call>, call: Call, d: nat, windowMs: int)
    requires ClockRuns(calls + [call]) && Decide(calls, call, windowMs).Refused?
    ensures Decide(calls + [call], Later(call, d), windowMs) ==
            Describe(AdmittedByLimiter(calls, windowMs), Later(call, d), windowMs).0
  {
    hide AdmitCall, HasRoom, Wait, RunEvents, ClockRuns;
    var all := calls + [call];
    assert all[..|calls|] == calls && all[|calls|] == call;
    ClockRunsOn(calls, call, d);
    RunRefines(calls, call, windowMs);
    RunRefines(all, Later(call, d), windowMs);
    LimiterAdmitsAsDescribed(calls, windowMs);
    assert Admitted(all, windowMs) == Admitted(calls, windowMs);
  }

  lemma {:induction false} ClockRunsOn(calls: seq<Call>, call: Call, d: nat)
    requires ClockRuns(calls + [call])
    ensures ClockRuns(calls) && ClockRuns(calls + [call] + [Later(call, d)])
  {
    var all := calls + [call];
    var again := all + [Later(call, d)];
    assert forall i :: 0 <= i < |calls| ==> calls[i] == all[i];
    assert all[|calls|] == call;
    assert forall i :: 0 <= i < |all| ==> again[i] == all[i] && all[i].at <= call.at;
  }

  /**
   * Retry-after, exactly, in every run of the limiter: the wait a refusal reports is the time from
   * which the same call is allowed - and before which it is not - if and only if, for each full key,
   * the oldest call of some full key leaves no earlier than that key has room again.
   */
  lemma {:induction false} RetryAfterExactly(calls: seq<Call>, call: Call, windowMs: int)
    requires ClockRuns(calls + [call]) && Decide(calls, call, windowMs).Refused?
    ensures ValidLimits(call.limits)
    ensures FreesAfter(calls, call, Decide(calls, call, windowMs).retryAfterMs, windowMs) <==>
            Covered(AdmittedByLimiter(calls, windowMs), call.limits, call.at, windowMs)
  {
    hide Wait, TrueWait, HasRoom, Covered, Decide, Times, Sorted;
    var history := AdmittedByLimiter(calls, windowMs);
    RefusalIsDescribed(calls, call, windowMs);
    HistoryIsSorted(calls, call, windowMs);
    var r, t := Wait(history, call.limits, call.at, windowMs), TrueWait(history, call.limits, call.at, windowMs);
    WaitIsTrueExactly(history, call.limits, call.at, windowMs);
    forall d: nat ensures Decide(calls + [call], Later(call, d), windowMs) == Allowed <==> t <= d {
      AskedAgain(calls, call, d, windowMs);
      AllowedExactlyAfterWait(history, call.limits, call.at, windowMs, d);
    }
    if r != t {
      ReportedWait(history, call.limits, call.at, windowMs);
      assert Decide(calls + [call], Later(call, r), windowMs) != Allowed;
    }
  }

  lemma {:induction false} RefusalIsDescribed(calls: seq<Call>, call: Call, windowMs: int)
    requires ClockRuns(calls + [call]) && Decide(calls, call, windowMs).Refused?
    ensures ValidLimits(call.limits)
    ensures Decide(calls, call, windowMs).retryAfterMs ==
            Wait(AdmittedByLimiter(calls, windowMs), call.limits, call.at, windowMs)
  {
    hide AdmitCall, HasRoom, Wait, RunEvents;
    var all := calls + [call];
    assert all[..|calls|] == calls && forall i :: 0 <= i < |calls| ==> calls[i] == all[i];
    RunRefines(calls, call, windowMs);
    LimiterAdmitsAsDescribed(calls, windowMs);
  }

  lemma {:induction false} HistoryIsSorted(calls: seq<Call>, call: Call, windowMs: int)
    requires ClockRuns(calls + [call])
    ensures forall key :: Sorted(Times(AdmittedByLimiter(calls, windowMs), key))
  {
    hide Times, Sorted, AdmittedByLimiter, Admitted;
    assert forall i :: 0 <= i < |calls| ==> calls[i] == (calls + [call])[i];
    LimiterAdmitsAsDescribed(calls, windowMs);
    forall key ensures Sorted(Times(AdmittedByLimiter(calls, windowMs), key)) {
      AdmittedIsSorted(calls, key, windowMs);
    }
  }

  /** With distinct keys in each call and one limit per key, every reported wait is exact. */
  lemma {:induction false} RetryAfterOfFixedLimits(calls: seq<Call>, call: Call, windowMs: int, d: nat)
    requires ClockRuns(calls + [call]) && Decide(calls, call, windowMs).Refused?
    requires forall i :: 0 <= i < |calls| ==> DistinctKeys(calls[i].limits)
    requires forall i :: 0 <= i < |call.limits| ==> FixedLimit(calls, call.limits[i].key, call.limits[i].limit)
    ensures Decide(calls + [call], Later(call, d), windowMs) == Allowed <==>
            d >= Decide(calls, call, windowMs).retryAfterMs
  {
    hide Decide, Wait, TrueWait, HasRoom, Times, Sorted, DistinctKeys, FixedLimit, InWindow, WithinLimits;
    RefusalIsDescribed(calls, call, windowMs);
    HistoryIsSorted(calls, call, windowMs);
    assert forall i :: 0 <= i < |calls| ==> calls[i] == (calls + [call])[i];
    LimiterAdmitsAsDescribed(calls, windowMs);
    FixedLimitsStayWithin(calls, call, windowMs);
    ReportedWait(AdmittedByLimiter(calls, windowMs), call.limits, call.at, windowMs);
    WaitIsTrueExactly(AdmittedByLimiter(calls, windowMs), call.limits, call.at, windowMs);
    RetryAfterExactly(calls, call, windowMs);
  }
}
