/** The concurrency limiter: counters per key, and releases that count once. */
module Concurrency {
  import opened SlidingWindow

  /** What an admitted call holds; `released` is the flag its release handle keeps. */
  datatype Lease = Lease(limits: seq<Limit>, released: bool)

  datatype State = State(active: map<string, int>, leases: seq<Lease>)

  datatype Reply = Admitted(lease: nat) | Busy | Invalid

  function Count(active: map<string, int>, key: string): int { if key in active then active[key] else 0 }

  function Raise(active: map<string, int>, limits: seq<Limit>): map<string, int> {
    if limits == [] then active
    else
      var n := |limits| - 1;
      var before := Raise(active, limits[..n]);
      before[limits[n].key := Count(before, limits[n].key) + 1]
  }

  function Lower(active: map<string, int>, limits: seq<Limit>): map<string, int> {
    if limits == [] then active
    else
      var n := |limits| - 1;
      var before := Lower(active, limits[..n]);
      before[limits[n].key := Max(0, Count(before, limits[n].key) - 1)]
  }

  predicate SomeInvalid(limits: seq<Limit>) { exists i :: 0 <= i < |limits| && limits[i].limit < 1 }

  predicate SomeFull(active: map<string, int>, limits: seq<Limit>) {
    exists i :: 0 <= i < |limits| && Count(active, limits[i].key) >= limits[i].limit
  }

  function AcquireCall(s: State, limits: seq<Limit>): (Reply, State) {
    if SomeInvalid(limits) then (Invalid, s)
    else if SomeFull(s.active, limits) then (Busy, s)
    else (Admitted(|s.leases|), State(Raise(s.active, limits), s.leases + [Lease(limits, false)]))
  }

  /** The release handle of lease `h`. */
  function ReleaseCall(s: State, h: nat): State {
    if h >= |s.leases| || s.leases[h].released then s
    else State(Lower(s.active, s.leases[h].limits), s.leases[h := s.leases[h].(released := true)])
  }

  class ConcurrencyLimiter {
    var active: map<string, int>
    var leases: seq<Lease>

    ghost function Counters(): State
      reads this
    {
      State(active, leases)
    }

    constructor ()
      ensures Counters() == State(map[], [])
    {
      active, leases := map[], [];
    }

    method Acquire(limits: seq<Limit>) returns (r: Reply)
      modifies this
      ensures (r, Counters()) == AcquireCall(old(Counters()), limits)
    {
      if SomeInvalid(limits) { return Invalid; }
      if SomeFull(active, limits) { return Busy; }
      for i := 0 to |limits|
        invariant active == Raise(old(active), limits[..i]) && leases == old(leases)
      {
        assert limits[..i + 1][..i] == limits[..i];
        active := active[limits[i].key := Count(active, limits[i].key) + 1];
      }
      assert limits[..|limits|] == limits;
      leases := leases + [Lease(limits, false)];
      return Admitted(|leases| - 1);
    }

    method Release(h: nat)
      modifies this
      ensures Counters() == ReleaseCall(old(Counters()), h)
    {
      if h >= |leases| || leases[h].released { return; }
      var limits := leases[h].limits;
      leases := leases[h := leases[h].(released := true)];
      for i := 0 to |limits|
        invariant active == Lower(old(active), limits[..i]) &&
                  leases == old(leases)[h := old(leases)[h].(released := true)]
      {
        assert limits[..i + 1][..i] == limits[..i];
        active := active[limits[i].key := Max(0, Count(active, limits[i].key) - 1)];
      }
      assert limits[..|limits|] == limits;
    }
  }

  // ----- counters are live leases -----

  /** How often the live leases name `key`. */
  function Live(leases: seq<Lease>, key: string): nat {
    if leases == [] then 0
    else
      var last := leases[|leases| - 1];
      Live(leases[..|leases| - 1], key) + (if last.released then 0 else Mentions(last.limits, key))
  }

  ghost predicate Counted(s: State) { forall key :: Count(s.active, key) == Live(s.leases, key) }

  lemma {:induction false} RaiseCounts(active: map<string, int>, limits: seq<Limit>, key: string)
    ensures Count(Raise(active, limits), key) == Count(active, key) + Mentions(limits, key)
    decreases |limits|
  {
    if limits != [] { RaiseCounts(active, limits[..|limits| - 1], key); }
  }

  lemma {:induction false} LowerCounts(active: map<string, int>, limits: seq<Limit>, key: string)
    requires Count(active, key) >= Mentions(limits, key)
    ensures Count(Lower(active, limits), key) == Count(active, key) - Mentions(limits, key)
    decreases |limits|
  {
    if limits != [] { LowerCounts(active, limits[..|limits| - 1], key); }
  }

  lemma {:induction false} LiveAppend(leases: seq<Lease>, lease: Lease, key: string)
    ensures Live(leases + [lease], key) ==
            Live(leases, key) + (if lease.released then 0 else Mentions(lease.limits, key))
  {
    assert (leases + [lease])[..|leases|] == leases;
  }

  lemma {:induction false} LiveRelease(leases: seq<Lease>, h: nat, key: string)
    requires h < |leases| && !leases[h].released
    ensures Live(leases[h := leases[h].(released := true)], key) == Live(leases, key) - Mentions(leases[h].limits, key)
    decreases |leases|
  {
    var n := |leases| - 1;
    var after := leases[h := leases[h].(released := true)];
    if h == n {
      assert after[..n] == leases[..n];
    } else {
      assert after[..n] == leases[..n][h := leases[..n][h].(released := true)];
      LiveRelease(leases[..n], h, key);
    }
  }

  datatype Op = AcquireOp(limits: seq<Limit>) | ReleaseOp(h: nat)

  function Apply(s: State, op: Op): State {
    match op
    case AcquireOp(limits) => AcquireCall(s, limits).1
    case ReleaseOp(h) => ReleaseCall(s, h)
  }

  const UNUSED := State(map[], [])

  function Run(s: State, ops: seq<Op>): State {
    if ops == [] then s else Apply(Run(s, ops[..|ops| - 1]), ops[|ops| - 1])
  }

  lemma {:induction false} ApplyCounts(s: State, op: Op)
    requires Counted(s)
    ensures Counted(Apply(s, op))
  {
    hide Raise, Lower, Live, Mentions;
    forall key ensures Count(Apply(s, op).active, key) == Live(Apply(s, op).leases, key) {
      match op {
        case AcquireOp(limits) =>
          RaiseCounts(s.active, limits, key);
          LiveAppend(s.leases, Lease(limits, false), key);
        case ReleaseOp(h) =>
          if h < |s.leases| && !s.leases[h].released {
            LiveRelease(s.leases, h, key);
            assert Count(s.active, key) == Live(s.leases, key);
            LowerCounts(s.active, s.leases[h].limits, key);
          }
      }
    }
  }

  /** In every run each counter is the number of live leases on its key, so no release is clamped. */
  lemma {:induction false} RunCounts(ops: seq<Op>)
    ensures Counted(Run(UNUSED, ops))
    decreases |ops|
  {
    hide Apply;
    if ops != [] {
      RunCounts(ops[..|ops| - 1]);
      ApplyCounts(Run(UNUSED, ops[..|ops| - 1]), ops[|ops| - 1]);
    }
  }

  lemma {:induction false} StaysReleased(s: State, h: nat, ops: seq<Op>)
    requires h < |s.leases| && s.leases[h].released
    ensures h < |Run(s, ops).leases| && Run(s, ops).leases[h].released
    decreases |ops|
  {
    hide Raise, Lower, SomeInvalid, SomeFull;
    if ops != [] { StaysReleased(s, h, ops[..|ops| - 1]); }
  }

  /** Releasing again changes nothing, whatever was acquired and released in between. */
  lemma {:induction false} ReleaseIsIdempotent(s: State, h: nat, ops: seq<Op>)
    requires h < |s.leases|
    ensures ReleaseCall(Run(ReleaseCall(s, h), ops), h) == Run(ReleaseCall(s, h), ops)
  {
    hide Raise, Lower, Apply;
    StaysReleased(ReleaseCall(s, h), h, ops);
  }

  /** A call is invalid for a limit below one, refused for a key at its limit, and else raises every key it names. */
  lemma {:induction false} AcquireExactly(s: State, limits: seq<Limit>, key: string)
    ensures var (r, after) := AcquireCall(s, limits);
            && (r == Invalid <==> exists l :: l in limits && l.limit < 1)
            && (r == Busy <==> (forall l :: l in limits ==> l.limit >= 1) &&
                               exists l :: l in limits && Count(s.active, l.key) >= l.limit)
            && (r == Invalid || r == Busy ==> after == s)
            && (r.Admitted? ==>
                  && r.lease == |s.leases| && after.leases == s.leases + [Lease(limits, false)]
                  && Count(after.active, key) == Count(s.active, key) + Mentions(limits, key))
  {
    RaiseCounts(s.active, limits, key);
    hide Raise, Mentions, Count;
  }

  // ----- the limit -----

  /** Every call that names `key` gives it this limit. */
  predicate FixedLimit(ops: seq<Op>, key: string, limit: int) {
    forall i, j :: 0 <= i < |ops| && ops[i].AcquireOp? && 0 <= j < |ops[i].limits| && ops[i].limits[j].key == key ==>
      ops[i].limits[j].limit == limit
  }

  predicate IsAdmitted(s: State, op: Op) { op.AcquireOp? && AcquireCall(s, op.limits).0.Admitted? }

  /** What one operation does to the live leases on a key. */
  lemma {:induction false} LiveStep(s: State, op: Op, key: string)
    requires Counted(s)
    ensures IsAdmitted(s, op) ==> Live(Apply(s, op).leases, key) == Live(s.leases, key) + Mentions(op.limits, key)
    ensures !IsAdmitted(s, op) ==> Live(Apply(s, op).leases, key) <= Live(s.leases, key)
    ensures IsAdmitted(s, op) && Mentions(op.limits, key) > 0 ==>
              exists j :: 0 <= j < |op.limits| && op.limits[j].key == key && Live(s.leases, key) < op.limits[j].limit
  {
    hide Raise, Lower, Live, Mentions;
    match op {
      case AcquireOp(limits) =>
        LiveAppend(s.leases, Lease(limits, false), key);
        NamedIsMentioned(limits, key);
        assert Count(s.active, key) == Live(s.leases, key);
      case ReleaseOp(h) =>
        if h < |s.leases| && !s.leases[h].released { LiveRelease(s.leases, h, key); }
    }
  }

  /**
   * In every run where `key` has one limit and no call names it more than `m` times, at most
   * `limit + m - 1` live leases are on it: with distinct keys in each call, the limit itself.
   */
  lemma {:induction false} WithinLimit(ops: seq<Op>, key: string, limit: int, m: nat)
    requires FixedLimit(ops, key, limit) && limit + m >= 1
    requires forall i :: 0 <= i < |ops| && ops[i].AcquireOp? ==> Mentions(ops[i].limits, key) <= m
    ensures Live(Run(UNUSED, ops).leases, key) <= limit + m - 1
    decreases |ops|
  {
    hide Live, Mentions, Apply, IsAdmitted, Counted;
    if ops == [] {
      NothingLives(key);
    } else {
      var n := |ops| - 1;
      assert forall i :: 0 <= i < n ==> ops[..n][i] == ops[i];
      WithinLimit(ops[..n], key, limit, m);
      RunCounts(ops[..n]);
      LiveStep(Run(UNUSED, ops[..n]), ops[n], key);
      AdmittedIsAcquire(Run(UNUSED, ops[..n]), ops[n]);
    }
  }

  lemma {:induction false} NothingLives(key: string)
    ensures Live(Run(UNUSED, []).leases, key) == 0
  {
  }

  lemma {:induction false} AdmittedIsAcquire(s: State, op: Op)
    ensures IsAdmitted(s, op) ==> op.AcquireOp?
  {
  }

  /** At every moment of the run at most `limit` live leases are on `key`. */
  ghost predicate AlwaysWithin(ops: seq<Op>, key: string, limit: nat) {
    forall n :: 0 <= n <= |ops| ==> Live(Run(UNUSED, ops[..n]).leases, key) <= limit
  }

  /** Every call that the limiter admits has room for all its mentions of `key`. */
  ghost predicate EveryAdmissionFits(ops: seq<Op>, key: string, limit: nat) {
    forall n :: 0 <= n < |ops| && IsAdmitted(Run(UNUSED, ops[..n]), ops[n]) ==>
      Live(Run(UNUSED, ops[..n]).leases, key) + Mentions(ops[n].limits, key) <= limit
  }

  /**
   * The limit exactly, with any repeats of keys and any limits the calls name: a run never has more
   * than `limit` live leases on `key` if and only if every admitted call had room for all its mentions.
   */
  lemma {:induction false} WithinLimitExactly(ops: seq<Op>, key: string, limit: nat)
    ensures AlwaysWithin(ops, key, limit) <==> EveryAdmissionFits(ops, key, limit)
    decreases |ops|
  {
    hide Live, Mentions, Apply, IsAdmitted, Counted, AlwaysWithin, EveryAdmissionFits;
    if ops == [] {
      NothingYet(key, limit);
    } else {
      var n := |ops| - 1;
      WithinLimitExactly(ops[..n], key, limit);
      LastOperation(ops, key, limit);
      RunCounts(ops[..n]);
      LiveStep(Run(UNUSED, ops[..n]), ops[n], key);
    }
  }

  lemma {:induction false} NothingYet(key: string, limit: nat)
    ensures AlwaysWithin([], key, limit) && EveryAdmissionFits([], key, limit)
  {
    NothingLives(key);
  }

  lemma {:induction false} LastOperation(ops: seq<Op>, key: string, limit: nat)
    requires ops != []
    ensures var n := |ops| - 1;
            && (AlwaysWithin(ops, key, limit) <==>
                  AlwaysWithin(ops[..n], key, limit) && Live(Run(UNUSED, ops).leases, key) <= limit)
            && (EveryAdmissionFits(ops, key, limit) <==>
                  EveryAdmissionFits(ops[..n], key, limit) &&
                  (IsAdmitted(Run(UNUSED, ops[..n]), ops[n]) ==>
                     Live(Run(UNUSED, ops[..n]).leases, key) + Mentions(ops[n].limits, key) <= limit))
            && (AlwaysWithin(ops[..n], key, limit) ==> Live(Run(UNUSED, ops[..n]).leases, key) <= limit)
  {
    hide Live, Mentions, Run, IsAdmitted;
    var n := |ops| - 1;
    assert forall i :: 0 <= i <= n ==> ops[..n][..i] == ops[..i];
    assert ops[..n + 1] == ops && ops[..n][..n] == ops[..n];
    assert forall i :: 0 <= i < n ==> ops[..n][i] == ops[i];
  }

  /** `n` calls that name the limit once. */
  function Singles(l: Limit, n: nat): (ops: seq<Op>)
    ensures |ops| == n && forall i :: 0 <= i < n ==> ops[i] == AcquireOp([l])
  {
    if n == 0 then [] else Singles(l, n - 1) + [AcquireOp([l])]
  }

  lemma {:induction false} CopiesAreAdmitted(s: State, l: Limit, m: nat)
    requires Counted(s) && l.limit >= 1 && Live(s.leases, l.key) < l.limit
    ensures Live(Apply(s, AcquireOp(Copies(l, m))).leases, l.key) == Live(s.leases, l.key) + m
  {
    hide Live, Mentions, Raise;
    CopiesMention(l, m);
    assert Count(s.active, l.key) == Live(s.leases, l.key);
    LiveAppend(s.leases, Lease(Copies(l, m), false), l.key);
  }

  lemma {:induction false} SinglesAreAdmitted(l: Limit, n: nat)
    requires n <= l.limit
    ensures Live(Run(UNUSED, Singles(l, n)).leases, l.key) == n
  {
    hide Live, Mentions, Apply, Counted, Copies;
    if n == 0 {
      NothingLives(l.key);
    } else {
      SinglesAreAdmitted(l, n - 1);
      assert Singles(l, n)[..n - 1] == Singles(l, n - 1);
      RunCounts(Singles(l, n - 1));
      OneMention(l);
      CopiesAreAdmitted(Run(UNUSED, Singles(l, n - 1)), l, 1);
    }
  }

  /** The excess is reached, for every limit and every number of mentions in one call. */
  lemma {:induction false} BoundIsAttained(l: Limit, m: nat)
    requires l.limit >= 1 && m >= 1
    ensures var ops := Singles(l, l.limit - 1) + [AcquireOp(Copies(l, m))];
            && FixedLimit(ops, l.key, l.limit)
            && (forall i :: 0 <= i < |ops| && ops[i].AcquireOp? ==> Mentions(ops[i].limits, l.key) <= m)
            && Live(Run(UNUSED, ops).leases, l.key) == l.limit + m - 1
  {
    hide Live, Mentions, Apply, Counted, Run;
    var first, last := Singles(l, l.limit - 1), AcquireOp(Copies(l, m));
    OneMention(l);
    CopiesMention(l, m);
    SinglesAreAdmitted(l, l.limit - 1);
    RunCounts(first);
    CopiesAreAdmitted(Run(UNUSED, first), l, m);
    RunOneMore(first, last);
  }

  lemma {:induction false} RunOneMore(ops: seq<Op>, last: Op)
    ensures Run(UNUSED, ops + [last]) == Apply(Run(UNUSED, ops), last)
  {
    assert (ops + [last])[..|ops|] == ops;
  }
}
