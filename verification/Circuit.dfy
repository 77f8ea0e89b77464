/** The circuit breaker: trips on a failure ratio, probes once, and closes on a successful probe. */
module Circuit {
  import opened Results

  datatype Outcome = Success | Failure
  datatype Mode = Closed | Open | HalfOpen

  datatype Config = Config(windowSize: int, minimumSamples: int, failureRatio: real, openMs: int)

  predicate ValidConfig(c: Config) {
    c.windowSize >= c.minimumSamples >= 1 && 0.0 < c.failureRatio <= 1.0 && c.openMs >= 1
  }

  datatype State = State(outcomes: seq<Outcome>, mode: Mode, openedAt: int, probe: bool)
  const INITIAL := State([], Closed, 0, false)

  datatype Verdict = Allowed | Rejected(retryAfterMs: int)

  function Failures(outcomes: seq<Outcome>): (n: nat)
    ensures n <= |outcomes|
  {
    if outcomes == [] then 0
    else Failures(outcomes[..|outcomes| - 1]) + (if outcomes[|outcomes| - 1] == Failure then 1 else 0)
  }

  /** The window of outcomes calls for opening the circuit. */
  predicate Trips(outcomes: seq<Outcome>, c: Config) {
    |outcomes| >= c.minimumSamples && |outcomes| > 0 &&
    Failures(outcomes) as real / |outcomes| as real >= c.failureRatio
  }

  /** The last `n` elements. */
  function Last<T>(s: seq<T>, n: nat): seq<T> { if |s| <= n then s else s[|s| - n..] }

  function AdmitCall(s: State, now: int, c: Config): (Verdict, State) {
    var woken := if s.mode == Open && now - s.openedAt >= c.openMs then s.(mode := HalfOpen, probe := false) else s;
    match woken.mode
    case Closed => (Allowed, woken)
    case Open => (Rejected(c.openMs - (now - woken.openedAt)), woken)
    case HalfOpen => if woken.probe then (Rejected(c.openMs), woken) else (Allowed, woken.(probe := true))
  }

  function RecordCall(s: State, outcome: Outcome, now: int, c: Config): State
    requires c.windowSize >= 0
  {
    if s.mode == HalfOpen then
      if outcome == Success then s.(probe := false, mode := Closed, outcomes := [])
      else s.(probe := false, mode := Open, openedAt := now)
    else
      var outcomes := Last(s.outcomes + [outcome], c.windowSize);
      if Trips(outcomes, c) then s.(outcomes := outcomes, mode := Open, openedAt := now) else s.(outcomes := outcomes)
  }

  /** Drops the oldest outcomes until at most `size` are left. */
  method Shift(outcomes: seq<Outcome>, size: nat) returns (kept: seq<Outcome>)
    ensures kept == Last(outcomes, size)
  {
    kept := outcomes;
    while |kept| > size
      invariant |kept| <= |outcomes| && kept == outcomes[|outcomes| - |kept|..]
      invariant |kept| == |outcomes| || |kept| >= size
      decreases |kept|
    {
      kept := kept[1..];
    }
  }

  class CircuitBreaker {
    const config: Config
    var outcomes: seq<Outcome>
    var mode: Mode
    var openedAt: int
    var probe: bool

    ghost function Position(): State
      reads this
    {
      State(outcomes, mode, openedAt, probe)
    }

    constructor (config: Config)
      ensures this.config == config && Position() == INITIAL
    {
      this.config, outcomes, mode, openedAt, probe := config, [], Closed, 0, false;
    }

    method Admit(now: int) returns (v: Verdict)
      modifies this
      ensures (v, Position()) == AdmitCall(old(Position()), now, config)
    {
      if mode == Open && now - openedAt >= config.openMs { mode, probe := HalfOpen, false; }
      if mode == Open { return Rejected(config.openMs - (now - openedAt)); }
      if mode == HalfOpen {
        if probe { return Rejected(config.openMs); }
        probe := true;
      }
      return Allowed;
    }

    method Record(outcome: Outcome, now: int)
      requires ValidConfig(config)
      modifies this
      ensures Position() == RecordCall(old(Position()), outcome, now, config)
    {
      if mode == HalfOpen {
        probe := false;
        if outcome == Success { mode, outcomes := Closed, []; } else { mode, openedAt := Open, now; }
        return;
      }
      outcomes := outcomes + [outcome];
      outcomes := Shift(outcomes, config.windowSize);
      if Trips(outcomes, config) { mode, openedAt := Open, now; }
    }
  }

  /** Building a breaker refuses an inconsistent configuration. */
  method NewBreaker(config: Config) returns (r: Option<CircuitBreaker>)
    ensures r.None? <==>
            config.windowSize < config.minimumSamples || config.minimumSamples < 1 || config.failureRatio <= 0.0 ||
            config.failureRatio > 1.0 || config.openMs < 1
    ensures r.Some? ==> ValidConfig(config)
    ensures r.Some? ==> fresh(r.value) && r.value.config == config && r.value.Position() == State([], Closed, 0, false)
  {
    if !ValidConfig(config) { return None; }
    var breaker := new CircuitBreaker(config);
    return Some(breaker);
  }

  // ----- one call, told without the program's predicates -----

  /** How many of the outcomes are failures. */
  lemma {:induction false} FailuresExactly(outcomes: seq<Outcome>)
    ensures Failures(outcomes) == |set i | 0 <= i < |outcomes| && outcomes[i] == Failure|
    decreases |outcomes|
  {
    if outcomes != [] {
      var n := |outcomes| - 1;
      FailuresExactly(outcomes[..n]);
      var before := set i | 0 <= i < n && outcomes[..n][i] == Failure;
      var all := set i | 0 <= i < |outcomes| && outcomes[i] == Failure;
      assert all == before + (if outcomes[n] == Failure then {n} else {});
    }
  }

  /** The circuit trips on enough outcomes, when the failures among them reach the ratio. */
  lemma {:induction false} TripsExactly(outcomes: seq<Outcome>, c: Config)
    requires ValidConfig(c)
    ensures Trips(outcomes, c) <==>
            |outcomes| >= c.minimumSamples &&
            |set i | 0 <= i < |outcomes| && outcomes[i] == Failure| as real >= c.failureRatio * |outcomes| as real
  {
    FailuresExactly(outcomes);
    if outcomes != [] { RatioExactly(Failures(outcomes) as real, |outcomes| as real, c.failureRatio); }
  }

  lemma {:induction false} RatioExactly(part: real, whole: real, ratio: real)
    requires whole > 0.0
    ensures part / whole >= ratio <==> part >= ratio * whole
  {
    var q := part / whole;
    assert q * whole == part;
    if q >= ratio { assert (q - ratio) * whole >= 0.0; }
    if q < ratio { assert (ratio - q) * whole > 0.0; }
  }

  // ----- runs -----

  datatype Op = AdmitOp(now: int) | RecordOp(outcome: Outcome, now: int)

  function Apply(s: State, op: Op, c: Config): State
    requires ValidConfig(c)
  {
    match op
    case AdmitOp(now) => AdmitCall(s, now, c).1
    case RecordOp(outcome, now) => RecordCall(s, outcome, now, c)
  }

  function Run(s: State, ops: seq<Op>, c: Config): State
    requires ValidConfig(c)
  {
    if ops == [] then s else Apply(Run(s, ops[..|ops| - 1], c), ops[|ops| - 1], c)
  }

  /** How many of the calls in the run were admitted. */
  function Admissions(s: State, ops: seq<Op>, c: Config): nat
    requires ValidConfig(c)
  {
    if ops == [] then 0
    else
      var n := |ops| - 1;
      Admissions(s, ops[..n], c) +
      (if ops[n].AdmitOp? && AdmitCall(Run(s, ops[..n], c), ops[n].now, c).0 == Allowed then 1 else 0)
  }

  /** The outcomes recorded since the last close, leaving out those that decided a probe. */
  function SinceClose(s: State, ops: seq<Op>, c: Config): seq<Outcome>
    requires ValidConfig(c)
  {
    if ops == [] then s.outcomes
    else
      var n := |ops| - 1;
      var before, op := Run(s, ops[..n], c), ops[n];
      var kept := SinceClose(s, ops[..n], c);
      if op.AdmitOp? then kept
      else if before.mode == HalfOpen then (if op.outcome == Success then [] else kept)
      else kept + [op.outcome]
  }

  lemma {:induction false} LastAppend<T>(s: seq<T>, x: T, n: nat)
    ensures Last(Last(s, n) + [x], n) == Last(s + [x], n)
  {
  }

  /**
   * In every run the kept outcomes are the last `windowSize` of those since the last close, and a
   * closed circuit is one whose window does not call for opening.
   */
  lemma {:induction false} WindowIsRecent(ops: seq<Op>, c: Config)
    requires ValidConfig(c)
    ensures var s := Run(INITIAL, ops, c);
            && s.outcomes == Last(SinceClose(INITIAL, ops, c), c.windowSize)
            && (s.mode == Closed ==> !Trips(s.outcomes, c))
    decreases |ops|
  {
    hide Trips, Last;
    if ops == [] {
      assert Last<Outcome>([], c.windowSize) == [] && !Trips([], c) by { NothingTrips(c); }
    } else {
      var n := |ops| - 1;
      WindowIsRecent(ops[..n], c);
      NothingTrips(c);
      if ops[n].RecordOp? { LastAppend(SinceClose(INITIAL, ops[..n], c), ops[n].outcome, c.windowSize); }
    }
  }

  lemma {:induction false} NothingTrips(c: Config)
    requires ValidConfig(c)
    ensures Last<Outcome>([], c.windowSize) == [] && !Trips([], c)
  {
  }

  /** The last `n` outcomes of `s`, or all of them. */
  predicate AreLatest(recent: seq<Outcome>, s: seq<Outcome>, n: nat) {
    |recent| <= n && |recent| <= |s| && (|s| > n ==> |recent| == n) && (|s| <= n ==> |recent| == |s|) &&
    recent == s[|s| - |recent|..]
  }

  /**
   * Recording opens a closed circuit exactly when, of the last `windowSize` outcomes since the last
   * close, there are enough and the failures among them reach the ratio; it is open from then on.
   */
  lemma {:induction false} OpensExactly(ops: seq<Op>, outcome: Outcome, now: int, c: Config, recent: seq<Outcome>)
    requires ValidConfig(c) && Run(INITIAL, ops, c).mode == Closed
    requires AreLatest(recent, SinceClose(INITIAL, ops, c) + [outcome], c.windowSize)
    ensures var s, after := Run(INITIAL, ops, c), RecordCall(Run(INITIAL, ops, c), outcome, now, c);
            && after.outcomes == recent && after.probe == s.probe
            && if |recent| >= c.minimumSamples &&
                  |set i | 0 <= i < |recent| && recent[i] == Failure| as real >= c.failureRatio * |recent| as real
               then after.mode == Open && after.openedAt == now
               else after.mode == Closed && after.openedAt == s.openedAt
  {
    hide Trips, Last;
    WindowIsRecent(ops, c);
    LastAppend(SinceClose(INITIAL, ops, c), outcome, c.windowSize);
    LatestIsLast(recent, SinceClose(INITIAL, ops, c) + [outcome], c.windowSize);
    TripsExactly(recent, c);
  }

  lemma {:induction false} LatestIsLast(recent: seq<Outcome>, s: seq<Outcome>, n: nat)
    requires AreLatest(recent, s, n)
    ensures recent == Last(s, n)
  {
  }

  /**
   * A failed probe reopens the circuit for the whole `openMs`: whatever is recorded meanwhile, nothing
   * is admitted before, and with nothing recorded the next probe goes out exactly then.
   */
  lemma {:induction false} FailedProbeReopens(s: State, now: int, ops: seq<Op>, later: int, c: Config)
    requires ValidConfig(c) && s.mode == HalfOpen
    requires forall i :: 0 <= i < |ops| ==> now <= ops[i].now < now + c.openMs
    ensures var after := RecordCall(s, Failure, now, c);
            && after == State(s.outcomes, Open, now, false)
            && Admissions(after, ops, c) == 0 && Run(after, ops, c).mode == Open
            && (later >= now ==>
                  (AdmitCall(after, later, c).0 == Allowed <==> later >= now + c.openMs) &&
                  (later >= now + c.openMs ==>
                     AdmitCall(after, later, c).1.mode == HalfOpen && AdmitCall(after, later, c).1.probe))
  {
    hide Trips, Last;
    OpenAdmitsNothing(RecordCall(s, Failure, now, c), ops, c);
  }

  /**
   * A successful probe closes the circuit and forgets the outcomes before: whatever comes next, every
   * call is admitted until `minimumSamples` new outcomes are recorded.
   */
  lemma {:induction false} SuccessfulProbeCloses(s: State, now: int, ops: seq<Op>, c: Config)
    requires ValidConfig(c) && s.mode == HalfOpen
    requires |RecordPlaces(ops)| < c.minimumSamples
    ensures var after := RecordCall(s, Success, now, c);
            && after == State([], Closed, s.openedAt, false)
            && Run(after, ops, c).mode == Closed
            && Admissions(after, ops, c) == |AdmitPlaces(ops)|
  {
    hide Trips, Last, AdmitPlaces, RecordPlaces;
    StaysClosed(RecordCall(s, Success, now, c), ops, c);
  }

  /** The places of the admissions, and those of the records. */
  function AdmitPlaces(ops: seq<Op>): set<int> { set i | 0 <= i < |ops| && ops[i].AdmitOp? }
  function RecordPlaces(ops: seq<Op>): set<int> { set i | 0 <= i < |ops| && ops[i].RecordOp? }

  lemma {:induction false} PlacesStep(ops: seq<Op>)
    requires ops != []
    ensures var n := |ops| - 1;
            && |AdmitPlaces(ops)| == |AdmitPlaces(ops[..n])| + (if ops[n].AdmitOp? then 1 else 0)
            && |RecordPlaces(ops)| == |RecordPlaces(ops[..n])| + (if ops[n].RecordOp? then 1 else 0)
  {
    var n := |ops| - 1;
    assert forall i :: 0 <= i < n ==> ops[..n][i] == ops[i];
    assert AdmitPlaces(ops) == AdmitPlaces(ops[..n]) + (if ops[n].AdmitOp? then {n} else {});
    assert RecordPlaces(ops) == RecordPlaces(ops[..n]) + (if ops[n].RecordOp? then {n} else {});
  }

  lemma {:induction false} StaysClosed(s: State, ops: seq<Op>, c: Config)
    requires ValidConfig(c) && s.mode == Closed && s.outcomes == [] && |RecordPlaces(ops)| < c.minimumSamples
    ensures Run(s, ops, c).mode == Closed && |Run(s, ops, c).outcomes| <= |RecordPlaces(ops)|
    ensures Admissions(s, ops, c) == |AdmitPlaces(ops)|
    decreases |ops|
  {
    hide Failures, AdmitPlaces, RecordPlaces;
    if ops == [] {
      assert AdmitPlaces([]) == {} && RecordPlaces([]) == {} by { NoPlaces(); }
    } else {
      PlacesStep(ops);
      StaysClosed(s, ops[..|ops| - 1], c);
    }
  }

  lemma {:induction false} NoPlaces()
    ensures AdmitPlaces([]) == {} && RecordPlaces([]) == {}
  {
  }

  /**
   * While open, until `openMs` after the opening, nothing is admitted and the circuit stays open,
   * whatever is recorded meanwhile; a late failure can only move the opening forward.
   */
  lemma {:induction false} OpenAdmitsNothing(s: State, ops: seq<Op>, c: Config)
    requires ValidConfig(c) && s.mode == Open
    requires forall i :: 0 <= i < |ops| ==> s.openedAt <= ops[i].now < s.openedAt + c.openMs
    ensures Admissions(s, ops, c) == 0
    ensures Run(s, ops, c).mode == Open && s.openedAt <= Run(s, ops, c).openedAt < s.openedAt + c.openMs
    decreases |ops|
  {
    hide Trips, Last;
    if ops != [] {
      OpenAdmitsNothing(s, ops[..|ops| - 1], c);
    }
  }

  /** A half-open circuit admits at most one call until the outcome of a call is recorded. */
  lemma {:induction false} OneProbe(s: State, ops: seq<Op>, c: Config)
    requires ValidConfig(c) && s.mode == HalfOpen
    requires forall i :: 0 <= i < |ops| ==> ops[i].AdmitOp?
    ensures Run(s, ops, c).mode == HalfOpen
    ensures Admissions(s, ops, c) == (if ops == [] || s.probe then 0 else 1)
    ensures Run(s, ops, c).probe == (s.probe || ops != [])
    decreases |ops|
  {
    if ops != [] { OneProbe(s, ops[..|ops| - 1], c); }
  }

  /** Every further call is refused, with the whole `openMs` as its wait. */
  lemma {:induction false} OthersWait(s: State, ops: seq<Op>, now: int, c: Config)
    requires ValidConfig(c) && s.mode == HalfOpen && (s.probe || ops != [])
    requires forall i :: 0 <= i < |ops| ==> ops[i].AdmitOp?
    ensures AdmitCall(Run(s, ops, c), now, c).0 == Rejected(c.openMs)
  {
    OneProbe(s, ops, c);
  }

  /**
   * A refusal while open reports the exact wait: with nothing recorded meanwhile, every call before
   * it is refused, and the first call from then on is the probe.
   */
  lemma {:induction false} OpenWaitIsExact(s: State, now: int, later: int, c: Config)
    requires ValidConfig(c) && s.mode == Open && later >= now
    requires AdmitCall(s, now, c).0.Rejected?
    ensures var r := AdmitCall(s, now, c).0.retryAfterMs;
            AdmitCall(AdmitCall(s, now, c).1, later, c).0 == Allowed <==> later >= now + r
  {
  }
}
