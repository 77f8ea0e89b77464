/**
 * The circuit breaker with the calls it admits told apart: whose outcome it is that decides a
 * half-open circuit.
 */
module CircuitCalls {
  import opened Results
  import opened Circuit

  datatype Act = Admit(call: nat, now: int) | Record(call: nat, outcome: Outcome, now: int)

  /** The breaker, the calls it has admitted, those not yet recorded, and the latest probe. */
  datatype Tracked = Tracked(circuit: State, admitted: set<nat>, pending: set<nat>, probe: Option<nat>)

  const UNUSED := Tracked(INITIAL, {}, {}, None)

  function Do(t: Tracked, act: Act, c: Config): Tracked
    requires ValidConfig(c)
  {
    match act
    case Admit(call, now) =>
      var (verdict, s) := AdmitCall(t.circuit, now, c);
      if verdict != Allowed then t.(circuit := s)
      else Tracked(s, t.admitted + {call}, t.pending + {call}, if s.mode == HalfOpen then Some(call) else t.probe)
    case Record(call, outcome, now) =>
      t.(circuit := RecordCall(t.circuit, outcome, now, c), pending := t.pending - {call})
  }

  function Follow(t: Tracked, acts: seq<Act>, c: Config): Tracked
    requires ValidConfig(c)
  {
    if acts == [] then t else Do(Follow(t, acts[..|acts| - 1], c), acts[|acts| - 1], c)
  }

  /** A call asks under an id not admitted before, and an admitted call is recorded at most once. */
  predicate Proper(t: Tracked, act: Act) {
    match act
    case Admit(call, _) => call !in t.admitted
    case Record(call, _, _) => call in t.pending
  }

  /** What may happen next, on a clock that starts at `from` and does not go back. */
  ghost predicate Continuation(t: Tracked, acts: seq<Act>, from: int, c: Config)
    requires ValidConfig(c)
  {
    forall i :: 0 <= i < |acts| ==>
      Proper(Follow(t, acts[..i], c), acts[i]) && (if i == 0 then from else acts[i - 1].now) <= acts[i].now
  }

  /** The `i`-th act records the first outcome that meets a half-open circuit. */
  ghost predicate Decides(t: Tracked, acts: seq<Act>, i: nat, c: Config)
    requires ValidConfig(c)
  {
    && i < |acts| && acts[i].Record? && Follow(t, acts[..i], c).circuit.mode == HalfOpen
    && forall j :: 0 <= j < i && acts[j].Record? ==> Follow(t, acts[..j], c).circuit.mode != HalfOpen
  }

  /** Whatever happens next, the first outcome that meets a half-open circuit is its probe's. */
  ghost predicate ProbeDecides(t: Tracked, from: int, c: Config)
    requires ValidConfig(c)
  {
    forall acts: seq<Act>, i: nat :: Continuation(t, acts, from, c) && Decides(t, acts, i, c) ==>
      Follow(t, acts[..i], c).probe == Some(acts[i].call)
  }

  /** Nothing is pending but the probe of a half-open circuit. */
  predicate OnlyProbe(t: Tracked) {
    (t.circuit.mode == Open && t.pending == {}) ||
    (t.circuit.mode == HalfOpen && t.circuit.probe && t.probe.Some? && t.pending == {t.probe.value})
  }

  lemma {:induction false} OnlyProbeStep(t: Tracked, act: Act, c: Config)
    requires ValidConfig(c) && OnlyProbe(t) && Proper(t, act) && (act.Record? ==> t.circuit.mode != HalfOpen)
    ensures OnlyProbe(Do(t, act, c))
  {
    hide Trips, Last;
  }

  lemma {:induction false} OnlyProbeUntilDecision(t: Tracked, acts: seq<Act>, from: int, i: nat, c: Config)
    requires ValidConfig(c) && OnlyProbe(t) && Continuation(t, acts, from, c) && i <= |acts|
    requires forall j :: 0 <= j < i && acts[j].Record? ==> Follow(t, acts[..j], c).circuit.mode != HalfOpen
    ensures OnlyProbe(Follow(t, acts[..i], c))
    decreases i
  {
    hide OnlyProbe, Do;
    if i == 0 {
      assert acts[..0] == [];
    } else {
      OnlyProbeUntilDecision(t, acts, from, i - 1, c);
      assert acts[..i][..i - 1] == acts[..i - 1];
      assert Proper(Follow(t, acts[..i - 1], c), acts[i - 1]);
      OnlyProbeStep(Follow(t, acts[..i - 1], c), acts[i - 1], c);
    }
  }

  lemma {:induction false} UnusedCall(used: set<nat>) returns (call: nat)
    ensures forall u :: u in used ==> u < call
    decreases |used|
  {
    if used == {} {
      call := 0;
    } else {
      var u :| u in used;
      var above := UnusedCall(used - {u});
      call := if above > u then above else u + 1;
      assert used == used - {u} + {u};
    }
  }

  /** The probe goes out, and then an older call's success comes in. */
  lemma {:induction false} OlderCallDecides(t: Tracked, older: nat, probe: nat, from: int, now: int, c: Config)
    requires ValidConfig(c) && t.circuit.mode == Open && older in t.pending && older != probe && probe !in t.admitted
    requires now >= from && now >= t.circuit.openedAt + c.openMs
    ensures var acts := [Admit(probe, now), Record(older, Success, now)];
            && Continuation(t, acts, from, c) && Decides(t, acts, 1, c)
            && Follow(t, acts[..1], c).probe == Some(probe)
            && Follow(t, acts, c).circuit.mode == Closed && probe in Follow(t, acts, c).pending
  {
    var acts := [Admit(probe, now), Record(older, Success, now)];
    assert acts[..1] == [Admit(probe, now)] && acts[..1][..0] == [] && acts[..0] == [];
    assert Follow(t, acts[..0], c) == t;
    assert Follow(t, acts[..1], c) == Do(t, acts[0], c);
  }

  /**
   * While the circuit is open: the next half-open decision is sure to be the probe's own exactly
   * when no call admitted before is still unrecorded.
   */
  lemma {:induction false} ProbeDecidesExactly(t: Tracked, from: int, c: Config)
    requires ValidConfig(c) && t.circuit.mode == Open
    ensures ProbeDecides(t, from, c) <==> t.pending == {}
  {
    hide Do, Trips, Last;
    if t.pending == {} {
      forall acts: seq<Act>, i: nat | Continuation(t, acts, from, c) && Decides(t, acts, i, c)
        ensures Follow(t, acts[..i], c).probe == Some(acts[i].call)
      {
        OnlyProbeUntilDecision(t, acts, from, i, c);
        assert Proper(Follow(t, acts[..i], c), acts[i]);
      }
    } else {
      var older :| older in t.pending;
      var probe := UnusedCall(t.admitted + t.pending);
      var now := if from > t.circuit.openedAt + c.openMs then from else t.circuit.openedAt + c.openMs;
      OlderCallDecides(t, older, probe, from, now, c);
      assert !ProbeDecides(t, from, c);
    }
  }

  /**
   * Two calls go out, the first one to answer fails and opens the circuit, the probe goes out, and
   * the other old call's success closes the circuit although the probe has not answered.
   */
  lemma {:induction false} LateOutcomeDecides(c: Config)
    requires ValidConfig(c) && c.minimumSamples == 1 && c.failureRatio == 1.0
    ensures var tripped := Follow(UNUSED, [Admit(0, 0), Admit(1, 0), Record(1, Failure, 0)], c);
            && tripped.circuit.mode == Open && tripped.pending == {0}
            && var probing := Do(tripped, Admit(2, c.openMs), c);
               && probing.circuit.mode == HalfOpen && probing.probe == Some(2)
               && var late := Do(probing, Record(0, Success, c.openMs), c);
                  late.circuit.mode == Closed && late.pending == {2}
  {
    var acts := [Admit(0, 0), Admit(1, 0), Record(1, Failure, 0)];
    assert acts[..2] == [Admit(0, 0), Admit(1, 0)] && acts[..2][..1] == [Admit(0, 0)] && acts[..2][..1][..0] == [];
    assert Follow(UNUSED, acts[..2][..1], c) == Tracked(INITIAL, {0}, {0}, None);
    assert Follow(UNUSED, acts[..2], c) == Tracked(INITIAL, {0, 1}, {0, 1}, None);
    OneFailureTrips(c);
  }

  lemma {:induction false} OneFailureTrips(c: Config)
    requires ValidConfig(c) && c.minimumSamples == 1 && c.failureRatio == 1.0
    ensures Last([] + [Failure], c.windowSize) == [Failure] && Trips([Failure], c)
  {
    assert [Failure][..0] == [];
    assert Failures([Failure]) == 1;
  }

  /** Without the calls told apart, a run is one of the breaker itself. */
  function Forget(acts: seq<Act>): (ops: seq<Op>)
    ensures |ops| == |acts|
  {
    seq(|acts|, i requires 0 <= i < |acts| =>
      match acts[i] case Admit(_, now) => AdmitOp(now) case Record(_, outcome, now) => RecordOp(outcome, now))
  }

  lemma {:induction false} FollowIsRun(t: Tracked, acts: seq<Act>, c: Config)
    requires ValidConfig(c)
    ensures Follow(t, acts, c).circuit == Run(t.circuit, Forget(acts), c)
    decreases |acts|
  {
    hide RecordCall, AdmitCall;
    if acts != [] {
      var n := |acts| - 1;
      FollowIsRun(t, acts[..n], c);
      assert Forget(acts)[..n] == Forget(acts[..n]);
    }
  }
}
