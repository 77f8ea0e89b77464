/**
 * Concurrent gateway calls: any number of them, advancing one await at a time in any order, beside
 * any other budget transactions. A call that stops at an await is one that is not advanced again.
 */
module GatewayRuns {
  import opened Results
  import opened Budget
  import opened BudgetConservation
  import opened BudgetRuns
  import opened ModelGateway

  datatype Event = Event(call: nat, kind: EventKind)

  /** The calls, where each stands, the budget tables, and all effects so far in order. */
  datatype System = System(calls: seq<Command>, pcs: seq<Pc>, store: Store, log: seq<Event>)

  datatype Action = Advance(call: nat, answers: Answers) | Elsewhere(op: Op)

  function Events(call: nat, effects: seq<EventKind>): (events: seq<Event>)
    ensures |events| == |effects| && forall i :: 0 <= i < |events| ==> events[i] == Event(call, effects[i])
  {
    if effects == [] then [] else [Event(call, effects[0])] + Events(call, effects[1..])
  }

  function Next(s: System, action: Action): System
    requires |s.pcs| == |s.calls|
  {
    match action
    case Elsewhere(op) => s.(store := Apply(s.store, op))
    case Advance(call, answers) =>
      if call >= |s.calls| then s
      else
        var step := StepCall(s.calls[call], s.pcs[call], s.store, answers);
        s.(pcs := s.pcs[call := step.pc], store := step.store, log := s.log + Events(call, step.effects))
  }

  function RunSystem(s: System, actions: seq<Action>): (after: System)
    requires |s.pcs| == |s.calls|
    ensures |after.pcs| == |after.calls| && after.calls == s.calls
    decreases |actions|
  {
    if actions == [] then s else Next(RunSystem(s, actions[..|actions| - 1]), actions[|actions| - 1])
  }

  /** Calls that have not begun, over tables that keep the budget invariant. */
  ghost predicate Initial(s: System) {
    |s.pcs| == |s.calls| && (forall i :: 0 <= i < |s.pcs| ==> s.pcs[i] == Start) && s.log == [] && Invariant(s.store)
  }

  // ----- one call's share of the log -----

  function EffectsOf(log: seq<Event>, call: nat): seq<EventKind> {
    if log == [] then []
    else
      var n := |log| - 1;
      EffectsOf(log[..n], call) + (if log[n].call == call then [log[n].kind] else [])
  }

  lemma {:induction false} EffectsAppend(
    log: seq<Event>, more: seq<Event>, call: nat, other: nat, effects: seq<EventKind>)
    requires more == Events(other, effects) && |effects| <= 1
    ensures EffectsOf(log + more, call) == EffectsOf(log, call) + (if call == other then effects else [])
  {
    if effects == [] {
      assert log + more == log;
      assert EffectsOf(log, call) + [] == EffectsOf(log, call);
    } else {
      assert (log + more)[..|log|] == log;
      assert effects == [effects[0]];
    }
  }

  /** The `i`-th entry of the log sits in its call's share right after what came before it. */
  lemma {:induction false} PlaceOf(log: seq<Event>, i: nat)
    requires i < |log|
    ensures var c := log[i].call;
            EffectsOf(log[..i], c) + [log[i].kind] <= EffectsOf(log, c)
    decreases |log|
  {
    var n, c := |log| - 1, log[i].call;
    if i < n {
      PlaceOf(log[..n], i);
      assert log[..n][..i] == log[..i];
    }
  }

  // ----- the invariant -----

  function KeyOf(c: Command): (string, string) { (c.tenantId, c.idempotencyKey) }

  /** Each call's share of the log is the prefix of the effects that its position says. */
  ghost predicate Ordered(s: System)
    requires |s.pcs| == |s.calls|
  {
    && (forall c :: 0 <= c < |s.calls| ==> Progress(s.pcs[c]) <= |EFFECTS| &&
                                           EffectsOf(s.log, c) == EFFECTS[..Progress(s.pcs[c])])
    && (forall i :: 0 <= i < |s.log| ==> s.log[i].call < |s.calls|)
  }

  /** Calls that hold a reservation have different keys, and their rows are in the table. */
  ghost predicate Exclusive(s: System)
    requires |s.pcs| == |s.calls|
  {
    && (forall c :: 0 <= c < |s.calls| && Progress(s.pcs[c]) >= 1 ==>
          FindByKey(s.store.reservations, s.calls[c].tenantId, s.calls[c].idempotencyKey) >= 0)
    && (forall c, d :: 0 <= c < d < |s.calls| && Progress(s.pcs[c]) >= 1 && Progress(s.pcs[d]) >= 1 ==>
          KeyOf(s.calls[c]) != KeyOf(s.calls[d]))
  }

  lemma {:induction false} KeysStay(s: Store, op: Op, tenantId: string, key: string)
    requires FindByKey(s.reservations, tenantId, key) >= 0
    ensures FindByKey(Apply(s, op).reservations, tenantId, key) >= 0
  {
    hide Refusals, HoldAll, SettleAll;
    var i := FindByKey(s.reservations, tenantId, key);
    StepIsFinal(s, op, i);
    var row := Apply(s, op).reservations[i];
    assert row.tenantId == tenantId && row.idempotencyKey == key;
  }

  /** A step of a call is, on the tables, one transaction or none. */
  lemma {:induction false} StepIsTransaction(c: Command, pc: Pc, store: Store, a: Answers) returns (op: Option<Op>)
    ensures StepCall(c, pc, store, a).store == if op.Some? then Apply(store, op.value) else store
  {
    hide ReserveTx, ReconcileTx;
    match pc {
      case Reserve(admission) => op := Some(ReserveOp(ReservationOf(c, admission), a.reserveFault));
      case Reconcile(receiptId, actual) =>
        op := Some(ReconcileOp(SettlementOf(c, receiptId, actual), a.reconcileFault));
      case _ => op := None;
    }
  }

  /** Only a fresh reservation lets a call past its first effect, and then its key was free. */
  lemma {:induction false} FirstEffectNeedsFreeKey(c: Command, pc: Pc, store: Store, a: Answers)
    requires Progress(pc) == 0 && Progress(StepCall(c, pc, store, a).pc) >= 1
    ensures FindByKey(store.reservations, c.tenantId, c.idempotencyKey) < 0
    ensures FindByKey(StepCall(c, pc, store, a).store.reservations, c.tenantId, c.idempotencyKey) >= 0
  {
    hide Refusals, HoldAll, AllocationsFor, Join;
    var after := StepCall(c, pc, store, a).store.reservations;
    var row := after[|after| - 1];
    assert row.tenantId == c.tenantId && row.idempotencyKey == c.idempotencyKey;
  }

  lemma {:induction false} NextKeepsStore(s: System, action: Action)
    requires |s.pcs| == |s.calls| && Invariant(s.store)
    ensures Invariant(Next(s, action).store)
    ensures forall tenantId, key :: FindByKey(s.store.reservations, tenantId, key) >= 0 ==>
              FindByKey(Next(s, action).store.reservations, tenantId, key) >= 0
  {
    hide Invariant, Apply, FindByKey, StepCall;
    var op: Option<Op> := None;
    match action {
      case Elsewhere(o) => op := Some(o);
      case Advance(call, answers) =>
        if call < |s.calls| { op := StepIsTransaction(s.calls[call], s.pcs[call], s.store, answers); }
    }
    if op.Some? {
      ApplyKeepsInvariant(s.store, op.value);
      forall tenantId, key | FindByKey(s.store.reservations, tenantId, key) >= 0
        ensures FindByKey(Apply(s.store, op.value).reservations, tenantId, key) >= 0
      {
        KeysStay(s.store, op.value, tenantId, key);
      }
    }
  }

  lemma {:induction false} NextKeepsOrdered(s: System, action: Action)
    requires |s.pcs| == |s.calls| && Ordered(s)
    ensures Ordered(Next(s, action))
  {
    hide StepCall, EffectsOf, Apply, Progress, EFFECTS;
    if action.Advance? && action.call < |s.calls| {
      var call, pc := action.call, s.pcs[action.call];
      var step := StepCall(s.calls[call], pc, s.store, action.answers);
      StepEnds(s.calls[call], pc, s.store, action.answers);
      forall c | 0 <= c < |s.calls|
        ensures EffectsOf(Next(s, action).log, c) == EFFECTS[..Progress(Next(s, action).pcs[c])]
      {
        EffectsAppend(s.log, Events(call, step.effects), c, call, step.effects);
      }
    }
  }

  lemma {:induction false} NextKeepsExclusive(s: System, action: Action)
    requires |s.pcs| == |s.calls| && Exclusive(s) && Invariant(s.store)
    requires forall c :: 0 <= c < |s.calls| ==> Progress(s.pcs[c]) <= |EFFECTS|
    ensures Exclusive(Next(s, action))
  {
    hide Invariant, StepCall, Apply, FindByKey, Progress;
    var after := Next(s, action);
    NextKeepsStore(s, action);
    if action.Advance? && action.call < |s.calls| {
      var call := action.call;
      StepEnds(s.calls[call], s.pcs[call], s.store, action.answers);
      if Progress(s.pcs[call]) == 0 && Progress(after.pcs[call]) >= 1 {
        FirstEffectNeedsFreeKey(s.calls[call], s.pcs[call], s.store, action.answers);
      }
    }
  }

  lemma {:induction false} RunKeepsAll(s: System, actions: seq<Action>)
    requires Initial(s)
    ensures var after := RunSystem(s, actions); Ordered(after) && Exclusive(after) && Invariant(after.store)
    decreases |actions|
  {
    hide Invariant, Next;
    if actions == [] {
    } else {
      var before := RunSystem(s, actions[..|actions| - 1]);
      RunKeepsAll(s, actions[..|actions| - 1]);
      NextKeepsOrdered(before, actions[|actions| - 1]);
      NextKeepsExclusive(before, actions[|actions| - 1]);
      NextKeepsStore(before, actions[|actions| - 1]);
    }
  }

  // ----- what a run guarantees -----

  /** Whatever a call did before its `i`-th event is the prefix of the effects before that event. */
  lemma {:induction false} BeforeEvent(s: System, i: nat)
    requires |s.pcs| == |s.calls| && Ordered(s) && i < |s.log|
    ensures var done := EffectsOf(s.log[..i], s.log[i].call);
            |done| < |EFFECTS| && done == EFFECTS[..|done|] && s.log[i].kind == EFFECTS[|done|]
  {
    hide EffectsOf;
    PlaceOf(s.log, i);
    var c := s.log[i].call;
    var all, done := EffectsOf(s.log, c), EffectsOf(s.log[..i], c);
    assert all[|done|] == (done + [s.log[i].kind])[|done|];
    assert forall k :: 0 <= k < |done| ==> done[k] == (done + [s.log[i].kind])[k] == all[k];
  }

  /** Of two events of one call the later one has more before it. */
  lemma {:induction false} LaterHasMore(log: seq<Event>, i: nat, j: nat)
    requires i < j < |log| && log[i].call == log[j].call
    ensures |EffectsOf(log[..i], log[i].call)| < |EffectsOf(log[..j], log[j].call)|
  {
    PlaceOf(log[..j], i);
    assert log[..j][..i] == log[..i];
  }

  /** What came before the `i`-th event in its call. */
  function Earlier(log: seq<Event>, i: nat): seq<EventKind>
    requires i < |log|
  {
    EffectsOf(log[..i], log[i].call)
  }

  /** Two events of one kind, an invocation or a settlement say, never share a tenant and key. */
  ghost predicate OncePerKey(s: System) {
    && (forall i :: 0 <= i < |s.log| ==> s.log[i].call < |s.calls|)
    && (forall i, j :: 0 <= i < j < |s.log| && s.log[i].kind == s.log[j].kind ==>
          KeyOf(s.calls[s.log[i].call]) != KeyOf(s.calls[s.log[j].call]))
  }

  /** An invocation follows its reservation and admission audit; a settlement follows one invocation. */
  ghost predicate InOrder(s: System) {
    && (forall i :: 0 <= i < |s.log| && s.log[i].kind == InvokedEvent ==>
          Earlier(s.log, i) == [ReservedEvent, AdmittedEvent])
    && (forall i :: 0 <= i < |s.log| && s.log[i].kind == SettledEvent ==>
          Earlier(s.log, i) == [ReservedEvent, AdmittedEvent, InvokedEvent])
  }

  lemma {:induction false} OrderedIsInOrder(s: System)
    requires |s.pcs| == |s.calls| && Ordered(s)
    ensures InOrder(s)
  {
    hide EffectsOf, Ordered;
    forall i | 0 <= i < |s.log|
      ensures s.log[i].kind == InvokedEvent ==> Earlier(s.log, i) == [ReservedEvent, AdmittedEvent]
      ensures s.log[i].kind == SettledEvent ==> Earlier(s.log, i) == [ReservedEvent, AdmittedEvent, InvokedEvent]
    {
      BeforeEvent(s, i);
    }
  }

  lemma {:induction false} SameKindDifferentKeys(s: System, i: nat, j: nat)
    requires |s.pcs| == |s.calls| && Ordered(s) && Exclusive(s)
    requires i < j < |s.log| && s.log[i].kind == s.log[j].kind
    ensures s.log[i].call < |s.calls| && s.log[j].call < |s.calls|
    ensures KeyOf(s.calls[s.log[i].call]) != KeyOf(s.calls[s.log[j].call])
  {
    hide EffectsOf, KeyOf, FindByKey, Ordered;
    BeforeEvent(s, i);
    BeforeEvent(s, j);
    EventNeedsReservation(s, i);
    EventNeedsReservation(s, j);
    if s.log[i].call == s.log[j].call { LaterHasMore(s.log, i, j); }
  }

  /**
   * Over every concurrent run: two provider invocations never share a tenant and idempotency key,
   * nor do two settlements; an invocation comes after exactly its call's reservation and admission
   * audit, a settlement after exactly one invocation; and the budget invariant holds.
   */
  lemma {:induction false} OneInvocationPerKey(s: System, actions: seq<Action>)
    requires Initial(s)
    ensures var after := RunSystem(s, actions); Invariant(after.store) && InOrder(after) && OncePerKey(after)
  {
    hide Invariant, InOrder, Ordered, Exclusive, KeyOf;
    var after := RunSystem(s, actions);
    RunKeepsAll(s, actions);
    OrderedIsInOrder(after);
    forall i | 0 <= i < |after.log| ensures after.log[i].call < |after.calls| {
      EventNeedsReservation(after, i);
    }
    forall i, j | 0 <= i < j < |after.log| && after.log[i].kind == after.log[j].kind
      ensures KeyOf(after.calls[after.log[i].call]) != KeyOf(after.calls[after.log[j].call])
    {
      SameKindDifferentKeys(after, i, j);
    }
  }

  lemma {:induction false} EventNeedsReservation(s: System, i: nat)
    requires |s.pcs| == |s.calls| && Ordered(s) && i < |s.log|
    ensures s.log[i].call < |s.calls| && Progress(s.pcs[s.log[i].call]) >= 1
  {
    PlaceOf(s.log, i);
  }

  /**
   * A call that meets an existing reservation for its key stops without any effect, whatever the
   * state of that reservation.
   */
  lemma {:induction false} TakenKeyStops(c: Command, admission: Admission, store: Store, a: Answers)
    requires FindByKey(store.reservations, c.tenantId, c.idempotencyKey) >= 0
    ensures var step := StepCall(c, Reserve(admission), store, a);
            && step.store == store && step.effects == []
            && step.pc.Done? && step.pc.outcome.Refused?
            && step.pc.outcome.reason in {InProgress, BudgetFailed(IdempotencyConflict)}
  {
  }
}
