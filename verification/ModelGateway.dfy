/**
 * Executing a model request: reserve, admit, invoke the provider, settle. Calls run concurrently
 * and may stop at any await; the reservation is what keeps a provider from being invoked twice.
 */
module ModelGateway {
  import opened Results
  import opened Text
  import opened Budget
  import opened BudgetConservation
  import opened BudgetRuns

  datatype Command = Command(
    tenantId: string, requestId: string, idempotencyKey: string, fingerprint: string, messages: seq<string>,
    scopeKeys: seq<ScopeKey>)

  datatype Admission = Admission(currency: string, estimated: int)
  datatype ProviderAnswer = CredentialRefused | ProviderThrew | ProviderReturned(receiptId: string, actual: int)

  /** What the dependencies answer; None is a dependency that throws. */
  datatype Answers = Answers(
    policyAllows: Option<bool>, route: Option<Option<Admission>>, egressAllows: Option<bool>, reserveFault: bool,
    admittedAudit: bool, provider: ProviderAnswer, reconcileFault: bool, completedAudit: bool)

  datatype Refusal =
    | RequestInvalid | DependencyFailed | PolicyDenied | RouteDenied | EgressDenied | BudgetFailed(error: BudgetError)
    | InProgress | AuditUnavailable | ProviderUnavailable

  datatype Outcome = Answered(state: string) | Refused(reason: Refusal)

  /** The await a call stands before; the effects so far are counted by `Progress`. */
  datatype Pc =
    | Start
    | Policy
    | Route
    | Egress(admission: Admission)
    | Reserve(admission: Admission)
    | AdmitAudit
    | Invoke
    | Reconcile(receiptId: string, actual: int)
    | CompletedAudit(reconciled: string)
    | Done(reached: nat, outcome: Outcome)

  datatype EventKind = ReservedEvent | AdmittedEvent | InvokedEvent | SettledEvent | CompletedEvent

  /** The effects of a call in their order. */
  const EFFECTS: seq<EventKind> := [ReservedEvent, AdmittedEvent, InvokedEvent, SettledEvent, CompletedEvent]

  function Progress(pc: Pc): nat {
    match pc
    case AdmitAudit => 1
    case Invoke => 2
    case Reconcile(_, _) => 3
    case CompletedAudit(_) => 4
    case Done(reached, _) => reached
    case _ => 0
  }

  /** How many awaits are left at most. */
  function Rank(pc: Pc): nat {
    match pc
    case Start => 9
    case Policy => 8
    case Route => 7
    case Egress(_) => 6
    case Reserve(_) => 5
    case AdmitAudit => 4
    case Invoke => 3
    case Reconcile(_, _) => 2
    case CompletedAudit(_) => 1
    case Done(_, _) => 0
  }

  predicate ValidCommand(c: Command) {
    && c.messages != [] && (forall i :: 0 <= i < |c.messages| ==> c.messages[i] != "")
    && 16 <= Units(c.idempotencyKey) <= 128
  }

  function StoredState(state: ReservationState): string {
    match state
    case Reserved => "reserved"
    case Committed => "committed"
    case ReconciliationReview => "reconciliation_review"
  }

  /** The `state` member of what `reserve` returns: upper case only when the reservation is fresh. */
  function ReplyState(reply: ReserveReply): string {
    match reply
    case Fresh(_, _) => "RESERVED"
    case Replayed(row) => StoredState(row.state)
  }

  function ReconciledState(reply: ReconcileReply): string {
    match reply
    case Settled(state, _, _, _) => if state == Committed then "COMMITTED" else "RECONCILIATION_REVIEW"
    case AlreadySettled(row) => StoredState(row.state)
  }

  function ReservationOf(c: Command, a: Admission): ReserveInput {
    ReserveInput(c.tenantId, c.requestId, c.idempotencyKey, c.fingerprint, a.currency, a.estimated, c.scopeKeys)
  }

  function SettlementOf(c: Command, receiptId: string, actual: int): ReconcileInput {
    ReconcileInput(c.tenantId, c.requestId, receiptId, actual)
  }

  /** One await of a call: where it stands next, the tables, and the effects it had. */
  datatype Stepped = Stepped(pc: Pc, store: Store, effects: seq<EventKind>)

  function Stop(pc: Pc, store: Store, reason: Refusal): Stepped {
    Stepped(Done(Progress(pc), Refused(reason)), store, [])
  }

  function StepCall(c: Command, pc: Pc, store: Store, a: Answers): Stepped {
    match pc
    case Start => if ValidCommand(c) then Stepped(Policy, store, []) else Stop(pc, store, RequestInvalid)
    case Policy =>
      if a.policyAllows.None? then Stop(pc, store, DependencyFailed)
      else if a.policyAllows.value then Stepped(Route, store, [])
      else Stop(pc, store, PolicyDenied)
    case Route =>
      if a.route.None? then Stop(pc, store, DependencyFailed)
      else if a.route.value.None? then Stop(pc, store, RouteDenied)
      else Stepped(Egress(a.route.value.value), store, [])
    case Egress(admission) =>
      if a.egressAllows.None? then Stop(pc, store, DependencyFailed)
      else if a.egressAllows.value then Stepped(Reserve(admission), store, [])
      else Stop(pc, store, EgressDenied)
    case Reserve(admission) =>
      var (r, after) := ReserveTx(store, ReservationOf(c, admission), a.reserveFault);
      if r.Err? then Stop(pc, after, BudgetFailed(r.error))
      else if ReplyState(r.value) != "RESERVED" then Stop(pc, after, InProgress)
      else Stepped(AdmitAudit, after, [ReservedEvent])
    case AdmitAudit =>
      if a.admittedAudit then Stepped(Invoke, store, [AdmittedEvent]) else Stop(pc, store, AuditUnavailable)
    case Invoke =>
      match a.provider {
        case CredentialRefused => Stop(pc, store, ProviderUnavailable)
        case ProviderThrew => Stepped(Done(3, Refused(ProviderUnavailable)), store, [InvokedEvent])
        case ProviderReturned(receiptId, actual) => Stepped(Reconcile(receiptId, actual), store, [InvokedEvent])
      }
    case Reconcile(receiptId, actual) =>
      var (r, after) := ReconcileTx(store, SettlementOf(c, receiptId, actual), a.reconcileFault);
      if r.Err? then Stop(pc, after, BudgetFailed(r.error))
      else Stepped(CompletedAudit(ReconciledState(r.value)), after, [SettledEvent])
    case CompletedAudit(reconciled) =>
      if a.completedAudit then Stepped(Done(5, Answered(reconciled)), store, [CompletedEvent])
      else Stop(pc, store, AuditUnavailable)
    case Done(_, _) => Stepped(pc, store, [])
  }

  /** Every await brings a call closer to its end, so an uninterrupted call ends. */
  lemma {:induction false} StepEnds(c: Command, pc: Pc, store: Store, a: Answers)
    ensures pc.Done? || Rank(StepCall(c, pc, store, a).pc) < Rank(pc)
    ensures var next := StepCall(c, pc, store, a);
            Progress(pc) <= |EFFECTS| ==>
              && Progress(next.pc) <= |EFFECTS| && Progress(next.pc) == Progress(pc) + |next.effects|
              && (next.effects == [] || next.effects == [EFFECTS[Progress(pc)]])
  {
    hide ReserveTx, ReconcileTx;
  }

  // ----- one uninterrupted call -----

  function Complete(c: Command, pc: Pc, store: Store, effects: seq<EventKind>, a: Answers): Stepped
    decreases Rank(pc)
  {
    if pc.Done? then Stepped(pc, store, effects)
    else
      StepEnds(c, pc, store, a);
      var next := StepCall(c, pc, store, a);
      Complete(c, next.pc, next.store, effects + next.effects, a)
  }

  lemma {:induction false} CompleteStep(c: Command, pc: Pc, store: Store, effects: seq<EventKind>, a: Answers)
    requires !pc.Done?
    ensures var next := StepCall(c, pc, store, a);
            Complete(c, pc, store, effects, a) ==
            if next.pc.Done? then Stepped(next.pc, next.store, effects + next.effects)
            else Complete(c, next.pc, next.store, effects + next.effects, a)
    ensures effects + [] == effects
  {
    hide ReserveTx, ReconcileTx, StepCall;
  }

  // ----- how a call ends, told from its command and the answers alone -----

  /** Policy, router and egress let a well-formed command through, with this admission. */
  predicate Cleared(c: Command, a: Answers, admission: Admission) {
    && WellFormed(c) && a.policyAllows == Some(true) && a.route == Some(Some(admission)) && a.egressAllows == Some(true)
  }

  /** Messages, none of them empty, and an idempotency key of 16 to 128 units. */
  predicate WellFormed(c: Command) {
    c.messages != [] && "" !in c.messages && 16 <= Units(c.idempotencyKey) <= 128
  }

  /** Each refusal that comes before the reservation, exactly; those leave nothing behind. */
  ghost predicate EndsBefore(c: Command, a: Answers, s: Store, outcome: Outcome, after: Store, did: seq<EventKind>) {
    && (outcome == Refused(RequestInvalid) <==> !WellFormed(c))
    && (outcome == Refused(PolicyDenied) <==> WellFormed(c) && a.policyAllows == Some(false))
    && (outcome == Refused(RouteDenied) <==>
          WellFormed(c) && a.policyAllows == Some(true) && a.route == Some(None))
    && (outcome == Refused(EgressDenied) <==>
          WellFormed(c) && a.policyAllows == Some(true) && a.route.Some? && a.route.value.Some? &&
          a.egressAllows == Some(false))
    && (outcome == Refused(DependencyFailed) <==>
          WellFormed(c) &&
          (a.policyAllows == None ||
           (a.policyAllows == Some(true) && (a.route == None || (a.route.value.Some? && a.egressAllows == None)))))
    && ((forall admission :: !Cleared(c, a, admission)) ==> after == s && did == [])
  }

  /** What follows once the call is cleared. */
  ghost predicate EndsAfter(
    c: Command, admission: Admission, a: Answers, s: Store, outcome: Outcome, after: Store, did: seq<EventKind>)
  {
    var (r, held) := ReserveTx(
      s, ReserveInput(c.tenantId, c.requestId, c.idempotencyKey, c.fingerprint, admission.currency, admission.estimated,
                      c.scopeKeys), a.reserveFault);
    if r.Err? then outcome == Refused(BudgetFailed(r.error)) && after == s && did == []
    else if r.value.Replayed? then outcome == Refused(InProgress) && after == s && did == []
    else if !a.admittedAudit then outcome == Refused(AuditUnavailable) && after == held && did == [ReservedEvent]
    else
      match a.provider
      case CredentialRefused =>
        outcome == Refused(ProviderUnavailable) && after == held && did == [ReservedEvent, AdmittedEvent]
      case ProviderThrew =>
        outcome == Refused(ProviderUnavailable) && after == held && did == [ReservedEvent, AdmittedEvent, InvokedEvent]
      case ProviderReturned(receiptId, actual) =>
        if actual < 0 || a.reconcileFault then
          && outcome == Refused(BudgetFailed(if actual < 0 then AmountRejected else StatementFailed))
          && after == held && did == [ReservedEvent, AdmittedEvent, InvokedEvent]
        else
          && after == ReconcileTx(held, ReconcileInput(c.tenantId, c.requestId, receiptId, actual), false).1
          && if a.completedAudit then
               && outcome == Answered(if actual <= admission.estimated then "COMMITTED" else "RECONCILIATION_REVIEW")
               && did == [ReservedEvent, AdmittedEvent, InvokedEvent, SettledEvent, CompletedEvent]
             else
               && outcome == Refused(AuditUnavailable)
               && did == [ReservedEvent, AdmittedEvent, InvokedEvent, SettledEvent]
  }

  /** A reservation just made is open, so its settlement is decided by the amounts alone. */
  lemma {:induction false} SettlesFresh(
    s: Store, input: ReserveInput, fault: bool, settlement: ReconcileInput, later: bool)
    requires settlement.tenantId == input.tenantId && settlement.reservationId == input.reservationId
    ensures var (r, held) := ReserveTx(s, input, fault);
            && (r.Err? || r.value.Replayed? ==> held == s)
            && (r.Ok? && r.value.Fresh? ==>
                  var (q, after) := ReconcileTx(held, settlement, later);
                  if settlement.actual < 0 then (q, after) == (Err(AmountRejected), held)
                  else if later then (q, after) == (Err(StatementFailed), held)
                  else
                    && after == ReconcileTx(held, settlement, false).1 && q.Ok? && q.value.Settled?
                    && q.value.state ==
                         (if settlement.actual <= input.estimated then Committed else ReconciliationReview))
  {
    hide HoldAll, SettleAll, AllocationsFor, Budget.Join, FindByKey;
    var (r, held) := ReserveTx(s, input, fault);
    if r.Ok? && r.value.Fresh? {
      RefusesNegative(s, input);
      assert held.reservations[|s.reservations|].state == Reserved;
    }
  }

  lemma {:induction false} RefusesNegative(s: Store, input: ReserveInput)
    requires Refusals(s, input) == {}
    ensures input.estimated >= 0
  {
    hide Budget.Join;
    var found := Budget.Join(s.limits, input.tenantId, input.scopeKeys);
    AdmittedExactly(input.currency, input.estimated, RowsOf(s.limits, found));
  }

  lemma {:induction false} FromInvoke(
    c: Command, admission: Admission, a: Answers, s: Store, held: Store, effects: seq<EventKind>)
    returns (did: seq<EventKind>)
    requires var (r, after) := ReserveTx(s, ReservationOf(c, admission), a.reserveFault);
             r.Ok? && r.value.Fresh? && after == held
    requires a.admittedAudit
    ensures var end := Complete(c, Invoke, held, effects + [ReservedEvent, AdmittedEvent], a);
            && end.pc.Done? && end.effects == effects + did
            && EndsAfter(c, admission, a, s, end.pc.outcome, end.store, did)
  {
    hide ReserveTx, ReconcileTx, Complete;
    var before := effects + [ReservedEvent, AdmittedEvent];
    CompleteStep(c, Invoke, held, before, a);
    did := [ReservedEvent, AdmittedEvent];
    if !a.provider.CredentialRefused? {
      did := did + [InvokedEvent];
      Associative(effects, [ReservedEvent, AdmittedEvent], [InvokedEvent]);
    }
    if a.provider.ProviderReturned? {
      var receiptId, actual := a.provider.receiptId, a.provider.actual;
      SettlesFresh(s, ReservationOf(c, admission), a.reserveFault, SettlementOf(c, receiptId, actual),
        a.reconcileFault);
      CompleteStep(c, Reconcile(receiptId, actual), held, effects + did, a);
      if actual >= 0 && !a.reconcileFault {
        Associative(effects, did, [SettledEvent]);
        did := did + [SettledEvent];
        var (q, after) := ReconcileTx(held, SettlementOf(c, receiptId, actual), false);
        CompleteStep(c, CompletedAudit(ReconciledState(q.value)), after, effects + did, a);
        if a.completedAudit {
          Associative(effects, did, [CompletedEvent]);
          did := did + [CompletedEvent];
        }
      }
    }
  }

  lemma {:induction false} FromReserve(c: Command, admission: Admission, a: Answers, s: Store, effects: seq<EventKind>)
    returns (did: seq<EventKind>)
    ensures var end := Complete(c, Reserve(admission), s, effects, a);
            && end.pc.Done? && end.effects == effects + did
            && EndsAfter(c, admission, a, s, end.pc.outcome, end.store, did)
  {
    hide ReserveTx, ReconcileTx, Complete;
    var (r, held) := ReserveTx(s, ReservationOf(c, admission), a.reserveFault);
    SettlesFresh(s, ReservationOf(c, admission), a.reserveFault, SettlementOf(c, "", 0), false);
    CompleteStep(c, Reserve(admission), s, effects, a);
    did := [];
    if r.Ok? && r.value.Fresh? {
      did := [ReservedEvent];
      CompleteStep(c, AdmitAudit, held, effects + did, a);
      if a.admittedAudit {
        Associative(effects, [ReservedEvent], [AdmittedEvent]);
        assert [ReservedEvent] + [AdmittedEvent] == [ReservedEvent, AdmittedEvent];
        did := FromInvoke(c, admission, a, s, held, effects);
      }
    }
  }

  lemma {:induction false} EndsExactly(c: Command, a: Answers, s: Store, effects: seq<EventKind>)
    ensures var end := Complete(c, Start, s, effects, a);
            && end.pc.Done? && effects <= end.effects
            && EndsBefore(c, a, s, end.pc.outcome, end.store, end.effects[|effects|..])
            && forall admission :: Cleared(c, a, admission) ==>
                 EndsAfter(c, admission, a, s, end.pc.outcome, end.store, end.effects[|effects|..])
  {
    hide ReserveTx, ReconcileTx, Complete, EndsAfter;
    CompleteStep(c, Start, s, effects, a);
    if WellFormed(c) {
      CompleteStep(c, Policy, s, effects, a);
      if a.policyAllows == Some(true) {
        CompleteStep(c, Route, s, effects, a);
        if a.route.Some? && a.route.value.Some? {
          var admission := a.route.value.value;
          CompleteStep(c, Egress(admission), s, effects, a);
          if a.egressAllows == Some(true) {
            assert Cleared(c, a, admission);
            var did := FromReserve(c, admission, a, s, effects);
            assert Complete(c, Start, s, effects, a) == Complete(c, Reserve(admission), s, effects, a);
            assert (effects + did)[|effects|..] == did;
            LateOutcomes(c, admission, a, s, Complete(c, Reserve(admission), s, effects, a), did);
          }
        }
      }
    }
  }

  /** Once cleared, a call ends with none of the earlier refusals. */
  lemma {:induction false} LateOutcomes(
    c: Command, admission: Admission, a: Answers, s: Store, end: Stepped, did: seq<EventKind>)
    requires end.pc.Done? && EndsAfter(c, admission, a, s, end.pc.outcome, end.store, did)
    ensures end.pc.outcome.Refused? ==>
              end.pc.outcome.reason !in {RequestInvalid, PolicyDenied, RouteDenied, EgressDenied, DependencyFailed}
  {
    hide ReserveTx, ReconcileTx;
  }

  class Gateway {
    const budget: BudgetRepository
    /** The effects of the calls executed here, in order. */
    var effects: seq<EventKind>

    constructor (budget: BudgetRepository)
      ensures this.budget == budget && effects == []
    {
      this.budget, effects := budget, [];
    }

    /** executeModelRequest, run without interruption. */
    method Execute(c: Command, a: Answers) returns (outcome: Outcome)
      modifies this, budget
      ensures var end := Complete(c, Start, old(budget.Tables()), old(effects), a);
              end.pc.Done? && end.pc.outcome == outcome && end.store == budget.Tables() && end.effects == effects
      ensures old(effects) <= effects
      ensures EndsBefore(c, a, old(budget.Tables()), outcome, budget.Tables(), effects[|old(effects)|..])
      ensures forall admission :: Cleared(c, a, admission) ==>
                EndsAfter(c, admission, a, old(budget.Tables()), outcome, budget.Tables(), effects[|old(effects)|..])
    {
      hide ReserveTx, ReconcileTx, ValidCommand, Complete, EndsBefore, EndsAfter, Cleared;
      EndsExactly(c, a, budget.Tables(), effects);
      CompleteStep(c, Start, budget.Tables(), effects, a);
      if !ValidCommand(c) { return Refused(RequestInvalid); }
      CompleteStep(c, Policy, budget.Tables(), effects, a);
      if a.policyAllows.None? { return Refused(DependencyFailed); }
      if !a.policyAllows.value { return Refused(PolicyDenied); }
      CompleteStep(c, Route, budget.Tables(), effects, a);
      if a.route.None? { return Refused(DependencyFailed); }
      if a.route.value.None? { return Refused(RouteDenied); }
      var admission := a.route.value.value;
      CompleteStep(c, Egress(admission), budget.Tables(), effects, a);
      if a.egressAllows.None? { return Refused(DependencyFailed); }
      if !a.egressAllows.value { return Refused(EgressDenied); }
      outcome := Charge(c, admission, a);
    }

    /** The part of executeModelRequest from the reservation on. */
    method Charge(c: Command, admission: Admission, a: Answers) returns (outcome: Outcome)
      modifies this, budget
      ensures var end := Complete(c, Reserve(admission), old(budget.Tables()), old(effects), a);
              end.pc.Done? && end.pc.outcome == outcome && end.store == budget.Tables() && end.effects == effects
    {
      hide ReserveTx, ReconcileTx, Complete;
      CompleteStep(c, Reserve(admission), budget.Tables(), effects, a);
      var reservation := budget.Reserve(ReservationOf(c, admission), a.reserveFault);
      if reservation.Err? { return Refused(BudgetFailed(reservation.error)); }
      if ReplyState(reservation.value) != "RESERVED" { return Refused(InProgress); }
      effects := effects + [ReservedEvent];
      CompleteStep(c, AdmitAudit, budget.Tables(), effects, a);
      if !a.admittedAudit { return Refused(AuditUnavailable); }
      effects := effects + [AdmittedEvent];
      CompleteStep(c, Invoke, budget.Tables(), effects, a);
      if a.provider.CredentialRefused? { return Refused(ProviderUnavailable); }
      effects := effects + [InvokedEvent];
      if a.provider.ProviderThrew? { return Refused(ProviderUnavailable); }
      var receiptId, actual := a.provider.receiptId, a.provider.actual;
      CompleteStep(c, Reconcile(receiptId, actual), budget.Tables(), effects, a);
      var settled := budget.Reconcile(SettlementOf(c, receiptId, actual), a.reconcileFault);
      if settled.Err? { return Refused(BudgetFailed(settled.error)); }
      effects := effects + [SettledEvent];
      var reconciled := ReconciledState(settled.value);
      CompleteStep(c, CompletedAudit(reconciled), budget.Tables(), effects, a);
      if !a.completedAudit { return Refused(AuditUnavailable); }
      effects := effects + [CompletedEvent];
      return Answered(reconciled);
    }
  }
}
