/**
 * Why a concurrent call stands where it stands: what its own awaits were answered, one after the
 * other, and what that left in the tables.
 */
module GatewayExact {
  import opened Results
  import Text
  import opened Budget
  import opened BudgetConservation
  import opened BudgetRuns
  import BudgetExact
  import opened ModelGateway
  import opened GatewayRuns

  /** The answers that the awaits of one call were given, in order. */
  function AnswersOf(actions: seq<Action>, call: nat): seq<Answers> {
    if actions == [] then []
    else
      var n := |actions| - 1;
      AnswersOf(actions[..n], call) +
      (if actions[n].Advance? && actions[n].call == call then [actions[n].answers] else [])
  }

  /** The table holds the reservation that the call asks for, with this admission. */
  ghost predicate HasReservation(s: Store, c: Command, admission: Admission) {
    exists i :: 0 <= i < |s.reservations| && IsReservation(s.reservations[i], c, admission)
  }

  predicate IsReservation(row: Reservation, c: Command, admission: Admission) {
    && row.tenantId == c.tenantId && row.reservationId == c.requestId && row.idempotencyKey == c.idempotencyKey
    && row.fingerprint == c.fingerprint && row.currency == admission.currency && row.reserved == admission.estimated
  }

  /** The call's reservation is settled with this receipt and amount, and `state` is how that was reported. */
  ghost predicate HasSettlement(s: Store, c: Command, receiptId: string, actual: int, state: string) {
    exists i :: 0 <= i < |s.reservations| && IsSettlement(s.reservations[i], c, receiptId, actual, state)
  }

  predicate IsSettlement(row: Reservation, c: Command, receiptId: string, actual: int, state: string) {
    && row.tenantId == c.tenantId && row.reservationId == c.requestId
    && row.receiptId == Some(receiptId) && row.actual == Some(actual)
    && ((row.state == Committed && state in {"COMMITTED", "committed"}) ||
        (row.state == ReconciliationReview && state in {"RECONCILIATION_REVIEW", "reconciliation_review"}))
  }

  /** The first `n` awaits went well: what each of them was answered, and what it left in the tables. */
  ghost predicate Passed(c: Command, mine: seq<Answers>, n: nat, admission: Admission, state: string, s: Store)
    requires n <= |mine|
  {
    && (n >= 1 ==> WellFormed(c))
    && (n >= 2 ==> mine[1].policyAllows == Some(true))
    && (n >= 3 ==> mine[2].route == Some(Some(admission)))
    && (n >= 4 ==> mine[3].egressAllows == Some(true))
    && (n >= 5 ==> HasReservation(s, c, admission))
    && (n >= 6 ==> mine[5].admittedAudit)
    && (n >= 7 ==> mine[6].provider.ProviderReturned?)
    && (n >= 8 ==> HasSettlement(s, c, mine[6].provider.receiptId, mine[6].provider.actual, state))
    && (n >= 9 ==> mine[8].completedAudit)
  }

  /** The await after `n` good ones ended the call: how, and after how many effects. */
  predicate EndedAt(c: Command, mine: seq<Answers>, n: nat, reached: nat, outcome: Outcome, state: string)
    requires n < |mine| || n == 9
  {
    match n
    case 0 => !WellFormed(c) && outcome == Refused(RequestInvalid) && reached == 0
    case 1 =>
      && mine[1].policyAllows != Some(true) && reached == 0
      && outcome == Refused(if mine[1].policyAllows == None then DependencyFailed else PolicyDenied)
    case 2 =>
      && (mine[2].route == None || mine[2].route == Some(None)) && reached == 0
      && outcome == Refused(if mine[2].route == None then DependencyFailed else RouteDenied)
    case 3 =>
      && mine[3].egressAllows != Some(true) && reached == 0
      && outcome == Refused(if mine[3].egressAllows == None then DependencyFailed else EgressDenied)
    case 4 => outcome.Refused? && (outcome.reason == InProgress || outcome.reason.BudgetFailed?) && reached == 0
    case 5 => !mine[5].admittedAudit && outcome == Refused(AuditUnavailable) && reached == 1
    case 6 =>
      && !mine[6].provider.ProviderReturned? && outcome == Refused(ProviderUnavailable)
      && reached == (if mine[6].provider == CredentialRefused then 2 else 3)
    case 7 => outcome.Refused? && outcome.reason.BudgetFailed? && reached == 3
    case 8 => !mine[8].completedAudit && outcome == Refused(AuditUnavailable) && reached == 4
    case 9 => outcome == Answered(state) && reached == 5
    case _ => false
  }

  /** The call stands at `pc` for these reasons. */
  ghost predicate Trail(c: Command, pc: Pc, mine: seq<Answers>, s: Store) {
    match pc
    case Start => mine == []
    case Policy => |mine| == 1 && WellFormed(c)
    case Route => |mine| == 2 && Reaches(c, mine, 2, s)
    case Egress(admission) => |mine| == 3 && Passed(c, mine, 3, admission, "", s)
    case Reserve(admission) => |mine| == 4 && Passed(c, mine, 4, admission, "", s)
    case AdmitAudit => |mine| == 5 && Reaches(c, mine, 5, s)
    case Invoke => |mine| == 6 && Reaches(c, mine, 6, s)
    case Reconcile(receiptId, actual) =>
      |mine| == 7 && Reaches(c, mine, 7, s) && mine[6].provider == ProviderReturned(receiptId, actual)
    case CompletedAudit(state) => |mine| == 8 && exists admission :: Passed(c, mine, 8, admission, state, s)
    case Done(reached, outcome) => Ended(c, mine, reached, outcome, s)
  }

  ghost predicate Reaches(c: Command, mine: seq<Answers>, n: nat, s: Store)
    requires n <= |mine| && n < 8
  {
    exists admission :: Passed(c, mine, n, admission, "", s)
  }

  /** The call is over: its last await is the one that ended it. */
  ghost predicate Ended(c: Command, mine: seq<Answers>, reached: nat, outcome: Outcome, s: Store) {
    exists n: nat, admission, state ::
      n <= |mine| && (n < |mine| || n == 9) && Passed(c, mine, n, admission, state, s) &&
      EndedAt(c, mine, n, reached, outcome, state)
  }

  // ----- it stays so -----

  lemma {:induction false} RowsStay(s: Store, op: Op, c: Command, admission: Admission)
    requires HasReservation(s, c, admission)
    ensures HasReservation(Apply(s, op), c, admission)
  {
    hide Apply;
    var i: nat :| i < |s.reservations| && IsReservation(s.reservations[i], c, admission);
    StepIsFinal(s, op, i);
    assert IsReservation(Opened(s.reservations[i]), c, admission);
    assert IsReservation(Apply(s, op).reservations[i], c, admission);
  }

  lemma {:induction false} SettlementsStay(s: Store, op: Op, c: Command, receiptId: string, actual: int, state: string)
    requires HasSettlement(s, c, receiptId, actual, state)
    ensures HasSettlement(Apply(s, op), c, receiptId, actual, state)
  {
    hide Apply;
    var i: nat :| i < |s.reservations| && IsSettlement(s.reservations[i], c, receiptId, actual, state);
    StepIsFinal(s, op, i);
    assert IsSettlement(Apply(s, op).reservations[i], c, receiptId, actual, state);
  }

  lemma {:induction false} PassedStays(
    s: Store, op: Op, c: Command, mine: seq<Answers>, n: nat, admission: Admission, state: string)
    requires n <= |mine| && Passed(c, mine, n, admission, state, s)
    ensures Passed(c, mine, n, admission, state, Apply(s, op))
  {
    hide Apply, HasReservation, HasSettlement;
    if n >= 5 { RowsStay(s, op, c, admission); }
    if n >= 8 { SettlementsStay(s, op, c, mine[6].provider.receiptId, mine[6].provider.actual, state); }
  }

  lemma {:induction false} TrailStays(c: Command, pc: Pc, mine: seq<Answers>, s: Store, op: Op)
    requires Trail(c, pc, mine, s)
    ensures Trail(c, pc, mine, Apply(s, op))
  {
    hide Apply, Passed, EndedAt;
    match pc
    case Start =>
    case Policy =>
    case Route => ReachesStays(c, mine, 2, s, op);
    case Egress(admission) => PassedStays(s, op, c, mine, 3, admission, "");
    case Reserve(admission) => PassedStays(s, op, c, mine, 4, admission, "");
    case AdmitAudit => ReachesStays(c, mine, 5, s, op);
    case Invoke => ReachesStays(c, mine, 6, s, op);
    case Reconcile(_, _) => ReachesStays(c, mine, 7, s, op);
    case CompletedAudit(state) =>
      var admission :| Passed(c, mine, 8, admission, state, s);
      PassedStays(s, op, c, mine, 8, admission, state);
    case Done(reached, outcome) =>
      var n: nat, admission, state :|
        n <= |mine| && (n < |mine| || n == 9) && Passed(c, mine, n, admission, state, s) &&
        EndedAt(c, mine, n, reached, outcome, state);
      PassedStays(s, op, c, mine, n, admission, state);
  }

  lemma {:induction false} ReachesStays(c: Command, mine: seq<Answers>, n: nat, s: Store, op: Op)
    requires n <= |mine| && n < 8 && Reaches(c, mine, n, s)
    ensures Reaches(c, mine, n, Apply(s, op))
  {
    hide Apply, Passed;
    var admission :| Passed(c, mine, n, admission, "", s);
    PassedStays(s, op, c, mine, n, admission, "");
  }

  // ----- one await -----

  /** What has passed does not depend on later answers. */
  lemma {:induction false} PassedLonger(
    c: Command, mine: seq<Answers>, a: Answers, n: nat, admission: Admission, state: string, s: Store)
    requires n <= |mine| && Passed(c, mine, n, admission, state, s)
    ensures Passed(c, mine + [a], n, admission, state, s)
  {
    hide HasReservation, HasSettlement;
  }

  lemma {:induction false} ReservingTrail(c: Command, admission: Admission, s: Store, a: Answers)
    requires StepCall(c, Reserve(admission), s, a).pc == AdmitAudit
    ensures HasReservation(StepCall(c, Reserve(admission), s, a).store, c, admission)
  {
    hide Refusals, HoldAll, Budget.Join;
    var after := StepCall(c, Reserve(admission), s, a).store;
    assert IsReservation(after.reservations[|s.reservations|], c, admission);
  }

  lemma {:induction false} SettlingTrail(c: Command, receiptId: string, actual: int, s: Store, a: Answers)
    requires StepCall(c, Reconcile(receiptId, actual), s, a).pc.CompletedAudit?
    ensures var step := StepCall(c, Reconcile(receiptId, actual), s, a);
            HasSettlement(step.store, c, receiptId, actual, step.pc.reconciled)
  {
    hide SettleAll;
    var step := StepCall(c, Reconcile(receiptId, actual), s, a);
    var i := FindById(s.reservations, c.tenantId, c.requestId);
    assert IsSettlement(step.store.reservations[i], c, receiptId, actual, step.pc.reconciled);
  }

  /** Ending the call on the await after `n` good ones. */
  lemma {:induction false} EndsHere(
    c: Command, mine: seq<Answers>, a: Answers, n: nat, admission: Admission, state: string, s: Store,
    reached: nat, outcome: Outcome)
    requires n == |mine| && Passed(c, mine, n, admission, state, s)
    requires EndedAt(c, mine + [a], n, reached, outcome, state)
    ensures Ended(c, mine + [a], reached, outcome, s)
  {
    hide Passed, EndedAt;
    PassedLonger(c, mine, a, n, admission, state, s);
  }

  /** The awaits before the reservation. */
  lemma {:induction false} EarlyTrail(c: Command, pc: Pc, mine: seq<Answers>, s: Store, a: Answers)
    requires Trail(c, pc, mine, s) && (pc.Start? || pc.Policy? || pc.Route? || pc.Egress?)
    ensures var step := StepCall(c, pc, s, a); step.store == s && Trail(c, step.pc, mine + [a], s)
  {
    hide Ended, HasReservation, HasSettlement;
    var step := StepCall(c, pc, s, a);
    var none := Admission("", 0);
    assert WellFormed(c) <==> ValidCommand(c);
    match pc
    case Start =>
      if step.pc.Done? { EndsHere(c, mine, a, 0, none, "", s, 0, step.pc.outcome); }
    case Policy =>
      if step.pc.Done? {
        EndsHere(c, mine, a, 1, none, "", s, 0, step.pc.outcome);
      } else {
        assert Passed(c, mine + [a], 2, none, "", s);
      }
    case Route =>
      if step.pc.Done? { EndsHere(c, mine, a, 2, none, "", s, 0, step.pc.outcome); }
    case Egress(admission) =>
      if step.pc.Done? { EndsHere(c, mine, a, 3, admission, "", s, 0, step.pc.outcome); }
  }

  lemma {:induction false} ReserveTrail(c: Command, admission: Admission, mine: seq<Answers>, s: Store, a: Answers)
    requires Trail(c, Reserve(admission), mine, s)
    ensures var step := StepCall(c, Reserve(admission), s, a); Trail(c, step.pc, mine + [a], step.store)
  {
    hide Ended, HasReservation, HasSettlement, ReserveTx;
    var step := StepCall(c, Reserve(admission), s, a);
    if step.pc.Done? {
      EndsHere(c, mine, a, 4, admission, "", step.store, 0, step.pc.outcome);
    } else {
      ReservingTrail(c, admission, s, a);
      assert Passed(c, mine + [a], 5, admission, "", step.store);
    }
  }

  /** The two awaits between reservation and settlement. */
  lemma {:induction false} MiddleTrail(c: Command, pc: Pc, mine: seq<Answers>, s: Store, a: Answers)
    requires Trail(c, pc, mine, s) && (pc.AdmitAudit? || pc.Invoke?)
    ensures var step := StepCall(c, pc, s, a); step.store == s && Trail(c, step.pc, mine + [a], s)
  {
    hide Ended, HasReservation, HasSettlement;
    var step := StepCall(c, pc, s, a);
    var admission :| Passed(c, mine, |mine|, admission, "", s);
    if step.pc.Done? {
      EndsHere(c, mine, a, |mine|, admission, "", s, step.pc.reached, step.pc.outcome);
    } else {
      assert Passed(c, mine + [a], |mine| + 1, admission, "", s);
    }
  }

  lemma {:induction false} ReconcileTrail(c: Command, pc: Pc, mine: seq<Answers>, s: Store, a: Answers)
    requires Trail(c, pc, mine, s) && pc.Reconcile?
    ensures var step := StepCall(c, pc, s, a); Trail(c, step.pc, mine + [a], step.store)
  {
    hide Ended, HasReservation, HasSettlement, ReconcileTx;
    var step := StepCall(c, pc, s, a);
    var admission :| Passed(c, mine, 7, admission, "", s);
    var op := ReconcileOp(SettlementOf(c, pc.receiptId, pc.actual), a.reconcileFault);
    PassedStays(s, op, c, mine, 7, admission, "");
    if step.pc.Done? {
      EndsHere(c, mine, a, 7, admission, "", step.store, 3, step.pc.outcome);
    } else {
      SettlingTrail(c, pc.receiptId, pc.actual, s, a);
      assert Passed(c, mine + [a], 8, admission, step.pc.reconciled, step.store);
    }
  }

  lemma {:induction false} LastTrail(c: Command, pc: Pc, mine: seq<Answers>, s: Store, a: Answers)
    requires Trail(c, pc, mine, s) && pc.CompletedAudit?
    ensures var step := StepCall(c, pc, s, a); step.store == s && Trail(c, step.pc, mine + [a], s)
  {
    hide HasReservation, HasSettlement;
    var step := StepCall(c, pc, s, a);
    var admission :| Passed(c, mine, 8, admission, pc.reconciled, s);
    if a.completedAudit {
      assert Passed(c, mine + [a], 9, admission, pc.reconciled, s);
      assert EndedAt(c, mine + [a], 9, 5, step.pc.outcome, pc.reconciled);
    } else {
      EndsHere(c, mine, a, 8, admission, pc.reconciled, s, 4, step.pc.outcome);
    }
  }

  lemma {:induction false} DoneTrail(
    c: Command, mine: seq<Answers>, reached: nat, outcome: Outcome, s: Store, a: Answers)
    requires Ended(c, mine, reached, outcome, s)
    ensures Ended(c, mine + [a], reached, outcome, s)
  {
    hide Passed;
    var n: nat, admission, state :|
      n <= |mine| && (n < |mine| || n == 9) && Passed(c, mine, n, admission, state, s) &&
      EndedAt(c, mine, n, reached, outcome, state);
    PassedLonger(c, mine, a, n, admission, state, s);
    assert EndedAt(c, mine + [a], n, reached, outcome, state);
  }

  lemma {:induction false} StepTrail(c: Command, pc: Pc, mine: seq<Answers>, s: Store, a: Answers)
    requires Trail(c, pc, mine, s)
    ensures var step := StepCall(c, pc, s, a); Trail(c, step.pc, mine + [a], step.store)
  {
    match pc {
      case Reserve(admission) => ReserveTrail(c, admission, mine, s, a);
      case AdmitAudit => MiddleTrail(c, pc, mine, s, a);
      case Invoke => MiddleTrail(c, pc, mine, s, a);
      case Reconcile(_, _) => ReconcileTrail(c, pc, mine, s, a);
      case CompletedAudit(_) => LastTrail(c, pc, mine, s, a);
      case Done(reached, outcome) => DoneTrail(c, mine, reached, outcome, s, a);
      case _ => EarlyTrail(c, pc, mine, s, a);
    }
  }

  // ----- over every run -----

  ghost predicate AllFollow(s: System, actions: seq<Action>)
    requires |s.pcs| == |s.calls|
  {
    forall c :: 0 <= c < |s.calls| ==> Trail(s.calls[c], s.pcs[c], AnswersOf(actions, c), s.store)
  }

  lemma {:induction false} NextFollows(s: System, actions: seq<Action>, action: Action)
    requires |s.pcs| == |s.calls| && AllFollow(s, actions)
    ensures AllFollow(Next(s, action), actions + [action])
  {
    hide Trail, StepCall, Apply;
    var all := actions + [action];
    assert all[..|actions|] == actions;
    forall c | 0 <= c < |s.calls|
      ensures Trail(Next(s, action).calls[c], Next(s, action).pcs[c], AnswersOf(all, c), Next(s, action).store)
    {
      assert AnswersOf(actions, c) + [] == AnswersOf(actions, c);
      match action {
        case Elsewhere(op) => TrailStays(s.calls[c], s.pcs[c], AnswersOf(actions, c), s.store, op);
        case Advance(call, a) =>
          if call == c {
            StepTrail(s.calls[c], s.pcs[c], AnswersOf(actions, c), s.store, a);
          } else if call < |s.calls| {
            var op := StepIsTransaction(s.calls[call], s.pcs[call], s.store, a);
            if op.Some? { TrailStays(s.calls[c], s.pcs[c], AnswersOf(actions, c), s.store, op.value); }
          }
      }
    }
  }

  lemma {:induction false} RunFollows(s: System, actions: seq<Action>)
    requires Initial(s)
    ensures AllFollow(RunSystem(s, actions), actions)
    decreases |actions|
  {
    hide Next, Invariant;
    if actions != [] {
      var n := |actions| - 1;
      RunFollows(s, actions[..n]);
      NextFollows(RunSystem(s, actions[..n]), actions[..n], actions[n]);
      assert actions[..n] + [actions[n]] == actions;
    }
  }

  /** A call that has reserved was cleared, in turn, by its own policy, router and egress answers. */
  ghost predicate ClearedInTurn(c: Command, mine: seq<Answers>, admission: Admission) {
    && |mine| >= 5 && c.messages != [] && "" !in c.messages && 16 <= Text.Units(c.idempotencyKey) <= 128
    && mine[1].policyAllows == Some(true) && mine[2].route == Some(Some(admission)) &&
         mine[3].egressAllows == Some(true)
  }

  /** What the effects of a call say about its answers and the tables. */
  ghost predicate Explained(c: Command, did: seq<EventKind>, mine: seq<Answers>, s: Store) {
    && (ReservedEvent in did ==>
          exists admission :: ClearedInTurn(c, mine, admission) && HasReservation(s, c, admission))
    && (AdmittedEvent in did ==> |mine| >= 6 && mine[5].admittedAudit)
    && (InvokedEvent in did ==> |mine| >= 7 && mine[6].provider != CredentialRefused)
    && (SettledEvent in did ==>
          |mine| >= 8 && mine[6].provider.ProviderReturned? &&
          exists state :: HasSettlement(s, c, mine[6].provider.receiptId, mine[6].provider.actual, state))
    && (CompletedEvent in did ==> |mine| >= 9 && mine[8].completedAudit)
  }

  lemma {:induction false} PassedExplains(
    c: Command, mine: seq<Answers>, n: nat, admission: Admission, state: string, s: Store, reached: nat)
    requires n <= |mine| && Passed(c, mine, n, admission, state, s)
    requires reached <= 5 && (reached >= 1 ==> n >= 4 + reached || (reached == 3 && n == 6 && |mine| >= 7))
    requires reached >= 3 ==> |mine| >= 7 && mine[6].provider != CredentialRefused
    ensures Explained(c, EFFECTS[..reached], mine, s)
  {
    hide HasReservation, HasSettlement;
    if reached >= 1 { assert ClearedInTurn(c, mine, admission); }
  }

  lemma {:induction false} TrailExplains(c: Command, pc: Pc, mine: seq<Answers>, s: Store)
    requires Trail(c, pc, mine, s)
    ensures Progress(pc) <= 5 && Explained(c, EFFECTS[..Progress(pc)], mine, s)
  {
    hide HasReservation, HasSettlement, Explained;
    var none := Admission("", 0);
    match pc {
      case AdmitAudit =>
        var admission :| Passed(c, mine, 5, admission, "", s);
        PassedExplains(c, mine, 5, admission, "", s, 1);
      case Invoke =>
        var admission :| Passed(c, mine, 6, admission, "", s);
        PassedExplains(c, mine, 6, admission, "", s, 2);
      case Reconcile(_, _) =>
        var admission :| Passed(c, mine, 7, admission, "", s);
        PassedExplains(c, mine, 7, admission, "", s, 3);
      case CompletedAudit(state) =>
        var admission :| Passed(c, mine, 8, admission, state, s);
        PassedExplains(c, mine, 8, admission, state, s, 4);
      case Done(reached, outcome) =>
        var n: nat, admission, state :|
          n <= |mine| && (n < |mine| || n == 9) && Passed(c, mine, n, admission, state, s) &&
          EndedAt(c, mine, n, reached, outcome, state);
        PassedExplains(c, mine, n, admission, state, s, reached);
      case _ => PassedExplains(c, mine, 0, none, "", s, 0);
    }
  }

  /**
   * Over every concurrent run and for every call: it reserved only after its own policy, router and
   * egress had let it through, and the table holds that very admission; it invoked the provider only
   * after its admission was audited; it settled what the provider returned; and once it is over, its
   * outcome is the one that the await which ended it was answered.
   */
  lemma {:induction false} CallsFollowAnswers(s: System, actions: seq<Action>, call: nat)
    requires Initial(s) && call < |s.calls|
    ensures var after, mine := RunSystem(s, actions), AnswersOf(actions, call);
            var c, pc := s.calls[call], after.pcs[call];
            && Explained(c, EffectsOf(after.log, call), mine, after.store)
            && (pc.Done? ==>
                  Ended(c, mine, pc.reached, pc.outcome, after.store) && |EffectsOf(after.log, call)| == pc.reached)
  {
    hide Explained, Ended, Invariant, EffectsOf, Exclusive;
    RunFollows(s, actions);
    RunKeepsAll(s, actions);
    var after := RunSystem(s, actions);
    TrailExplains(s.calls[call], after.pcs[call], AnswersOf(actions, call), after.store);
  }
}
