/**
 * The answers and the written rows of the two budget transactions, told from their inputs alone, and
 * which settlements of a run block a budget.
 */
module BudgetExact {
  import opened Results
  import opened Budget
  import opened BudgetConservation
  import opened BudgetRuns

  // ----- the reasons -----

  /** What each reason against a request means. */
  predicate Holds(reason: Reason, currency: string, estimated: int, rows: seq<LimitRow>) {
    match reason
    case AmountInvalid =>
      |currency| != 3 || estimated < 0 || exists i :: 0 <= i < |currency| && !('A' <= currency[i] <= 'Z')
    case ScopeInvalid => rows == [] || |rows| > 5
    case ScopeConflict => exists i, j :: 0 <= i < j < |rows| && rows[i].scopeType == rows[j].scopeType
    case CurrencyConflict => exists i :: 0 <= i < |rows| && rows[i].currency != currency
    case Blocked => exists i :: 0 <= i < |rows| && rows[i].blocked
    case StateInvalid => exists i :: 0 <= i < |rows| && !InBounds(rows[i])
    case Insufficient =>
      exists i :: 0 <= i < |rows| && InBounds(rows[i]) &&
        rows[i].committed + rows[i].reserved + estimated > rows[i].limit
    case ScopeMissing => false
  }

  predicate InBounds(r: LimitRow) {
    0 <= r.limit && 0 <= r.committed && 0 <= r.reserved && r.committed + r.reserved <= r.limit
  }

  /** Each reason is given exactly when it holds. */
  lemma {:induction false} ReasonsExactly(currency: string, estimated: int, rows: seq<LimitRow>)
    ensures forall reason :: reason in ReasonsFor(currency, estimated, rows) <==>
            Holds(reason, currency, estimated, rows)
  {
    hide ScopeTypes, TypesDistinct, RowsReasons, Holds;
    forall reason
      ensures reason in ReasonsFor(currency, estimated, rows) <==> Holds(reason, currency, estimated, rows)
    {
      RequestReasonsExactly(reason, currency, estimated, rows);
      RowsReasonsExactly(reason, currency, estimated, rows);
    }
  }

  /** The reasons that concern single rows. */
  predicate OfRow(reason: Reason) { reason in {CurrencyConflict, Blocked, StateInvalid, Insufficient} }

  predicate HoldsOf(reason: Reason, currency: string, estimated: int, r: LimitRow) {
    match reason
    case CurrencyConflict => r.currency != currency
    case Blocked => r.blocked
    case StateInvalid => !InBounds(r)
    case Insufficient => InBounds(r) && r.committed + r.reserved + estimated > r.limit
    case _ => false
  }

  lemma {:induction false} RequestReasonsExactly(reason: Reason, currency: string, estimated: int, rows: seq<LimitRow>)
    ensures reason in RequestReasons(currency, estimated, rows) <==>
            !OfRow(reason) && Holds(reason, currency, estimated, rows)
  {
    hide ScopeTypes;
    TypesDistinctExactly(rows);
  }

  lemma {:induction false} RowsReasonsExactly(reason: Reason, currency: string, estimated: int, rows: seq<LimitRow>)
    ensures reason in RowsReasons(currency, estimated, rows) <==>
            OfRow(reason) && Holds(reason, currency, estimated, rows)
  {
    hide Holds;
    SomeRow(reason, currency, estimated, rows);
    HoldsOfSome(reason, currency, estimated, rows);
  }

  lemma {:induction false} HoldsOfSome(reason: Reason, currency: string, estimated: int, rows: seq<LimitRow>)
    ensures (exists i :: 0 <= i < |rows| && HoldsOf(reason, currency, estimated, rows[i])) <==>
            OfRow(reason) && Holds(reason, currency, estimated, rows)
  {
    hide InBounds;
  }

  lemma {:induction false} SomeRow(reason: Reason, currency: string, estimated: int, rows: seq<LimitRow>)
    ensures reason in RowsReasons(currency, estimated, rows) <==>
            exists i :: 0 <= i < |rows| && HoldsOf(reason, currency, estimated, rows[i])
    decreases |rows|
  {
    if rows != [] {
      var n := |rows| - 1;
      SomeRow(reason, currency, estimated, rows[..n]);
      assert reason in RowReasons(currency, estimated, rows[n]) <==> HoldsOf(reason, currency, estimated, rows[n]);
      hide RowReasons, HoldsOf;
      assert forall i :: 0 <= i < n ==> rows[..n][i] == rows[i];
      assert reason in RowsReasons(currency, estimated, rows) <==>
             reason in RowsReasons(currency, estimated, rows[..n]) ||
               reason in RowReasons(currency, estimated, rows[n]);
    }
  }

  // ----- reserving -----

  predicate SameKey(row: Reservation, input: ReserveInput) {
    row.tenantId == input.tenantId && row.idempotencyKey == input.idempotencyKey
  }

  /** A key that is taken: the stored row with the same fingerprint, a conflict with another; no change. */
  lemma {:induction false} ReplayExactly(s: Store, input: ReserveInput, fault: bool, i: nat)
    requires Valid(s) && i < |s.reservations| && SameKey(s.reservations[i], input)
    ensures ReserveTx(s, input, fault) ==
            (if s.reservations[i].fingerprint == input.fingerprint then Ok(Replayed(s.reservations[i]))
             else Err(IdempotencyConflict), s)
  {
    hide ValidReservation;
    var j := FindByKey(s.reservations, input.tenantId, input.idempotencyKey);
    assert i == j;
  }

  /** The rows under the scope keys, when they are all there. */
  function NamedRows(s: Store, input: ReserveInput): (rows: seq<LimitRow>)
    requires forall k :: k in input.scopeKeys ==> BudgetKey(input.tenantId, k) in s.limits
    ensures |rows| == |input.scopeKeys|
    ensures forall i :: 0 <= i < |rows| ==> rows[i] == s.limits[BudgetKey(input.tenantId, input.scopeKeys[i])]
  {
    seq(|input.scopeKeys|,
      i requires 0 <= i < |input.scopeKeys| => s.limits[BudgetKey(input.tenantId, input.scopeKeys[i])])
  }

  ghost predicate Denies(reasons: set<Reason>, input: ReserveInput, rows: seq<LimitRow>) {
    reasons != {} && forall reason :: reason in reasons <==> Holds(reason, input.currency, input.estimated, rows)
  }

  ghost predicate NothingHolds(input: ReserveInput, rows: seq<LimitRow>) {
    forall reason :: !Holds(reason, input.currency, input.estimated, rows)
  }

  /** The row written for a fresh reservation. */
  ghost predicate IsNewRow(row: Reservation, input: ReserveInput) {
    && row.tenantId == input.tenantId && row.reservationId == input.reservationId
    && row.idempotencyKey == input.idempotencyKey && row.fingerprint == input.fingerprint
    && row.currency == input.currency && row.reserved == input.estimated
    && row.state == Reserved && row.actual == None && row.receiptId == None
    && |row.allocations| == |input.scopeKeys|
    && forall i :: 0 <= i < |row.allocations| ==>
         row.allocations[i] == Allocation(BudgetKey(input.tenantId, input.scopeKeys[i]), input.estimated)
  }

  /**
   * A key that is free: refused for a scope that is missing, else for exactly the reasons that hold,
   * else for a reservation id that is taken, else for a failing statement; and a refusal changes
   * nothing. Otherwise one row and one ledger entry are written.
   */
  lemma {:induction false} ReserveExactly(s: Store, input: ReserveInput, fault: bool)
    requires forall i :: 0 <= i < |s.reservations| ==> !SameKey(s.reservations[i], input)
    ensures var (r, after) := ReserveTx(s, input, fault);
            && (r.Err? ==> after == s)
            && if exists k :: k in input.scopeKeys && BudgetKey(input.tenantId, k) !in s.limits then
                 r == Err(Denied({ScopeMissing}))
               else if !NothingHolds(input, NamedRows(s, input)) then
                 r.Err? && r.error.Denied? && Denies(r.error.reasons, input, NamedRows(s, input))
               else if exists i :: 0 <= i < |s.reservations| && s.reservations[i].tenantId == input.tenantId &&
                                   s.reservations[i].reservationId == input.reservationId then
                 r == Err(DuplicateReservation)
               else if fault then r == Err(StatementFailed)
               else
                 && r == Ok(Fresh(input.reservationId, input.estimated))
                 && |after.reservations| == |s.reservations| + 1 && s.reservations <= after.reservations
                 && IsNewRow(after.reservations[|s.reservations|], input)
                 && after.ledger == s.ledger + [LedgerEntry(input.tenantId, input.reservationId, ReservedEntry,
                                                            input.estimated, input.currency, None)]
  {
    hide ReasonsFor, HoldAll, Holds, Join;
    JoinComplete(s.limits, input.tenantId, input.scopeKeys);
    var found := Join(s.limits, input.tenantId, input.scopeKeys);
    if |found| == |input.scopeKeys| {
      assert forall k :: k in input.scopeKeys ==> BudgetKey(input.tenantId, k) in s.limits;
      assert RowsOf(s.limits, found) == NamedRows(s, input);
      ReasonsExactly(input.currency, input.estimated, NamedRows(s, input));
      var reasons := ReasonsFor(input.currency, input.estimated, NamedRows(s, input));
      assert reasons != {} <==> exists reason :: reason in reasons;
    } else {
      var i: nat :| i < |input.scopeKeys| && BudgetKey(input.tenantId, input.scopeKeys[i]) !in s.limits;
      assert input.scopeKeys[i] in input.scopeKeys;
    }
  }

  // ----- settling -----

  predicate SameId(row: Reservation, input: ReconcileInput) {
    row.tenantId == input.tenantId && row.reservationId == input.reservationId
  }

  /** No such reservation: refused, and nothing changes. */
  lemma {:induction false} UnknownReservation(s: Store, input: ReconcileInput, fault: bool)
    requires forall i :: 0 <= i < |s.reservations| ==> !SameId(s.reservations[i], input)
    ensures ReconcileTx(s, input, fault) == (Err(ReservationNotFound), s)
  {
  }

  /** A settled reservation: the same receipt and amount again, or a conflict. */
  lemma {:induction false} SettledExactly(s: Store, input: ReconcileInput, fault: bool, i: nat)
    requires Valid(s) && i < |s.reservations| && SameId(s.reservations[i], input)
    requires s.reservations[i].state != Reserved
    ensures var row := s.reservations[i];
            ReconcileTx(s, input, fault) ==
            (if row.receiptId == Some(input.receiptId) && row.actual == Some(input.actual) then Ok(AlreadySettled(row))
             else Err(ReconciliationConflict), s)
  {
    hide ValidReservation;
    assert i == FindById(s.reservations, input.tenantId, input.reservationId);
  }

  /**
   * An open reservation: a negative amount and a failing statement are refused without change;
   * otherwise what was held is committed as far as it was spent and the rest released, or the overage
   * goes to review. The row keeps what it was opened with, and the ledger gets one entry.
   */
  lemma {:induction false} SettlingExactly(s: Store, input: ReconcileInput, fault: bool, i: nat)
    requires Valid(s) && i < |s.reservations| && SameId(s.reservations[i], input)
    requires s.reservations[i].state == Reserved
    ensures var row := s.reservations[i];
            var (r, after) := ReconcileTx(s, input, fault);
            if input.actual < 0 then r == Err(AmountRejected) && after == s
            else if fault then r == Err(StatementFailed) && after == s
            else
              var within := input.actual <= row.reserved;
              && r == Ok(Settled(
                   if within then Committed else ReconciliationReview, input.actual,
                   if within then row.reserved - input.actual else 0,
                   if within then 0 else input.actual - row.reserved))
              && after.reservations == s.reservations[i := Reservation(
                   row.tenantId, row.reservationId, row.idempotencyKey, row.fingerprint, row.currency, row.reserved,
                   if within then Committed else ReconciliationReview, Some(input.actual), Some(input.receiptId),
                   row.allocations)]
              && after.ledger == s.ledger + [LedgerEntry(
                   row.tenantId, row.reservationId, if within then CommittedEntry else OverageEntry,
                   input.actual, row.currency, Some(input.receiptId))]
  {
    hide SettleAll;
    assert i == FindById(s.reservations, input.tenantId, input.reservationId);
    assert ValidReservation(s.reservations[i], s.limits);
  }

  // ----- what blocks a budget -----

  /** The operation settles a reservation held in `b` and leaves `b` over its limit. */
  ghost predicate LeavesOver(s: Store, op: Op, b: BudgetKey) {
    && op.ReconcileOp? && ReconcileTx(s, op.reconcile, op.fault).0.Ok?
    && ReconcileTx(s, op.reconcile, op.fault).0.value.Settled?
    && (exists i, k :: 0 <= i < |s.reservations| && SameId(s.reservations[i], op.reconcile) &&
                       0 <= k < |s.reservations[i].allocations| && s.reservations[i].allocations[k].budget == b)
    && b in Apply(s, op).limits
    && Apply(s, op).limits[b].committed + Apply(s, op).limits[b].reserved > Apply(s, op).limits[b].limit
  }

  lemma {:induction false} OneBlocksExactly(s: Store, op: Op, b: BudgetKey)
    requires Valid(s) && b in s.limits
    ensures b in Apply(s, op).limits
    ensures Apply(s, op).limits[b].blocked <==> s.limits[b].blocked || LeavesOver(s, op, b)
  {
    hide ReserveTx, ReconcileTx, ValidReservation;
    match op {
      case ReserveOp(input, fault) => ReserveEffect(s, input, fault, b);
      case ReconcileOp(input, fault) =>
        ReconcileEffect(s, input, fault, b);
        if Settles(s, input, fault) {
          SettlesIsFound(s, input, fault);
          var at := FindById(s.reservations, input.tenantId, input.reservationId);
          assert forall i :: 0 <= i < |s.reservations| && SameId(s.reservations[i], input) ==> i == at;
        }
    }
  }

  lemma {:induction false} SettlesIsFound(s: Store, input: ReconcileInput, fault: bool)
    requires Settles(s, input, fault)
    ensures 0 <= FindById(s.reservations, input.tenantId, input.reservationId)
  {
    hide SettleAll;
  }

  /** Some operation of the run leaves `b` over its limit. */
  ghost predicate SomeLeavesOver(s: Store, ops: seq<Op>, b: BudgetKey) {
    exists n :: 0 <= n < |ops| && LeavesOver(Run(s, ops[..n]), ops[n], b)
  }

  /**
   * Over every run: a budget is blocked if it was before, or if some settlement left it over its
   * limit, and only then.
   */
  lemma {:induction false} BlockedExactly(s: Store, ops: seq<Op>, b: BudgetKey)
    requires Valid(s) && b in s.limits
    ensures b in Run(s, ops).limits
    ensures Run(s, ops).limits[b].blocked <==> s.limits[b].blocked || SomeLeavesOver(s, ops, b)
    decreases |ops|
  {
    hide Valid, Apply, LeavesOver;
    if ops != [] {
      var n := |ops| - 1;
      BlockedExactly(s, ops[..n], b);
      RunKeepsValid(s, ops[..n]);
      OneBlocksExactly(Run(s, ops[..n]), ops[n], b);
      assert forall i :: 0 <= i <= n ==> ops[..n][..i] == ops[..i];
      assert forall i :: 0 <= i < n ==> ops[..n][i] == ops[i];
      if SomeLeavesOver(s, ops[..n], b) {
        var i :| 0 <= i < n && LeavesOver(Run(s, ops[..n][..i]), ops[..n][i], b);
        assert LeavesOver(Run(s, ops[..i]), ops[i], b);
      }
      if SomeLeavesOver(s, ops, b) {
        var i :| 0 <= i < |ops| && LeavesOver(Run(s, ops[..i]), ops[i], b);
        if i < n { assert LeavesOver(Run(s, ops[..n][..i]), ops[..n][i], b); }
      }
    }
  }
}
