/**
 * Budget reservations: the admission decision, and the two transactions that move money between
 * the limit, the reserved and the committed amount of each scope a request touches.
 */
module Budget {
  import opened Results

  datatype ScopeType = Tenant | Workspace | User | Task | Provider
  datatype ScopeKey = ScopeKey(scopeType: ScopeType, scopeId: string)

  /** A budget row by its unique columns. */
  datatype BudgetKey = BudgetKey(tenantId: string, scope: ScopeKey)

  datatype LimitRow = LimitRow(
    scopeType: ScopeType, currency: string, limit: int, committed: int, reserved: int, blocked: bool, version: nat)

  datatype Allocation = Allocation(budget: BudgetKey, reserved: int)

  datatype ReservationState = Reserved | Committed | ReconciliationReview

  datatype Reservation = Reservation(
    tenantId: string, reservationId: string, idempotencyKey: string, fingerprint: string, currency: string,
    reserved: int, state: ReservationState, actual: Option<int>, receiptId: Option<string>,
    allocations: seq<Allocation>)

  datatype LedgerKind = ReservedEntry | CommittedEntry | OverageEntry
  datatype LedgerEntry = LedgerEntry(
    tenantId: string, reservationId: string, kind: LedgerKind, amount: int, currency: string, receiptId: Option<string>)

  datatype Store = Store(limits: map<BudgetKey, LimitRow>, reservations: seq<Reservation>, ledger: seq<LedgerEntry>)

  datatype Reason =
    | AmountInvalid | ScopeInvalid | ScopeConflict | CurrencyConflict
    | Blocked | StateInvalid | Insufficient | ScopeMissing

  datatype BudgetError =
    | IdempotencyConflict | Denied(reasons: set<Reason>) | DuplicateReservation
    | ReservationNotFound | ReconciliationConflict | AmountRejected | StatementFailed

  // ----- the admission decision -----

  predicate ValidCurrency(s: string) { |s| == 3 && forall i :: 0 <= i < 3 ==> 'A' <= s[i] <= 'Z' }

  predicate RowInvalid(r: LimitRow) {
    r.limit < 0 || r.committed < 0 || r.reserved < 0 || r.committed + r.reserved > r.limit
  }

  function ScopeTypes(rows: seq<LimitRow>): set<ScopeType> { set r | r in rows :: r.scopeType }

  function When(condition: bool, reason: Reason): set<Reason> { if condition then {reason} else {} }

  /** The reasons that one row gives against a request. */
  function RowReasons(currency: string, estimated: int, r: LimitRow): set<Reason> {
    When(r.currency != currency, CurrencyConflict) + When(r.blocked, Blocked) + When(RowInvalid(r), StateInvalid) +
    When(!RowInvalid(r) && r.limit - r.committed - r.reserved < estimated, Insufficient)
  }

  function RowsReasons(currency: string, estimated: int, rows: seq<LimitRow>): set<Reason> {
    if rows == [] then {}
    else RowsReasons(currency, estimated, rows[..|rows| - 1]) + RowReasons(currency, estimated, rows[|rows| - 1])
  }

  /** The reasons that the request as a whole gives. */
  function RequestReasons(currency: string, estimated: int, rows: seq<LimitRow>): set<Reason> {
    When(!ValidCurrency(currency) || estimated < 0, AmountInvalid) + When(|rows| < 1 || |rows| > 5, ScopeInvalid) +
    When(|ScopeTypes(rows)| != |rows|, ScopeConflict)
  }

  /** The reasons against a request. */
  function ReasonsFor(currency: string, estimated: int, rows: seq<LimitRow>): set<Reason> {
    RequestReasons(currency, estimated, rows) + RowsReasons(currency, estimated, rows)
  }

  /** The rows that the scope keys find, a repeated key repeating its row. */
  function Join(limits: map<BudgetKey, LimitRow>, tenantId: string, keys: seq<ScopeKey>): (found: seq<BudgetKey>)
    ensures forall b :: b in found ==> b in limits && b.tenantId == tenantId && b.scope in keys
    ensures |found| <= |keys|
  {
    if keys == [] then []
    else
      var b := BudgetKey(tenantId, keys[0]);
      (if b in limits then [b] else []) + Join(limits, tenantId, keys[1..])
  }

  function RowsOf(limits: map<BudgetKey, LimitRow>, found: seq<BudgetKey>): (rows: seq<LimitRow>)
    requires forall b :: b in found ==> b in limits
    ensures |rows| == |found| && forall i :: 0 <= i < |rows| ==> rows[i] == limits[found[i]]
  {
    if found == [] then [] else [limits[found[0]]] + RowsOf(limits, found[1..])
  }

  // ----- the transactions as functions -----

  datatype ReserveInput = ReserveInput(
    tenantId: string, reservationId: string, idempotencyKey: string, fingerprint: string, currency: string,
    estimated: int, scopeKeys: seq<ScopeKey>)

  /** A fresh reservation, or the stored row of an earlier one with the same idempotency key. */
  datatype ReserveReply = Fresh(reservationId: string, reserved: int) | Replayed(row: Reservation)

  /** The index of the row with this idempotency key, or -1. */
  function FindByKey(rows: seq<Reservation>, tenantId: string, key: string): (i: int)
    ensures -1 <= i < |rows|
    ensures i >= 0 ==> rows[i].tenantId == tenantId && rows[i].idempotencyKey == key
    ensures i < 0 ==> forall j :: 0 <= j < |rows| ==> rows[j].tenantId != tenantId || rows[j].idempotencyKey != key
  {
    if rows == [] then -1
    else
      var n := |rows| - 1;
      if rows[n].tenantId == tenantId && rows[n].idempotencyKey == key then n else FindByKey(rows[..n], tenantId, key)
  }

  /** The index of the row with this primary key, or -1. */
  function FindById(rows: seq<Reservation>, tenantId: string, id: string): (i: int)
    ensures -1 <= i < |rows|
    ensures i >= 0 ==> rows[i].tenantId == tenantId && rows[i].reservationId == id
    ensures i < 0 ==> forall j :: 0 <= j < |rows| ==> rows[j].tenantId != tenantId || rows[j].reservationId != id
  {
    if rows == [] then -1
    else
      var n := |rows| - 1;
      if rows[n].tenantId == tenantId && rows[n].reservationId == id then n else FindById(rows[..n], tenantId, id)
  }

  function Hold(limits: map<BudgetKey, LimitRow>, b: BudgetKey, amount: int): map<BudgetKey, LimitRow> {
    if b in limits then
      limits[b := limits[b].(reserved := limits[b].reserved + amount, version := limits[b].version + 1)]
    else limits
  }

  function HoldAll(limits: map<BudgetKey, LimitRow>, found: seq<BudgetKey>, amount: int): map<BudgetKey, LimitRow> {
    if found == [] then limits else Hold(HoldAll(limits, found[..|found| - 1], amount), found[|found| - 1], amount)
  }

  function AllocationsFor(found: seq<BudgetKey>, amount: int): (a: seq<Allocation>)
    ensures |a| == |found| && forall i :: 0 <= i < |a| ==> a[i] == Allocation(found[i], amount)
  {
    if found == [] then [] else AllocationsFor(found[..|found| - 1], amount) + [Allocation(found[|found| - 1], amount)]
  }

  function NewReservation(input: ReserveInput, found: seq<BudgetKey>): Reservation {
    Reservation(input.tenantId, input.reservationId, input.idempotencyKey, input.fingerprint, input.currency,
                input.estimated, Reserved, None, None, AllocationsFor(found, input.estimated))
  }

  function ReservedLedger(input: ReserveInput): LedgerEntry {
    LedgerEntry(input.tenantId, input.reservationId, ReservedEntry, input.estimated, input.currency, None)
  }

  /** Why a reservation with no earlier row is refused; empty when it is admitted. */
  function Refusals(s: Store, input: ReserveInput): set<Reason> {
    var found := Join(s.limits, input.tenantId, input.scopeKeys);
    if |found| != |input.scopeKeys| then {ScopeMissing}
    else ReasonsFor(input.currency, input.estimated, RowsOf(s.limits, found))
  }

  /** `fault` is a statement that the database refuses for a reason outside this model. */
  function ReserveTx(s: Store, input: ReserveInput, fault: bool): (Result<ReserveReply, BudgetError>, Store) {
    var prior := FindByKey(s.reservations, input.tenantId, input.idempotencyKey);
    if prior >= 0 then
      if s.reservations[prior].fingerprint != input.fingerprint then (Err(IdempotencyConflict), s)
      else (Ok(Replayed(s.reservations[prior])), s)
    else
      var refusals := Refusals(s, input);
      if refusals != {} then (Err(Denied(refusals)), s)
      else if FindById(s.reservations, input.tenantId, input.reservationId) >= 0 then (Err(DuplicateReservation), s)
      else if fault then (Err(StatementFailed), s)
      else
        var found := Join(s.limits, input.tenantId, input.scopeKeys);
        (Ok(Fresh(input.reservationId, input.estimated)),
         Store(HoldAll(s.limits, found, input.estimated),
               s.reservations + [NewReservation(input, found)],
               s.ledger + [ReservedLedger(input)]))
  }

  datatype ReconcileInput = ReconcileInput(tenantId: string, reservationId: string, receiptId: string, actual: int)

  datatype ReconcileReply =
    | Settled(state: ReservationState, committed: int, released: int, overage: int)
    | AlreadySettled(row: Reservation)

  function Max(a: int, b: int): int { if a >= b then a else b }

  /** reconcileBudget; None is the error for a negative amount. */
  function ReconcileBudget(reserved: int, actual: int): Option<ReconcileReply> {
    if reserved < 0 || actual < 0 then None
    else if actual <= reserved then Some(Settled(Committed, actual, reserved - actual, 0))
    else Some(Settled(ReconciliationReview, actual, 0, actual - reserved))
  }

  function Settle(limits: map<BudgetKey, LimitRow>, a: Allocation, actual: int): map<BudgetKey, LimitRow> {
    if a.budget in limits then
      var r := limits[a.budget];
      limits[a.budget := r.(
        reserved := r.reserved - a.reserved, committed := r.committed + actual,
        blocked := r.blocked || r.committed + r.reserved - a.reserved + actual > r.limit, version := r.version + 1)]
    else limits
  }

  function SettleAll(
    limits: map<BudgetKey, LimitRow>, allocations: seq<Allocation>, actual: int)
    : map<BudgetKey, LimitRow>
  {
    if allocations == [] then limits
    else Settle(SettleAll(limits, allocations[..|allocations| - 1], actual), allocations[|allocations| - 1], actual)
  }

  function SettledRow(row: Reservation, input: ReconcileInput): Reservation {
    row.(state := if input.actual <= row.reserved then Committed else ReconciliationReview,
         actual := Some(input.actual), receiptId := Some(input.receiptId))
  }

  function SettledLedger(row: Reservation, input: ReconcileInput): LedgerEntry {
    LedgerEntry(input.tenantId, input.reservationId,
                if input.actual <= row.reserved then CommittedEntry else OverageEntry,
                input.actual, row.currency, Some(input.receiptId))
  }

  function ReconcileTx(s: Store, input: ReconcileInput, fault: bool): (Result<ReconcileReply, BudgetError>, Store) {
    var i := FindById(s.reservations, input.tenantId, input.reservationId);
    if i < 0 then (Err(ReservationNotFound), s)
    else
      var row := s.reservations[i];
      if row.state != Reserved then
        if row.receiptId == Some(input.receiptId) && row.actual == Some(input.actual) then (Ok(AlreadySettled(row)), s)
        else (Err(ReconciliationConflict), s)
      else
        match ReconcileBudget(row.reserved, input.actual)
        case None => (Err(AmountRejected), s)
        case Some(outcome) =>
          if fault then (Err(StatementFailed), s)
          else
            (Ok(outcome),
             Store(SettleAll(s.limits, row.allocations, input.actual),
                   s.reservations[i := SettledRow(row, input)],
                   s.ledger + [SettledLedger(row, input)]))
  }

  // ----- the transactions as the repository runs them -----

  lemma {:induction false} RowsReasonsStep(currency: string, estimated: int, rows: seq<LimitRow>, i: nat)
    requires i < |rows|
    ensures RowsReasons(currency, estimated, rows[..i + 1]) ==
            RowsReasons(currency, estimated, rows[..i]) + RowReasons(currency, estimated, rows[i])
  {
    assert rows[..i + 1][..i] == rows[..i];
  }

  lemma {:induction false} NoRowsNoReasons(currency: string, estimated: int)
    ensures RowsReasons(currency, estimated, []) == {}
  {
  }

  /** The checks of admitBudget on the request as a whole. */
  method CheckRequest(currency: string, estimated: int, rows: seq<LimitRow>) returns (reasons: set<Reason>)
    ensures reasons == RequestReasons(currency, estimated, rows)
  {
    hide ValidCurrency, ScopeTypes;
    reasons := {};
    if !ValidCurrency(currency) || estimated < 0 { reasons := reasons + {AmountInvalid}; }
    ghost var amount := When(!ValidCurrency(currency) || estimated < 0, AmountInvalid);
    assert reasons == amount;
    if |rows| < 1 || |rows| > 5 { reasons := reasons + {ScopeInvalid}; }
    ghost var scope := amount + When(|rows| < 1 || |rows| > 5, ScopeInvalid);
    assert reasons == scope;
    var scopes := ScopeTypes(rows);
    if |scopes| != |rows| { reasons := reasons + {ScopeConflict}; }
    assert reasons == scope + When(|scopes| != |rows|, ScopeConflict);
  }

  /** The checks of admitBudget on one limit. */
  method CheckRow(currency: string, estimated: int, row: LimitRow) returns (reasons: set<Reason>)
    ensures reasons == RowReasons(currency, estimated, row)
  {
    hide RowInvalid;
    reasons := {};
    if row.currency != currency { reasons := reasons + {CurrencyConflict}; }
    if row.blocked { reasons := reasons + {Blocked}; }
    if RowInvalid(row) {
      reasons := reasons + {StateInvalid};
    } else if row.limit - row.committed - row.reserved < estimated {
      reasons := reasons + {Insufficient};
    }
  }

  /** admitBudget: collects every reason that applies. */
  method AdmitBudget(currency: string, estimated: int, rows: seq<LimitRow>) returns (reasons: set<Reason>)
    ensures reasons == ReasonsFor(currency, estimated, rows)
  {
    hide RequestReasons, RowReasons, RowsReasons;
    var first := CheckRequest(currency, estimated, rows);
    var collected: set<Reason> := {};
    assert RowsReasons(currency, estimated, rows[..0]) == {} by { NoRowsNoReasons(currency, estimated); }
    for i := 0 to |rows|
      invariant collected == RowsReasons(currency, estimated, rows[..i])
    {
      var more := CheckRow(currency, estimated, rows[i]);
      RowsReasonsStep(currency, estimated, rows, i);
      collected := collected + more;
    }
    assert rows[..|rows|] == rows;
    reasons := first + collected;
  }

  class BudgetRepository {
    var limits: map<BudgetKey, LimitRow>
    var reservations: seq<Reservation>
    var ledger: seq<LedgerEntry>

    ghost function Tables(): Store
      reads this
    {
      Store(limits, reservations, ledger)
    }

    constructor (limits: map<BudgetKey, LimitRow>)
      ensures Tables() == Store(limits, [], [])
    {
      this.limits, reservations, ledger := limits, [], [];
    }

    method Reserve(input: ReserveInput, fault: bool) returns (r: Result<ReserveReply, BudgetError>)
      modifies this
      ensures (r, Tables()) == ReserveTx(old(Tables()), input, fault)
    {
      hide ReasonsFor, FindByKey, FindById, Join, Hold;
      var prior := FindByKey(reservations, input.tenantId, input.idempotencyKey);
      if prior >= 0 {
        if reservations[prior].fingerprint != input.fingerprint { return Err(IdempotencyConflict); }
        return Ok(Replayed(reservations[prior]));
      }
      var rows := Join(limits, input.tenantId, input.scopeKeys);
      if |rows| != |input.scopeKeys| { return Err(Denied({ScopeMissing})); }
      var reasons := AdmitBudget(input.currency, input.estimated, RowsOf(limits, rows));
      if reasons != {} { return Err(Denied(reasons)); }
      if FindById(reservations, input.tenantId, input.reservationId) >= 0 { return Err(DuplicateReservation); }
      var begin := (limits, reservations, ledger);
      var allocations: seq<Allocation> := [];
      for i := 0 to |rows|
        invariant limits == HoldAll(begin.0, rows[..i], input.estimated)
        invariant allocations == AllocationsFor(rows[..i], input.estimated)
        invariant reservations == begin.1 && ledger == begin.2
      {
        assert rows[..i + 1][..i] == rows[..i];
        limits := Hold(limits, rows[i], input.estimated);
        allocations := allocations + [Allocation(rows[i], input.estimated)];
      }
      assert rows[..|rows|] == rows;
      reservations := reservations + [NewReservation(input, rows).(allocations := allocations)];
      ledger := ledger + [ReservedLedger(input)];
      if fault {
        limits, reservations, ledger := begin.0, begin.1, begin.2;
        return Err(StatementFailed);
      }
      return Ok(Fresh(input.reservationId, input.estimated));
    }

    method Reconcile(input: ReconcileInput, fault: bool) returns (r: Result<ReconcileReply, BudgetError>)
      modifies this
      ensures (r, Tables()) == ReconcileTx(old(Tables()), input, fault)
    {
      hide FindById, Settle;
      var at := FindById(reservations, input.tenantId, input.reservationId);
      if at < 0 { return Err(ReservationNotFound); }
      var row := reservations[at];
      if row.state != Reserved {
        if row.receiptId == Some(input.receiptId) && row.actual == Some(input.actual) {
          return Ok(AlreadySettled(row));
        }
        return Err(ReconciliationConflict);
      }
      var outcome := ReconcileBudget(row.reserved, input.actual);
      if outcome.None? { return Err(AmountRejected); }
      var begin := (limits, reservations, ledger);
      for i := 0 to |row.allocations|
        invariant limits == SettleAll(begin.0, row.allocations[..i], input.actual)
        invariant reservations == begin.1 && ledger == begin.2
      {
        assert row.allocations[..i + 1][..i] == row.allocations[..i];
        limits := Settle(limits, row.allocations[i], input.actual);
      }
      assert row.allocations[..|row.allocations|] == row.allocations;
      reservations := reservations[at := SettledRow(row, input)];
      ledger := ledger + [SettledLedger(row, input)];
      if fault {
        limits, reservations, ledger := begin.0, begin.1, begin.2;
        return Err(StatementFailed);
      }
      return Ok(outcome.value);
    }
  }
}
