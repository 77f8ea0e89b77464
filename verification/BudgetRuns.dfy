/** Settlement, the ledger, and the invariant over every run of transactions. */
module BudgetRuns {
  import opened Results
  import opened Budget
  import opened BudgetConservation

  // ----- settling -----

  /** What settling the allocations does to one row. */
  lemma {:induction false} SettleAllEffect(
    limits: map<BudgetKey, LimitRow>, allocations: seq<Allocation>, actual: int, b: BudgetKey)
    requires b in limits
    ensures SettleAll(limits, allocations, actual).Keys == limits.Keys
    ensures var r, q := limits[b], SettleAll(limits, allocations, actual)[b];
            && SameLimit(r, q)
            && q.reserved == r.reserved - AllocTotal(Held, allocations, b, 0)
            && q.committed == r.committed + AllocTotal(Spent, allocations, b, actual)
            && q.committed + q.reserved <= r.committed + r.reserved + AllocTotal(Over, allocations, b, actual)
            && (r.blocked ==> q.blocked)
            && (r.blocked || r.committed + r.reserved <= r.limit ==> q.blocked || q.committed + q.reserved <= q.limit)
    decreases |allocations|
  {
    if allocations != [] {
      SettleAllEffect(limits, allocations[..|allocations| - 1], actual, b);
    }
  }

  lemma {:induction false} SettleAllKeys(limits: map<BudgetKey, LimitRow>, allocations: seq<Allocation>, actual: int)
    ensures SettleAll(limits, allocations, actual).Keys == limits.Keys
    decreases |allocations|
  {
    if allocations != [] { SettleAllKeys(limits, allocations[..|allocations| - 1], actual); }
  }

  /** The row that a settlement finds and changes. */
  predicate Settles(s: Store, input: ReconcileInput, fault: bool) {
    var r := ReconcileTx(s, input, fault).0;
    r.Ok? && r.value.Settled?
  }

  lemma {:induction false} SettledRowIsValid(row: Reservation, input: ReconcileInput, limits: map<BudgetKey, LimitRow>)
    requires ValidReservation(row, limits) && input.actual >= 0
    ensures ValidReservation(SettledRow(row, input), limits)
  {
  }

  lemma {:induction false} ReconcileKeepsValid(s: Store, input: ReconcileInput, fault: bool)
    requires Valid(s)
    ensures Valid(ReconcileTx(s, input, fault).1)
    ensures ReconcileTx(s, input, fault).1.limits.Keys == s.limits.Keys
  {
    hide ValidReservation, SettleAll;
    var after := ReconcileTx(s, input, fault).1;
    if Settles(s, input, fault) {
      var at := FindById(s.reservations, input.tenantId, input.reservationId);
      var row := s.reservations[at];
      SettleAllKeys(s.limits, row.allocations, input.actual);
      SettledRowIsValid(row, input, s.limits);
      forall i | 0 <= i < |after.reservations| ensures ValidReservation(after.reservations[i], after.limits) {
        ValidOnSameKeys(if i == at then SettledRow(row, input) else s.reservations[i], s.limits, after.limits);
      }
      forall b | b in after.limits
        ensures after.limits[b].scopeType == b.scope.scopeType && after.limits[b].limit >= 0
      {
        SettleAllEffect(s.limits, row.allocations, input.actual, b);
      }
    }
  }

  /** What settling allocations to different budgets does to one of them: it is blocked when it ends over its limit. */
  lemma {:induction false} SettleAllBlocks(
    limits: map<BudgetKey, LimitRow>, allocations: seq<Allocation>, actual: int, b: BudgetKey)
    requires b in limits
    requires forall i, j :: 0 <= i < j < |allocations| ==> allocations[i].budget != allocations[j].budget
    ensures SettleAll(limits, allocations, actual).Keys == limits.Keys
    ensures var r, q := limits[b], SettleAll(limits, allocations, actual)[b];
            if exists i :: 0 <= i < |allocations| && allocations[i].budget == b then
              (q.blocked <==> r.blocked || q.committed + q.reserved > q.limit) && q.version == r.version + 1
            else q == r
    decreases |allocations|
  {
    if allocations != [] {
      var n := |allocations| - 1;
      SettleAllBlocks(limits, allocations[..n], actual, b);
      SettleAllKeys(limits, allocations[..n], actual);
      assert forall i :: 0 <= i < n ==> allocations[..n][i] == allocations[i];
      if allocations[n].budget == b {
        assert SettleAll(limits, allocations[..n], actual)[b] == limits[b];
      }
    }
  }

  /**
   * Settling moves, in each budget the reservation was allocated to, the held amount out and the
   * actual amount into the committed one. It blocks exactly those of them that it leaves over their
   * limit; a blocked budget stays blocked, and no other budget changes.
   */
  lemma {:induction false} ReconcileEffect(s: Store, input: ReconcileInput, fault: bool, b: BudgetKey)
    requires Valid(s) && b in s.limits
    ensures var after := ReconcileTx(s, input, fault).1;
            if Settles(s, input, fault) then
              var row := s.reservations[FindById(s.reservations, input.tenantId, input.reservationId)];
              var named := exists i :: 0 <= i < |row.allocations| && row.allocations[i].budget == b;
              && b in after.limits && SameLimit(s.limits[b], after.limits[b])
              && after.limits[b].reserved == s.limits[b].reserved - (if named then row.reserved else 0)
              && after.limits[b].committed == s.limits[b].committed + (if named then input.actual else 0)
              && (after.limits[b].blocked <==>
                    s.limits[b].blocked ||
                    (named && after.limits[b].committed + after.limits[b].reserved > after.limits[b].limit))
              && after.limits[b].version == s.limits[b].version + (if named then 1 else 0)
            else after == s
  {
    if Settles(s, input, fault) {
      var row := s.reservations[FindById(s.reservations, input.tenantId, input.reservationId)];
      SettleAllEffect(s.limits, row.allocations, input.actual, b);
      assert ValidReservation(row, s.limits);
      SettleAllBlocks(s.limits, row.allocations, input.actual, b);
      AllocTotalOfRow(Held, row.allocations, row.reserved, b, 0);
      AllocTotalOfRow(Spent, row.allocations, row.reserved, b, input.actual);
    }
  }

  lemma {:induction false} AllocTotalOfRow(
    m: Measure, allocations: seq<Allocation>, reserved: int, b: BudgetKey, actual: int)
    requires forall i :: 0 <= i < |allocations| ==> allocations[i].reserved == reserved
    requires forall i, j :: 0 <= i < j < |allocations| ==> allocations[i].budget != allocations[j].budget
    ensures AllocTotal(m, allocations, b, actual) ==
            if exists i :: 0 <= i < |allocations| && allocations[i].budget == b
            then AllocationAmount(m, Allocation(b, reserved), b, actual) else 0
    decreases |allocations|
  {
    if allocations != [] {
      var n := |allocations| - 1;
      AllocTotalOfRow(m, allocations[..n], reserved, b, actual);
      assert forall i :: 0 <= i < n ==> allocations[..n][i] == allocations[i];
    }
  }

  lemma {:induction false} ReconcileBalancesRow(s: Store, input: ReconcileInput, b: BudgetKey, at: nat)
    requires at < |s.reservations| && s.reservations[at].state == Reserved && input.actual >= 0
    requires b in s.limits && RowBalanced(s.limits[b], s.reservations, b)
    requires forall i :: 0 <= i < |s.reservations| ==> ValidReservation(s.reservations[i], s.limits)
    ensures var row := s.reservations[at];
            var limits := SettleAll(s.limits, row.allocations, input.actual);
            b in limits && RowBalanced(limits[b], s.reservations[at := SettledRow(row, input)], b)
  {
    hide Total, SettleAll, AllocTotal;
    var row := s.reservations[at];
    var settled := SettledRow(row, input);
    SettleAllEffect(s.limits, row.allocations, input.actual, b);
    TotalUpdate(Held, s.reservations, at, settled, b);
    TotalUpdate(Spent, s.reservations, at, settled, b);
    TotalUpdate(Over, s.reservations, at, settled, b);
    SettledRowIsValid(row, input, s.limits);
    var rows := s.reservations[at := settled];
    assert forall i :: 0 <= i < |rows| ==> ValidReservation(rows[i], s.limits);
    TotalNonNegative(Held, rows, s.limits, b);
    TotalNonNegative(Spent, rows, s.limits, b);
  }

  lemma {:induction false} ReconcileKeepsBalanced(s: Store, input: ReconcileInput, fault: bool)
    requires Valid(s) && Balanced(s)
    ensures Balanced(ReconcileTx(s, input, fault).1)
  {
    hide ValidReservation, RowBalanced, SettleAll;
    if Settles(s, input, fault) {
      var at := FindById(s.reservations, input.tenantId, input.reservationId);
      var after := ReconcileTx(s, input, fault).1;
      SettleAllKeys(s.limits, s.reservations[at].allocations, input.actual);
      forall b | b in after.limits ensures RowBalanced(after.limits[b], after.reservations, b) {
        assert b in s.limits.Keys;
        ReconcileBalancesRow(s, input, b, at);
      }
    }
  }

  // ----- the ledger -----

  lemma {:induction false} FindByIdUnique(rows: seq<Reservation>, i: nat)
    requires i < |rows|
    requires forall j, k :: 0 <= j < k < |rows| ==>
               rows[j].tenantId != rows[k].tenantId || rows[j].reservationId != rows[k].reservationId
    ensures FindById(rows, rows[i].tenantId, rows[i].reservationId) == i
  {
  }

  lemma {:induction false} EntriesAppend(ledger: seq<LedgerEntry>, e: LedgerEntry, tenantId: string, id: string)
    ensures EntriesOf(ledger + [e], tenantId, id) ==
            EntriesOf(ledger, tenantId, id) + (if e.tenantId == tenantId && e.reservationId == id then [e] else [])
  {
    assert (ledger + [e])[..|ledger|] == ledger;
  }

  lemma {:induction false} NoEntriesWithoutRow(ledger: seq<LedgerEntry>, tenantId: string, id: string)
    requires forall i :: 0 <= i < |ledger| ==> ledger[i].tenantId != tenantId || ledger[i].reservationId != id
    ensures EntriesOf(ledger, tenantId, id) == []
    decreases |ledger|
  {
    if ledger != [] { NoEntriesWithoutRow(ledger[..|ledger| - 1], tenantId, id); }
  }

  predicate IdsUnique(rows: seq<Reservation>) {
    forall j, k :: 0 <= j < k < |rows| ==>
      rows[j].tenantId != rows[k].tenantId || rows[j].reservationId != rows[k].reservationId
  }

  lemma {:induction false} BookNewRow(rows: seq<Reservation>, row: Reservation, ledger: seq<LedgerEntry>, s: Store)
    requires s == Store(s.limits, rows, ledger) && Booked(s)
    requires IdsUnique(rows + [row]) && FindById(rows, row.tenantId, row.reservationId) < 0
    requires ExpectedEntries(row) == [ExpectedEntries(row)[0]]
    ensures Booked(Store(s.limits, rows + [row], ledger + ExpectedEntries(row)))
  {
    hide FindById, EntriesOf;
    var e := ExpectedEntries(row)[0];
    var all := rows + [row];
    forall i | 0 <= i < |all|
      ensures EntriesOf(ledger + [e], all[i].tenantId, all[i].reservationId) == ExpectedEntries(all[i])
    {
      EntriesAppend(ledger, e, all[i].tenantId, all[i].reservationId);
      if i < |rows| {
        assert all[i] == rows[i] && all[|rows|] == row;
        assert EntriesOf(ledger, rows[i].tenantId, rows[i].reservationId) + [] == ExpectedEntries(rows[i]);
      } else {
        NoEntriesWithoutRow(ledger, row.tenantId, row.reservationId);
        assert [] + [e] == [e];
      }
    }
    forall i | 0 <= i < |ledger + [e]|
      ensures FindById(all, (ledger + [e])[i].tenantId, (ledger + [e])[i].reservationId) >= 0
    {
      var entry := (ledger + [e])[i];
      if i < |ledger| {
        var k := FindById(rows, entry.tenantId, entry.reservationId);
        assert all[k] == rows[k];
        FindByIdUnique(all, k);
      } else {
        assert all[|rows|] == row;
        FindByIdUnique(all, |rows|);
      }
    }
  }

  lemma {:induction false} BookSettlement(s: Store, at: nat, input: ReconcileInput)
    requires Booked(s) && IdsUnique(s.reservations) && at < |s.reservations| && input.actual >= 0
    requires s.reservations[at].state == Reserved
    requires s.reservations[at].tenantId == input.tenantId && s.reservations[at].reservationId == input.reservationId
    ensures var row := s.reservations[at];
            Booked(Store(s.limits, s.reservations[at := SettledRow(row, input)],
              s.ledger + [SettledLedger(row, input)]))
  {
    hide FindById, EntriesOf;
    var row := s.reservations[at];
    var e, rows := SettledLedger(row, input), s.reservations[at := SettledRow(row, input)];
    forall i | 0 <= i < |rows|
      ensures EntriesOf(s.ledger + [e], rows[i].tenantId, rows[i].reservationId) == ExpectedEntries(rows[i])
    {
      EntriesAppend(s.ledger, e, rows[i].tenantId, rows[i].reservationId);
      if i != at {
        assert rows[i] == s.reservations[i];
        assert e.tenantId != rows[i].tenantId || e.reservationId != rows[i].reservationId;
        assert ExpectedEntries(rows[i]) + [] == ExpectedEntries(rows[i]);
      }
    }
    assert IdsUnique(rows);
    forall i | 0 <= i < |s.ledger + [e]|
      ensures FindById(rows, (s.ledger + [e])[i].tenantId, (s.ledger + [e])[i].reservationId) >= 0
    {
      var entry := (s.ledger + [e])[i];
      var k := if i < |s.ledger| then FindById(s.reservations, entry.tenantId, entry.reservationId) else at;
      FindByIdUnique(rows, k);
    }
  }

  lemma {:induction false} ReserveKeepsBooked(s: Store, input: ReserveInput, fault: bool)
    requires Valid(s) && Booked(s)
    ensures Booked(ReserveTx(s, input, fault).1)
  {
    hide Refusals, ValidReservation, EntriesOf, HoldAll;
    var (r, after) := ReserveTx(s, input, fault);
    if r.Ok? && r.value.Fresh? {
      var row := NewReservation(input, Join(s.limits, input.tenantId, input.scopeKeys));
      ReserveKeepsValid(s, input, fault);
      assert IdsUnique(after.reservations);
      BookNewRow(s.reservations, row, s.ledger, s);
      BookedIgnoresLimits(Store(s.limits, after.reservations, after.ledger), after);
    }
  }

  lemma {:induction false} BookedIgnoresLimits(a: Store, b: Store)
    requires Booked(a) && a.reservations == b.reservations && a.ledger == b.ledger
    ensures Booked(b)
  {
  }

  lemma {:induction false} ReconcileKeepsBooked(s: Store, input: ReconcileInput, fault: bool)
    requires Valid(s) && Booked(s)
    ensures Booked(ReconcileTx(s, input, fault).1)
  {
    hide ValidReservation, EntriesOf, SettleAll;
    if Settles(s, input, fault) {
      var at := FindById(s.reservations, input.tenantId, input.reservationId);
      BookSettlement(s, at, input);
      var after := ReconcileTx(s, input, fault).1;
      BookedIgnoresLimits(Store(s.limits, after.reservations, after.ledger), after);
    }
  }

  // ----- whole runs -----

  datatype Op = ReserveOp(reserve: ReserveInput, fault: bool) | ReconcileOp(reconcile: ReconcileInput, fault: bool)

  function Apply(s: Store, op: Op): Store {
    match op
    case ReserveOp(input, fault) => ReserveTx(s, input, fault).1
    case ReconcileOp(input, fault) => ReconcileTx(s, input, fault).1
  }

  function Run(s: Store, ops: seq<Op>): Store {
    if ops == [] then s else Apply(Run(s, ops[..|ops| - 1]), ops[|ops| - 1])
  }

  lemma {:induction false} ApplyKeepsInvariant(s: Store, op: Op)
    requires Invariant(s)
    ensures Invariant(Apply(s, op)) && Apply(s, op).limits.Keys == s.limits.Keys
  {
    hide Valid, Balanced, Booked, ReserveTx, ReconcileTx;
    match op {
      case ReserveOp(input, fault) =>
        ReserveKeepsValid(s, input, fault);
        ReserveKeepsBalanced(s, input, fault);
        ReserveKeepsBooked(s, input, fault);
      case ReconcileOp(input, fault) =>
        ReconcileKeepsValid(s, input, fault);
        ReconcileKeepsBalanced(s, input, fault);
        ReconcileKeepsBooked(s, input, fault);
    }
  }

  lemma {:induction false} OpeningIsInvariant(s: Store)
    requires Opening(s)
    ensures Invariant(s)
  {
  }

  /**
   * Conservation: after any run from freshly opened budgets, every budget holds exactly what its
   * open reservations hold and has spent exactly what its settled ones cost; it is within its
   * limit unless blocked, and never beyond its limit by more than the recorded overages; and the
   * ledger has one entry for each reservation and one more exactly when it is settled.
   */
  lemma {:induction false} RunConserves(s: Store, ops: seq<Op>)
    requires Opening(s)
    ensures Invariant(Run(s, ops)) && Run(s, ops).limits.Keys == s.limits.Keys
    decreases |ops|
  {
    hide Invariant, Opening, Apply;
    if ops == [] {
      OpeningIsInvariant(s);
    } else {
      RunConserves(s, ops[..|ops| - 1]);
      ApplyKeepsInvariant(Run(s, ops[..|ops| - 1]), ops[|ops| - 1]);
    }
  }

  /** The row without what its settlement fills in. */
  function Opened(row: Reservation): Reservation { row.(state := Reserved, actual := None, receiptId := None) }

  lemma {:induction false} StepIsFinal(s: Store, op: Op, i: nat)
    requires i < |s.reservations|
    ensures i < |Apply(s, op).reservations|
    ensures s.reservations[i].state != Reserved ==> Apply(s, op).reservations[i] == s.reservations[i]
    ensures Opened(Apply(s, op).reservations[i]) == Opened(s.reservations[i])
  {
    hide Refusals, HoldAll, SettleAll, FindByKey;
  }

  /** Over every run: reservations are never forgotten, and a settled one never changes again. */
  lemma {:induction false} SettledIsFinal(s: Store, ops: seq<Op>, i: nat)
    requires i < |s.reservations|
    ensures i < |Run(s, ops).reservations|
    ensures s.reservations[i].state != Reserved ==> Run(s, ops).reservations[i] == s.reservations[i]
    ensures Opened(Run(s, ops).reservations[i]) == Opened(s.reservations[i])
    decreases |ops|
  {
    hide Apply, Opened;
    if ops != [] {
      SettledIsFinal(s, ops[..|ops| - 1], i);
      StepIsFinal(Run(s, ops[..|ops| - 1]), ops[|ops| - 1], i);
    }
  }

  lemma {:induction false} RunKeepsValid(s: Store, ops: seq<Op>)
    requires Valid(s)
    ensures Valid(Run(s, ops))
    decreases |ops|
  {
    hide Valid, ReserveTx, ReconcileTx;
    if ops != [] {
      var before := Run(s, ops[..|ops| - 1]);
      RunKeepsValid(s, ops[..|ops| - 1]);
      match ops[|ops| - 1] {
        case ReserveOp(input, fault) => ReserveKeepsValid(before, input, fault);
        case ReconcileOp(input, fault) => ReconcileKeepsValid(before, input, fault);
      }
    }
  }

  /** The row that a settlement leaves. */
  lemma {:induction false} SettlementLeaves(s: Store, input: ReconcileInput) returns (at: nat)
    requires Valid(s) && Settles(s, input, false)
    ensures var after := ReconcileTx(s, input, false).1;
            && at < |after.reservations| && after.reservations[at].state != Reserved
            && after.reservations[at].tenantId == input.tenantId &&
                 after.reservations[at].reservationId == input.reservationId
            && after.reservations[at].receiptId == Some(input.receiptId) &&
                 after.reservations[at].actual == Some(input.actual)
  {
    hide ValidReservation, SettleAll;
    at := FindById(s.reservations, input.tenantId, input.reservationId);
  }

  /**
   * Settling again, after any run in between: the same receipt and amount is answered with the stored
   * row, any other is a conflict, and neither changes anything.
   */
  lemma {:induction false} SettleAgain(
    s: Store, input: ReconcileInput, ops: seq<Op>, again: ReconcileInput, fault: bool)
    requires Valid(s) && Settles(s, input, false)
    requires again.tenantId == input.tenantId && again.reservationId == input.reservationId
    ensures var since := Run(ReconcileTx(s, input, false).1, ops);
            var (r, later) := ReconcileTx(since, again, fault);
            && later == since
            && (again.receiptId == input.receiptId && again.actual == input.actual <==>
                  r.Ok? && r.value.AlreadySettled?)
            && (again.receiptId != input.receiptId || again.actual != input.actual <==>
                  r == Err(ReconciliationConflict))
  {
    hide ValidReservation, SettleAll, Settles, Apply;
    var after := ReconcileTx(s, input, false).1;
    var at := SettlementLeaves(s, input);
    ReconcileKeepsValid(s, input, false);
    RunKeepsValid(after, ops);
    SettledIsFinal(after, ops, at);
    FindByIdUnique(Run(after, ops).reservations, at);
  }
}
