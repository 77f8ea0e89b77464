/**
 * Conservation of budget money over every run of reservations and settlements, in any order and
 * with any failures.
 */
module BudgetConservation {
  import opened Results
  import opened Budget
  import opened Distinctness

  // ----- totals recomputed from the reservations -----

  /** What is totalled: amounts held, amounts spent, and spending beyond what was held. */
  datatype Measure = Held | Spent | Over

  function AllocationAmount(m: Measure, a: Allocation, b: BudgetKey, actual: int): int {
    if a.budget != b then 0
    else
      match m
      case Held => a.reserved
      case Spent => actual
      case Over => Max(0, actual - a.reserved)
  }

  function AllocTotal(m: Measure, allocations: seq<Allocation>, b: BudgetKey, actual: int): int {
    if allocations == [] then 0
    else
      AllocTotal(m, allocations[..|allocations| - 1], b, actual) +
      AllocationAmount(m, allocations[|allocations| - 1], b, actual)
  }

  function RowAmount(m: Measure, row: Reservation, b: BudgetKey): int {
    if m == Held then (if row.state == Reserved then AllocTotal(Held, row.allocations, b, 0) else 0)
    else if row.state == Reserved || row.actual.None? then 0
    else AllocTotal(m, row.allocations, b, row.actual.value)
  }

  /** The total over all reservations for one budget. */
  function Total(m: Measure, rows: seq<Reservation>, b: BudgetKey): int {
    if rows == [] then 0 else Total(m, rows[..|rows| - 1], b) + RowAmount(m, rows[|rows| - 1], b)
  }

  // ----- the invariant -----

  ghost predicate ValidReservation(row: Reservation, limits: map<BudgetKey, LimitRow>) {
    && row.reserved >= 0
    && (row.state == Reserved <==> row.actual.None?) && (row.actual.None? <==> row.receiptId.None?)
    && (row.actual.Some? ==> row.actual.value >= 0)
    && (forall i :: 0 <= i < |row.allocations| ==>
          row.allocations[i].budget in limits && row.allocations[i].budget.tenantId == row.tenantId &&
          row.allocations[i].reserved == row.reserved)
    && (forall i, j :: 0 <= i < j < |row.allocations| ==> row.allocations[i].budget != row.allocations[j].budget)
  }

  ghost predicate Valid(s: Store) {
    && (forall b :: b in s.limits ==> s.limits[b].scopeType == b.scope.scopeType && s.limits[b].limit >= 0)
    && (forall i :: 0 <= i < |s.reservations| ==> ValidReservation(s.reservations[i], s.limits))
    && (forall i, j :: 0 <= i < j < |s.reservations| ==>
          s.reservations[i].tenantId != s.reservations[j].tenantId ||
          (s.reservations[i].idempotencyKey != s.reservations[j].idempotencyKey &&
           s.reservations[i].reservationId != s.reservations[j].reservationId))
  }

  /** One budget row agrees with the reservations and keeps its bounds. */
  ghost predicate RowBalanced(r: LimitRow, rows: seq<Reservation>, b: BudgetKey) {
    && r.reserved == Total(Held, rows, b) && r.reserved >= 0
    && r.committed == Total(Spent, rows, b) && r.committed >= 0
    && (r.blocked || r.committed + r.reserved <= r.limit)
    && r.committed + r.reserved <= r.limit + Total(Over, rows, b)
  }

  ghost predicate Balanced(s: Store) {
    forall b :: b in s.limits ==> RowBalanced(s.limits[b], s.reservations, b)
  }

  function EntriesOf(ledger: seq<LedgerEntry>, tenantId: string, id: string): seq<LedgerEntry> {
    if ledger == [] then []
    else
      var n := |ledger| - 1;
      EntriesOf(ledger[..n], tenantId, id) +
      (if ledger[n].tenantId == tenantId && ledger[n].reservationId == id then [ledger[n]] else [])
  }

  /** The ledger that a reservation's life so far calls for: one entry, and one more once settled. */
  function ExpectedEntries(row: Reservation): seq<LedgerEntry> {
    var opening := LedgerEntry(row.tenantId, row.reservationId, ReservedEntry, row.reserved, row.currency, None);
    if row.state == Reserved || row.actual.None? then [opening]
    else
      [opening, LedgerEntry(row.tenantId, row.reservationId,
                            if row.state == Committed then CommittedEntry else OverageEntry,
                            row.actual.value, row.currency, row.receiptId)]
  }

  ghost predicate Booked(s: Store) {
    && (forall i :: 0 <= i < |s.reservations| ==>
          EntriesOf(s.ledger, s.reservations[i].tenantId, s.reservations[i].reservationId) ==
          ExpectedEntries(s.reservations[i]))
    && (forall i :: 0 <= i < |s.ledger| ==>
          FindById(s.reservations, s.ledger[i].tenantId, s.ledger[i].reservationId) >= 0)
  }

  ghost predicate Invariant(s: Store) { Valid(s) && Balanced(s) && Booked(s) }

  /** Budgets as an administrator sets them up: nothing held or spent. */
  ghost predicate Opening(s: Store) {
    && s.reservations == [] && s.ledger == []
    && forall b :: b in s.limits ==>
         s.limits[b].scopeType == b.scope.scopeType && s.limits[b].limit >= 0 &&
         s.limits[b].committed == 0 && s.limits[b].reserved == 0
  }

  // ----- arithmetic of the totals -----

  lemma {:induction false} TotalUpdate(m: Measure, rows: seq<Reservation>, i: nat, row: Reservation, b: BudgetKey)
    requires i < |rows|
    ensures Total(m, rows[i := row], b) == Total(m, rows, b) - RowAmount(m, rows[i], b) + RowAmount(m, row, b)
    decreases |rows|
  {
    hide RowAmount;
    var n := |rows| - 1;
    if i == n {
      assert rows[i := row][..n] == rows[..n];
    } else {
      assert rows[i := row][..n] == rows[..n][i := row];
      TotalUpdate(m, rows[..n], i, row, b);
    }
  }

  lemma {:induction false} TotalAppend(m: Measure, rows: seq<Reservation>, row: Reservation, b: BudgetKey)
    ensures Total(m, rows + [row], b) == Total(m, rows, b) + RowAmount(m, row, b)
  {
    hide RowAmount;
    assert (rows + [row])[..|rows|] == rows;
  }

  lemma {:induction false} AllocTotalNonNegative(m: Measure, allocations: seq<Allocation>, b: BudgetKey, actual: int)
    requires actual >= 0 && forall i :: 0 <= i < |allocations| ==> allocations[i].reserved >= 0
    ensures AllocTotal(m, allocations, b, actual) >= 0
    decreases |allocations|
  {
    if allocations != [] { AllocTotalNonNegative(m, allocations[..|allocations| - 1], b, actual); }
  }

  lemma {:induction false} TotalNonNegative(
    m: Measure, rows: seq<Reservation>, limits: map<BudgetKey, LimitRow>, b: BudgetKey)
    requires forall i :: 0 <= i < |rows| ==> ValidReservation(rows[i], limits)
    ensures Total(m, rows, b) >= 0
    decreases |rows|
  {
    if rows != [] {
      var row := rows[|rows| - 1];
      assert ValidReservation(row, limits);
      TotalNonNegative(m, rows[..|rows| - 1], limits, b);
      AllocTotalNonNegative(m, row.allocations, b, if m == Held || row.actual.None? then 0 else row.actual.value);
    }
  }

  // ----- reserving -----

  /** Everything of a row but the amount held and the version. */
  predicate SameLimit(r: LimitRow, q: LimitRow) {
    r.scopeType == q.scopeType && r.limit == q.limit && r.currency == q.currency
  }

  lemma {:induction false} HoldAllEffect(
    limits: map<BudgetKey, LimitRow>, found: seq<BudgetKey>, amount: int, b: BudgetKey)
    requires b in limits
    ensures HoldAll(limits, found, amount).Keys == limits.Keys
    ensures var r, q := limits[b], HoldAll(limits, found, amount)[b];
            && SameLimit(r, q) && q.committed == r.committed && q.blocked == r.blocked
            && q.reserved == r.reserved + AllocTotal(Held, AllocationsFor(found, amount), b, 0)
    decreases |found|
  {
    if found != [] {
      var n := |found| - 1;
      HoldAllEffect(limits, found[..n], amount, b);
      assert AllocationsFor(found, amount)[..n] == AllocationsFor(found[..n], amount);
    }
  }

  lemma {:induction false} HoldAllVersion(
    limits: map<BudgetKey, LimitRow>, found: seq<BudgetKey>, amount: int, b: BudgetKey)
    requires b in limits && Distinct(found)
    ensures HoldAll(limits, found, amount).Keys == limits.Keys
    ensures HoldAll(limits, found, amount)[b].version == limits[b].version + (if b in found then 1 else 0)
    decreases |found|
  {
    if found != [] {
      var n := |found| - 1;
      DistinctByLast(found);
      HoldAllVersion(limits, found[..n], amount, b);
      assert found == found[..n] + [found[n]];
    }
  }

  /** A budget named once is held once, and a budget not named is not touched. */
  lemma {:induction false} AllocTotalOfDistinct(found: seq<BudgetKey>, amount: int, b: BudgetKey)
    requires Distinct(found)
    ensures AllocTotal(Held, AllocationsFor(found, amount), b, 0) == if b in found then amount else 0
    decreases |found|
  {
    if found != [] {
      var n := |found| - 1;
      assert AllocationsFor(found, amount)[..n] == AllocationsFor(found[..n], amount);
      assert found == found[..n] + [found[n]];
      AllocTotalOfDistinct(found[..n], amount, b);
    }
  }

  lemma {:induction false} ScopeTypesStep(rows: seq<LimitRow>)
    requires rows != []
    ensures var n := |rows| - 1; ScopeTypes(rows) == ScopeTypes(rows[..n]) + {rows[n].scopeType}
    ensures var n := |rows| - 1;
            rows[n].scopeType in ScopeTypes(rows[..n]) <==>
              exists i :: 0 <= i < n && rows[i].scopeType == rows[n].scopeType
  {
    var n := |rows| - 1;
    assert rows == rows[..n] + [rows[n]];
    assert forall i :: 0 <= i < n ==> rows[..n][i] == rows[i];
  }

  predicate TypesDistinct(rows: seq<LimitRow>) {
    forall i, j :: 0 <= i < j < |rows| ==> rows[i].scopeType != rows[j].scopeType
  }

  lemma {:induction false} TypesDistinctStep(rows: seq<LimitRow>)
    requires rows != []
    ensures var n := |rows| - 1;
            TypesDistinct(rows) <==>
            TypesDistinct(rows[..n]) && forall i :: 0 <= i < n ==> rows[i].scopeType != rows[n].scopeType
  {
    var n := |rows| - 1;
    assert forall i :: 0 <= i < n ==> rows[..n][i] == rows[i];
  }

  /** As many scope types as rows exactly when no two rows share one. */
  lemma {:induction false} TypesDistinctExactly(rows: seq<LimitRow>)
    ensures |ScopeTypes(rows)| <= |rows|
    ensures |ScopeTypes(rows)| == |rows| <==> TypesDistinct(rows)
    decreases |rows|
  {
    if rows != [] {
      var n := |rows| - 1;
      ScopeTypesStep(rows);
      TypesDistinctStep(rows);
      TypesDistinctExactly(rows[..n]);
      hide ScopeTypes, TypesDistinct;
      if rows[n].scopeType in ScopeTypes(rows[..n]) {
        assert ScopeTypes(rows) == ScopeTypes(rows[..n]);
      }
    }
  }

  lemma {:induction false} RowReasonCounts(currency: string, estimated: int, rows: seq<LimitRow>, i: nat)
    requires i < |rows|
    ensures RowReasons(currency, estimated, rows[i]) <= RowsReasons(currency, estimated, rows)
    decreases |rows|
  {
    hide RowReasons;
    if i < |rows| - 1 { RowReasonCounts(currency, estimated, rows[..|rows| - 1], i); }
  }

  lemma {:induction false} NoRowReason(currency: string, estimated: int, rows: seq<LimitRow>)
    requires forall i :: 0 <= i < |rows| ==> RowReasons(currency, estimated, rows[i]) == {}
    ensures RowsReasons(currency, estimated, rows) == {}
    decreases |rows|
  {
    hide RowReasons;
    if rows != [] { NoRowReason(currency, estimated, rows[..|rows| - 1]); }
  }

  predicate RowAdmits(currency: string, estimated: int, r: LimitRow) {
    && r.currency == currency && !r.blocked && r.limit >= 0 && r.committed >= 0 && r.reserved >= 0
    && r.committed + r.reserved <= r.limit && r.committed + r.reserved + estimated <= r.limit
  }

  /**
   * The decision, exactly: a request is admitted when its amount is well formed, it names one to
   * five rows of different scope types, and every row is open, in its currency and has room.
   */
  lemma {:induction false} AdmittedExactly(currency: string, estimated: int, rows: seq<LimitRow>)
    ensures ReasonsFor(currency, estimated, rows) == {} <==>
            && ValidCurrency(currency) && estimated >= 0 && 1 <= |rows| <= 5
            && TypesDistinct(rows)
            && (forall i :: 0 <= i < |rows| ==> RowAdmits(currency, estimated, rows[i]))
  {
    hide RowReasons, RowAdmits, RowsReasons, ValidCurrency, TypesDistinct, ScopeTypes;
    TypesDistinctExactly(rows);
    forall i | 0 <= i < |rows|
      ensures RowReasons(currency, estimated, rows[i]) <= RowsReasons(currency, estimated, rows)
      ensures RowReasons(currency, estimated, rows[i]) == {} <==> RowAdmits(currency, estimated, rows[i])
    {
      RowReasonCounts(currency, estimated, rows, i);
      RowReasonsEmpty(currency, estimated, rows[i]);
    }
    if forall i :: 0 <= i < |rows| ==> RowReasons(currency, estimated, rows[i]) == {} {
      NoRowReason(currency, estimated, rows);
    }
    RequestReasonsEmpty(currency, estimated, rows);
  }

  lemma {:induction false} RowReasonsEmpty(currency: string, estimated: int, r: LimitRow)
    ensures RowReasons(currency, estimated, r) == {} <==> RowAdmits(currency, estimated, r)
  {
    var all := RowReasons(currency, estimated, r);
    assert r.currency != currency ==> CurrencyConflict in all;
    assert r.blocked ==> Blocked in all;
    assert RowInvalid(r) ==> StateInvalid in all;
    assert !RowInvalid(r) && r.limit - r.committed - r.reserved < estimated ==> Insufficient in all;
  }

  lemma {:induction false} RequestReasonsEmpty(currency: string, estimated: int, rows: seq<LimitRow>)
    ensures RequestReasons(currency, estimated, rows) == {} <==>
            ValidCurrency(currency) && estimated >= 0 && 1 <= |rows| <= 5 && |ScopeTypes(rows)| == |rows|
  {
    hide ValidCurrency, ScopeTypes;
    var all := RequestReasons(currency, estimated, rows);
    assert !ValidCurrency(currency) || estimated < 0 ==> AmountInvalid in all;
    assert |rows| < 1 || |rows| > 5 ==> ScopeInvalid in all;
    assert |ScopeTypes(rows)| != |rows| ==> ScopeConflict in all;
  }

  lemma {:induction false} JoinComplete(limits: map<BudgetKey, LimitRow>, tenantId: string, keys: seq<ScopeKey>)
    ensures |Join(limits, tenantId, keys)| == |keys| <==>
            forall i :: 0 <= i < |keys| ==> BudgetKey(tenantId, keys[i]) in limits
    ensures |Join(limits, tenantId, keys)| == |keys| ==>
              forall i :: 0 <= i < |keys| ==> Join(limits, tenantId, keys)[i] == BudgetKey(tenantId, keys[i])
    decreases |keys|
  {
    if keys != [] {
      JoinComplete(limits, tenantId, keys[1..]);
      JoinFirst(limits, tenantId, keys);
      hide Join;
      assert forall i :: 1 <= i < |keys| ==> keys[1..][i - 1] == keys[i];
    }
  }

  lemma {:induction false} JoinFirst(limits: map<BudgetKey, LimitRow>, tenantId: string, keys: seq<ScopeKey>)
    requires keys != []
    ensures var b, rest := BudgetKey(tenantId, keys[0]), Join(limits, tenantId, keys[1..]);
            Join(limits, tenantId, keys) == (if b in limits then [b] + rest else rest) && |rest| <= |keys| - 1
  {
  }

  /** What an admission guarantees about the rows it is about to hold. */
  lemma {:induction false} AdmittedRows(s: Store, input: ReserveInput)
    requires Valid(s) && Refusals(s, input) == {}
    ensures var found := Join(s.limits, input.tenantId, input.scopeKeys);
            && Distinct(found) && input.estimated >= 0 && |found| == |input.scopeKeys|
            && forall b :: b in found ==> b in s.limits && RowAdmits(input.currency, input.estimated, s.limits[b])
  {
    hide ReasonsFor, RowAdmits, Valid, Distinct, TypesDistinct;
    var found := Join(s.limits, input.tenantId, input.scopeKeys);
    AdmittedExactly(input.currency, input.estimated, RowsOf(s.limits, found));
    DifferentRows(s.limits, found);
  }

  lemma {:induction false} DifferentRows(limits: map<BudgetKey, LimitRow>, found: seq<BudgetKey>)
    requires (forall b :: b in found ==> b in limits) && TypesDistinct(RowsOf(limits, found))
    ensures Distinct(found)
  {
    var rows := RowsOf(limits, found);
    forall i, j | 0 <= i < j < |found| ensures found[i] != found[j] {
      assert rows[i].scopeType != rows[j].scopeType;
    }
  }

  /** A fresh reservation, as a new row. */
  lemma {:induction false} NewRowIsValid(s: Store, input: ReserveInput, found: seq<BudgetKey>)
    requires Distinct(found) && input.estimated >= 0
    requires forall b :: b in found ==> b in s.limits && b.tenantId == input.tenantId
    ensures ValidReservation(NewReservation(input, found), s.limits)
  {
  }

  lemma {:induction false} ReserveKeepsValid(s: Store, input: ReserveInput, fault: bool)
    requires Valid(s)
    ensures Valid(ReserveTx(s, input, fault).1)
    ensures ReserveTx(s, input, fault).1.limits.Keys == s.limits.Keys
  {
    hide Refusals, ValidReservation, HoldAll, Join, RowAdmits, Distinct;
    var (r, after) := ReserveTx(s, input, fault);
    if r.Ok? && r.value.Fresh? {
      var found := Join(s.limits, input.tenantId, input.scopeKeys);
      AdmittedRows(s, input);
      NewRowIsValid(s, input, found);
      HoldAllKeys(s.limits, found, input.estimated);
      forall i | 0 <= i < |after.reservations| ensures ValidReservation(after.reservations[i], after.limits) {
        var row := if i < |s.reservations| then s.reservations[i] else NewReservation(input, found);
        ValidOnSameKeys(row, s.limits, after.limits);
      }
      forall b | b in after.limits
        ensures after.limits[b].scopeType == b.scope.scopeType && after.limits[b].limit >= 0
      {
        HoldAllEffect(s.limits, found, input.estimated, b);
      }
    }
  }

  lemma {:induction false} HoldAllKeys(limits: map<BudgetKey, LimitRow>, found: seq<BudgetKey>, amount: int)
    ensures HoldAll(limits, found, amount).Keys == limits.Keys
    decreases |found|
  {
    if found != [] { HoldAllKeys(limits, found[..|found| - 1], amount); }
  }

  lemma {:induction false} ValidOnSameKeys(row: Reservation, a: map<BudgetKey, LimitRow>, b: map<BudgetKey, LimitRow>)
    requires ValidReservation(row, a) && a.Keys == b.Keys
    ensures ValidReservation(row, b)
  {
    assert forall k :: k in a ==> k in a.Keys && k in b;
  }

  /**
   * A fresh reservation holds its estimate once in every budget it names, and leaves each of them
   * open and within its limit; it touches no other budget. Any other outcome changes nothing.
   */
  lemma {:induction false} ReserveEffect(s: Store, input: ReserveInput, fault: bool, b: BudgetKey)
    requires Valid(s) && b in s.limits
    ensures var (r, after) := ReserveTx(s, input, fault);
            if r.Ok? && r.value.Fresh? then
              && b in after.limits && SameLimit(s.limits[b], after.limits[b])
              && after.limits[b].committed == s.limits[b].committed && after.limits[b].blocked == s.limits[b].blocked
              && after.limits[b].reserved ==
                   s.limits[b].reserved +
                   (if b.tenantId == input.tenantId && b.scope in input.scopeKeys then input.estimated else 0)
              && after.limits[b].version ==
                   s.limits[b].version + (if b.tenantId == input.tenantId && b.scope in input.scopeKeys then 1 else 0)
              && (b.tenantId == input.tenantId && b.scope in input.scopeKeys ==>
                    !after.limits[b].blocked &&
                      after.limits[b].committed + after.limits[b].reserved <= after.limits[b].limit)
            else after == s
  {
    hide Refusals;
    var (r, after) := ReserveTx(s, input, fault);
    if r.Ok? && r.value.Fresh? {
      var found := Join(s.limits, input.tenantId, input.scopeKeys);
      AdmittedRows(s, input);
      HoldAllEffect(s.limits, found, input.estimated, b);
      AllocTotalOfDistinct(found, input.estimated, b);
      HoldAllVersion(s.limits, found, input.estimated, b);
      JoinComplete(s.limits, input.tenantId, input.scopeKeys);
      assert b in found <==> b.tenantId == input.tenantId && b.scope in input.scopeKeys by {
        if b.tenantId == input.tenantId && b.scope in input.scopeKeys {
          var i :| 0 <= i < |input.scopeKeys| && input.scopeKeys[i] == b.scope;
          assert found[i] == b;
        }
      }
    }
  }

  lemma {:induction false} ReserveKeepsBalanced(s: Store, input: ReserveInput, fault: bool)
    requires Valid(s) && Balanced(s)
    ensures Balanced(ReserveTx(s, input, fault).1)
  {
    hide Refusals, ReserveTx, ValidReservation;
    var after := ReserveTx(s, input, fault).1;
    ReserveKeepsValid(s, input, fault);
    forall b | b in after.limits ensures RowBalanced(after.limits[b], after.reservations, b) {
      ReserveBalancesRow(s, input, fault, b);
    }
  }

  lemma {:induction false} ReserveBalancesRow(s: Store, input: ReserveInput, fault: bool, b: BudgetKey)
    requires Valid(s) && b in s.limits && RowBalanced(s.limits[b], s.reservations, b)
    ensures b in ReserveTx(s, input, fault).1.limits
    ensures RowBalanced(ReserveTx(s, input, fault).1.limits[b], ReserveTx(s, input, fault).1.reservations, b)
  {
    hide Refusals, Total, HoldAll, AllocTotal, Join, AllocationsFor, ValidReservation, FindByKey, FindById,
         RowAdmits, Distinct;
    var (r, after) := ReserveTx(s, input, fault);
    ReserveEffect(s, input, fault, b);
    if r.Ok? && r.value.Fresh? {
      var found := Join(s.limits, input.tenantId, input.scopeKeys);
      var row := NewReservation(input, found);
      TotalAppend(Held, s.reservations, row, b);
      TotalAppend(Spent, s.reservations, row, b);
      TotalAppend(Over, s.reservations, row, b);
      HoldAllEffect(s.limits, found, input.estimated, b);
      AdmittedRows(s, input);
      AllocTotalOfDistinct(found, input.estimated, b);
      TotalNonNegative(Over, s.reservations, s.limits, b);
    }
  }
}
