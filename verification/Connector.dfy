/**
 * Connector synchronization: the connection row with its lease, fencing token and cursor, the
 * transactions of the repository, the transitions of the domain, and the paged source.
 */
module Connector {
  import opened Results
  import opened Text
  import Base64Url
  import Utf8

  // ----- the source -----

  /** An item; `metadata` stands for everything hashed beside the three members of the key. */
  datatype Item = Item(externalId: string, externalVersion: string, checksum: Option<string>, metadata: string)

  /** The members that tell items of one connection apart. */
  type DedupeKey = (string, string, string)

  function KeyOf(i: Item): DedupeKey {
    (i.externalId, i.externalVersion, if i.checksum.Some? then i.checksum.value else "")
  }

  datatype Page = Page(items: seq<Item>, nextCursor: Option<string>, hasMore: bool)

  function CursorAt(offset: nat): (s: string)
    ensures s != ""
  {
    assert Utf8.Encode(Decimal(offset)) != [];
    Base64Url.Encode(Utf8.Encode(Decimal(offset)))
  }

  /** The offset a cursor stands for; an absent or empty cursor is the start, -1 is malformed. */
  function OffsetOf(cursor: Option<string>): (n: int)
    ensures n >= -1
  {
    if cursor.None? || cursor.value == "" then 0
    else
      match Base64Url.Decode(cursor.value)
      case None => -1
      case Some(bytes) =>
        match Utf8.Decode(Utf8.Ready, bytes)
        case None => -1
        case Some(step) => if step.decoder == Utf8.Ready then ParseDecimal(step.output) else -1
  }

  /** A cursor leads back to the offset it was made for. */
  lemma {:induction false} CursorRoundTrip(offset: nat)
    ensures OffsetOf(Some(CursorAt(offset))) == offset
  {
    hide Base64Url.Encode, Base64Url.Decode, Utf8.Encode, Utf8.Decode, ParseDecimal, Decimal;
    Base64Url.RoundTrip(Utf8.Encode(Decimal(offset)));
    Utf8.DecodeEncode(Decimal(offset));
    DecimalRoundTrip(offset);
  }

  /** listPage of the deterministic source; None is its error for a bad page size or cursor. */
  function ListPage(items: seq<Item>, cursor: Option<string>, pageSize: int): Option<Page> {
    var offset := OffsetOf(cursor);
    if pageSize < 1 || pageSize > 500 || offset < 0 || offset > |items| then None
    else
      var next := if offset + pageSize < |items| then offset + pageSize else |items|;
      Some(Page(items[offset..next], if next < |items| then Some(CursorAt(next)) else None, next < |items|))
  }

  // ----- the connection row -----

  datatype Mode = Pending | Ready | Syncing | Backoff | Paused | Revoked | DeadLetter

  datatype Connection = Connection(
    mode: Mode, cursor: Option<string>, cursorVersion: nat, fencingToken: nat, leaseOwner: Option<string>,
    leaseExpiresAt: Option<int>, attempt: nat, nextRetryAt: Option<int>, lastSyncAt: Option<int>,
    lastError: Option<string>, version: nat)

  const LEASE_MS: int := 300000

  datatype SyncError = LeaseDenied | FenceStale | CursorInvalid | TransitionDenied | DedupeConflict

  datatype PageInput = PageInput(
    executionId: string, fencingToken: nat, expectedCursorVersion: nat, nextCursor: Option<string>, hasMore: bool,
    items: seq<Item>, now: int)

  function Leased(c: Connection, executionId: string, now: int): Connection {
    c.(mode := Syncing, leaseOwner := Some(executionId), leaseExpiresAt := Some(now + LEASE_MS),
       fencingToken := c.fencingToken + 1, version := c.version + 1)
  }

  // ----- the repository -----

  predicate SqlMayAcquire(c: Connection, sourceActive: bool, now: int) {
    && c.mode in {Ready, Backoff} && (c.nextRetryAt.None? || c.nextRetryAt.value <= now)
    && (c.leaseExpiresAt.None? || c.leaseExpiresAt.value <= now) && sourceActive
  }

  function SqlAcquire(c: Connection, sourceActive: bool, executionId: string, now: int): Result<Connection, SyncError> {
    if SqlMayAcquire(c, sourceActive, now) then Ok(Leased(c, executionId, now)) else Err(LeaseDenied)
  }

  /** The dedupe table: each key with the item first seen under it. */
  type Table = map<DedupeKey, Item>

  /** The inserts of one page; None is a key already present with other metadata. */
  function Insert(table: Table, items: seq<Item>): Option<Table> {
    if items == [] then Some(table)
    else
      var n := |items| - 1;
      match Insert(table, items[..n])
      case None => None
      case Some(before) =>
        if KeyOf(items[n]) !in before then Some(before[KeyOf(items[n]) := items[n]])
        else if before[KeyOf(items[n])] == items[n] then Some(before)
        else None
  }

  predicate FenceHolds(c: Connection, input: PageInput) {
    && c.mode == Syncing && c.leaseOwner == Some(input.executionId) && c.fencingToken == input.fencingToken
    && c.cursorVersion == input.expectedCursorVersion && c.leaseExpiresAt.Some? && c.leaseExpiresAt.value > input.now
  }

  function Committed(c: Connection, input: PageInput): Connection {
    c.(cursor := input.nextCursor, cursorVersion := c.cursorVersion + 1,
      mode := if input.hasMore then Syncing else Ready,
       leaseOwner := if input.hasMore then c.leaseOwner else None,
       leaseExpiresAt := if input.hasMore then c.leaseExpiresAt else None,
       lastSyncAt := if input.hasMore then c.lastSyncAt else Some(input.now), attempt := 0, version := c.version + 1)
  }

  /** commitPage: the inserts and the fenced update, or nothing at all. */
  function SqlCommit(c: Connection, table: Table, input: PageInput): (Option<SyncError>, Connection, Table) {
    match Insert(table, input.items)
    case None => (Some(DedupeConflict), c, table)
    case Some(inserted) =>
      if FenceHolds(c, input) then (None, Committed(c, input), inserted) else (Some(FenceStale), c, table)
  }

  class ConnectorRepository {
    var connection: Connection
    var table: Table

    constructor (connection: Connection)
      ensures this.connection == connection && table == map[]
    {
      this.connection, table := connection, map[];
    }

    method Acquire(sourceActive: bool, executionId: string, now: int) returns (r: Result<Connection, SyncError>)
      modifies this
      ensures r == SqlAcquire(old(connection), sourceActive, executionId, now) && table == old(table)
      ensures connection == if r.Ok? then r.value else old(connection)
    {
      if !SqlMayAcquire(connection, sourceActive, now) { return Err(LeaseDenied); }
      connection := Leased(connection, executionId, now);
      return Ok(connection);
    }

    method CommitPage(input: PageInput) returns (error: Option<SyncError>)
      modifies this
      ensures (error, connection, table) == SqlCommit(old(connection), old(table), input)
    {
      var begin := table;
      for i := 0 to |input.items|
        invariant Insert(begin, input.items[..i]) == Some(table) && connection == old(connection)
      {
        assert input.items[..i + 1][..i] == input.items[..i];
        var item := input.items[i];
        if KeyOf(item) !in table {
          table := table[KeyOf(item) := item];
        } else if table[KeyOf(item)] != item {
          InsertFails(begin, input.items, i + 1);
          table := begin;
          return Some(DedupeConflict);
        }
      }
      assert input.items[..|input.items|] == input.items;
      if !FenceHolds(connection, input) {
        table := begin;
        return Some(FenceStale);
      }
      connection := Committed(connection, input);
      return None;
    }
  }

  lemma {:induction false} InsertFails(table: Table, items: seq<Item>, i: nat)
    requires i <= |items| && Insert(table, items[..i]) == None
    ensures Insert(table, items) == None
    decreases |items| - i
  {
    if i == |items| {
      assert items[..i] == items;
    } else {
      assert items[..i + 1][..i] == items[..i];
      InsertFails(table, items, i + 1);
    }
  }

  // ----- the domain -----

  function DomainAcquire(
    c: Connection, sourceActive: bool, executionId: string, now: int)
    : Result<Connection, SyncError>
  {
    if !sourceActive ||
      !(c.mode == Ready || (c.mode == Backoff && c.nextRetryAt.Some? && c.nextRetryAt.value <= now)) ||
       (c.leaseExpiresAt.Some? && c.leaseExpiresAt.value > now)
    then Err(LeaseDenied)
    else Ok(Leased(c, executionId, now))
  }

  /** `nextCursor` is absent when empty. */
  function DomainCommit(c: Connection, input: PageInput): Result<Connection, SyncError> {
    if c.mode != Syncing || c.leaseOwner != Some(input.executionId) || c.fencingToken != input.fencingToken ||
       c.leaseExpiresAt.None? || c.leaseExpiresAt.value <= input.now
    then Err(FenceStale)
    else if input.hasMore != input.nextCursor.Some? then Err(CursorInvalid)
    else
      Ok(c.(cursor := if input.nextCursor.Some? then input.nextCursor else c.cursor,
        cursorVersion := c.cursorVersion + 1,
            mode := if input.hasMore then Syncing else Ready, attempt := 0,
            lastSyncAt := if input.hasMore then c.lastSyncAt else Some(input.now),
            leaseOwner := if input.hasMore then c.leaseOwner else None,
            leaseExpiresAt := if input.hasMore then c.leaseExpiresAt else None, version := c.version + 1))
  }

  function FailSync(
    c: Connection, code: string, retryable: bool, nextRetryAt: Option<int>)
    : Result<Connection, SyncError>
  {
    if c.mode != Syncing || Units(code) < 1 || Units(code) > 120 then Err(TransitionDenied)
    else
      var attempt := c.attempt + 1;
      var dead := !retryable || attempt >= 8;
      Ok(c.(mode := if dead then DeadLetter else Backoff, attempt := attempt, lastError := Some(code),
            nextRetryAt := if !dead && nextRetryAt.Some? then nextRetryAt else c.nextRetryAt,
            leaseOwner := None, leaseExpiresAt := None, version := c.version + 1))
  }

  function PauseConnection(c: Connection, reason: string): Result<Connection, SyncError> {
    if c.mode == Revoked then Err(TransitionDenied)
    else Ok(c.(mode := Paused, lastError := Some(reason), leaseOwner := None, leaseExpiresAt := None,
      version := c.version + 1))
  }

  // ----- where the two layers agree -----

  /**
   * The database and the domain lease the same connections, to the same row, except that the
   * database also holds a ready connection back until its retry time, and also lets one go that
   * backs off without a retry time.
   */
  lemma {:induction false} AcquireLayersAgreeExactly(c: Connection, sourceActive: bool, executionId: string, now: int)
    ensures SqlAcquire(c, sourceActive, executionId, now) == DomainAcquire(c, sourceActive, executionId, now) <==>
            (sourceActive && (c.leaseExpiresAt.None? || c.leaseExpiresAt.value <= now) ==>
              !(c.mode == Ready && c.nextRetryAt.Some? && c.nextRetryAt.value > now) &&
              !(c.mode == Backoff && c.nextRetryAt.None?))
  {
  }

  /**
   * On a page both layers accept they write the same row, except that on the last page the
   * database clears the cursor while the domain keeps the one it has.
   */
  lemma {:induction false} CommitLayersAgreeExactly(c: Connection, table: Table, input: PageInput)
    requires SqlCommit(c, table, input).0.None? && DomainCommit(c, input).Ok?
    ensures SqlCommit(c, table, input).1 == DomainCommit(c, input).value <==> input.hasMore || c.cursor.None?
  {
  }
}
