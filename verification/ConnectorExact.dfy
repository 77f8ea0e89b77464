/**
 * The connection's transactions told from their inputs alone: when each is accepted, which error it
 * gives, and the whole row and table it leaves.
 */
module ConnectorExact {
  import opened Results
  import opened Text
  import opened Connector

  // ----- the source -----

  /** A page is refused for a bad size or a place outside the source; else it is as long as it can be. */
  lemma {:induction false} ListExactly(items: seq<Item>, cursor: Option<string>, pageSize: int)
    ensures var offset := OffsetOf(cursor);
            match ListPage(items, cursor, pageSize)
            case None => !(1 <= pageSize <= 500) || !(0 <= offset <= |items|)
            case Some(page) =>
              && 1 <= pageSize <= 500 && 0 <= offset <= |items|
              && |page.items| == (if |items| - offset <= pageSize then |items| - offset else pageSize)
              && (forall i :: 0 <= i < |page.items| ==> page.items[i] == items[offset + i])
              && (page.hasMore <==> |items| - offset > pageSize)
              && page.nextCursor == if page.hasMore then Some(CursorAt(offset + pageSize)) else None
  {
    hide OffsetOf, CursorAt;
  }

  // ----- acquiring -----

  predicate MayAcquire(c: Connection, sourceActive: bool, now: int) {
    && sourceActive && (c.mode == Ready || c.mode == Backoff)
    && (c.nextRetryAt.Some? ==> c.nextRetryAt.value <= now)
    && (c.leaseExpiresAt.Some? ==> c.leaseExpiresAt.value <= now)
  }

  /** The lease is for five minutes and comes with the next token; the rest of the row is kept. */
  lemma {:induction false} AcquireExactly(c: Connection, sourceActive: bool, executionId: string, now: int)
    ensures SqlAcquire(c, sourceActive, executionId, now) ==
            if MayAcquire(c, sourceActive, now) then
              Ok(Connection(Syncing, c.cursor, c.cursorVersion, c.fencingToken + 1, Some(executionId),
                            Some(now + 300000), c.attempt, c.nextRetryAt, c.lastSyncAt, c.lastError, c.version + 1))
            else Err(LeaseDenied)
  {
  }

  // ----- committing a page -----

  /** No item of the page has the key of another item, in the page or in the table. */
  ghost predicate Insertable(table: Table, items: seq<Item>) {
    && (forall i :: 0 <= i < |items| && KeyOf(items[i]) in table ==> table[KeyOf(items[i])] == items[i])
    && (forall i, j :: 0 <= i < j < |items| && KeyOf(items[i]) == KeyOf(items[j]) ==> items[i] == items[j])
  }

  /** The table with the page: what was there, and the items of the page under their keys. */
  ghost predicate IsInserted(table: Table, items: seq<Item>, after: Table) {
    && (forall k :: k in table ==> k in after && after[k] == table[k])
    && (forall i :: 0 <= i < |items| ==> KeyOf(items[i]) in after && after[KeyOf(items[i])] == items[i])
    && (forall k :: k in after ==> k in table || exists i :: 0 <= i < |items| && KeyOf(items[i]) == k)
  }

  lemma {:induction false} InsertExactly(table: Table, items: seq<Item>)
    ensures Insert(table, items).Some? <==> Insertable(table, items)
    ensures Insert(table, items).Some? ==> IsInserted(table, items, Insert(table, items).value)
    decreases |items|
  {
    hide KeyOf, Insertable, IsInserted;
    if items == [] {
      assert Insertable(table, []) && IsInserted(table, [], table) by { NothingInserted(table); }
    } else {
      var n := |items| - 1;
      InsertExactly(table, items[..n]);
      assert items == items[..n] + [items[n]];
      InsertablePrefix(table, items[..n], items[n]);
      if Insert(table, items[..n]).Some? {
        var before := Insert(table, items[..n]).value;
        InsertableLast(table, items[..n], items[n], before);
        if Insert(table, items).Some? { InsertedLast(table, items[..n], items[n], before, Insert(table, items).value); }
      }
    }
  }

  lemma {:induction false} NothingInserted(table: Table)
    ensures Insertable(table, []) && IsInserted(table, [], table)
  {
  }

  lemma {:induction false} InsertablePrefix(table: Table, items: seq<Item>, last: Item)
    ensures Insertable(table, items + [last]) ==> Insertable(table, items)
  {
    hide KeyOf;
    var all := items + [last];
    assert forall i :: 0 <= i < |items| ==> all[i] == items[i];
  }

  lemma {:induction false} InsertableLast(table: Table, items: seq<Item>, last: Item, before: Table)
    requires Insertable(table, items) && IsInserted(table, items, before)
    ensures Insertable(table, items + [last]) <==> (KeyOf(last) in before ==> before[KeyOf(last)] == last)
  {
    hide KeyOf;
    var all := items + [last];
    assert forall i :: 0 <= i < |items| ==> all[i] == items[i];
    assert all[|items|] == last;
    if KeyOf(last) in before && KeyOf(last) !in table {
      var i :| 0 <= i < |items| && KeyOf(items[i]) == KeyOf(last);
      assert KeyOf(all[i]) == KeyOf(all[|items|]);
    }
  }

  lemma {:induction false} InsertedLast(table: Table, items: seq<Item>, last: Item, before: Table, after: Table)
    requires IsInserted(table, items, before)
    requires KeyOf(last) in before ==> before[KeyOf(last)] == last
    requires after == before[KeyOf(last) := last] || (KeyOf(last) in before && after == before)
    ensures IsInserted(table, items + [last], after)
  {
    hide KeyOf;
    var all := items + [last];
    assert forall i :: 0 <= i < |items| ==> all[i] == items[i];
    forall k | k in after ensures k in table || exists i :: 0 <= i < |all| && KeyOf(all[i]) == k {
      if k in before && k !in table {
        var i :| 0 <= i < |items| && KeyOf(items[i]) == k;
        assert KeyOf(all[i]) == k;
      } else if k !in table {
        assert KeyOf(all[|items|]) == k;
      }
    }
  }

  /** The worker still holds the connection: its lease, its token and its version of the cursor. */
  predicate StillHolds(c: Connection, input: PageInput) {
    && c.mode == Syncing && c.leaseOwner == Some(input.executionId) && c.fencingToken == input.fencingToken
    && c.cursorVersion == input.expectedCursorVersion
    && c.leaseExpiresAt.Some? && input.now < c.leaseExpiresAt.value
  }

  /**
   * A page is accepted exactly when its items agree with each other and with the table and the worker
   * still holds the connection; otherwise the error says which fails, and nothing changes.
   */
  lemma {:induction false} CommitExactly(c: Connection, table: Table, input: PageInput)
    ensures var (error, row, after) := SqlCommit(c, table, input);
            && (error == Some(DedupeConflict) <==> !Insertable(table, input.items))
            && (error == Some(FenceStale) <==> Insertable(table, input.items) && !StillHolds(c, input))
            && (error == None <==> Insertable(table, input.items) && StillHolds(c, input))
            && (error != None ==> row == c && after == table)
            && (error == None ==>
                  && IsInserted(table, input.items, after)
                  && row == if input.hasMore
                            then Connection(Syncing, input.nextCursor, c.cursorVersion + 1, c.fencingToken,
                                            c.leaseOwner, c.leaseExpiresAt, 0, c.nextRetryAt, c.lastSyncAt,
                                            c.lastError, c.version + 1)
                            else Connection(Ready, input.nextCursor, c.cursorVersion + 1, c.fencingToken, None, None, 0,
                                            c.nextRetryAt, Some(input.now), c.lastError, c.version + 1))
  {
    hide Insert, Insertable, IsInserted;
    InsertExactly(table, input.items);
  }

  /** The domain's commit, exactly; it asks for no version of the cursor, but for a cursor that matches. */
  lemma {:induction false} DomainCommitExactly(c: Connection, input: PageInput)
    ensures var r := DomainCommit(c, input);
            && (r == Err(FenceStale) <==> !StillHolds(c, input.(expectedCursorVersion := c.cursorVersion)))
            && (r == Err(CursorInvalid) <==>
                  StillHolds(c, input.(expectedCursorVersion := c.cursorVersion)) &&
                  (input.hasMore <==> input.nextCursor == None))
            && (r.Ok? ==>
                  var cursor := if input.nextCursor == None then c.cursor else input.nextCursor;
                  r.value ==
                  if input.hasMore
                  then Connection(Syncing, cursor, c.cursorVersion + 1, c.fencingToken, c.leaseOwner,
                                  c.leaseExpiresAt, 0, c.nextRetryAt, c.lastSyncAt, c.lastError, c.version + 1)
                  else Connection(Ready, cursor, c.cursorVersion + 1, c.fencingToken, None, None, 0,
                                  c.nextRetryAt, Some(input.now), c.lastError, c.version + 1))
            && (r.Err? ==> r.error == FenceStale || r.error == CursorInvalid)
  {
  }

  /**
   * With items that can be inserted, the database refuses what the domain calls stale, and an old
   * version of the cursor.
   */
  lemma {:induction false} StaleLayersExactly(c: Connection, table: Table, input: PageInput)
    requires Insertable(table, input.items)
    ensures SqlCommit(c, table, input).0 == Some(FenceStale) <==>
            DomainCommit(c, input) == Err(FenceStale) || c.cursorVersion != input.expectedCursorVersion
  {
    hide SqlCommit, DomainCommit, Insertable;
    CommitExactly(c, table, input);
    DomainCommitExactly(c, input);
  }

  // ----- leaving the lease -----

  /** A failed synchronization backs off; for good when it may not be retried or is the eighth in a row. */
  lemma {:induction false} FailExactly(c: Connection, code: string, retryable: bool, nextRetryAt: Option<int>)
    ensures FailSync(c, code, retryable, nextRetryAt) ==
            if c.mode != Syncing || !(1 <= Units(code) <= 120) then Err(TransitionDenied)
            else if retryable && c.attempt < 7 then
              Ok(Connection(Backoff, c.cursor, c.cursorVersion, c.fencingToken, None, None, c.attempt + 1,
                            if nextRetryAt == None then c.nextRetryAt else nextRetryAt, c.lastSyncAt, Some(code),
                            c.version + 1))
            else
              Ok(Connection(DeadLetter, c.cursor, c.cursorVersion, c.fencingToken, None, None, c.attempt + 1,
                            c.nextRetryAt, c.lastSyncAt, Some(code), c.version + 1))
  {
  }

  /** Anything but a revoked connection can be paused, and a lease is given up. */
  lemma {:induction false} PauseExactly(c: Connection, reason: string)
    ensures PauseConnection(c, reason) ==
            if c.mode == Revoked then Err(TransitionDenied)
            else Ok(Connection(Paused, c.cursor, c.cursorVersion, c.fencingToken, None, None, c.attempt, c.nextRetryAt,
                               c.lastSyncAt, Some(reason), c.version + 1))
  {
  }
}
