/**
 * Many workers on one connection: they acquire, list, commit, fail and are paused in any order,
 * each step alone. The fencing token keeps stale workers out, and the dedupe table ends up holding
 * every item of the source once.
 */
module ConnectorRuns {
  import opened Results
  import opened Connector

  /** A worker with what it learned when it acquired and the page it has listed since. */
  datatype Worker = Worker(executionId: string, token: nat, expected: nat, cursor: Option<string>, page: Option<Page>)

  /** Acquisitions and accepted pages, with their token and the time they were made at. */
  datatype Event = Acquired(token: nat, at: int) | PageAccepted(token: nat, at: int)

  /** `completed` is whether some synchronization has committed its last page. */
  datatype System = System(connection: Connection, table: Table, workers: seq<Worker>, log: seq<Event>, completed: bool)

  datatype Action =
    | Acquire(executionId: string, sourceActive: bool, now: int)
    | List(worker: nat, pageSize: int)
    | Commit(worker: nat, at: int)
    | Fail(code: string, retryable: bool, nextRetryAt: Option<int>)
    | Pause(reason: string)

  function InputOf(w: Worker, page: Page, now: int): PageInput {
    PageInput(w.executionId, w.token, w.expected, page.nextCursor, page.hasMore, page.items, now)
  }

  function Next(items: seq<Item>, s: System, a: Action): System {
    match a
    case Acquire(executionId, sourceActive, now) =>
      (match SqlAcquire(s.connection, sourceActive, executionId, now)
       case Err(_) => s
       case Ok(c) =>
         s.(connection := c,
            workers := s.workers + [Worker(executionId, c.fencingToken, c.cursorVersion, c.cursor, None)],
            log := s.log + [Acquired(c.fencingToken, now)]))
    case List(i, pageSize) =>
      if i >= |s.workers| then s
      else
        (match ListPage(items, s.workers[i].cursor, pageSize)
         case None => s
         case Some(page) => s.(workers := s.workers[i := s.workers[i].(page := Some(page))]))
    case Commit(i, now) =>
      if i >= |s.workers| || s.workers[i].page.None? then s
      else CommitStep(s, i, now)
    case Fail(code, retryable, nextRetryAt) =>
      (match FailSync(s.connection, code, retryable, nextRetryAt)
       case Err(_) => s
       case Ok(c) => s.(connection := c))
    case Pause(reason) =>
      (match PauseConnection(s.connection, reason)
       case Err(_) => s
       case Ok(c) => s.(connection := c))
  }

  function CommitStep(s: System, i: nat, now: int): System
    requires i < |s.workers| && s.workers[i].page.Some?
  {
    var w, page := s.workers[i], s.workers[i].page.value;
    var (error, c, table) := SqlCommit(s.connection, s.table, InputOf(w, page, now));
    if error.Some? then s
    else
      System(c, table, s.workers[i := w.(expected := w.expected + 1, cursor := page.nextCursor, page := None)],
             s.log + [PageAccepted(w.token, now)], s.completed || !page.hasMore)
  }

  function Run(items: seq<Item>, s: System, actions: seq<Action>): System {
    if actions == [] then s else Next(items, Run(items, s, actions[..|actions| - 1]), actions[|actions| - 1])
  }

  /** A connection that has never synchronized. */
  ghost predicate Initial(s: System) {
    && s.connection.mode in {Pending, Ready} && s.connection.cursor == None && s.connection.attempt == 0
    && s.connection.leaseOwner == None && s.connection.leaseExpiresAt == None
    && s.table == map[] && s.workers == [] && s.log == [] && !s.completed
  }

  // ----- fencing -----

  ghost predicate RowOk(c: Connection) {
    && (c.leaseOwner.Some? <==> c.mode == Syncing) && (c.leaseExpiresAt.Some? <==> c.mode == Syncing)
    && c.attempt <= 8 && (c.mode in {Pending, Ready, Backoff, Syncing} ==> c.attempt <= 7)
  }

  /**
   * Tokens never decrease along the log and grow with every acquisition; so no page of an earlier
   * acquisition is accepted after a later one.
   */
  ghost predicate Fenced(log: seq<Event>, token: nat) {
    && (forall i :: 0 <= i < |log| ==> log[i].token <= token)
    && (forall i, j :: 0 <= i < j < |log| ==> log[i].token <= log[j].token)
    && (forall i, j :: 0 <= i < j < |log| && log[j].Acquired? ==> log[i].token < log[j].token)
  }

  lemma {:induction false} NextKeepsFence(items: seq<Item>, s: System, a: Action)
    requires RowOk(s.connection) && Fenced(s.log, s.connection.fencingToken)
    ensures RowOk(Next(items, s, a).connection)
    ensures Fenced(Next(items, s, a).log, Next(items, s, a).connection.fencingToken)
    ensures Next(items, s, a).connection.fencingToken >= s.connection.fencingToken
  {
    hide ListPage, Insert;
  }

  /**
   * Over every run: issued tokens strictly increase, accepted pages never go back behind a newer
   * acquisition, a lease exists exactly while synchronizing, and the attempts never exceed 8.
   */
  lemma {:induction false} RunIsFenced(items: seq<Item>, s: System, actions: seq<Action>)
    requires Initial(s)
    ensures var after := Run(items, s, actions);
            RowOk(after.connection) && Fenced(after.log, after.connection.fencingToken)
    decreases |actions|
  {
    hide Next, RowOk, Fenced;
    if actions == [] {
      assert RowOk(s.connection) && Fenced(s.log, s.connection.fencingToken) by { InitialIsFenced(s); }
    } else {
      RunIsFenced(items, s, actions[..|actions| - 1]);
      NextKeepsFence(items, Run(items, s, actions[..|actions| - 1]), actions[|actions| - 1]);
    }
  }

  lemma {:induction false} InitialIsFenced(s: System)
    requires Initial(s)
    ensures RowOk(s.connection) && Fenced(s.log, s.connection.fencingToken)
  {
  }

  /** While synchronizing, the lease runs for five minutes from the acquisition of the current token. */
  ghost predicate LeaseIsLogged(s: System) {
    s.connection.mode == Syncing ==>
      exists i :: 0 <= i < |s.log| && s.log[i].Acquired? && s.log[i].token == s.connection.fencingToken &&
                  s.connection.leaseExpiresAt == Some(s.log[i].at + 300000)
  }

  /** Every accepted page comes less than five minutes after the acquisition of its token. */
  ghost predicate Timely(log: seq<Event>) {
    forall j :: 0 <= j < |log| && log[j].PageAccepted? ==>
      exists i :: 0 <= i < j && log[i].Acquired? && log[i].token == log[j].token && log[j].at < log[i].at + 300000
  }

  lemma {:induction false} CommitKeepsTime(s: System, i: nat, now: int)
    requires LeaseIsLogged(s) && Timely(s.log) && i < |s.workers| && s.workers[i].page.Some?
    ensures LeaseIsLogged(CommitStep(s, i, now)) && Timely(CommitStep(s, i, now).log)
  {
    hide Insert;
    var after := CommitStep(s, i, now);
    if |after.log| > |s.log| {
      assert forall j :: 0 <= j < |s.log| ==> after.log[j] == s.log[j];
      var k :| 0 <= k < |s.log| && s.log[k].Acquired? && s.log[k].token == s.connection.fencingToken &&
               s.connection.leaseExpiresAt == Some(s.log[k].at + 300000);
      assert after.log[k].token == after.log[|s.log|].token;
    }
  }

  lemma {:induction false} NextKeepsTime(items: seq<Item>, s: System, a: Action)
    requires LeaseIsLogged(s) && Timely(s.log)
    ensures LeaseIsLogged(Next(items, s, a)) && Timely(Next(items, s, a).log)
  {
    hide ListPage, CommitStep;
    match a {
      case Commit(i, now) => if i < |s.workers| && s.workers[i].page.Some? { CommitKeepsTime(s, i, now); }
      case Acquire(_, _, _) =>
        var after := Next(items, s, a);
        if |after.log| > |s.log| {
          assert forall i :: 0 <= i < |s.log| ==> after.log[i] == s.log[i];
          assert after.log[|s.log|].token == after.connection.fencingToken;
        }
      case _ =>
    }
  }

  /** Over every run, whatever the clocks say: no page is accepted once its lease has run out. */
  lemma {:induction false} RunIsTimely(items: seq<Item>, s: System, actions: seq<Action>)
    requires Initial(s)
    ensures LeaseIsLogged(Run(items, s, actions)) && Timely(Run(items, s, actions).log)
    decreases |actions|
  {
    hide Next, LeaseIsLogged, Timely;
    if actions == [] {
      assert LeaseIsLogged(s) && Timely(s.log) by { InitialIsTimely(s); }
    } else {
      RunIsTimely(items, s, actions[..|actions| - 1]);
      NextKeepsTime(items, Run(items, s, actions[..|actions| - 1]), actions[|actions| - 1]);
    }
  }

  lemma {:induction false} InitialIsTimely(s: System)
    requires Initial(s)
    ensures LeaseIsLogged(s) && Timely(s.log)
  {
  }

  // ----- the dedupe table -----

  /** Items with one key are one item. */
  predicate Consistent(s: seq<Item>) {
    forall i, j :: 0 <= i < j < |s| && KeyOf(s[i]) == KeyOf(s[j]) ==> s[i] == s[j]
  }

  /** The table holds exactly the items of `s`, each under its key. */
  ghost predicate Holds(table: Table, s: seq<Item>) {
    && (forall i :: 0 <= i < |s| ==> KeyOf(s[i]) in table && table[KeyOf(s[i])] == s[i])
    && (forall k :: k in table ==> exists i :: 0 <= i < |s| && KeyOf(s[i]) == k)
  }

  lemma {:induction false} HoldsConsistent(table: Table, s: seq<Item>)
    requires Holds(table, s)
    ensures Consistent(s)
  {
  }

  lemma {:induction false} HoldsStep(table: Table, s: seq<Item>, item: Item, after: Table)
    requires Holds(table, s)
    requires after == (if KeyOf(item) in table then table else table[KeyOf(item) := item]) && after[KeyOf(item)] == item
    ensures Holds(after, s + [item])
  {
    hide KeyOf;
    var all := s + [item];
    assert all[|s|] == item && forall i :: 0 <= i < |s| ==> all[i] == s[i];
    forall k | k in after ensures exists i :: 0 <= i < |all| && KeyOf(all[i]) == k {
      if k in table {
        var i :| 0 <= i < |s| && KeyOf(s[i]) == k;
        assert KeyOf(all[i]) == k;
      } else {
        assert KeyOf(all[|s|]) == k;
      }
    }
  }

  /** Inserting a page after what the table holds. */
  lemma {:induction false} InsertHolds(table: Table, a: seq<Item>, b: seq<Item>)
    requires Holds(table, a)
    ensures Insert(table, b).Some? ==> Holds(Insert(table, b).value, a + b)
    ensures Consistent(a + b) ==> Insert(table, b).Some?
    decreases |b|
  {
    hide Holds, KeyOf;
    if b == [] {
      assert a + b == a;
    } else {
      var n := |b| - 1;
      InsertHolds(table, a, b[..n]);
      assert a + b == (a + b[..n]) + [b[n]];
      ConsistentPrefix(a + b[..n], [b[n]]);
      if Insert(table, b[..n]).Some? {
        var before := Insert(table, b[..n]).value;
        if Insert(table, b).Some? { HoldsStep(before, a + b[..n], b[n], Insert(table, b).value); }
        if Consistent(a + b) { LastAgrees(before, a + b[..n], b[n]); }
      }
    }
  }

  lemma {:induction false} ConsistentPrefix(a: seq<Item>, b: seq<Item>)
    ensures Consistent(a + b) ==> Consistent(a)
  {
    assert forall i :: 0 <= i < |a| ==> (a + b)[i] == a[i];
  }

  lemma {:induction false} LastAgrees(table: Table, s: seq<Item>, item: Item)
    requires Holds(table, s) && Consistent(s + [item])
    ensures KeyOf(item) in table ==> table[KeyOf(item)] == item
  {
    if KeyOf(item) in table {
      var i :| 0 <= i < |s| && KeyOf(s[i]) == KeyOf(item);
      assert (s + [item])[i] == s[i] && (s + [item])[|s|] == item;
    }
  }

  /** Inserting items the table already holds adds nothing. */
  lemma {:induction false} InsertKnown(table: Table, s: seq<Item>, b: seq<Item>)
    requires Holds(table, s) && forall i :: 0 <= i < |b| ==> b[i] in s
    ensures Insert(table, b) == Some(table)
    decreases |b|
  {
    if b != [] {
      var n := |b| - 1;
      assert forall i :: 0 <= i < n ==> b[..n][i] in s;
      InsertKnown(table, s, b[..n]);
      assert b[n] in s;
      var j :| 0 <= j < |s| && s[j] == b[n];
    }
  }

  // ----- exactly once -----

  ghost predicate Listed(items: seq<Item>, cursor: Option<string>, page: Page) {
    exists pageSize :: ListPage(items, cursor, pageSize) == Some(page)
  }

  /** A worker whose expected version is current knows the current cursor; its page is listed from it. */
  ghost predicate WorkerOk(items: seq<Item>, c: Connection, w: Worker) {
    && w.expected <= c.cursorVersion && (w.expected == c.cursorVersion ==> w.cursor == c.cursor)
    && (w.page.Some? ==> Listed(items, w.cursor, w.page.value))
  }

  /** What the table holds: the items before the stored cursor, or, once completed, all of them. */
  ghost predicate DataOk(items: seq<Item>, s: System) {
    && 0 <= OffsetOf(s.connection.cursor) <= |items|
    && Holds(s.table, if s.completed then items else items[..OffsetOf(s.connection.cursor)])
  }

  ghost predicate SyncOk(items: seq<Item>, s: System) {
    && (forall i :: 0 <= i < |s.workers| ==> WorkerOk(items, s.connection, s.workers[i]))
    && DataOk(items, s)
  }

  /** A page continues from its cursor and its next cursor is where it ends. */
  lemma {:induction false} PageShape(items: seq<Item>, cursor: Option<string>, page: Page)
    requires Listed(items, cursor, page)
    ensures var offset, next := OffsetOf(cursor), OffsetOf(cursor) + |page.items|;
            && 0 <= offset <= next <= |items| && page.items == items[offset..next]
            && page.hasMore == page.nextCursor.Some? && page.hasMore == (next < |items|)
            && (page.hasMore ==> OffsetOf(page.nextCursor) == next && next > offset)
            && |page.items| <= 500
  {
    hide OffsetOf, CursorAt, Listed;
    var pageSize := SomePageSize(items, cursor, page);
    if page.hasMore { CursorRoundTrip(OffsetOf(cursor) + |page.items|); }
  }

  lemma {:induction false} SomePageSize(items: seq<Item>, cursor: Option<string>, page: Page) returns (pageSize: int)
    requires Listed(items, cursor, page)
    ensures ListPage(items, cursor, pageSize) == Some(page)
  {
    hide ListPage;
    pageSize :| ListPage(items, cursor, pageSize) == Some(page);
  }

  lemma {:induction false} CommitKeepsData(items: seq<Item>, s: System, i: nat, now: int)
    requires SyncOk(items, s) && i < |s.workers| && s.workers[i].page.Some?
    ensures DataOk(items, CommitStep(s, i, now))
    ensures s.completed ==> CommitStep(s, i, now).table == s.table
  {
    hide ListPage, OffsetOf, Holds, Insert, Listed;
    var w, page := s.workers[i], s.workers[i].page.value;
    if SqlCommit(s.connection, s.table, InputOf(w, page, now)).0.None? {
      assert WorkerOk(items, s.connection, w);
      PageShape(items, s.connection.cursor, page);
      var offset := OffsetOf(s.connection.cursor);
      var next := offset + |page.items|;
      EmptyCursor();
      if s.completed {
        assert forall j :: 0 <= j < |page.items| ==> page.items[j] == items[offset + j];
        InsertKnown(s.table, items, page.items);
      } else {
        InsertHolds(s.table, items[..offset], page.items);
        assert items[..offset] + page.items == items[..next];
        assert items[..|items|] == items;
      }
    }
  }

  lemma {:induction false} EmptyCursor()
    ensures OffsetOf(None) == 0
  {
  }

  lemma {:induction false} CommitKeepsWorkers(items: seq<Item>, s: System, i: nat, now: int)
    requires SyncOk(items, s) && i < |s.workers| && s.workers[i].page.Some?
    ensures var after := CommitStep(s, i, now);
            forall j :: 0 <= j < |after.workers| ==> WorkerOk(items, after.connection, after.workers[j])
  {
    hide Listed, Insert, DataOk;
  }

  lemma {:induction false} NextKeepsSync(items: seq<Item>, s: System, a: Action)
    requires SyncOk(items, s)
    ensures SyncOk(items, Next(items, s, a))
    ensures s.completed ==> Next(items, s, a).table == s.table && Next(items, s, a).completed
  {
    hide OffsetOf, Holds, ListPage, CommitStep;
    match a {
      case Commit(i, now) =>
        if i < |s.workers| && s.workers[i].page.Some? {
          CommitKeepsData(items, s, i, now);
          CommitKeepsWorkers(items, s, i, now);
          CommitCompletes(s, i, now);
        }
      case _ =>
    }
  }

  lemma {:induction false} CommitCompletes(s: System, i: nat, now: int)
    requires i < |s.workers| && s.workers[i].page.Some?
    ensures s.completed ==> CommitStep(s, i, now).completed
  {
  }

  /**
   * Exactly once, with takeover: over every run of workers that fail, are fenced off and take over
   * from the stored cursor, the dedupe table holds exactly the items before that cursor until the
   * first synchronization completes, and from then on exactly all items of the source.
   */
  lemma {:induction false} ExactlyOnce(items: seq<Item>, s: System, actions: seq<Action>)
    requires Initial(s)
    ensures SyncOk(items, Run(items, s, actions))
    decreases |actions|
  {
    hide Next, SyncOk;
    if actions == [] {
      InitialIsOk(items, s);
    } else {
      ExactlyOnce(items, s, actions[..|actions| - 1]);
      NextKeepsSync(items, Run(items, s, actions[..|actions| - 1]), actions[|actions| - 1]);
    }
  }

  lemma {:induction false} InitialIsOk(items: seq<Item>, s: System)
    requires Initial(s)
    ensures SyncOk(items, s)
  {
    EmptyCursor();
  }

  /** Once a synchronization has completed, no further page changes the table. */
  lemma {:induction false} CompletedAddsNothing(items: seq<Item>, s: System, actions: seq<Action>, more: seq<Action>)
    requires Initial(s) && Run(items, s, actions).completed
    ensures Run(items, Run(items, s, actions), more).table == Run(items, s, actions).table
    ensures Holds(Run(items, s, actions).table, items)
  {
    hide Next;
    ExactlyOnce(items, s, actions);
    StaysCompleted(items, Run(items, s, actions), more);
  }

  lemma {:induction false} StaysCompleted(items: seq<Item>, s: System, more: seq<Action>)
    requires SyncOk(items, s) && s.completed
    ensures SyncOk(items, Run(items, s, more)) && Run(items, s, more).completed && Run(items, s, more).table == s.table
    decreases |more|
  {
    hide Next, SyncOk;
    if more != [] {
      StaysCompleted(items, s, more[..|more| - 1]);
      NextKeepsSync(items, Run(items, s, more[..|more| - 1]), more[|more| - 1]);
    }
  }

  // ----- an uninterrupted synchronization -----

  /** One worker lists and commits page after page, at the given times, until an error or the end. */
  function SyncToEnd(items: seq<Item>, c: Connection, table: Table, executionId: string, pageSize: int, times: seq<int>)
    : (Option<SyncError>, Connection, Table)
    decreases |times|
  {
    if times == [] then (None, c, table)
    else
      match ListPage(items, c.cursor, pageSize)
      case None => (Some(CursorInvalid), c, table)
      case Some(page) =>
        var input := PageInput(executionId, c.fencingToken, c.cursorVersion, page.nextCursor, page.hasMore, page.items,
          times[0]);
        var (error, next, inserted) := SqlCommit(c, table, input);
        if error.Some? || !page.hasMore then (error, next, inserted)
        else SyncToEnd(items, next, inserted, executionId, pageSize, times[1..])
  }

  /** How many pages are left from an offset. */
  function PagesFrom(left: nat, pageSize: nat): (pages: nat)
    requires pageSize >= 1
    ensures 1 <= pages <= left + 1
  {
    if left <= pageSize then 1 else 1 + PagesFrom(left - pageSize, pageSize)
  }

  /** From the stored cursor on, within the lease: it completes exactly when the source is consistent. */
  lemma {:induction false} FinishesFromCursor(items: seq<Item>, c: Connection, table: Table, executionId: string,
                                              pageSize: int, times: seq<int>)
    requires 1 <= pageSize <= 500 && 0 <= OffsetOf(c.cursor) <= |items|
    requires Holds(table, items[..OffsetOf(c.cursor)])
    requires c.mode == Syncing && c.leaseOwner == Some(executionId) && c.leaseExpiresAt.Some?
    requires |times| >= PagesFrom(|items| - OffsetOf(c.cursor), pageSize)
    requires forall i :: 0 <= i < |times| ==> times[i] < c.leaseExpiresAt.value
    ensures var (error, after, inserted) := SyncToEnd(items, c, table, executionId, pageSize, times);
            if Consistent(items) then error == None && after.mode == Ready && after.cursor == None &&
              Holds(inserted, items)
            else error == Some(DedupeConflict)
    decreases |times|
  {
    hide OffsetOf, Holds, Insert, CursorAt, Consistent;
    var offset := OffsetOf(c.cursor);
    var page := ListPage(items, c.cursor, pageSize).value;
    assert Listed(items, c.cursor, page);
    PageShape(items, c.cursor, page);
    var next := offset + |page.items|;
    InsertHolds(table, items[..offset], page.items);
    assert items[..offset] + page.items == items[..next];
    assert items[..next] + items[next..] == items;
    ConsistentPrefix(items[..next], items[next..]);
    var input := PageInput(executionId, c.fencingToken, c.cursorVersion, page.nextCursor, page.hasMore, page.items,
      times[0]);
    assert FenceHolds(c, input);
    if Insert(table, page.items).Some? {
      if page.hasMore {
        FinishesFromCursor(items, Committed(c, input), Insert(table, page.items).value, executionId, pageSize,
          times[1..]);
      } else {
        assert items[..next] == items;
        HoldsConsistent(Insert(table, page.items).value, items);
      }
    }
  }

  /**
   * A first synchronization that is not interrupted, from the acquisition on and within its lease:
   * it ends with the connection ready and the table holding every item exactly when no two items
   * of the source share a key with different metadata; otherwise it stops on that conflict.
   */
  lemma {:induction false} UninterruptedSyncExactly(items: seq<Item>, c: Connection, executionId: string, now: int,
                                                    pageSize: int, times: seq<int>)
    requires SqlAcquire(c, true, executionId, now).Ok? && c.cursor == None && 1 <= pageSize <= 500
    requires |times| >= PagesFrom(|items|, pageSize)
    requires forall i :: 0 <= i < |times| ==> times[i] < now + LEASE_MS
    ensures var leased := SqlAcquire(c, true, executionId, now).value;
            var (error, after, inserted) := SyncToEnd(items, leased, map[], executionId, pageSize, times);
            && (Consistent(items) <==> error == None)
            && (error == None ==> after.mode == Ready && Holds(inserted, items))
            && (error != None ==> error == Some(DedupeConflict))
  {
    EmptyCursor();
    assert items[..0] == [];
    assert Holds(map[], items[..0]);
    FinishesFromCursor(items, Leased(c, executionId, now), map[], executionId, pageSize, times);
  }
}
