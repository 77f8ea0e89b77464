/**
 * The scripts against their description: with lease ids used once, distinct scopes and a clock
 * that does not go back, they decide on the admissions of the last window and the leases still
 * counted, and it is exact when a release takes a lease out of the counters.
 */
module RedisRuns {
  import opened Results
  import opened RedisResilience

  /** An admitted acquisition: when, and under which scopes. */
  datatype Grant = Grant(at: int, scopes: set<string>)

  /** Since when a scope's counter has been there without a break, and its latest acquisition. */
  datatype Busy = Busy(since: int, last: int)

  /**
   * Every acquisition so far by lease id, the leases not released, those not released in time - which
   * their counters may still hold - and the scopes ever acquired.
   */
  datatype Ledger = Ledger(
    granted: map<string, Grant>, open: set<string>, counted: set<string>, busy: map<string, Busy>)

  const NOTHING := Ledger(map[], {}, {}, map[])

  function Named(granted: map<string, Grant>, key: string): map<string, int> {
    map l | l in granted && key in granted[l].scopes :: granted[l].at
  }

  /** A lease set or counter lives for three windows. */
  function Lifetime(window: int): int { 3 * window }

  /** No acquisition in the last three windows: the scope's counter has expired. */
  predicate Idle(g: Ledger, key: string, now: int, window: int) {
    key !in g.busy || now > g.busy[key].last + Lifetime(window)
  }

  /** The leases that count on a scope since its counter began. */
  function CountedSince(g: Ledger, key: string, since: int): set<string> {
    set l | l in g.counted && l in g.granted && key in g.granted[l].scopes && g.granted[l].at >= since
  }

  function Holders(g: Ledger, key: string, now: int, window: int): set<string> {
    if Idle(g, key, now, window) then {} else CountedSince(g, key, g.busy[key].since)
  }

  function KeysOf(scopes: seq<Scope>): set<string> { set i | 0 <= i < |scopes| :: scopes[i].key }

  // ----- the description -----

  function JudgeScope(g: Ledger, scope: Scope, now: int, window: int): Reply {
    if |Newer(Named(g.granted, scope.key), now - window)| >= scope.rateLimit then RateLimited(window)
    else if |Holders(g, scope.key, now, window)| >= scope.concurrencyLimit then ConcurrencyLimited(window)
    else Allow
  }

  /** The answer of the first scope that is full, or Allow. */
  function Judge(g: Ledger, scopes: seq<Scope>, now: int, window: int): (r: Reply)
    ensures r == Allow <==> forall i :: 0 <= i < |scopes| ==> JudgeScope(g, scopes[i], now, window) == Allow
  {
    if scopes == [] then Allow
    else
      var n := |scopes| - 1;
      var before := Judge(g, scopes[..n], now, window);
      assert forall i :: 0 <= i < n ==> scopes[..n][i] == scopes[i];
      if before != Allow then before else JudgeScope(g, scopes[n], now, window)
  }

  function Grants(g: Ledger, lease: string, scopes: set<string>, now: int, window: int): Ledger {
    Ledger(
      g.granted[lease := Grant(now, scopes)], g.open + {lease}, g.counted + {lease},
      map k | k in g.busy.Keys + scopes ::
        if k !in scopes then g.busy[k] else Busy(if Idle(g, k, now, window) then now else g.busy[k].since, now))
  }

  function Acquire(g: Ledger, scopes: seq<Scope>, lease: string, now: int, window: int): (Reply, Ledger) {
    var reply := Judge(g, scopes, now, window);
    (reply, if reply == Allow then Grants(g, lease, KeysOf(scopes), now, window) else g)
  }

  /** Released while its own set is there, the lease leaves the counters; later it does not. */
  predicate InTime(g: Ledger, lease: string, now: int, window: int) {
    lease in g.granted && now <= g.granted[lease].at + Lifetime(window)
  }

  function Release(g: Ledger, lease: string, now: int, window: int): Ledger {
    g.(open := g.open - {lease},
       counted := if lease in g.open && InTime(g, lease, now, window) then g.counted - {lease} else g.counted)
  }

  // ----- the data track the description -----

  ghost predicate RatesTrack(s: Store, g: Ledger, last: int, window: int) {
    && (forall l :: l in g.granted ==> g.granted[l].at <= last)
    && (forall key, now, cutoff :: now >= last && cutoff >= now - window ==>
          Newer(Members(s, key, now), cutoff) == Newer(Named(g.granted, key), cutoff))
  }

  /**
   * What the description keeps by itself: a lease counts since the counter began, or expired before;
   * one that still counts although it was released was released too late.
   */
  ghost predicate WellKept(g: Ledger, last: int, window: int) {
    && g.open <= g.counted <= g.granted.Keys
    && (forall k :: k in g.busy ==> g.busy[k].since <= g.busy[k].last <= last)
    && (forall l, k :: l in g.granted && k in g.granted[l].scopes ==> k in g.busy && g.granted[l].at <= g.busy[k].last)
    && (forall l, k :: l in g.granted && k in g.granted[l].scopes && k in g.busy ==>
          g.granted[l].at >= g.busy[k].since || g.granted[l].at + Lifetime(window) < g.busy[k].since)
    && (forall l :: l in g.counted && l !in g.open ==> l in g.granted && g.granted[l].at + Lifetime(window) < last)
  }

  ghost predicate CountersTrack(s: Store, g: Ledger, window: int) {
    && s.active.Keys == g.busy.Keys
    && (forall k :: k in g.busy ==>
          s.active[k] == Counter(|CountedSince(g, k, g.busy[k].since)|, g.busy[k].last + Lifetime(window)))
    && s.leases.Keys == g.open && g.open <= g.granted.Keys
    && (forall l :: l in g.open ==> s.leases[l] == LeaseSet(g.granted[l].scopes, g.granted[l].at + Lifetime(window)))
  }

  /** A counter is the number of leases that count. */
  lemma {:induction false} CounterIsHolders(s: Store, g: Ledger, key: string, now: int, window: int)
    requires CountersTrack(s, g, window)
    ensures Active(s, key, now) == |Holders(g, key, now, window)|
  {
    hide CountedSince;
    assert key in s.active <==> key in g.busy;
    if key in g.busy {
      assert s.active[key] == Counter(|CountedSince(g, key, g.busy[key].since)|, g.busy[key].last + Lifetime(window));
    }
  }

  lemma {:induction false} NewerNewer(members: map<string, int>, c: int, d: int)
    requires c <= d
    ensures Newer(Newer(members, c), d) == Newer(members, d)
  {
  }

  lemma {:induction false} PruneTracks(s: Store, g: Ledger, key: string, last: int, now: int, window: int)
    requires RatesTrack(s, g, last, window) && last <= now
    ensures RatesTrack(Prune(s, key, now, window), g, now, window)
    ensures Members(Prune(s, key, now, window), key, now) == Newer(Named(g.granted, key), now - window)
  {
    hide Newer, Named;
    var pruned := Prune(s, key, now, window);
    forall k, t, cutoff | t >= now && cutoff >= t - window
      ensures Newer(Members(pruned, k, t), cutoff) == Newer(Named(g.granted, k), cutoff)
    {
      assert Newer(Members(s, k, t), cutoff) == Newer(Named(g.granted, k), cutoff);
      if k == key && key in s.rates {
        assert Newer(Members(s, k, now), cutoff) == Newer(Named(g.granted, k), cutoff);
        NewerNewer(Members(s, key, now), now - window, cutoff);
      }
    }
    assert Newer(Members(s, key, now), now - window) == Newer(Named(g.granted, key), now - window);
    NewerOfNothing(now - window);
  }

  lemma {:induction false} NewerOfNothing(cutoff: int)
    ensures Newer(map[], cutoff) == map[]
  {
  }

  /** Checking the scopes gives the described answer and forgets nothing that still counts. */
  lemma {:induction false} CheckTracks(s: Store, g: Ledger, scopes: seq<Scope>, last: int, now: int, window: int)
    requires RatesTrack(s, g, last, window) && CountersTrack(s, g, window) && last <= now
    ensures var (reply, checked) := CheckScopes(s, scopes, now, window);
            && reply == Judge(g, scopes, now, window)
            && RatesTrack(checked, g, now, window) && checked.active == s.active && checked.leases == s.leases
    decreases |scopes|
  {
    hide RatesTrack, CountersTrack, Members, Named, Newer, Holders, Prune, Active;
    if scopes == [] {
      LaterTracks(s, g, last, now, window);
    } else {
      var n := |scopes| - 1;
      CheckTracks(s, g, scopes[..n], last, now, window);
      var before := CheckScopes(s, scopes[..n], now, window).1;
      PruneTracks(before, g, scopes[n].key, now, now, window);
      PruneKeepsCounters(before, scopes[n].key, now, window);
      var pruned := Prune(before, scopes[n].key, now, window);
      SameActive(s, pruned, scopes[n].key, now);
      CounterIsHolders(s, g, scopes[n].key, now, window);
    }
  }

  lemma {:induction false} SameActive(s: Store, t: Store, key: string, now: int)
    requires s.active == t.active
    ensures Active(s, key, now) == Active(t, key, now)
  {
  }

  lemma {:induction false} PruneKeepsCounters(s: Store, key: string, now: int, window: int)
    ensures Prune(s, key, now, window).active == s.active && Prune(s, key, now, window).leases == s.leases
  {
  }

  lemma {:induction false} LaterTracks(s: Store, g: Ledger, last: int, now: int, window: int)
    requires RatesTrack(s, g, last, window) && last <= now
    ensures RatesTrack(s, g, now, window)
  {
  }

  predicate DistinctScopes(scopes: seq<Scope>) {
    forall i, j :: 0 <= i < j < |scopes| ==> scopes[i].key != scopes[j].key
  }

  lemma {:induction false} EnterAllEffect(
    s: Store, scopes: seq<Scope>, lease: string, now: int, window: int, key: string)
    requires DistinctScopes(scopes) && window >= 1
    ensures var after := EnterAll(s, scopes, lease, now, window);
            if key in KeysOf(scopes) then
              && key in after.rates && after.rates[key] == RateSet(Members(s, key, now)[lease := now], now + window)
              && key in after.active && after.active[key] == Counter(Active(s, key, now) + 1, now + Lifetime(window))
            else
              && (key in after.rates <==> key in s.rates) && (key in s.rates ==> after.rates[key] == s.rates[key])
              && (key in after.active <==> key in s.active) && (key in s.active ==> after.active[key] == s.active[key])
    decreases |scopes|
  {
    hide Members, KeysOf;
    if scopes != [] {
      var n := |scopes| - 1;
      var before := scopes[..n];
      EnterAllEffect(s, before, lease, now, window, key);
      KeysStep(scopes);
      NewKey(scopes);
      if key == scopes[n].key { SameMembers(s, EnterAll(s, before, lease, now, window), key, now); }
    } else {
      NoKeys();
    }
  }

  lemma {:induction false} NoKeys()
    ensures KeysOf([]) == {}
  {
  }

  lemma {:induction false} NewKey(scopes: seq<Scope>)
    requires scopes != [] && DistinctScopes(scopes)
    ensures scopes[|scopes| - 1].key !in KeysOf(scopes[..|scopes| - 1])
  {
  }

  lemma {:induction false} SameMembers(s: Store, t: Store, key: string, now: int)
    requires key in t.rates <==> key in s.rates
    requires key in s.rates ==> t.rates[key] == s.rates[key]
    ensures Members(t, key, now) == Members(s, key, now)
  {
  }

  lemma {:induction false} KeysStep(scopes: seq<Scope>)
    requires scopes != []
    ensures KeysOf(scopes) == KeysOf(scopes[..|scopes| - 1]) + {scopes[|scopes| - 1].key}
  {
    var n := |scopes| - 1;
    assert forall i :: 0 <= i < n ==> scopes[..n][i] == scopes[i];
    forall k | k in KeysOf(scopes) ensures k in KeysOf(scopes[..n]) + {scopes[n].key} {
      var i :| 0 <= i < |scopes| && scopes[i].key == k;
      if i < n { assert scopes[..n][i].key == k; }
    }
    forall k | k in KeysOf(scopes[..n]) ensures k in KeysOf(scopes) {
      var i :| 0 <= i < n && scopes[..n][i].key == k;
      assert scopes[i].key == k;
    }
    assert scopes[n].key in KeysOf(scopes);
  }

  lemma {:induction false} EnterAllLease(s: Store, scopes: seq<Scope>, lease: string, now: int, window: int)
    requires window >= 1
    ensures var after := EnterAll(s, scopes, lease, now, window);
            && (forall other :: other != lease ==>
                  (other in after.leases <==> other in s.leases) &&
                  (other in s.leases ==> after.leases[other] == s.leases[other]))
            && (scopes != [] ==>
                  lease in after.leases &&
                  after.leases[lease] == LeaseSet(LeaseOf(s, lease, now) + KeysOf(scopes), now + Lifetime(window)))
            && (scopes == [] ==> after == s)
    decreases |scopes|
  {
    hide KeysOf;
    NoKeys();
    if scopes != [] {
      var n := |scopes| - 1;
      EnterAllLease(s, scopes[..n], lease, now, window);
      KeysStep(scopes);
      if n > 0 {
        assert LeaseOf(s, lease, now) + (KeysOf(scopes[..n]) + {scopes[n].key}) ==
               LeaseOf(s, lease, now) + KeysOf(scopes[..n]) + {scopes[n].key};
      } else {
        assert scopes[..n] == [];
        assert LeaseOf(s, lease, now) + ({} + {scopes[n].key}) == LeaseOf(s, lease, now) + {scopes[n].key};
      }
    }
  }

  lemma {:induction false} NamedAfterGrant(granted: map<string, Grant>, lease: string, grant: Grant, key: string)
    requires lease !in granted
    ensures Named(granted[lease := grant], key) ==
            if key in grant.scopes then Named(granted, key)[lease := grant.at] else Named(granted, key)
  {
  }

  lemma {:induction false} NewerUpdate(members: map<string, int>, lease: string, at: int, cutoff: int)
    requires lease !in Newer(members, cutoff)
    ensures Newer(members[lease := at], cutoff) ==
            if at > cutoff then Newer(members, cutoff)[lease := at] else Newer(members, cutoff)
  {
  }

  lemma {:induction false} NoneNewer(granted: map<string, Grant>, key: string, cutoff: int)
    requires forall l :: l in granted ==> granted[l].at <= cutoff
    ensures Newer(Named(granted, key), cutoff) == map[]
  {
  }

  /** Entering the lease under one key keeps that key's set in step with the description. */
  lemma {:induction false} EnterTracksKey(
    s: Store, g: Ledger, scopes: seq<Scope>, lease: string, now: int, window: int,
    key: string, t: int, cutoff: int)
    requires RatesTrack(s, g, now, window) && DistinctScopes(scopes) && lease !in g.granted && window >= 1
    requires t >= now && cutoff >= t - window
    ensures var granted := g.granted[lease := Grant(now, KeysOf(scopes))];
            Newer(Members(EnterAll(s, scopes, lease, now, window), key, t), cutoff) ==
            Newer(Named(granted, key), cutoff)
  {
    hide Newer, Named, EnterAll, KeysOf;
    var grant := Grant(now, KeysOf(scopes));
    EnterAllEffect(s, scopes, lease, now, window, key);
    NamedAfterGrant(g.granted, lease, grant, key);
    assert Newer(Members(s, key, t), cutoff) == Newer(Named(g.granted, key), cutoff);
    if key in grant.scopes {
      assert Newer(Members(s, key, now), cutoff) == Newer(Named(g.granted, key), cutoff);
      LeaseIsNew(g.granted, lease, key, cutoff);
      NewerUpdate(Members(s, key, now), lease, now, cutoff);
      NewerUpdate(Named(g.granted, key), lease, now, cutoff);
      if t > now + window {
        assert cutoff > now;
        NoneNewer(g.granted, key, cutoff);
        NewerOfNothing(cutoff);
      }
    }
  }

  lemma {:induction false} LeaseIsNew(granted: map<string, Grant>, lease: string, key: string, cutoff: int)
    requires lease !in granted
    ensures lease !in Newer(Named(granted, key), cutoff)
  {
  }

  /** A grant adds its lease to the leases that count on its scopes, and to no others. */
  lemma {:induction false} CountedAfterGrant(
    g: Ledger, lease: string, scopes: set<string>, now: int, last: int, window: int, key: string)
    requires WellKept(g, last, window) && lease !in g.granted && last <= now && window >= 1
    requires key in g.busy || key in scopes
    ensures var g' := Grants(g, lease, scopes, now, window);
            && key in g'.busy
            && (CountedSince(g', key, g'.busy[key].since) ==
                if key in scopes then Holders(g, key, now, window) + {lease}
                else CountedSince(g, key, g.busy[key].since))
            && lease !in Holders(g, key, now, window)
  {
    var g' := Grants(g, lease, scopes, now, window);
    if key in scopes && Idle(g, key, now, window) {
      forall l | l in g.granted && key in g.granted[l].scopes ensures g.granted[l].at < now {
        assert key in g.busy;
      }
    }
  }

  lemma {:induction false} GrantKeeps(g: Ledger, lease: string, scopes: set<string>, now: int, last: int, window: int)
    requires WellKept(g, last, window) && lease !in g.granted && last <= now && window >= 1
    ensures WellKept(Grants(g, lease, scopes, now, window), now, window)
  {
    var g' := Grants(g, lease, scopes, now, window);
    forall l, k | l in g'.granted && k in g'.granted[l].scopes
      ensures k in g'.busy && g'.granted[l].at <= g'.busy[k].last
      ensures g'.granted[l].at >= g'.busy[k].since || g'.granted[l].at + Lifetime(window) < g'.busy[k].since
    {
      if l != lease {
        assert l in g.granted && k in g.granted[l].scopes;
        assert k in g.busy && g.granted[l].at <= g.busy[k].last;
      }
    }
  }

  lemma {:induction false} EnteringTracks(
    s: Store, g: Ledger, scopes: seq<Scope>, lease: string, last: int, now: int, window: int)
    requires RatesTrack(s, g, now, window) && CountersTrack(s, g, window) && WellKept(g, last, window) && last <= now
    requires DistinctScopes(scopes) && scopes != [] && lease !in g.granted && window >= 1
    ensures var after := EnterAll(s, scopes, lease, now, window);
            var g' := Grants(g, lease, KeysOf(scopes), now, window);
            RatesTrack(after, g', now, window) && CountersTrack(after, g', window)
  {
    hide Members, Named, Newer, EnterAll, KeysOf, Grants, CountersTrack, WellKept;
    var after := EnterAll(s, scopes, lease, now, window);
    var g' := Grants(g, lease, KeysOf(scopes), now, window);
    GrantsFields(g, lease, KeysOf(scopes), now, window);
    forall key, t, cutoff | t >= now && cutoff >= t - window
      ensures Newer(Members(after, key, t), cutoff) == Newer(Named(g'.granted, key), cutoff)
    {
      EnterTracksKey(s, g, scopes, lease, now, window, key, t, cutoff);
    }
    EnteringTracksCounters(s, g, scopes, lease, last, now, window);
  }

  lemma {:induction false} EnteringTracksCounters(
    s: Store, g: Ledger, scopes: seq<Scope>, lease: string, last: int, now: int, window: int)
    requires CountersTrack(s, g, window) && WellKept(g, last, window) && last <= now
    requires DistinctScopes(scopes) && scopes != [] && lease !in g.granted && window >= 1
    ensures CountersTrack(
              EnterAll(s, scopes, lease, now, window), Grants(g, lease, KeysOf(scopes), now, window), window)
  {
    hide Holders, EnterAll, KeysOf, CountedSince, WellKept, Active, LeaseOf, Grants;
    var after := EnterAll(s, scopes, lease, now, window);
    var g' := Grants(g, lease, KeysOf(scopes), now, window);
    GrantsFields(g, lease, KeysOf(scopes), now, window);
    forall key
      ensures key in after.active <==> key in g'.busy
      ensures key in g'.busy ==>
                after.active[key] ==
                Counter(|CountedSince(g', key, g'.busy[key].since)|, g'.busy[key].last + Lifetime(window))
    {
      EnteringTracksKey(s, g, scopes, lease, last, now, window, key);
    }
    assert after.active.Keys == g'.busy.Keys;
    EnteringTracksLeases(s, g, scopes, lease, now, window);
  }

  lemma {:induction false} EnteringTracksLeases(
    s: Store, g: Ledger, scopes: seq<Scope>, lease: string, now: int, window: int)
    requires CountersTrack(s, g, window) && scopes != [] && lease !in g.granted && window >= 1
    ensures var after := EnterAll(s, scopes, lease, now, window);
            var granted := g.granted[lease := Grant(now, KeysOf(scopes))];
            && after.leases.Keys == g.open + {lease}
            && forall l :: l in g.open + {lease} ==>
                 after.leases[l] == LeaseSet(granted[l].scopes, granted[l].at + Lifetime(window))
  {
    hide EnterAll, KeysOf, CountedSince, LeaseOf;
    NewLease(s, g, lease, now, window);
    EnterAllLease(s, scopes, lease, now, window);
    assert {} + KeysOf(scopes) == KeysOf(scopes);
  }

  lemma {:induction false} EnteringTracksKey(
    s: Store, g: Ledger, scopes: seq<Scope>, lease: string, last: int, now: int, window: int, key: string)
    requires CountersTrack(s, g, window) && WellKept(g, last, window) && last <= now
    requires DistinctScopes(scopes) && lease !in g.granted && window >= 1
    ensures var after := EnterAll(s, scopes, lease, now, window);
            var g' := Grants(g, lease, KeysOf(scopes), now, window);
            && (key in after.active <==> key in g'.busy)
            && (key in g'.busy ==>
                  after.active[key] ==
                  Counter(|CountedSince(g', key, g'.busy[key].since)|, g'.busy[key].last + Lifetime(window)))
  {
    hide Holders, EnterAll, KeysOf, CountedSince, WellKept, Active, Grants, CountersTrack, Idle;
    var keys := KeysOf(scopes);
    GrantsFields(g, lease, keys, now, window);
    EnterAllEffect(s, scopes, lease, now, window, key);
    TrackedCounter(s, g, key, window);
    if key in keys {
      CounterIsHolders(s, g, key, now, window);
      CountedAfterGrant(g, lease, keys, now, last, window, key);
    } else if key in g.busy {
      CountedAfterGrant(g, lease, keys, now, last, window, key);
    }
  }

  lemma {:induction false} TrackedCounter(s: Store, g: Ledger, key: string, window: int)
    requires CountersTrack(s, g, window)
    ensures key in s.active <==> key in g.busy
    ensures key in g.busy ==>
              s.active[key] == Counter(|CountedSince(g, key, g.busy[key].since)|, g.busy[key].last + Lifetime(window))
  {
  }

  lemma {:induction false} GrantsFields(g: Ledger, lease: string, scopes: set<string>, now: int, window: int)
    ensures var g' := Grants(g, lease, scopes, now, window);
            && g'.granted == g.granted[lease := Grant(now, scopes)] && g'.open == g.open + {lease}
            && g'.busy.Keys == g.busy.Keys + scopes
            && (forall k :: k in g'.busy ==>
                  if k in scopes then g'.busy[k].last == now else k in g.busy && g'.busy[k] == g.busy[k])
  {
  }

  lemma {:induction false} NewLease(s: Store, g: Ledger, lease: string, now: int, window: int)
    requires CountersTrack(s, g, window) && lease !in g.granted
    ensures lease !in s.leases && LeaseOf(s, lease, now) == {}
  {
  }

  /** The acquire script does what is described, for a lease id never used before and distinct scopes. */
  lemma {:induction false} AcquireRefines(
    s: Store, g: Ledger, scopes: seq<Scope>, lease: string, last: int, now: int, window: int)
    requires RatesTrack(s, g, last, window) && CountersTrack(s, g, window) && WellKept(g, last, window)
    requires last <= now && window >= 1 && scopes != [] && DistinctScopes(scopes) && lease !in g.granted
    ensures var (reply, after) := AcquireScript(s, scopes, lease, now, window);
            var (described, g') := Acquire(g, scopes, lease, now, window);
            && reply == described && RatesTrack(after, g', now, window)
            && CountersTrack(after, g', window) && WellKept(g', now, window)
  {
    hide RatesTrack, Members, Named, Newer, Holders, EnterAll, KeysOf, Judge, CheckScopes, Grants, WellKept,
         CountersTrack;
    CheckTracks(s, g, scopes, last, now, window);
    var (reply, checked) := CheckScopes(s, scopes, now, window);
    SameCounters(s, checked, g, window);
    KeptLater(g, last, now, window);
    if reply == Allow {
      EnteringTracks(checked, g, scopes, lease, last, now, window);
      GrantKeeps(g, lease, KeysOf(scopes), now, last, window);
    }
  }

  lemma {:induction false} KeptLater(g: Ledger, last: int, now: int, window: int)
    requires WellKept(g, last, window) && last <= now
    ensures WellKept(g, now, window)
  {
  }

  lemma {:induction false} SameCounters(s: Store, t: Store, g: Ledger, window: int)
    requires CountersTrack(s, g, window) && s.active == t.active && s.leases == t.leases
    ensures CountersTrack(t, g, window)
  {
  }

  /** In time, the lease counts on each of its scopes, whose counters are there. */
  lemma {:induction false} InTimeIsCounted(g: Ledger, lease: string, last: int, now: int, window: int, key: string)
    requires WellKept(g, last, window) && last <= now && lease in g.open && InTime(g, lease, now, window)
    requires key in g.granted[lease].scopes
    ensures key in g.busy && now <= g.busy[key].last + Lifetime(window) &&
            lease in CountedSince(g, key, g.busy[key].since)
  {
    assert key in g.busy && g.granted[lease].at <= g.busy[key].last;
    var at, b := g.granted[lease].at, g.busy[key];
    assert at >= b.since || at + Lifetime(window) < b.since;
  }

  lemma {:induction false} CountedAfterRelease(g: Ledger, lease: string, last: int, now: int, window: int, key: string)
    requires WellKept(g, last, window) && last <= now && key in g.busy
    ensures var (before, after) := (CountedSince(g, key, g.busy[key].since),
                                    CountedSince(Release(g, lease, now, window), key, g.busy[key].since));
            var leaves := lease in g.open && InTime(g, lease, now, window) && key in g.granted[lease].scopes;
            && after == (if leaves then before - {lease} else before)
            && (leaves ==> lease in before && now <= g.busy[key].last + Lifetime(window))
  {
    if lease in g.open && InTime(g, lease, now, window) && key in g.granted[lease].scopes {
      InTimeIsCounted(g, lease, last, now, window, key);
    }
  }

  /** The release script does what is described, for a lease or any other name. */
  lemma {:induction false} ReleaseRefines(s: Store, g: Ledger, lease: string, last: int, now: int, window: int)
    requires RatesTrack(s, g, last, window) && CountersTrack(s, g, window) && WellKept(g, last, window) && last <= now
    ensures var (after, g') := (ReleaseScript(s, lease, now), Release(g, lease, now, window));
            RatesTrack(after, g', now, window) && CountersTrack(after, g', window) && WellKept(g', now, window)
  {
    hide RatesTrack, CountedSince, WellKept;
    var after, g' := ReleaseScript(s, lease, now), Release(g, lease, now, window);
    SameRates(s, after, g, g', last, now, window);
    ReleaseKeeps(g, lease, last, now, window);
    forall key | key in g.busy
      ensures after.active[key] ==
              Counter(|CountedSince(g', key, g.busy[key].since)|, g.busy[key].last + Lifetime(window))
    {
      CountedAfterRelease(g, lease, last, now, window, key);
    }
    assert after.leases.Keys == g'.open;
  }

  lemma {:induction false} ReleaseKeeps(g: Ledger, lease: string, last: int, now: int, window: int)
    requires WellKept(g, last, window) && last <= now
    ensures WellKept(Release(g, lease, now, window), now, window)
  {
  }

  lemma {:induction false} SameRates(s: Store, t: Store, g: Ledger, g': Ledger, last: int, now: int, window: int)
    requires RatesTrack(s, g, last, window) && last <= now && s.rates == t.rates && g.granted == g'.granted
    ensures RatesTrack(t, g', now, window)
  {
    hide Newer, Named;
    forall key, later, cutoff | later >= now && cutoff >= later - window
      ensures Newer(Members(t, key, later), cutoff) == Newer(Named(g'.granted, key), cutoff)
    {
      assert Members(t, key, later) == Members(s, key, later);
    }
  }

  // ----- runs -----

  datatype Op = AcquireOp(scopes: seq<Scope>, lease: string, now: int) | ReleaseOp(lease: string, now: int)

  function Apply(s: Store, op: Op, window: int): Store {
    match op
    case AcquireOp(scopes, lease, now) => AcquireScript(s, scopes, lease, now, window).1
    case ReleaseOp(lease, now) => ReleaseScript(s, lease, now)
  }

  function Describe(g: Ledger, op: Op, window: int): Ledger {
    match op
    case AcquireOp(scopes, lease, now) => Acquire(g, scopes, lease, now, window).1
    case ReleaseOp(lease, now) => Release(g, lease, now, window)
  }

  function Run(ops: seq<Op>, window: int): Store {
    if ops == [] then EMPTY else Apply(Run(ops[..|ops| - 1], window), ops[|ops| - 1], window)
  }

  function Described(ops: seq<Op>, window: int): Ledger {
    if ops == [] then NOTHING else Describe(Described(ops[..|ops| - 1], window), ops[|ops| - 1], window)
  }

  /** The time of the latest script. */
  function Clock(ops: seq<Op>): int { if ops == [] then 0 else ops[|ops| - 1].now }

  /** Lease ids are used once, scopes are distinct, and the clock starts at 0 and never goes back. */
  ghost predicate WellUsed(ops: seq<Op>) {
    && (forall i :: 0 <= i < |ops| ==> Clock(ops[..i]) <= ops[i].now)
    && (forall i :: 0 <= i < |ops| && ops[i].AcquireOp? ==> ops[i].scopes != [] && DistinctScopes(ops[i].scopes))
    && (forall i, j :: 0 <= i < j < |ops| && ops[i].AcquireOp? && ops[j].AcquireOp? ==> ops[i].lease != ops[j].lease)
  }

  lemma {:induction false} WellUsedBefore(ops: seq<Op>, n: nat)
    requires WellUsed(ops) && n <= |ops|
    ensures WellUsed(ops[..n])
  {
    assert forall i :: 0 <= i < n ==> ops[..n][..i] == ops[..i];
  }

  lemma {:induction false} GrantedWereAcquired(ops: seq<Op>, window: int, lease: string)
    requires lease in Described(ops, window).granted
    ensures exists i :: 0 <= i < |ops| && ops[i].AcquireOp? && ops[i].lease == lease
    decreases |ops|
  {
    hide Judge, KeysOf;
    var n := |ops| - 1;
    if lease in Described(ops[..n], window).granted {
      GrantedWereAcquired(ops[..n], window, lease);
      var i :| 0 <= i < n && ops[..n][i].AcquireOp? && ops[..n][i].lease == lease;
      assert ops[i].lease == lease;
    }
  }

  /** In every well-used run the Redis data agree with the description. */
  lemma {:induction false} RunTracks(ops: seq<Op>, window: int)
    requires WellUsed(ops) && window >= 1
    ensures RatesTrack(Run(ops, window), Described(ops, window), Clock(ops), window)
    ensures CountersTrack(Run(ops, window), Described(ops, window), window)
    ensures WellKept(Described(ops, window), Clock(ops), window)
    decreases |ops|
  {
    hide RatesTrack, CountersTrack, WellKept, AcquireScript, Acquire, ReleaseScript, Release, WellUsed;
    if ops == [] {
      EmptyTracks(window);
    } else {
      var n := |ops| - 1;
      WellUsedBefore(ops, n);
      RunTracks(ops[..n], window);
      ClockRises(ops);
      match ops[n] {
        case AcquireOp(scopes, lease, now) =>
          FreshLease(ops, window);
          AcquireRefines(Run(ops[..n], window), Described(ops[..n], window), scopes, lease, Clock(ops[..n]), now,
            window);
        case ReleaseOp(lease, now) =>
          ReleaseRefines(Run(ops[..n], window), Described(ops[..n], window), lease, Clock(ops[..n]), now, window);
      }
    }
  }

  lemma {:induction false} ClockRises(ops: seq<Op>)
    requires WellUsed(ops) && ops != []
    ensures Clock(ops[..|ops| - 1]) <= ops[|ops| - 1].now
  {
  }

  lemma {:induction false} FreshLease(ops: seq<Op>, window: int)
    requires WellUsed(ops) && ops != [] && ops[|ops| - 1].AcquireOp?
    ensures var n := |ops| - 1;
            && ops[n].lease !in Described(ops[..n], window).granted && ops[n].scopes != [] &&
                 DistinctScopes(ops[n].scopes)
  {
    hide Described, Clock;
    var n := |ops| - 1;
    if ops[n].lease in Described(ops[..n], window).granted {
      GrantedWereAcquired(ops[..n], window, ops[n].lease);
    }
  }

  lemma {:induction false} EmptyTracks(window: int)
    ensures RatesTrack(EMPTY, NOTHING, 0, window) && CountersTrack(EMPTY, NOTHING, window) &&
            WellKept(NOTHING, 0, window)
  {
    assert forall key :: Named(map[], key) == map[];
  }

  /**
   * After every well-used run: an acquisition is allowed exactly when each scope has fewer
   * admissions in the last window than its rate limit and fewer leases that count than its
   * concurrency limit; every counter is the number of leases that count on its scope; and a second
   * release of a lease changes nothing.
   */
  lemma {:induction false} ScriptsDecideExactly(ops: seq<Op>, scopes: seq<Scope>, lease: string, now: int, window: int)
    requires WellUsed(ops + [AcquireOp(scopes, lease, now)]) && window >= 1
    ensures var s, g := Run(ops, window), Described(ops, window);
            && (AcquireScript(s, scopes, lease, now, window).0 == Allow <==>
                  forall i :: 0 <= i < |scopes| ==>
                    |Newer(Named(g.granted, scopes[i].key), now - window)| < scopes[i].rateLimit &&
                    |Holders(g, scopes[i].key, now, window)| < scopes[i].concurrencyLimit)
            && (forall key :: Active(s, key, now) == |Holders(g, key, now, window)|)
            && (forall other, later :: now <= later ==>
                  ReleaseScript(ReleaseScript(s, other, now), other, later) == ReleaseScript(s, other, now))
  {
    hide AcquireScript, Named, Newer, Holders, WellUsed, ReleaseScript, Active, WellKept, RatesTrack, CountersTrack;
    var all := ops + [AcquireOp(scopes, lease, now)];
    assert all[..|ops|] == ops;
    WellUsedBefore(all, |ops|);
    ClockRises(all);
    RunTracks(ops, window);
    FreshLease(all, window);
    var s, g := Run(ops, window), Described(ops, window);
    AcquireRefines(s, g, scopes, lease, Clock(ops), now, window);
    forall key ensures Active(s, key, now) == |Holders(g, key, now, window)| {
      CounterIsHolders(s, g, key, now, window);
    }
    forall other, later | now <= later
      ensures ReleaseScript(ReleaseScript(s, other, now), other, later) == ReleaseScript(s, other, now)
    {
      ReleaseTwice(s, other, now, later);
    }
  }

  /**
   * What a refusal promises: once the time it names has passed since the last command, no scope that
   * admits anything is over its rate limit. (Nothing of the kind holds of the concurrency limit.)
   */
  lemma {:induction false} RateWaitIsEnough(ops: seq<Op>, scopes: seq<Scope>, lease: string, now: int, window: int)
    requires WellUsed(ops) && window >= 1 && Clock(ops) + window <= now
    requires forall i :: 0 <= i < |scopes| ==> scopes[i].rateLimit >= 1
    ensures !AcquireScript(Run(ops, window), scopes, lease, now, window).0.RateLimited?
  {
    hide Run, Described, WellUsed, RatesTrack, CountersTrack, WellKept, Holders;
    var g := Described(ops, window);
    RunTracks(ops, window);
    CheckTracks(Run(ops, window), g, scopes, Clock(ops), now, window);
    NothingRecent(Run(ops, window), g, Clock(ops), now, window);
    JudgeIsNotRate(g, scopes, now, window);
  }

  lemma {:induction false} NothingRecent(s: Store, g: Ledger, last: int, now: int, window: int)
    requires RatesTrack(s, g, last, window) && last + window <= now
    ensures forall key :: |Newer(Named(g.granted, key), now - window)| == 0
  {
    forall key ensures |Newer(Named(g.granted, key), now - window)| == 0 {
      assert Newer(Named(g.granted, key), now - window) == map[];
    }
  }

  lemma {:induction false} JudgeIsNotRate(g: Ledger, scopes: seq<Scope>, now: int, window: int)
    requires forall key :: |Newer(Named(g.granted, key), now - window)| == 0
    requires forall i :: 0 <= i < |scopes| ==> scopes[i].rateLimit >= 1
    ensures !Judge(g, scopes, now, window).RateLimited?
    decreases |scopes|
  {
    hide Newer, Named, Holders;
    if scopes != [] { JudgeIsNotRate(g, scopes[..|scopes| - 1], now, window); }
  }

  lemma {:induction false} ReleaseTwice(s: Store, lease: string, now: int, later: int)
    ensures ReleaseScript(ReleaseScript(s, lease, now), lease, later) == ReleaseScript(s, lease, now)
  {
    var once := ReleaseScript(s, lease, now);
    assert LeaseOf(once, lease, later) == {};
    assert Leave(once.active, {}, later) == once.active;
    assert once.leases - {lease} == once.leases;
  }

  // ----- what a release gives back -----

  /**
   * After every well-used run, for a lease not yet released: its release lowers the counter of each
   * of its scopes by one exactly when the lease is at most three windows old; an older lease has
   * lost its own set, and its release lowers nothing, however busy its scopes are.
   */
  lemma {:induction false} ReleaseRestoresExactly(ops: seq<Op>, lease: string, now: int, window: int, key: string)
    requires WellUsed(ops + [ReleaseOp(lease, now)]) && window >= 1 && lease in Described(ops, window).open
    ensures var s, g := Run(ops, window), Described(ops, window);
            && lease in g.granted
            && Active(ReleaseScript(s, lease, now), key, now) ==
                 Active(s, key, now) -
                 (if key in g.granted[lease].scopes && now <= g.granted[lease].at + Lifetime(window) then 1 else 0)
  {
    hide ReleaseScript, WellUsed, Active, WellKept, RatesTrack, CountersTrack, Release, CountedSince;
    var all := ops + [ReleaseOp(lease, now)];
    assert all[..|ops|] == ops;
    WellUsedBefore(all, |ops|);
    ClockRises(all);
    RunTracks(ops, window);
    var s, g := Run(ops, window), Described(ops, window);
    OpenIsGranted(g, Clock(ops), window);
    ReleaseRefines(s, g, lease, Clock(ops), now, window);
    CounterIsHolders(s, g, key, now, window);
    CounterIsHolders(ReleaseScript(s, lease, now), Release(g, lease, now, window), key, now, window);
    HoldersAfterRelease(g, lease, Clock(ops), now, window, key);
  }

  /** How often a call names a scope. */
  function Mentions(scopes: seq<Scope>, key: string): nat {
    if scopes == [] then 0
    else Mentions(scopes[..|scopes| - 1], key) + if scopes[|scopes| - 1].key == key then 1 else 0
  }

  lemma {:induction false} EnterCounts(s: Store, scopes: seq<Scope>, lease: string, now: int, window: int, key: string)
    requires window >= 1
    ensures var after := EnterAll(s, scopes, lease, now, window);
            && (key in KeysOf(scopes) <==> Mentions(scopes, key) > 0)
            && (if key in KeysOf(scopes) then
                  key in after.active &&
                  after.active[key] == Counter(Active(s, key, now) + Mentions(scopes, key), now + Lifetime(window))
                else
                  (key in after.active <==> key in s.active) &&
                  (key in s.active ==> after.active[key] == s.active[key]))
    decreases |scopes|
  {
    hide KeysOf;
    NoKeys();
    if scopes != [] {
      EnterCounts(s, scopes[..|scopes| - 1], lease, now, window, key);
      KeysStep(scopes);
    }
  }

  /**
   * Any call, with repeated scopes too: entering under a new lease and releasing it within three
   * windows leaves each counter higher by the repeats of its scope.
   */
  lemma {:induction false} RepeatedScopeLeaks(
    s: Store, scopes: seq<Scope>, lease: string, now: int, later: int, window: int, key: string)
    requires window >= 1 && now <= later <= now + Lifetime(window) && lease !in s.leases && Active(s, key, now) >= 0
    ensures var released := ReleaseScript(EnterAll(s, scopes, lease, now, window), lease, later);
            Active(released, key, later) ==
            if Mentions(scopes, key) > 0 then Active(s, key, now) + Mentions(scopes, key) - 1 else Active(s, key, later)
  {
    hide EnterAll, KeysOf;
    NoKeys();
    EnterCounts(s, scopes, lease, now, window, key);
    EnterAllLease(s, scopes, lease, now, window);
    assert {} + KeysOf(scopes) == KeysOf(scopes);
  }

  lemma {:induction false} DistinctMentionOnce(scopes: seq<Scope>, key: string)
    requires DistinctScopes(scopes)
    ensures Mentions(scopes, key) <= 1
    decreases |scopes|
  {
    if scopes != [] {
      var n := |scopes| - 1;
      DistinctMentionOnce(scopes[..n], key);
      MentionedIsThere(scopes[..n], key);
    }
  }

  /** A scope named twice is mentioned twice. */
  lemma {:induction false} RepeatMentionsTwice(scopes: seq<Scope>, i: nat, j: nat)
    requires i < j < |scopes| && scopes[i].key == scopes[j].key
    ensures Mentions(scopes, scopes[j].key) >= 2
    decreases |scopes|
  {
    var n := |scopes| - 1;
    if j < n {
      RepeatMentionsTwice(scopes[..n], i, j);
    } else {
      assert scopes[..n][i].key == scopes[j].key;
      MentionedIsThere(scopes[..n], scopes[j].key);
    }
  }

  lemma {:induction false} DistinctExactly(scopes: seq<Scope>)
    ensures DistinctScopes(scopes) <==> forall key :: Mentions(scopes, key) <= 1
  {
    hide Mentions;
    if DistinctScopes(scopes) {
      forall key ensures Mentions(scopes, key) <= 1 { DistinctMentionOnce(scopes, key); }
    } else {
      var i, j :| 0 <= i < j < |scopes| && scopes[i].key == scopes[j].key;
      RepeatMentionsTwice(scopes, i, j);
    }
  }

  lemma {:induction false} MentionedIsThere(scopes: seq<Scope>, key: string)
    ensures Mentions(scopes, key) > 0 <==> exists i :: 0 <= i < |scopes| && scopes[i].key == key
    decreases |scopes|
  {
    if scopes != [] {
      var n := |scopes| - 1;
      MentionedIsThere(scopes[..n], key);
      assert forall i :: 0 <= i < n ==> scopes[..n][i] == scopes[i];
    }
  }

  /** The release brings every counter back exactly when the call names no scope twice. */
  lemma {:induction false} CountersReturnExactly(
    s: Store, scopes: seq<Scope>, lease: string, now: int, later: int, window: int)
    requires window >= 1 && now <= later <= now + Lifetime(window) && lease !in s.leases
    requires forall key :: Active(s, key, now) >= 0
    ensures var released := ReleaseScript(EnterAll(s, scopes, lease, now, window), lease, later);
            (forall key :: Mentions(scopes, key) > 0 ==> Active(released, key, later) == Active(s, key, now)) <==>
            DistinctScopes(scopes)
  {
    hide EnterAll, ReleaseScript, Active, Mentions, DistinctScopes;
    DistinctExactly(scopes);
    forall key
      ensures Mentions(scopes, key) > 0 ==>
                Active(ReleaseScript(EnterAll(s, scopes, lease, now, window), lease, later), key, later) ==
                Active(s, key, now) + Mentions(scopes, key) - 1
    {
      RepeatedScopeLeaks(s, scopes, lease, now, later, window, key);
    }
  }

  lemma {:induction false} OpenIsGranted(g: Ledger, last: int, window: int)
    requires WellKept(g, last, window)
    ensures g.open <= g.granted.Keys
  {
  }

  lemma {:induction false} HoldersAfterRelease(g: Ledger, lease: string, last: int, now: int, window: int, key: string)
    requires WellKept(g, last, window) && last <= now && lease in g.open && lease in g.granted
    ensures |Holders(Release(g, lease, now, window), key, now, window)| ==
            |Holders(g, key, now, window)| -
            (if key in g.granted[lease].scopes && InTime(g, lease, now, window) then 1 else 0)
  {
    hide CountedSince;
    if key in g.busy {
      CountedAfterRelease(g, lease, last, now, window, key);
    } else if key in g.granted[lease].scopes && InTime(g, lease, now, window) {
      InTimeIsCounted(g, lease, last, now, window, key);
    }
  }

  lemma {:induction false} OneScope(s: Store, scope: Scope, lease: string, now: int, window: int)
    requires |Members(Prune(s, scope.key, now, window), scope.key, now)| < scope.rateLimit
    requires Active(s, scope.key, now) < scope.concurrencyLimit
    ensures var (reply, after) := AcquireScript(s, [scope], lease, now, window);
            && reply == Allow
            && after.rates == s.rates[scope.key := after.rates[scope.key]]
            && after.rates[scope.key].members == Members(Prune(s, scope.key, now, window), scope.key, now)[lease := now]
            && after.active == s.active[scope.key := Counter(Active(s, scope.key, now) + 1, now + 3 * window)]
            && after.leases ==
                 s.leases[lease := LeaseSet(LeaseOf(s, lease, now) + {scope.key}, now + 3 * window)]
  {
    hide Members, Active, LeaseOf;
    var pruned := Prune(s, scope.key, now, window);
    assert [scope][..0] == [] && [scope][0] == scope;
    PruneKeepsCounters(s, scope.key, now, window);
    SameActive(s, pruned, scope.key, now);
    SameLease(s, pruned, lease, now);
    assert CheckScopes(s, [scope][..0], now, window) == (Allow, s);
    assert CheckScopes(s, [scope], now, window) == (Allow, pruned);
    assert EnterAll(pruned, [scope][..0], lease, now, window) == pruned;
    assert EnterAll(pruned, [scope], lease, now, window) == Enter(pruned, scope.key, lease, now, window);
  }

  lemma {:induction false} SameLease(s: Store, t: Store, lease: string, now: int)
    requires s.leases == t.leases
    ensures LeaseOf(s, lease, now) == LeaseOf(t, lease, now)
  {
  }

  /**
   * A lease held over three windows on a scope that is used meanwhile: its release lowers nothing,
   * and the counter says two though one lease is left.
   */
  lemma {:induction false} StaleLeaseSticks(scope: Scope, window: int)
    requires window >= 1 && scope.rateLimit >= 1 && scope.concurrencyLimit >= 2
    ensures var ops := [AcquireOp([scope], "a", 0), AcquireOp([scope], "b", 2 * window)];
            var held := Run(ops, window);
            && Active(held, scope.key, 4 * window) == 2
            && Active(ReleaseScript(held, "a", 4 * window), scope.key, 4 * window) == 2
  {
    var ops := [AcquireOp([scope], "a", 0), AcquireOp([scope], "b", 2 * window)];
    hide AcquireScript, Prune;
    assert ops[..1] == [ops[0]] && ops[..1][..0] == [];
    var first := Run(ops[..1], window);
    assert Run(ops[..1][..0], window) == EMPTY && ops[..1][0] == ops[0];
    assert first == Apply(EMPTY, ops[0], window);
    NothingToPrune(scope.key, 0, window);
    OneScope(EMPTY, scope, "a", 0, window);
    OldIsPruned(first, scope.key, "a", window);
    OneScope(first, scope, "b", 2 * window, window);
  }

  lemma {:induction false} NothingToPrune(key: string, now: int, window: int)
    ensures Members(Prune(EMPTY, key, now, window), key, now) == map[]
  {
  }

  lemma {:induction false} OldIsPruned(s: Store, key: string, lease: string, window: int)
    requires window >= 1 && key in s.rates && s.rates[key].members == map[lease := 0]
    ensures Members(Prune(s, key, 2 * window, window), key, 2 * window) == map[]
  {
  }

  /** The leases on a scope that are neither released nor older than three windows. */
  function Living(g: Ledger, key: string, now: int, window: int): set<string> {
    set l | l in g.open && InTime(g, l, now, window) && key in g.granted[l].scopes
  }

  lemma {:induction false} LivingHold(g: Ledger, key: string, last: int, now: int, window: int)
    requires WellKept(g, last, window) && last <= now
    ensures Living(g, key, now, window) <= Holders(g, key, now, window)
    ensures forall l :: l in Holders(g, key, now, window) && InTime(g, l, now, window) ==>
            l in Living(g, key, now, window)
  {
    forall l | l in Living(g, key, now, window) ensures l in Holders(g, key, now, window) {
      InTimeIsCounted(g, l, last, now, window, key);
    }
  }

  lemma {:induction false} SameSizeExactly(part: set<string>, whole: set<string>)
    requires part <= whole
    ensures |part| == |whole| <==> part == whole
  {
    assert whole == part + (whole - part);
    if |part| == |whole| { assert |whole - part| == 0; }
  }

  /**
   * After every well-used run, a counter is the number of leases neither released nor older than
   * three windows, exactly when none of the leases counted since the counter began is older.
   */
  lemma {:induction false} CounterIsLivingExactly(ops: seq<Op>, now: int, window: int, key: string)
    requires WellUsed(ops) && window >= 1 && Clock(ops) <= now
    ensures var s, g := Run(ops, window), Described(ops, window);
            Active(s, key, now) == |Living(g, key, now, window)| <==>
            forall l :: l in Holders(g, key, now, window) ==> InTime(g, l, now, window)
  {
    hide WellKept, WellUsed, Run, Described, CountersTrack, RatesTrack, Holders, InTime;
    var s, g := Run(ops, window), Described(ops, window);
    RunTracks(ops, window);
    CounterIsHolders(s, g, key, now, window);
    LivingHold(g, key, Clock(ops), now, window);
    SameSizeExactly(Living(g, key, now, window), Holders(g, key, now, window));
  }
}
