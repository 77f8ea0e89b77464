/**
 * The shared limiter: the acquire and release scripts over Redis sorted sets, counters and lease
 * sets. A script runs as one step; `now` is the time its caller passes.
 */
module RedisResilience {
  import opened Results

  datatype Scope = Scope(key: string, rateLimit: int, concurrencyLimit: int)

  /** A rate set: its members with their scores, and the last moment at which the key is there. */
  datatype RateSet = RateSet(members: map<string, int>, expiresAt: int)

  datatype Counter = Counter(value: int, expiresAt: int)
  datatype LeaseSet = LeaseSet(scopes: set<string>, expiresAt: int)

  datatype Store = Store(rates: map<string, RateSet>, active: map<string, Counter>, leases: map<string, LeaseSet>)

  const EMPTY := Store(map[], map[], map[])

  /** A refusal carries the time after which the caller is told to try again. */
  datatype Reply = Allow | RateLimited(retryAfterMs: int) | ConcurrencyLimited(retryAfterMs: int)

  /** The members of a rate set that has not expired. */
  function Members(s: Store, key: string, now: int): map<string, int> {
    if key in s.rates && now <= s.rates[key].expiresAt then s.rates[key].members else map[]
  }

  /** The counter of a scope, 0 when it is not there or has expired. */
  function Active(s: Store, key: string, now: int): int {
    if key in s.active && now <= s.active[key].expiresAt then s.active[key].value else 0
  }

  function LeaseOf(s: Store, lease: string, now: int): set<string> {
    if lease in s.leases && now <= s.leases[lease].expiresAt then s.leases[lease].scopes else {}
  }

  /** The members scored after `cutoff`. */
  function Newer(members: map<string, int>, cutoff: int): map<string, int> {
    map l | l in members && members[l] > cutoff :: members[l]
  }

  /** ZREMRANGEBYSCORE up to now - window, on a set that may have expired. */
  function Prune(s: Store, key: string, now: int, window: int): Store {
    if key in s.rates then
      s.(rates := s.rates[key := RateSet(Newer(Members(s, key, now), now - window),
                                         if now <= s.rates[key].expiresAt then s.rates[key].expiresAt else now)])
    else s
  }

  /** The first loop of the script: prune and check each scope, up to the first that is full. */
  function CheckScopes(s: Store, scopes: seq<Scope>, now: int, window: int): (Reply, Store) {
    if scopes == [] then (Allow, s)
    else
      var n := |scopes| - 1;
      var (reply, before) := CheckScopes(s, scopes[..n], now, window);
      if reply != Allow then (reply, before)
      else
        var pruned := Prune(before, scopes[n].key, now, window);
        if |Members(pruned, scopes[n].key, now)| >= scopes[n].rateLimit then (RateLimited(window), pruned)
        else if Active(pruned, scopes[n].key, now) >= scopes[n].concurrencyLimit then
          (ConcurrencyLimited(window), pruned)
        else (Allow, pruned)
  }

  /** The second loop's commands for one scope; the lease's own expiry is set with them. */
  function Enter(s: Store, key: string, lease: string, now: int, window: int): Store {
    Store(s.rates[key := RateSet(Members(s, key, now)[lease := now], now + window)],
          s.active[key := Counter(Active(s, key, now) + 1, now + 3 * window)],
          s.leases[lease := LeaseSet(LeaseOf(s, lease, now) + {key}, now + 3 * window)])
  }

  function EnterAll(s: Store, scopes: seq<Scope>, lease: string, now: int, window: int): Store {
    if scopes == [] then s
    else Enter(EnterAll(s, scopes[..|scopes| - 1], lease, now, window), scopes[|scopes| - 1].key, lease, now, window)
  }

  function AcquireScript(s: Store, scopes: seq<Scope>, lease: string, now: int, window: int): (Reply, Store) {
    var (reply, checked) := CheckScopes(s, scopes, now, window);
    if reply != Allow then (reply, checked) else (Allow, EnterAll(checked, scopes, lease, now, window))
  }

  /** DECR of the counters of `scopes` that are there and positive; it keeps their expiry. */
  function Leave(active: map<string, Counter>, scopes: set<string>, now: int): map<string, Counter> {
    map k | k in active ::
      if k in scopes && now <= active[k].expiresAt && active[k].value > 0 then active[k].(value := active[k].value - 1)
      else active[k]
  }

  function ReleaseScript(s: Store, lease: string, now: int): Store {
    Store(s.rates, Leave(s.active, LeaseOf(s, lease, now), now), s.leases - {lease})
  }

  /**
   * The release script, on any data: of the scopes of a lease that is there it lowers the counters that
   * are there and positive, by one, and keeps their expiry; the lease is gone, and nothing else changes.
   */
  lemma {:induction false} ReleaseExactly(s: Store, lease: string, now: int, key: string)
    ensures var after := ReleaseScript(s, lease, now);
            && after.rates == s.rates && lease !in after.leases
            && (forall other :: other != lease ==>
                  (other in after.leases <==> other in s.leases) &&
                  (other in s.leases ==> after.leases[other] == s.leases[other]))
            && (key in after.active <==> key in s.active)
            && (key in s.active ==>
                  var lowered := lease in s.leases && now <= s.leases[lease].expiresAt &&
                                 key in s.leases[lease].scopes && now <= s.active[key].expiresAt &&
                                 s.active[key].value >= 1;
                  && after.active[key].expiresAt == s.active[key].expiresAt
                  && after.active[key].value == s.active[key].value - (if lowered then 1 else 0))
  {
  }

  class RedisStore {
    var rates: map<string, RateSet>
    var active: map<string, Counter>
    var leases: map<string, LeaseSet>

    ghost function Data(): Store
      reads this
    {
      Store(rates, active, leases)
    }

    constructor ()
      ensures Data() == EMPTY
    {
      rates, active, leases := map[], map[], map[];
    }

    /** None is the error for a call that names no scope. */
    method Acquire(scopes: seq<Scope>, lease: string, now: int, window: int) returns (r: Option<Reply>)
      modifies this
      ensures scopes == [] ==> r == None && Data() == old(Data())
      ensures scopes != [] ==> r.Some? && (r.value, Data()) == AcquireScript(old(Data()), scopes, lease, now, window)
    {
      hide Prune, Enter, Members, Active;
      if scopes == [] { return None; }
      for i := 0 to |scopes|
        invariant CheckScopes(old(Data()), scopes[..i], now, window) == (Allow, Data())
      {
        assert scopes[..i + 1][..i] == scopes[..i];
        var scope := scopes[i];
        var pruned := Prune(Store(rates, active, leases), scope.key, now, window);
        rates, active, leases := pruned.rates, pruned.active, pruned.leases;
        if |Members(pruned, scope.key, now)| >= scope.rateLimit {
          CheckStops(old(Data()), scopes, i + 1, now, window);
          return Some(RateLimited(window));
        }
        if Active(pruned, scope.key, now) >= scope.concurrencyLimit {
          CheckStops(old(Data()), scopes, i + 1, now, window);
          return Some(ConcurrencyLimited(window));
        }
      }
      assert scopes[..|scopes|] == scopes;
      EnterScopes(scopes, lease, now, window);
      return Some(Allow);
    }

    /** The second loop of the script. */
    method EnterScopes(scopes: seq<Scope>, lease: string, now: int, window: int)
      modifies this
      ensures Data() == EnterAll(old(Data()), scopes, lease, now, window)
    {
      hide Enter;
      for i := 0 to |scopes|
        invariant Data() == EnterAll(old(Data()), scopes[..i], lease, now, window)
      {
        assert scopes[..i + 1][..i] == scopes[..i];
        var entered := Enter(Store(rates, active, leases), scopes[i].key, lease, now, window);
        rates, active, leases := entered.rates, entered.active, entered.leases;
      }
      assert scopes[..|scopes|] == scopes;
    }

    /** The release script at the server's time `now`. */
    method Release(lease: string, now: int) returns (count: nat)
      modifies this
      ensures Data() == ReleaseScript(old(Data()), lease, now) && count == |LeaseOf(old(Data()), lease, now)|
    {
      var scopes := LeaseOf(Store(rates, active, leases), lease, now);
      var left := scopes;
      while left != {}
        invariant left <= scopes && active == Leave(old(active), scopes - left, now)
        invariant rates == old(rates) && leases == old(leases)
        decreases left
      {
        var scope :| scope in left;
        ghost var done := scopes - left;
        if scope in active && now <= active[scope].expiresAt && active[scope].value > 0 {
          active := active[scope := active[scope].(value := active[scope].value - 1)];
        }
        left := left - {scope};
        assert scopes - left == done + {scope};
      }
      assert scopes - {} == scopes;
      leases := leases - {lease};
      return |scopes|;
    }
  }

  /** A check that has stopped is not changed by further scopes. */
  lemma {:induction false} CheckStops(s: Store, scopes: seq<Scope>, i: nat, now: int, window: int)
    requires i <= |scopes| && CheckScopes(s, scopes[..i], now, window).0 != Allow
    ensures CheckScopes(s, scopes, now, window) == CheckScopes(s, scopes[..i], now, window)
    decreases |scopes| - i
  {
    if i == |scopes| {
      assert scopes[..i] == scopes;
    } else {
      assert scopes[..i + 1][..i] == scopes[..i];
      CheckStops(s, scopes, i + 1, now, window);
    }
  }
}
