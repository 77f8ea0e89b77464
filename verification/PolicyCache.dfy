/** Resolving the effective policy of a request through the cache, and why an entry can be trusted. */
module PolicyCache {
  import opened Results
  import opened Text
  import opened Policy
  import opened PolicyMeaning

  // ----- the published layers -----

  datatype RowState = Draft | Published | Retired

  datatype Row = Row(
    layer: Layer, tenantId: Option<string>, workspaceId: Option<string>, role: Option<string>, state: RowState)

  type Database = seq<Row>

  /** The columns that a row's scope fills in. */
  predicate WellScoped(r: Row) {
    match r.layer.scope
    case Global => r.tenantId.None? && r.workspaceId.None? && r.role.None?
    case Tenant => r.tenantId.Some? && r.workspaceId.None? && r.role.None?
    case Workspace => r.tenantId.Some? && r.workspaceId.Some? && r.role.None?
    case Role => r.tenantId.Some? && r.workspaceId.Some? && r.role.Some?
  }

  predicate SamePlace(a: Row, b: Row) {
    a.layer.scope == b.layer.scope && a.tenantId == b.tenantId && a.workspaceId == b.workspaceId && a.role == b.role
  }

  /** The table's checks and its unique index on published rows. */
  predicate ValidDatabase(db: Database) {
    && (forall i :: 0 <= i < |db| ==> WellScoped(db[i]))
    && forall i, j :: 0 <= i < j < |db| ==> db[i].state == Published && db[j].state == Published ==>
         !SamePlace(db[i], db[j])
  }

  /** Whether a row is loaded for a request whose member has `role`. */
  predicate Applies(r: Row, c: Context, role: Option<string>) {
    && r.state == Published
    && match r.layer.scope
       case Global => true
       case Tenant => r.tenantId == Some(c.tenantId)
       case Workspace => r.tenantId == Some(c.tenantId) && r.workspaceId == Some(c.workspaceId)
       case Role =>
         r.tenantId == Some(c.tenantId) && r.workspaceId == Some(c.workspaceId) && role.Some? && r.role == role
  }

  function LoadScope(db: Database, c: Context, role: Option<string>, s: Scope): seq<Layer> {
    if db == [] then []
    else
      LoadScope(db[..|db| - 1], c, role, s) +
      if db[|db| - 1].layer.scope == s && Applies(db[|db| - 1], c, role) then [db[|db| - 1].layer] else []
  }

  function LoadPublished(db: Database, c: Context, role: Option<string>): seq<Layer> {
    LoadScope(db, c, role, Global) + LoadScope(db, c, role, Tenant) + LoadScope(db, c, role, Workspace) +
    LoadScope(db, c, role, Role)
  }

  lemma {:induction false} LoadsFromRows(db: Database, c: Context, role: Option<string>, s: Scope)
    ensures forall l :: l in LoadScope(db, c, role, s) <==>
              exists i :: 0 <= i < |db| && db[i].layer == l && l.scope == s && Applies(db[i], c, role)
    decreases |db|
  {
    hide Applies;
    if db != [] {
      LoadsFromRows(db[..|db| - 1], c, role, s);
      assert forall i :: 0 <= i < |db| - 1 ==> db[..|db| - 1][i] == db[i];
    }
  }

  /**
   * Which layers a request gets: those of published rows that are global, or of its own tenant, or of
   * its own workspace there, or of its member's role in that workspace; from global to role.
   */
  lemma {:induction false} LoadedExactly(db: Database, c: Context, role: Option<string>)
    requires forall i :: 0 <= i < |db| ==> WellScoped(db[i])
    ensures var loaded := LoadPublished(db, c, role);
            && (forall l :: l in loaded <==> exists i :: 0 <= i < |db| && db[i].layer == l && IsFor(db[i], c, role))
            && (forall i, j :: 0 <= i < j < |loaded| ==> Rank(loaded[i].scope) <= Rank(loaded[j].scope))
  {
    hide WellScoped, LoadScope;
    forall i | 0 <= i < |db| ensures IsFor(db[i], c, role) <==> Applies(db[i], c, role) {
      AppliesExactly(db[i], c, role);
    }
    hide Applies, IsFor;
    LoadsFromRows(db, c, role, Global);
    LoadsFromRows(db, c, role, Tenant);
    LoadsFromRows(db, c, role, Workspace);
    LoadsFromRows(db, c, role, Role);
    InFour(LoadScope(db, c, role, Global), LoadScope(db, c, role, Tenant), LoadScope(db, c, role, Workspace),
           LoadScope(db, c, role, Role));
  }

  function Rank(s: Scope): nat { match s case Global => 1 case Tenant => 2 case Workspace => 3 case Role => 4 }

  /** The row's columns are those of the request, as far as the row fills them in. */
  predicate IsFor(r: Row, c: Context, role: Option<string>) {
    && r.state == Published
    && (r.tenantId.Some? ==> r.tenantId.value == c.tenantId)
    && (r.workspaceId.Some? ==> r.workspaceId.value == c.workspaceId)
    && (r.role.Some? ==> r.role == role)
  }

  lemma {:induction false} AppliesExactly(r: Row, c: Context, role: Option<string>)
    requires WellScoped(r)
    ensures IsFor(r, c, role) <==> Applies(r, c, role)
  {
  }

  lemma {:induction false} InFour(a: seq<Layer>, b: seq<Layer>, c: seq<Layer>, d: seq<Layer>)
    requires forall l :: l in a ==> l.scope == Global
    requires forall l :: l in b ==> l.scope == Tenant
    requires forall l :: l in c ==> l.scope == Workspace
    requires forall l :: l in d ==> l.scope == Role
    ensures var all := a + b + c + d;
            && (forall l :: l in all <==> l in a || l in b || l in c || l in d)
            && (forall i, j :: 0 <= i < j < |all| ==> Rank(all[i].scope) <= Rank(all[j].scope))
  {
    var all := a + b + c + d;
    forall i | 0 <= i < |all|
      ensures Rank(all[i].scope) ==
              if i < |a| then 1 else if i < |a| + |b| then 2 else if i < |a| + |b| + |c| then 3 else 4
    {
      if i < |a| { assert all[i] == a[i] && a[i] in a; }
      else if i < |a| + |b| { assert all[i] == b[i - |a|] && b[i - |a|] in b; }
      else if i < |a| + |b| + |c| { assert all[i] == c[i - |a| - |b|] && c[i - |a| - |b|] in c; }
      else { assert all[i] == d[i - |a| - |b| - |c|] && d[i - |a| - |b| - |c|] in d; }
    }
  }

  lemma {:induction false} AppliedInOnePlace(a: Row, b: Row, c: Context, role: Option<string>)
    requires WellScoped(a) && WellScoped(b) && Applies(a, c, role) && Applies(b, c, role) &&
             a.layer.scope == b.layer.scope
    ensures a.state == Published && b.state == Published && SamePlace(a, b)
  {
  }

  /** Two published rows of one scope are in one place exactly when some request can load both. */
  lemma {:induction false} PlaceExactly(a: Row, b: Row)
    requires WellScoped(a) && WellScoped(b) && a.state == Published && b.state == Published
    requires a.layer.scope == b.layer.scope
    ensures SamePlace(a, b) <==> exists c, role :: Applies(a, c, role) && Applies(b, c, role)
  {
    if SamePlace(a, b) {
      var c := Context(
        if a.tenantId.Some? then a.tenantId.value else "",
        if a.workspaceId.Some? then a.workspaceId.value else "", "", "", "");
      assert Applies(a, c, a.role) && Applies(b, c, a.role);
    }
    if exists c, role :: Applies(a, c, role) && Applies(b, c, role) {
      var c, role :| Applies(a, c, role) && Applies(b, c, role);
      AppliedInOnePlace(a, b, c, role);
    }
  }

  lemma {:induction false} LoadsOnce(db: Database, c: Context, role: Option<string>, s: Scope)
    requires ValidDatabase(db)
    ensures |LoadScope(db, c, role, s)| <= 1
    decreases |db|
  {
    hide Applies, WellScoped, SamePlace;
    if db != [] {
      var n := |db| - 1;
      LoadsOnce(db[..n], c, role, s);
      LoadsFromRows(db[..n], c, role, s);
      if LoadScope(db[..n], c, role, s) != [] && db[n].layer.scope == s && Applies(db[n], c, role) {
        var l := LoadScope(db[..n], c, role, s)[0];
        var i :| 0 <= i < n && db[..n][i].layer == l && l.scope == s && Applies(db[..n][i], c, role);
        AppliedInOnePlace(db[i], db[n], c, role);
        assert false;
      }
    }
  }

  /** The unique index leaves at most one layer of each scope to load. */
  lemma {:induction false} LoadsAtMostOne(db: Database, c: Context, role: Option<string>)
    requires ValidDatabase(db)
    ensures AtMostOne(LoadPublished(db, c, role))
  {
    hide Applies, LoadScope, ValidDatabase;
    LoadsOnce(db, c, role, Global);
    LoadsOnce(db, c, role, Tenant);
    LoadsOnce(db, c, role, Workspace);
    LoadsOnce(db, c, role, Role);
    LoadsFromRows(db, c, role, Global);
    LoadsFromRows(db, c, role, Tenant);
    LoadsFromRows(db, c, role, Workspace);
    LoadsFromRows(db, c, role, Role);
  }

  // ----- resolving -----

  /** What goes wrong, if anything; a write can also take effect although its answer is lost. */
  datatype Fault =
    | NoFault | DeviceRevoked | SecurityDown | LoadDown | CacheDown | AuditDown | AuditLost | PublishDown | PublishLost

  datatype Resolution = Resolved(policy: EffectivePolicy) | PolicyDenied | DependencyUnavailable

  datatype AuditEvent = AuditEvent(context: Context, policyVersion: string, verdict: Verdict, denyReasons: seq<string>)

  type Cache = map<string, EffectivePolicy>

  const LIFETIME: int := 5 * 60 * 1000

  function Key(c: Context): string {
    "domus:policy:" + c.tenantId + ":" + c.workspaceId + ":" + c.userId + ":" + c.deviceId
  }

  predicate ColonFree(c: Context) {
    ':' !in c.tenantId && ':' !in c.workspaceId && ':' !in c.userId && ':' !in c.deviceId
  }

  /** Cached policies are kept apart by tenant, workspace, user and device, which are ids without colons. */
  lemma {:induction false} KeyExactly(a: Context, b: Context)
    requires ColonFree(a) && ColonFree(b)
    ensures Key(a) == Key(b) <==> SameSubject(a, b)
  {
    KeyIsJoined(a);
    KeyIsJoined(b);
    if Key(a) == Key(b) { JoinIsInjective(':', KeyParts(a), KeyParts(b)); }
    hide Key;
    assert KeyParts(a)[2] == a.tenantId && KeyParts(a)[3] == a.workspaceId;
  }

  function KeyParts(c: Context): seq<string> { ["domus", "policy", c.tenantId, c.workspaceId, c.userId, c.deviceId] }

  lemma {:induction false} KeyIsJoined(c: Context)
    ensures Key(c) == Join([':'], KeyParts(c))
  {
    var parts := KeyParts(c);
    assert parts[..5][..4] == parts[..4] && parts[..4][..3] == parts[..3] && parts[..3][..2] == ["domus", "policy"];
    JoinOfTwo(":", "domus", "policy");
    var one := "domus:policy:" + c.tenantId;
    assert "domus" + (":" + "policy") + (":" + c.tenantId) == one;
    assert one + ":" + c.workspaceId == one + (":" + c.workspaceId);
    var two := one + ":" + c.workspaceId;
    assert two + ":" + c.userId == two + (":" + c.userId);
    var three := two + ":" + c.userId;
    assert three + ":" + c.deviceId == three + (":" + c.deviceId);
    assert Join(":", parts[..3]) == one && Join(":", parts[..4]) == two && Join(":", parts[..5]) == three;
  }

  predicate SameSubject(a: Context, b: Context) {
    a.tenantId == b.tenantId && a.workspaceId == b.workspaceId && a.userId == b.userId && a.deviceId == b.deviceId
  }

  predicate CacheMatches(p: EffectivePolicy, c: Context, version: string, now: int) {
    p.policyVersion == version && SameSubject(p.context, c) && p.expiresAt > now
  }

  /** The cache's get: an entry of another version is not returned. */
  function Get(cache: Cache, c: Context, version: string): Option<EffectivePolicy> {
    if Key(c) in cache && cache[Key(c)].policyVersion == version then Some(cache[Key(c)]) else None
  }

  function AuditOf(c: Context, p: EffectivePolicy): AuditEvent {
    AuditEvent(c, p.policyVersion, p.permission.verdict, p.permission.denyReasons)
  }

  datatype State = State(cache: Cache, audit: seq<AuditEvent>)

  /** The policy that a resolution settles on. */
  function Effective(cache: Cache, c: Context, computed: EffectivePolicy, now: int): EffectivePolicy {
    var cached := Get(cache, c, computed.policyVersion);
    if cached.Some? && CacheMatches(cached.value, c, computed.policyVersion, now) then cached.value else computed
  }

  function Fresh(c: Context, layers: seq<Layer>, now: int): EffectivePolicy { Composed(c, layers, now, now + LIFETIME) }

  function ResolveTx(s: State, c: Context, layers: seq<Layer>, now: int, fault: Fault): (Resolution, State) {
    var computed := Fresh(c, layers, now);
    var effective := Effective(s.cache, c, computed, now);
    var audited := State(s.cache, s.audit + [AuditOf(c, effective)]);
    var published := State(s.cache[Key(effective.context) := effective], audited.audit);
    var fromCache := Get(s.cache, c, computed.policyVersion).Some? &&
                     CacheMatches(Get(s.cache, c, computed.policyVersion).value, c, computed.policyVersion, now);
    var end := if effective.permission.verdict == Deny then PolicyDenied else Resolved(effective);
    match fault
    case DeviceRevoked => (PolicyDenied, s)
    case SecurityDown => (DependencyUnavailable, s)
    case LoadDown => (DependencyUnavailable, s)
    case CacheDown => (DependencyUnavailable, s)
    case AuditDown => (DependencyUnavailable, s)
    case AuditLost => (DependencyUnavailable, audited)
    case PublishDown => if fromCache then (end, audited) else (DependencyUnavailable, audited)
    case PublishLost => if fromCache then (end, audited) else (DependencyUnavailable, published)
    case NoFault => (end, if fromCache then audited else published)
  }

  /** The stored policy can stand for this one: of the same versions, for the same subject, and not over. */
  predicate CanStandFor(cache: Cache, c: Context, made: EffectivePolicy, now: int) {
    && Key(c) in cache
    && var p := cache[Key(c)];
       p.policyVersion == made.policyVersion && p.context.tenantId == c.tenantId &&
       p.context.workspaceId == c.workspaceId && p.context.userId == c.userId && p.context.deviceId == c.deviceId &&
       now < p.expiresAt
  }

  /**
   * One resolution, exactly: a revoked device is denied, a failing dependency makes it unavailable, and
   * else the settled policy decides. It is audited unless something failed before, and stored unless it
   * came from the cache; a write whose answer is lost has been made all the same.
   */
  lemma {:induction false} ResolveExactly(s: State, c: Context, layers: seq<Layer>, now: int, fault: Fault)
    ensures var made := Composed(c, layers, now, now + 300000);
            var stored := CanStandFor(s.cache, c, made, now);
            var settled := if stored then s.cache[Key(c)] else made;
            var entry := AuditEvent(
                           c, settled.policyVersion, settled.permission.verdict, settled.permission.denyReasons);
            var (r, after) := ResolveTx(s, c, layers, now, fault);
            && (r == PolicyDenied <==>
                  fault == DeviceRevoked ||
                  ((fault == NoFault || (stored && fault in {PublishDown, PublishLost})) &&
                   settled.permission.verdict == Deny))
            && (r == DependencyUnavailable <==>
                  fault in {SecurityDown, LoadDown, CacheDown, AuditDown, AuditLost} ||
                  (!stored && fault in {PublishDown, PublishLost}))
            && (r.Resolved? ==> r.policy == settled)
            && after.audit ==
                 (if fault in {NoFault, AuditLost, PublishDown, PublishLost} then s.audit + [entry] else s.audit)
            && after.cache == (if !stored && fault in {NoFault, PublishLost} then s.cache[Key(c) := made] else s.cache)
  {
    hide Key, VersionOf, PermissionOf, ProvenanceOf, ReasonsOf, Ordered;
  }

  class PolicyResolver {
    var cache: Cache
    var audit: seq<AuditEvent>

    constructor ()
      ensures cache == map[] && audit == []
    {
      cache, audit := map[], [];
    }

    ghost function Abstract(): State reads this { State(cache, audit) }

    /** resolveEffectivePolicy; `fault` is the dependency that fails, if any. */
    method Resolve(c: Context, layers: seq<Layer>, now: int, fault: Fault) returns (r: Resolution)
      modifies this
      ensures (r, Abstract()) == ResolveTx(old(Abstract()), c, layers, now, fault)
    {
      hide Composed, Key, CacheMatches, AuditOf;
      if fault == DeviceRevoked { return PolicyDenied; }
      if fault == SecurityDown || fault == LoadDown { return DependencyUnavailable; }
      var computed := Compose(c, layers, now, now + LIFETIME);
      if fault == CacheDown { return DependencyUnavailable; }
      var cached := Get(cache, c, computed.policyVersion);
      var matches := cached.Some? && CacheMatches(cached.value, c, computed.policyVersion, now);
      var effective := if matches then cached.value else computed;
      if fault == AuditDown { return DependencyUnavailable; }
      audit := audit + [AuditOf(c, effective)];
      if fault == AuditLost { return DependencyUnavailable; }
      if cached.None? || !matches {
        if fault == PublishDown { return DependencyUnavailable; }
        cache := cache[Key(effective.context) := effective];
        if fault == PublishLost { return DependencyUnavailable; }
      }
      return if effective.permission.verdict == Deny then PolicyDenied else Resolved(effective);
    }
  }

  // ----- agreement with a fresh composition -----

  /** What each row of the table says, for good: a version of a policy is never rewritten. */
  type Catalogue = map<(string, int), Layer>

  ghost predicate FromCatalogue(layers: seq<Layer>, k: Catalogue) {
    forall l :: l in layers ==> Clean(l.policyId) && (l.policyId, l.version) in k && k[(l.policyId, l.version)] == l
  }

  /** An entry that was composed, at some time, from layers of the catalogue with no scope twice. */
  ghost predicate ComposedBefore(p: EffectivePolicy, k: Catalogue) {
    exists layers :: AtMostOne(layers) && FromCatalogue(layers, k) &&
      p == Fresh(p.context, layers, p.evaluatedAt)
  }

  ghost predicate SoundCache(cache: Cache, k: Catalogue) {
    forall key :: key in cache ==> ComposedBefore(cache[key], k)
  }

  /** The same in everything that matters to a request. */
  predicate SamePolicy(a: EffectivePolicy, b: EffectivePolicy) {
    && a.policyVersion == b.policyVersion && a.permission == b.permission && a.budgetScope == b.budgetScope
    && a.provenance == b.provenance && SameSubject(a.context, b.context)
  }

  lemma {:induction false} OrderedFromLayers(layers: seq<Layer>)
    ensures forall l :: l in Ordered(layers) ==> l in layers
  {
    hide Find;
    FindIsFirst(layers, Global);
    FindIsFirst(layers, Tenant);
    FindIsFirst(layers, Workspace);
    FindIsFirst(layers, Role);
  }

  /** Equal version strings mean equal ordered layers. */
  lemma {:induction false} VersionTellsLayers(a: seq<Layer>, b: seq<Layer>, k: Catalogue)
    requires FromCatalogue(a, k) && FromCatalogue(b, k) && VersionOf(Ordered(a)) == VersionOf(Ordered(b))
    ensures Ordered(a) == Ordered(b)
  {
    hide Ordered, VersionOf, Clean;
    OrderedFromLayers(a);
    OrderedFromLayers(b);
    var x, y := Ordered(a), Ordered(b);
    VersionIsInjective(x, y);
    assert |x| == |ProvenanceOf(x)| == |y|;
    forall i | 0 <= i < |x| ensures x[i] == y[i] {
      assert ProvenanceOf(x)[i] == ProvenanceOf(y)[i];
      assert x[i] in x && y[i] in y;
    }
  }

  /**
   * A matching entry against the layers loaded now: it is what a fresh composition gives exactly
   * when no scope is loaded twice.
   */
  lemma {:induction false} EntryAgreesExactly(
    p: EffectivePolicy, c: Context, layers: seq<Layer>, now: int, k: Catalogue)
    requires ComposedBefore(p, k) && FromCatalogue(layers, k)
    requires CacheMatches(p, c, Fresh(c, layers, now).policyVersion, now)
    ensures SamePolicy(p, Fresh(c, layers, now)) <==> AtMostOne(layers)
    ensures p.permission.verdict == Fresh(c, layers, now).permission.verdict <==>
            AtMostOne(layers) || p.permission.verdict == Deny
  {
    hide FromCatalogue, AtMostOne, Ordered, VersionOf, ReasonsOf, ProvenanceOf, Sound;
    var before :| AtMostOne(before) && FromCatalogue(before, k) && p == Fresh(p.context, before, p.evaluatedAt);
    VersionTellsLayers(before, layers, k);
    SamePermissionExactly(before, layers);
    AllowedExactly(c, before, now, now);
  }

  lemma {:induction false} FindAppend(a: seq<Layer>, b: seq<Layer>, s: Scope)
    requires HasScope(a, s)
    ensures Find(a + b, s) == Find(a, s)
    decreases |a|
  {
    var l :| l in a && l.scope == s;
    assert (a + b)[0] == a[0];
    if a[0].scope != s {
      assert l in a[1..];
      assert (a + b)[1..] == a[1..] + b;
      FindAppend(a[1..], b, s);
    }
  }

  /**
   * Should a scope be loaded twice, a fresh composition denies, but an entry made before the second
   * layer appeared has the same version string and still allows until it expires.
   */
  lemma {:induction false} DuplicateScopeIsMissed(c: Context, layers: seq<Layer>, extra: Layer, earlier: int, now: int)
    requires Sound(layers) && earlier <= now < earlier + LIFETIME
    ensures var entry := Fresh(c, layers, earlier);
            && Fresh(c, layers + [extra], now).permission.verdict == Deny
            && ResolveTx(State(map[Key(c) := entry], []), c, layers + [extra], now, NoFault).0 == Resolved(entry)
  {
    hide Sound, Ordered, VersionOf, PermissionOf, ReasonsOf, ProvenanceOf, ResolveTx;
    var both, entry := layers + [extra], Fresh(c, layers, earlier);
    SameOrder(layers, extra);
    DuplicateIsUnsound(layers, extra);
    AllowedExactly(c, layers, earlier, earlier + LIFETIME);
    AllowedExactly(c, both, now, now + LIFETIME);
    assert CacheMatches(entry, c, Fresh(c, both, now).policyVersion, now);
    EntryIsFound(c, entry, both, now);
  }

  lemma {:induction false} DuplicateIsUnsound(layers: seq<Layer>, extra: Layer)
    requires Sound(layers)
    ensures !Sound(layers + [extra])
  {
    hide IsValid;
    var both := layers + [extra];
    assert HasScope(layers, extra.scope);
    var l :| l in layers && l.scope == extra.scope;
    var i :| 0 <= i < |layers| && layers[i] == l;
    assert both[i].scope == both[|layers|].scope;
  }

  lemma {:induction false} SameOrder(layers: seq<Layer>, extra: Layer)
    requires Sound(layers)
    ensures Ordered(layers + [extra]) == Ordered(layers)
  {
    hide Find, IsValid;
    FindAppend(layers, [extra], Global);
    FindAppend(layers, [extra], Tenant);
    FindAppend(layers, [extra], Workspace);
    FindAppend(layers, [extra], Role);
  }

  lemma {:induction false} EntryIsFound(c: Context, entry: EffectivePolicy, layers: seq<Layer>, now: int)
    requires entry.permission.verdict == Allow && CacheMatches(entry, c, Fresh(c, layers, now).policyVersion, now)
    ensures ResolveTx(State(map[Key(c) := entry], []), c, layers, now, NoFault).0 == Resolved(entry)
  {
    hide Composed, Key;
  }

  /** A resolution settles on what a fresh composition gives, and it is not out of date. */
  lemma {:induction false} EffectiveAgrees(cache: Cache, c: Context, layers: seq<Layer>, now: int, k: Catalogue)
    requires SoundCache(cache, k) && AtMostOne(layers) && FromCatalogue(layers, k)
    ensures SamePolicy(Effective(cache, c, Fresh(c, layers, now), now), Fresh(c, layers, now))
    ensures Effective(cache, c, Fresh(c, layers, now), now).expiresAt > now
    ensures ComposedBefore(Effective(cache, c, Fresh(c, layers, now), now), k)
  {
    hide Composed, AtMostOne, FromCatalogue, Key;
    var computed := Fresh(c, layers, now);
    FreshIsComposed(c, layers, now, k);
    var cached := Get(cache, c, computed.policyVersion);
    if cached.Some? && CacheMatches(cached.value, c, computed.policyVersion, now) {
      EntryAgreesExactly(cached.value, c, layers, now, k);
    }
  }

  lemma {:induction false} FreshIsComposed(c: Context, layers: seq<Layer>, now: int, k: Catalogue)
    requires AtMostOne(layers) && FromCatalogue(layers, k)
    ensures ComposedBefore(Fresh(c, layers, now), k) && Fresh(c, layers, now).expiresAt > now
  {
    hide Ordered, VersionOf, PermissionOf, ProvenanceOf, ReasonsOf, AtMostOne, FromCatalogue;
    var p := Fresh(c, layers, now);
    assert p == Fresh(p.context, layers, p.evaluatedAt);
  }

  lemma {:induction false} LoadedFromCatalogue(db: Database, c: Context, role: Option<string>, k: Catalogue)
    requires forall r :: r in db ==> FromCatalogue([r.layer], k)
    ensures FromCatalogue(LoadPublished(db, c, role), k)
  {
    hide Applies, LoadScope, Clean;
    LoadsFromRows(db, c, role, Global);
    LoadsFromRows(db, c, role, Tenant);
    LoadsFromRows(db, c, role, Workspace);
    LoadsFromRows(db, c, role, Role);
    forall l | l in LoadPublished(db, c, role) ensures FromCatalogue([l], k) {
      var i :| 0 <= i < |db| && db[i].layer == l && Applies(db[i], c, role);
      assert db[i] in db;
    }
    assert forall l :: l in LoadPublished(db, c, role) ==> l in [l];
  }
}
