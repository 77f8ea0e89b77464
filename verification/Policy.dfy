/** Composition of policy layers into the effective policy of a request. */
module Policy {
  import opened Results
  import opened Text

  datatype Scope = Global | Tenant | Workspace | Role

  /** The six lists of rights. */
  datatype Right = Sources | Assets | Models | Tools | Actions | Classifications

  type Rights = map<Right, seq<string>>

  function Granted(rights: Rights, k: Right): seq<string> { if k in rights then rights[k] else [] }

  datatype Budget = Budget(currency: string, limitMinor: int, remainingMinor: int)

  datatype Layer = Layer(
    scope: Scope, policyId: string, version: int, rights: Rights, retentionMaxDays: int, freshnessMaxAgeSeconds: int,
    insightsAllowed: bool, budget: Budget)

  datatype Context = Context(tenantId: string, workspaceId: string, userId: string, deviceId: string, requestId: string)

  datatype Verdict = Allow | Deny

  /** What a policy permits, apart from whom it was made for and when. */
  datatype Permission = Permission(
    verdict: Verdict, denyReasons: seq<string>, rights: Rights, retentionMaxDays: int, freshnessMaxAgeSeconds: int,
    insightsAllowed: bool, budget: Budget)

  datatype Provenance = Provenance(scope: Scope, policyId: string, version: int)

  datatype EffectivePolicy = EffectivePolicy(
    context: Context, policyVersion: string, permission: Permission, budgetScope: string,
    provenance: seq<Provenance>, evaluatedAt: int, expiresAt: int)

  // ----- the layers by scope -----

  function Count(layers: seq<Layer>, scope: Scope): nat {
    if layers == [] then 0
    else Count(layers[..|layers| - 1], scope) + if layers[|layers| - 1].scope == scope then 1 else 0
  }

  /** The first layer of a scope, or none. */
  function Find(layers: seq<Layer>, scope: Scope): seq<Layer> {
    if layers == [] then [] else if layers[0].scope == scope then [layers[0]] else Find(layers[1..], scope)
  }

  /** The first layer of each scope, in the order of the scopes. */
  function Ordered(layers: seq<Layer>): seq<Layer> {
    Find(layers, Global) + Find(layers, Tenant) + Find(layers, Workspace) + Find(layers, Role)
  }

  function ScopeName(s: Scope): string {
    match s case Global => "global" case Tenant => "tenant" case Workspace => "workspace" case Role => "role"
  }

  function Number(n: int): string { if n < 0 then "-" + Decimal(-n) else Decimal(n) }

  function Identity(l: Layer): string { ScopeName(l.scope) + (":" + (l.policyId + (":" + Number(l.version)))) }

  function Identities(layers: seq<Layer>): (ids: seq<string>)
    ensures |ids| == |layers| && forall i :: 0 <= i < |layers| ==> ids[i] == Identity(layers[i])
  {
    seq(|layers|, i requires 0 <= i < |layers| => Identity(layers[i]))
  }

  function VersionOf(ordered: seq<Layer>): string { Join("|", Identities(ordered)) }

  function ProvenanceOf(ordered: seq<Layer>): (p: seq<Provenance>)
    ensures |p| == |ordered|
    ensures forall i :: 0 <= i < |p| ==> p[i] == Provenance(ordered[i].scope, ordered[i].policyId, ordered[i].version)
  {
    seq(|ordered|,
      i requires 0 <= i < |ordered| => Provenance(ordered[i].scope, ordered[i].policyId, ordered[i].version))
  }

  // ----- the parts of the decision -----

  /** `prefix` with the name of each scope in turn whose flag is set. */
  function Reasons(prefix: string, flags: seq<bool>): seq<string>
    requires |flags| == 4
  {
    (if flags[0] then [prefix + "global"] else []) + (if flags[1] then [prefix + "tenant"] else []) +
    (if flags[2] then [prefix + "workspace"] else []) + (if flags[3] then [prefix + "role"] else [])
  }

  function Missing(layers: seq<Layer>): seq<string> {
    Reasons("POLICY_MISSING:", [
      Count(layers, Global) == 0, Count(layers, Tenant) == 0, Count(layers, Workspace) == 0, Count(layers, Role) == 0])
  }

  function Conflicts(layers: seq<Layer>): seq<string> {
    Reasons("POLICY_CONFLICT:", [
      Count(layers, Global) > 1, Count(layers, Tenant) > 1, Count(layers, Workspace) > 1, Count(layers, Role) > 1])
  }

  predicate OneCurrency(ordered: seq<Layer>) {
    forall i, j :: 0 <= i < j < |ordered| ==> ordered[i].budget.currency == ordered[j].budget.currency
  }

  predicate ValidLayer(l: Layer) {
    l.version >= 1 && l.retentionMaxDays >= 0 && l.freshnessMaxAgeSeconds >= 0 && l.budget.limitMinor >= 0 &&
    l.budget.remainingMinor >= 0
  }

  predicate AllValid(ordered: seq<Layer>) { forall i :: 0 <= i < |ordered| ==> ValidLayer(ordered[i]) }

  function OtherReasons(ordered: seq<Layer>): seq<string> {
    (if OneCurrency(ordered) then [] else ["POLICY_CONFLICT:budget_currency"]) +
    (if AllValid(ordered) then [] else ["POLICY_INVALID"])
  }

  /** [...new Set(s)] */
  function Unique(s: seq<string>): seq<string> {
    if s == [] then []
    else
      var before, last := Unique(s[..|s| - 1]), s[|s| - 1];
      if last in before then before else before + [last]
  }

  function GrantedByAll(s: seq<string>, layers: seq<Layer>, k: Right): seq<string> {
    if s == [] then []
    else
      var before, last := GrantedByAll(s[..|s| - 1], layers, k), s[|s| - 1];
      if forall i :: 0 <= i < |layers| ==> last in Granted(layers[i].rights, k) then before + [last] else before
  }

  function Intersection(layers: seq<Layer>, k: Right): seq<string> {
    if layers == [] then [] else GrantedByAll(Unique(Granted(layers[0].rights, k)), layers[1..], k)
  }

  datatype Measure = Retention | Freshness | Limit | Remaining

  function Amount(l: Layer, m: Measure): int {
    match m
    case Retention => l.retentionMaxDays
    case Freshness => l.freshnessMaxAgeSeconds
    case Limit => l.budget.limitMinor
    case Remaining => l.budget.remainingMinor
  }

  function Minimum(layers: seq<Layer>, m: Measure): int {
    if layers == [] then 0
    else if |layers| == 1 then Amount(layers[0], m)
    else
      var rest, first := Minimum(layers[1..], m), Amount(layers[0], m);
      if first < rest then first else rest
  }

  const NO_RIGHTS: Rights := map[Sources := [], Assets := [], Models := [], Tools := [], Actions := [],
    Classifications := []]

  function AllRights(ordered: seq<Layer>): Rights {
    map[
      Sources := Intersection(ordered, Sources), Assets := Intersection(ordered, Assets),
      Models := Intersection(ordered, Models), Tools := Intersection(ordered, Tools),
      Actions := Intersection(ordered, Actions), Classifications := Intersection(ordered, Classifications)]
  }

  function CurrencyOf(ordered: seq<Layer>): string {
    if ordered != [] && OneCurrency(ordered) then ordered[0].budget.currency else "XXX"
  }

  function PermissionOf(reasons: seq<string>, ordered: seq<Layer>): Permission {
    var verdict := if reasons == [] then Allow else Deny;
    if verdict == Allow then
      Permission(
        Allow, reasons, AllRights(ordered), Minimum(ordered, Retention), Minimum(ordered, Freshness),
        forall i :: 0 <= i < |ordered| ==> ordered[i].insightsAllowed,
        Budget(CurrencyOf(ordered), Minimum(ordered, Limit), Minimum(ordered, Remaining)))
    else Permission(Deny, reasons, NO_RIGHTS, 0, 0, false, Budget(CurrencyOf(ordered), 0, 0))
  }

  function ReasonsOf(layers: seq<Layer>): seq<string> {
    Missing(layers) + Conflicts(layers) + OtherReasons(Ordered(layers))
  }

  function Composed(c: Context, layers: seq<Layer>, evaluatedAt: int, expiresAt: int): EffectivePolicy {
    var ordered := Ordered(layers);
    EffectivePolicy(
      c, VersionOf(ordered), PermissionOf(ReasonsOf(layers), ordered), c.workspaceId, ProvenanceOf(ordered),
      evaluatedAt, expiresAt)
  }

  /** composeEffectivePolicy */
  method Compose(c: Context, layers: seq<Layer>, evaluatedAt: int, expiresAt: int) returns (p: EffectivePolicy)
    ensures p == Composed(c, layers, evaluatedAt, expiresAt)
  {
    hide Ordered, OtherReasons, PermissionOf, VersionOf;
    var counts: map<Scope, nat> := map[];
    for i := 0 to |layers|
      invariant forall s :: s in counts ==> counts[s] > 0
      invariant forall s :: (if s in counts then counts[s] else 0) == Count(layers[..i], s)
    {
      assert layers[..i + 1][..i] == layers[..i];
      var s := layers[i].scope;
      counts := counts[s := (if s in counts then counts[s] else 0) + 1];
    }
    assert layers[..|layers|] == layers;
    var missing := Reasons("POLICY_MISSING:", [
      Global !in counts, Tenant !in counts, Workspace !in counts, Role !in counts]);
    var conflicts := Reasons("POLICY_CONFLICT:", [
      Global in counts && counts[Global] > 1, Tenant in counts && counts[Tenant] > 1,
      Workspace in counts && counts[Workspace] > 1, Role in counts && counts[Role] > 1]);
    assert missing == Missing(layers) && conflicts == Conflicts(layers);
    var ordered := Ordered(layers);
    var reasons := missing + conflicts + OtherReasons(ordered);
    p := EffectivePolicy(
      c, VersionOf(ordered), PermissionOf(reasons, ordered), c.workspaceId, ProvenanceOf(ordered), evaluatedAt,
        expiresAt);
  }
}
