/** The whole composed policy of a request, denied or not, told from its layers alone. */
module PolicyExact {
  import opened Results
  import opened Text
  import opened Policy
  import opened PolicyMeaning

  // ----- the first layer of each scope -----

  predicate IsFirst(layers: seq<Layer>, i: nat) {
    i < |layers| && forall j :: 0 <= j < i ==> layers[j].scope != layers[i].scope
  }

  function Place(s: Scope): nat { match s case Global => 0 case Tenant => 1 case Workspace => 2 case Role => 3 }

  /** The first layers of the scopes, from global to role. */
  ghost predicate AreFirsts(layers: seq<Layer>, firsts: seq<Layer>) {
    && (forall i, j :: 0 <= i < j < |firsts| ==> Place(firsts[i].scope) < Place(firsts[j].scope))
    && (forall l :: l in firsts <==> exists i :: 0 <= i < |layers| && IsFirst(layers, i) && layers[i] == l)
  }

  lemma {:induction false} FindExactly(layers: seq<Layer>, s: Scope)
    ensures |Find(layers, s)| <= 1
    ensures forall l :: l in Find(layers, s) <==>
              exists i :: 0 <= i < |layers| && IsFirst(layers, i) && layers[i] == l && l.scope == s
    decreases |layers|
  {
    if layers != [] {
      var tail := layers[1..];
      FindExactly(tail, s);
      if layers[0].scope == s {
        assert IsFirst(layers, 0);
      } else {
        forall i | 0 <= i < |tail| && tail[i].scope == s ensures IsFirst(tail, i) <==> IsFirst(layers, i + 1) {
          if IsFirst(tail, i) {
            assert forall j :: 1 <= j < i + 1 ==> layers[j] == tail[j - 1];
          }
          if IsFirst(layers, i + 1) {
            assert forall j :: 0 <= j < i ==> tail[j] == layers[j + 1];
          }
        }
        ShiftFirsts(layers, s);
      }
    }
  }

  lemma {:induction false} ShiftFirsts(layers: seq<Layer>, s: Scope)
    requires layers != [] && layers[0].scope != s
    requires forall i :: 0 <= i < |layers[1..]| && layers[1..][i].scope == s ==>
               (IsFirst(layers[1..], i) <==> IsFirst(layers, i + 1))
    ensures forall l: Layer :: l.scope == s ==>
              ((exists i :: 0 <= i < |layers[1..]| && IsFirst(layers[1..], i) && layers[1..][i] == l) <==>
               (exists i :: 0 <= i < |layers| && IsFirst(layers, i) && layers[i] == l))
  {
    hide IsFirst;
    var tail := layers[1..];
    forall l: Layer | l.scope == s
      ensures (exists i :: 0 <= i < |tail| && IsFirst(tail, i) && tail[i] == l) <==>
              (exists i :: 0 <= i < |layers| && IsFirst(layers, i) && layers[i] == l)
    {
      if exists i :: 0 <= i < |tail| && IsFirst(tail, i) && tail[i] == l {
        var i :| 0 <= i < |tail| && IsFirst(tail, i) && tail[i] == l;
        assert IsFirst(layers, i + 1) && layers[i + 1] == l;
      }
      if exists i :: 0 <= i < |layers| && IsFirst(layers, i) && layers[i] == l {
        var i :| 0 <= i < |layers| && IsFirst(layers, i) && layers[i] == l;
        assert tail[i - 1] == l;
      }
    }
  }

  lemma {:induction false} OrderedAreFirsts(layers: seq<Layer>)
    ensures AreFirsts(layers, Ordered(layers))
  {
    hide Find, IsFirst;
    FindExactly(layers, Global);
    FindExactly(layers, Tenant);
    FindExactly(layers, Workspace);
    FindExactly(layers, Role);
    FindIsFirst(layers, Global);
    FindIsFirst(layers, Tenant);
    FindIsFirst(layers, Workspace);
    FindIsFirst(layers, Role);
    var ordered := Ordered(layers);
    forall l ensures l in ordered <==> exists i :: 0 <= i < |layers| && IsFirst(layers, i) && layers[i] == l {
      assert l in ordered <==>
             l in Find(layers, Global) || l in Find(layers, Tenant) || l in Find(layers, Workspace) ||
             l in Find(layers, Role);
      match l.scope case Global => case Tenant => case Workspace => case Role =>
    }
  }

  // ----- the reasons -----

  /** Some scope has a second layer. */
  predicate Doubled(layers: seq<Layer>, s: Scope) {
    exists i, j :: 0 <= i < j < |layers| && layers[i].scope == s && layers[j].scope == s
  }

  function If(condition: bool, reason: string): seq<string> { if condition then [reason] else [] }

  ghost predicate OneCurrencyOnly(firsts: seq<Layer>) {
    forall a, b :: a in firsts && b in firsts ==> a.budget.currency == b.budget.currency
  }

  /**
   * One reason for each missing and each doubled scope, one for mixed currencies, one for a layer
   * that is not valid.
   */
  ghost predicate AreReasons(layers: seq<Layer>, firsts: seq<Layer>, reasons: seq<string>) {
    reasons ==
    If(!HasScope(layers, Global), "POLICY_MISSING:global") + If(!HasScope(layers, Tenant), "POLICY_MISSING:tenant") +
    If(!HasScope(layers, Workspace), "POLICY_MISSING:workspace") + If(!HasScope(layers, Role), "POLICY_MISSING:role") +
    If(Doubled(layers, Global), "POLICY_CONFLICT:global") + If(Doubled(layers, Tenant), "POLICY_CONFLICT:tenant") +
    If(Doubled(layers, Workspace), "POLICY_CONFLICT:workspace") + If(Doubled(layers, Role), "POLICY_CONFLICT:role") +
    If(!OneCurrencyOnly(firsts), "POLICY_CONFLICT:budget_currency") +
    If(exists l :: l in firsts && !IsValid(l), "POLICY_INVALID")
  }

  lemma {:induction false} MissingExactly(layers: seq<Layer>)
    ensures Missing(layers) ==
            If(!HasScope(layers, Global), "POLICY_MISSING:global") +
            If(!HasScope(layers, Tenant), "POLICY_MISSING:tenant") +
            If(!HasScope(layers, Workspace), "POLICY_MISSING:workspace") +
            If(!HasScope(layers, Role), "POLICY_MISSING:role")
  {
    hide HasScope, Count;
    var prefix := "POLICY_MISSING:";
    assert prefix + "global" == "POLICY_MISSING:global" && prefix + "tenant" == "POLICY_MISSING:tenant";
    assert prefix + "workspace" == "POLICY_MISSING:workspace" && prefix + "role" == "POLICY_MISSING:role";
    CountedIsHad(layers, Global);
    CountedIsHad(layers, Tenant);
    CountedIsHad(layers, Workspace);
    CountedIsHad(layers, Role);
  }

  lemma {:induction false} ConflictsExactly(layers: seq<Layer>)
    ensures Conflicts(layers) ==
            If(Doubled(layers, Global), "POLICY_CONFLICT:global") +
            If(Doubled(layers, Tenant), "POLICY_CONFLICT:tenant") +
            If(Doubled(layers, Workspace), "POLICY_CONFLICT:workspace") +
            If(Doubled(layers, Role), "POLICY_CONFLICT:role")
  {
    hide Count;
    var prefix := "POLICY_CONFLICT:";
    assert prefix + "global" == "POLICY_CONFLICT:global" && prefix + "tenant" == "POLICY_CONFLICT:tenant";
    assert prefix + "workspace" == "POLICY_CONFLICT:workspace" && prefix + "role" == "POLICY_CONFLICT:role";
    CountIsOne(layers, Global);
    CountIsOne(layers, Tenant);
    CountIsOne(layers, Workspace);
    CountIsOne(layers, Role);
  }

  lemma {:induction false} OtherExactly(ordered: seq<Layer>)
    ensures OtherReasons(ordered) ==
            If(!OneCurrencyOnly(ordered), "POLICY_CONFLICT:budget_currency") +
            If(exists l :: l in ordered && !IsValid(l), "POLICY_INVALID")
  {
    hide IsValid, ValidLayer;
    forall l: Layer ensures ValidLayer(l) <==> IsValid(l) { ValidExactly(l); }
    CurrencyExactly(ordered);
    assert AllValid(ordered) <==> forall l :: l in ordered ==> IsValid(l);
  }

  lemma {:induction false} CurrencyExactly(ordered: seq<Layer>)
    ensures OneCurrency(ordered) <==> OneCurrencyOnly(ordered)
    ensures CurrencyOf(ordered) ==
            if ordered != [] && OneCurrencyOnly(ordered) then ordered[0].budget.currency else "XXX"
  {
    if OneCurrency(ordered) {
      forall a, b | a in ordered && b in ordered ensures a.budget.currency == b.budget.currency {
        var i :| 0 <= i < |ordered| && ordered[i] == a;
        var j :| 0 <= j < |ordered| && ordered[j] == b;
      }
    }
  }

  lemma {:induction false} ReasonsExactly(layers: seq<Layer>)
    ensures AreReasons(layers, Ordered(layers), ReasonsOf(layers))
  {
    hide Missing, Conflicts, OtherReasons, Ordered, HasScope, Doubled, OneCurrencyOnly, IsValid, If;
    MissingExactly(layers);
    ConflictsExactly(layers);
    OtherExactly(Ordered(layers));
  }

  // ----- the whole policy -----

  function Label(l: Layer): string {
    (match l.scope
     case Global => "global:"
     case Tenant => "tenant:"
     case Workspace => "workspace:"
     case Role => "role:") +
    (l.policyId + (":" + (if l.version < 0 then "-" + Decimal(-l.version) else Decimal(l.version))))
  }

  /** The version string and the provenance name the first layers in turn. */
  ghost predicate Names(p: EffectivePolicy, firsts: seq<Layer>) {
    && (exists labels: seq<string> ::
          && |labels| == |firsts| && (forall i :: 0 <= i < |labels| ==> labels[i] == Label(firsts[i]))
          && p.policyVersion == Join("|", labels))
    && |p.provenance| == |firsts|
    && forall i :: 0 <= i < |firsts| ==>
         p.provenance[i] == Provenance(firsts[i].scope, firsts[i].policyId, firsts[i].version)
  }

  lemma {:induction false} LabelIsIdentity(l: Layer)
    ensures Identity(l) == Label(l)
  {
    var rest := l.policyId + (":" + Number(l.version));
    assert "global" + (":" + rest) == "global:" + rest && "tenant" + (":" + rest) == "tenant:" + rest;
    assert "workspace" + (":" + rest) == "workspace:" + rest && "role" + (":" + rest) == "role:" + rest;
  }

  /** Nothing is permitted. */
  predicate PermitsNothing(p: Permission) {
    && (forall k: Right :: Granted(p.rights, k) == [])
    && p.retentionMaxDays == 0 && p.freshnessMaxAgeSeconds == 0 && !p.insightsAllowed
    && p.budget.limitMinor == 0 && p.budget.remainingMinor == 0
  }

  /**
   * The composed policy: it is made for the request, scoped to its workspace, and names the first layer
   * of each scope; it is allowed exactly when there is no reason against it, and each reason is exact;
   * its currency is that of the first layers if they have one, and XXX if not; denied, it permits
   * nothing.
   */
  lemma {:induction false} ComposedExactly(
    c: Context, layers: seq<Layer>, evaluatedAt: int, expiresAt: int) returns (firsts: seq<Layer>)
    ensures AreFirsts(layers, firsts)
    ensures var p := Composed(c, layers, evaluatedAt, expiresAt);
            && p.context == c && p.budgetScope == c.workspaceId
            && p.evaluatedAt == evaluatedAt && p.expiresAt == expiresAt
            && Names(p, firsts)
            && AreReasons(layers, firsts, p.permission.denyReasons)
            && (p.permission.verdict == Allow <==> p.permission.denyReasons == [])
            && p.permission.budget.currency ==
                 (if firsts != [] && OneCurrencyOnly(firsts) then firsts[0].budget.currency else "XXX")
            && (p.permission.verdict == Deny ==> PermitsNothing(p.permission))
  {
    hide Ordered, ReasonsOf, AreReasons, AreFirsts, Minimum, AllRights, CurrencyOf, OneCurrencyOnly, Label, Identity;
    firsts := Ordered(layers);
    OrderedAreFirsts(layers);
    ReasonsExactly(layers);
    CurrencyExactly(firsts);
    forall i | 0 <= i < |firsts| ensures Identities(firsts)[i] == Label(firsts[i]) { LabelIsIdentity(firsts[i]); }
    if ReasonsOf(layers) != [] { NothingDenied(ReasonsOf(layers), firsts); }
  }

  lemma {:induction false} NothingDenied(reasons: seq<string>, ordered: seq<Layer>)
    requires reasons != []
    ensures PermitsNothing(PermissionOf(reasons, ordered))
  {
    hide AllRights, Minimum, CurrencyOf;
  }

  // ----- the order of the rights -----

  /** Where `x` first stands in `s`, or its length. */
  function FirstPlace(s: seq<string>, x: string): nat {
    if s == [] then 0 else if s[0] == x then 0 else 1 + FirstPlace(s[1..], x)
  }

  /** The entries stand in the order of their first places, so none comes twice. */
  ghost predicate InOrderOf(list: seq<string>, s: seq<string>) {
    forall i, j :: 0 <= i < j < |list| ==> FirstPlace(s, list[i]) < FirstPlace(s, list[j])
  }

  lemma {:induction false} PlaceInLonger(s: seq<string>, last: string, x: string)
    ensures x in s ==> FirstPlace(s + [last], x) == FirstPlace(s, x) < |s|
    ensures x !in s ==> FirstPlace(s + [last], x) >= |s|
    decreases |s|
  {
    if s != [] {
      assert (s + [last])[0] == s[0] && (s + [last])[1..] == s[1..] + [last];
      PlaceInLonger(s[1..], last, x);
    }
  }

  lemma {:induction false} UniqueInOrder(s: seq<string>)
    ensures InOrderOf(Unique(s), s)
    decreases |s|
  {
    if s != [] {
      var n := |s| - 1;
      var before, all := Unique(s[..n]), Unique(s);
      UniqueInOrder(s[..n]);
      assert s == s[..n] + [s[n]];
      forall x ensures x in before <==> x in s[..n] { UniqueKeeps(s[..n], x); }
      forall i, j | 0 <= i < j < |all| ensures FirstPlace(s, all[i]) < FirstPlace(s, all[j]) {
        PlaceInLonger(s[..n], s[n], all[i]);
        PlaceInLonger(s[..n], s[n], all[j]);
        assert all[i] == before[i] && before[i] in before;
        if j < |before| { assert all[j] == before[j] && before[j] in before; }
      }
    }
  }

  lemma {:induction false} FilteredInOrder(list: seq<string>, layers: seq<Layer>, k: Right, s: seq<string>)
    requires InOrderOf(list, s)
    ensures InOrderOf(GrantedByAll(list, layers, k), s)
    decreases |list|
  {
    hide Granted;
    if list != [] {
      var n := |list| - 1;
      var before := GrantedByAll(list[..n], layers, k);
      assert forall i :: 0 <= i < n ==> list[..n][i] == list[i];
      FilteredInOrder(list[..n], layers, k, s);
      forall i | 0 <= i < |before| ensures FirstPlace(s, before[i]) < FirstPlace(s, list[n]) {
        GrantedByAllKeeps(list[..n], layers, k, before[i]);
        assert before[i] in before;
        var j :| 0 <= j < n && list[..n][j] == before[i];
        assert list[j] == before[i];
      }
    }
  }

  /** The rights that are granted stand in the order of the global layer, each once. */
  lemma {:induction false} RightsInOrder(
    c: Context, layers: seq<Layer>, evaluatedAt: int, expiresAt: int, k: Right, l: Layer)
    requires Sound(layers) && l in layers && l.scope == Global
    ensures InOrderOf(Granted(Composed(c, layers, evaluatedAt, expiresAt).permission.rights, k), Granted(l.rights, k))
  {
    hide Ordered, ReasonsOf, Sound, VersionOf, ProvenanceOf, PermissionOf, InOrderOf, Granted, Unique, GrantedByAll,
         AreFirsts;
    AllowedExactly(c, layers, evaluatedAt, expiresAt);
    SoundOrdering(layers);
    var ordered := Ordered(layers);
    RightsOfPermission(ReasonsOf(layers), ordered, k);
    GlobalIsFirst(layers, l);
    UniqueInOrder(Granted(l.rights, k));
    FilteredInOrder(Unique(Granted(l.rights, k)), ordered[1..], k, Granted(l.rights, k));
  }

  lemma {:induction false} GlobalIsFirst(layers: seq<Layer>, l: Layer)
    requires Sound(layers) && l in layers && l.scope == Global
    ensures Ordered(layers) != [] && Ordered(layers)[0] == l
  {
    hide Ordered, IsValid;
    SoundOrdering(layers);
    OrderedAreFirsts(layers);
    var ordered := Ordered(layers);
    var i :| 0 <= i < |ordered| && ordered[i] == l;
    assert i > 0 ==> Place(ordered[0].scope) < Place(ordered[i].scope);
  }
}
