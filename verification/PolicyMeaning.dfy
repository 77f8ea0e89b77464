/** What a composed policy decides and grants, in terms of its layers, and what its version string tells. */
module PolicyMeaning {
  import opened Results
  import opened Text
  import opened Policy

  // ----- layers by scope -----

  predicate AtMostOne(layers: seq<Layer>) {
    forall i, j :: 0 <= i < j < |layers| ==> layers[i].scope != layers[j].scope
  }

  lemma {:induction false} CountIsZero(layers: seq<Layer>, s: Scope)
    ensures Count(layers, s) == 0 <==> forall i :: 0 <= i < |layers| ==> layers[i].scope != s
    ensures Count(layers, s) == 0 <==> Find(layers, s) == []
    decreases |layers|
  {
    CountFromFront(layers, s);
    if layers != [] { CountIsZero(layers[1..], s); }
  }

  lemma {:induction false} CountFromFront(layers: seq<Layer>, s: Scope)
    ensures layers != [] ==> Count(layers, s) == (if layers[0].scope == s then 1 else 0) + Count(layers[1..], s)
    decreases |layers|
  {
    if |layers| > 1 {
      var n := |layers| - 1;
      CountFromFront(layers[..n], s);
      assert layers[..n][1..] == layers[1..][..n - 1];
    }
  }

  lemma {:induction false} CountIsOne(layers: seq<Layer>, s: Scope)
    ensures Count(layers, s) <= 1 <==>
            forall i, j :: 0 <= i < j < |layers| ==> layers[i].scope != s || layers[j].scope != s
    decreases |layers|
  {
    CountFromFront(layers, s);
    if layers != [] {
      CountIsOne(layers[1..], s);
      CountIsZero(layers[1..], s);
      var tail := layers[1..];
      assert forall i :: 1 <= i < |layers| ==> layers[i] == tail[i - 1];
      assert forall i :: 0 <= i < |tail| ==> tail[i] == layers[i + 1];
    }
  }

  /** No scope has two layers exactly when no conflict is reported. */
  lemma {:induction false} NoConflictIsAtMostOne(layers: seq<Layer>)
    ensures Conflicts(layers) == [] <==> AtMostOne(layers)
  {
    CountIsOne(layers, Global);
    CountIsOne(layers, Tenant);
    CountIsOne(layers, Workspace);
    CountIsOne(layers, Role);
  }

  lemma {:induction false} FindIsFirst(layers: seq<Layer>, s: Scope)
    ensures |Find(layers, s)| <= 1
    ensures forall l :: l in Find(layers, s) ==> l in layers && l.scope == s
    ensures (exists i :: 0 <= i < |layers| && layers[i].scope == s) ==> Find(layers, s) != []
    decreases |layers|
  {
    if layers != [] {
      FindIsFirst(layers[1..], s);
      assert layers == [layers[0]] + layers[1..];
      if layers[0].scope != s && exists i :: 0 <= i < |layers| && layers[i].scope == s {
        var i :| 0 <= i < |layers| && layers[i].scope == s;
        assert layers[1..][i - 1] == layers[i];
      }
    }
  }

  lemma {:induction false} FoundByScope(layers: seq<Layer>, l: Layer)
    requires AtMostOne(layers)
    ensures l in layers <==> l in Find(layers, l.scope)
  {
    FindIsFirst(layers, l.scope);
    if l in layers {
      var i :| 0 <= i < |layers| && layers[i] == l;
      var found := Find(layers, l.scope)[0];
      assert found in layers;
      var j :| 0 <= j < |layers| && layers[j] == found;
    }
  }

  /** With at most one layer a scope, ordering keeps the layers. */
  lemma {:induction false} OrderedKeeps(layers: seq<Layer>, l: Layer)
    requires AtMostOne(layers)
    ensures l in Ordered(layers) <==> l in layers
  {
    hide Find;
    FoundByScope(layers, l);
    FindIsFirst(layers, Global);
    FindIsFirst(layers, Tenant);
    FindIsFirst(layers, Workspace);
    FindIsFirst(layers, Role);
  }

  // ----- the verdict -----

  predicate HasScope(layers: seq<Layer>, s: Scope) { exists l :: l in layers && l.scope == s }

  /** Each scope has exactly one layer, every layer is valid, and all have one currency. */
  predicate Sound(layers: seq<Layer>) {
    && AtMostOne(layers)
    && HasScope(layers, Global) && HasScope(layers, Tenant) && HasScope(layers, Workspace) && HasScope(layers, Role)
    && (forall a, b :: a in layers && b in layers ==> a.budget.currency == b.budget.currency)
    && forall l :: l in layers ==> IsValid(l)
  }

  /** A version from 1 on, and no negative amount. */
  predicate IsValid(l: Layer) {
    1 <= l.version && 0 <= l.retentionMaxDays && 0 <= l.freshnessMaxAgeSeconds && 0 <= l.budget.limitMinor &&
    0 <= l.budget.remainingMinor
  }

  lemma {:induction false} ValidExactly(l: Layer)
    ensures ValidLayer(l) <==> IsValid(l)
  {
  }

  lemma {:induction false} NothingMissing(layers: seq<Layer>)
    ensures Missing(layers) == [] <==>
            HasScope(layers, Global) && HasScope(layers, Tenant) && HasScope(layers, Workspace) &&
              HasScope(layers, Role)
  {
    CountedIsHad(layers, Global);
    CountedIsHad(layers, Tenant);
    CountedIsHad(layers, Workspace);
    CountedIsHad(layers, Role);
  }

  lemma {:induction false} CountedIsHad(layers: seq<Layer>, s: Scope)
    ensures Count(layers, s) > 0 <==> HasScope(layers, s)
  {
    CountIsZero(layers, s);
    if Count(layers, s) > 0 {
      var i :| 0 <= i < |layers| && layers[i].scope == s;
      assert layers[i] in layers;
    }
  }

  lemma {:induction false} NothingElse(layers: seq<Layer>)
    requires AtMostOne(layers)
    ensures OtherReasons(Ordered(layers)) == [] <==>
            (forall a, b :: a in layers && b in layers ==> a.budget.currency == b.budget.currency) &&
            forall l :: l in layers ==> IsValid(l)
  {
    hide Ordered, ValidLayer, IsValid;
    forall l: Layer ensures ValidLayer(l) <==> IsValid(l) { ValidExactly(l); }
    var ordered := Ordered(layers);
    forall l ensures l in ordered <==> l in layers { OrderedKeeps(layers, l); }
    if OneCurrency(ordered) {
      forall a, b | a in layers && b in layers ensures a.budget.currency == b.budget.currency {
        var i :| 0 <= i < |ordered| && ordered[i] == a;
        var j :| 0 <= j < |ordered| && ordered[j] == b;
      }
    }
    if AllValid(ordered) {
      forall l | l in layers ensures IsValid(l) { assert l in ordered; }
    }
  }

  /** A request is allowed exactly when its layers are sound. */
  lemma {:induction false} AllowedExactly(c: Context, layers: seq<Layer>, evaluatedAt: int, expiresAt: int)
    ensures Composed(c, layers, evaluatedAt, expiresAt).permission.verdict == Allow <==> Sound(layers)
    ensures ReasonsOf(layers) == [] <==> Sound(layers)
  {
    hide Missing, Conflicts, OtherReasons, Ordered, AtMostOne, HasScope, IsValid;
    NothingMissing(layers);
    NoConflictIsAtMostOne(layers);
    if AtMostOne(layers) { NothingElse(layers); }
  }

  // ----- the rights -----

  lemma {:induction false} UniqueKeeps(s: seq<string>, x: string)
    ensures x in Unique(s) <==> x in s
    decreases |s|
  {
    if s != [] {
      UniqueKeeps(s[..|s| - 1], x);
      UniqueKeeps(s[..|s| - 1], s[|s| - 1]);
      assert s == s[..|s| - 1] + [s[|s| - 1]];
    }
  }

  lemma {:induction false} GrantedByAllKeeps(s: seq<string>, layers: seq<Layer>, k: Right, x: string)
    ensures x in GrantedByAll(s, layers, k) <==>
            x in s && forall i :: 0 <= i < |layers| ==> x in Granted(layers[i].rights, k)
    decreases |s|
  {
    hide Granted;
    if s != [] {
      GrantedByAllKeeps(s[..|s| - 1], layers, k, x);
      assert s == s[..|s| - 1] + [s[|s| - 1]];
    }
  }

  lemma {:induction false} IntersectionIsAll(layers: seq<Layer>, k: Right, x: string)
    requires layers != []
    ensures x in Intersection(layers, k) <==> forall l :: l in layers ==> x in Granted(l.rights, k)
  {
    hide Granted, Unique, GrantedByAll;
    var first := Granted(layers[0].rights, k);
    UniqueKeeps(first, x);
    GrantedByAllKeeps(Unique(first), layers[1..], k, x);
    assert layers == [layers[0]] + layers[1..];
    if x in Intersection(layers, k) {
      forall l | l in layers ensures x in Granted(l.rights, k) {
        if l != layers[0] {
          assert l in layers[1..];
          var i :| 0 <= i < |layers[1..]| && layers[1..][i] == l;
        }
      }
    }
  }

  lemma {:induction false} RightsOfPermission(reasons: seq<string>, ordered: seq<Layer>, k: Right)
    ensures Granted(PermissionOf(reasons, ordered).rights, k) == if reasons == [] then Intersection(ordered, k) else []
  {
    hide Intersection, Minimum, OneCurrency;
  }

  /** A right is granted exactly when the request is allowed and every layer grants it. */
  lemma {:induction false} GrantedExactly(
    c: Context, layers: seq<Layer>, evaluatedAt: int, expiresAt: int, k: Right, x: string)
    ensures x in Granted(Composed(c, layers, evaluatedAt, expiresAt).permission.rights, k) <==>
            Sound(layers) && forall l :: l in layers ==> x in Granted(l.rights, k)
  {
    hide Ordered, Intersection, ReasonsOf, PermissionOf, Granted, Sound, VersionOf, ProvenanceOf;
    AllowedExactly(c, layers, evaluatedAt, expiresAt);
    var ordered := Ordered(layers);
    RightsOfPermission(ReasonsOf(layers), ordered, k);
    if Sound(layers) {
      SoundOrdering(layers);
      IntersectionIsAll(ordered, k, x);
    }
  }

  lemma {:induction false} SoundOrdering(layers: seq<Layer>)
    requires Sound(layers)
    ensures Ordered(layers) != [] && forall l :: l in Ordered(layers) <==> l in layers
  {
    hide Ordered, IsValid;
    forall l ensures l in Ordered(layers) <==> l in layers { OrderedKeeps(layers, l); }
    var l :| l in layers && l.scope == Global;
    assert l in Ordered(layers);
  }

  /**
   * An allowed request gets the least of each amount, in the currency of the layers, and insights
   * when every layer allows them.
   */
  lemma {:induction false} AmountsAreLeast(c: Context, layers: seq<Layer>, evaluatedAt: int, expiresAt: int)
    requires Sound(layers)
    ensures var p := Composed(c, layers, evaluatedAt, expiresAt).permission;
            && (forall l :: l in layers ==>
                  p.retentionMaxDays <= l.retentionMaxDays && p.freshnessMaxAgeSeconds <= l.freshnessMaxAgeSeconds &&
                  p.budget.limitMinor <= l.budget.limitMinor && p.budget.remainingMinor <= l.budget.remainingMinor)
            && (exists l :: l in layers && l.retentionMaxDays == p.retentionMaxDays)
            && (exists l :: l in layers && l.freshnessMaxAgeSeconds == p.freshnessMaxAgeSeconds)
            && (exists l :: l in layers && l.budget.limitMinor == p.budget.limitMinor)
            && (exists l :: l in layers && l.budget.remainingMinor == p.budget.remainingMinor)
            && (forall l :: l in layers ==> p.budget.currency == l.budget.currency)
            && (p.insightsAllowed <==> forall l :: l in layers ==> l.insightsAllowed)
  {
    hide Ordered, ReasonsOf, Intersection, OneCurrency, VersionOf, ProvenanceOf, Minimum, Sound, CurrencyOf;
    AllowedExactly(c, layers, evaluatedAt, expiresAt);
    SoundOrdering(layers);
    var ordered := Ordered(layers);
    MinimumIsLeast(ordered, Retention);
    MinimumIsLeast(ordered, Freshness);
    MinimumIsLeast(ordered, Limit);
    MinimumIsLeast(ordered, Remaining);
    SoundCurrency(layers);
    assert (forall i :: 0 <= i < |ordered| ==> ordered[i].insightsAllowed) <==>
      forall l :: l in layers ==> l.insightsAllowed by {
      assert forall i :: 0 <= i < |ordered| ==> ordered[i] in layers;
      assert forall l :: l in layers ==> l in ordered;
    }
  }

  lemma {:induction false} SoundCurrency(layers: seq<Layer>)
    requires Sound(layers)
    ensures forall l :: l in layers ==> CurrencyOf(Ordered(layers)) == l.budget.currency
  {
    hide Ordered, IsValid, AtMostOne, HasScope;
    SoundOrdering(layers);
    var ordered := Ordered(layers);
    assert ordered[0] in layers;
    forall i, j | 0 <= i < j < |ordered| ensures ordered[i].budget.currency == ordered[j].budget.currency {
      assert ordered[i] in layers && ordered[j] in layers;
    }
  }

  lemma {:induction false} MinimumIsLeast(layers: seq<Layer>, m: Measure)
    requires layers != []
    ensures forall l :: l in layers ==> Minimum(layers, m) <= Amount(l, m)
    ensures exists l :: l in layers && Minimum(layers, m) == Amount(l, m)
    decreases |layers|
  {
    hide Amount;
    assert layers == [layers[0]] + layers[1..];
    if |layers| > 1 { MinimumIsLeast(layers[1..], m); }
  }

  // ----- what the ordered layers decide -----

  lemma {:induction false} OrderedHasScope(layers: seq<Layer>, s: Scope)
    ensures Count(layers, s) == 0 <==> !HasScope(Ordered(layers), s)
  {
    hide Find, Count;
    CountIsZero(layers, s);
    FindIsFirst(layers, Global);
    FindIsFirst(layers, Tenant);
    FindIsFirst(layers, Workspace);
    FindIsFirst(layers, Role);
    if Find(layers, s) != [] { assert Find(layers, s)[0] in Ordered(layers); }
  }

  lemma {:induction false} SameMissing(a: seq<Layer>, b: seq<Layer>)
    requires Ordered(a) == Ordered(b)
    ensures Missing(a) == Missing(b)
  {
    hide Ordered, HasScope, Count;
    OrderedHasScope(a, Global);
    OrderedHasScope(b, Global);
    OrderedHasScope(a, Tenant);
    OrderedHasScope(b, Tenant);
    OrderedHasScope(a, Workspace);
    OrderedHasScope(b, Workspace);
    OrderedHasScope(a, Role);
    OrderedHasScope(b, Role);
  }

  /**
   * Lists with the same first layers, of which one has no scope twice, lead to the same permission
   * exactly when the other has no scope twice either.
   */
  lemma {:induction false} SamePermissionExactly(a: seq<Layer>, b: seq<Layer>)
    requires Ordered(a) == Ordered(b) && AtMostOne(a)
    ensures PermissionOf(ReasonsOf(a), Ordered(a)) == PermissionOf(ReasonsOf(b), Ordered(b)) <==> AtMostOne(b)
    ensures (ReasonsOf(a) == [] <==> ReasonsOf(b) == []) <==> AtMostOne(b) || !Sound(a)
  {
    hide Missing, Conflicts, OtherReasons, Ordered, AtMostOne, AllRights, Minimum, OneCurrency, Sound, CurrencyOf;
    SameMissing(a, b);
    NoConflictIsAtMostOne(a);
    NoConflictIsAtMostOne(b);
    var context := Context("", "", "", "", "");
    AllowedExactly(context, a, 0, 0);
    assert |ReasonsOf(a)| == |Missing(a)| + |OtherReasons(Ordered(a))|;
    assert |ReasonsOf(b)| == |Missing(a)| + |Conflicts(b)| + |OtherReasons(Ordered(a))|;
    if Conflicts(b) == [] {
      assert ReasonsOf(a) == ReasonsOf(b);
    }
    assert PermissionOf(ReasonsOf(a), Ordered(a)).denyReasons == ReasonsOf(a);
    assert PermissionOf(ReasonsOf(b), Ordered(b)).denyReasons == ReasonsOf(b);
  }

  // ----- the version string -----

  /** No separator of the version string; true of every identifier made of hex digits and dashes. */
  predicate Clean(id: string) { ':' !in id && '|' !in id }

  lemma {:induction false} NumberIsClean(n: int)
    ensures Clean(Number(n)) && Number(n) != ""
  {
  }

  lemma {:induction false} NumberIsInjective(a: int, b: int)
    requires Number(a) == Number(b)
    ensures a == b
  {
    DecimalRoundTrip(if a < 0 then -a else a);
    DecimalRoundTrip(if b < 0 then -b else b);
    if a < 0 && b < 0 {
      assert Decimal(-a) == Number(a)[1..] == Number(b)[1..] == Decimal(-b);
    }
  }

  lemma {:induction false} IdentityIsInjective(a: Layer, b: Layer)
    requires Clean(a.policyId) && Clean(b.policyId) && Identity(a) == Identity(b)
    ensures a.scope == b.scope && a.policyId == b.policyId && a.version == b.version
  {
    hide Number;
    NumberIsClean(a.version);
    NumberIsClean(b.version);
    Associative(ScopeName(a.scope), ":" + a.policyId, ":" + Number(a.version));
    Associative(ScopeName(b.scope), ":" + b.policyId, ":" + Number(b.version));
    Associative(":", a.policyId, ":" + Number(a.version));
    Associative(":", b.policyId, ":" + Number(b.version));
    SplitAtLast(
      ScopeName(a.scope) + (":" + a.policyId), Number(a.version),
      ScopeName(b.scope) + (":" + b.policyId), Number(b.version), ':');
    SplitAtLast(ScopeName(a.scope), a.policyId, ScopeName(b.scope), b.policyId, ':');
    NumberIsInjective(a.version, b.version);
  }

  lemma {:induction false} IdentityIsClean(l: Layer)
    requires Clean(l.policyId)
    ensures Identity(l) != "" && '|' !in Identity(l)
  {
    hide Number;
    NumberIsClean(l.version);
  }

  /** The version string tells the identities of the ordered layers. */
  lemma {:induction false} VersionIsInjective(a: seq<Layer>, b: seq<Layer>)
    requires forall l :: l in a || l in b ==> Clean(l.policyId)
    requires VersionOf(a) == VersionOf(b)
    ensures ProvenanceOf(a) == ProvenanceOf(b)
  {
    hide Identity, Join, Clean;
    forall i | 0 <= i < |a| ensures Identity(a[i]) != "" && '|' !in Identity(a[i]) { IdentityIsClean(a[i]); }
    forall i | 0 <= i < |b| ensures Identity(b[i]) != "" && '|' !in Identity(b[i]) { IdentityIsClean(b[i]); }
    JoinIsInjective('|', Identities(a), Identities(b));
    forall i | 0 <= i < |a| ensures ProvenanceOf(a)[i] == ProvenanceOf(b)[i] {
      assert Identity(a[i]) == Identities(a)[i] == Identities(b)[i] == Identity(b[i]);
      IdentityIsInjective(a[i], b[i]);
    }
  }

  /**
   * Identifiers that hold separators could make one version string of different layers. The database
   * keeps them out: `policy_id` is a uuid (migrations/000004_v1_103_policy.up.sql:4).
   */
  lemma {:induction false} SeparatorsCollide(rest: Layer)
    ensures var first := rest.(scope := Global, policyId := "a", version := 1);
            var second := rest.(scope := Tenant, policyId := "b", version := 2);
            var both := rest.(scope := Global, policyId := "a:1|tenant:b", version := 2);
            VersionOf([first, second]) == VersionOf([both]) && ProvenanceOf([first, second]) != ProvenanceOf([both])
  {
    var first := rest.(scope := Global, policyId := "a", version := 1);
    var second := rest.(scope := Tenant, policyId := "b", version := 2);
    var both := rest.(scope := Global, policyId := "a:1|tenant:b", version := 2);
    CollidingIdentities(first, second, both);
    hide Identity, Join;
    assert Identities([first, second]) == [Identity(first), Identity(second)] && Identities([both]) == [Identity(both)];
    JoinOfTwo("|", Identity(first), Identity(second));
    JoinOfTwo("|", Identity(both), "");
    assert |ProvenanceOf([first, second])| == 2 && |ProvenanceOf([both])| == 1;
  }

  lemma {:induction false} CollidingIdentities(first: Layer, second: Layer, both: Layer)
    requires first.scope == Global && first.policyId == "a" && first.version == 1
    requires second.scope == Tenant && second.policyId == "b" && second.version == 2
    requires both.scope == Global && both.policyId == "a:1|tenant:b" && both.version == 2
    ensures Identity(both) == Identity(first) + ("|" + Identity(second))
  {
    assert Number(1) == "1" && Number(2) == "2";
    hide Number;
    assert Identity(first) == "global:a:1" && Identity(second) == "tenant:b:2";
    assert Identity(both) == "global:a:1|tenant:b:2";
  }
}
