/** routeModel as a whole: the preferred model with its fallbacks, or the best of the catalog. */
module RouteChoice {
  import opened Results
  import opened FallbackGraph
  import opened Routing
  import Sorting

  datatype Candidate = Candidate(model: Model, cost: int)

  /** The place of each key in the collation that `localeCompare` uses. */
  type Collation = map<string, int>

  function PlaceOf(order: Collation, key: string): int { if key in order then order[key] else 0 }

  /** The comparison of the candidates: priority, then cost, then key. */
  predicate NotAfter(order: Collation, a: Candidate, b: Candidate) {
    if a.model.priority != b.model.priority then a.model.priority < b.model.priority
    else if a.cost != b.cost then a.cost < b.cost
    else PlaceOf(order, a.model.modelKey) <= PlaceOf(order, b.model.modelKey)
  }

  /** Lower priority numbers first, then lower costs, then the order of the keys. */
  predicate ComesFirst(order: Collation, m: Model, cost: int, other: Model, otherCost: int) {
    && m.priority <= other.priority
    && (m.priority == other.priority ==> cost <= otherCost)
    && (m.priority == other.priority && cost == otherCost ==>
          PlaceOf(order, m.modelKey) <= PlaceOf(order, other.modelKey))
  }

  // ----- the catalog branch -----

  datatype Scanned = Candidates(list: seq<Candidate>) | Throws

  /** The check of a place in the catalog. */
  function CheckAt(s: Services, r: Request, catalog: seq<Model>, i: nat): Check
    requires i < |catalog|
  {
    CheckModel(s.inCatalog(i), r, catalog[i])
  }

  /** The loop over the catalog. */
  function Scan(s: Services, r: Request, catalog: seq<Model>): Scanned {
    if catalog == [] then Candidates([])
    else
      match Scan(s, r, catalog[..|catalog| - 1])
      case Throws => Throws
      case Candidates(list) =>
        match CheckAt(s, r, catalog, |catalog| - 1)
        case Failed => Throws
        case Ineligible => Candidates(list)
        case Eligible(cost) => Candidates(list + [Candidate(catalog[|catalog| - 1], cost)])
  }

  function Rule(order: Collation): Sorting.Rule<Candidate> { (a, b) => NotAfter(order, a, b) }

  lemma {:induction false} RuleOrders(order: Collation)
    ensures Sorting.Orders(Rule(order))
  {
  }

  datatype Choice = Chosen(candidate: Candidate) | NoCandidate | ScanFailed

  method ChooseFromCatalog(s: Services, r: Request, order: Collation, catalog: seq<Model>) returns (choice: Choice)
    ensures choice == BestOf(s, r, order, catalog)
  {
    hide CheckModel;
    var list: seq<Candidate> := [];
    for i := 0 to |catalog|
      invariant Scan(s, r, catalog[..i]) == Candidates(list)
    {
      assert catalog[..i + 1][..i] == catalog[..i];
      assert CheckAt(s, r, catalog[..i + 1], i) == CheckAt(s, r, catalog, i);
      match CheckAt(s, r, catalog, i) {
        case Failed =>
          ScanStaysThrown(s, r, catalog, i + 1);
          return ScanFailed;
        case Ineligible =>
        case Eligible(cost) => list := list + [Candidate(catalog[i], cost)];
      }
    }
    assert catalog[..|catalog|] == catalog;
    var sorted := Sorting.Sort(Rule(order), list);
    return if sorted == [] then NoCandidate else Chosen(sorted[0]);
  }

  function BestOf(s: Services, r: Request, order: Collation, catalog: seq<Model>): Choice {
    match Scan(s, r, catalog)
    case Throws => ScanFailed
    case Candidates(list) =>
      var sorted := Sorting.Sort(Rule(order), list);
      if sorted == [] then NoCandidate else Chosen(sorted[0])
  }

  lemma {:induction false} ScanStaysThrown(s: Services, r: Request, catalog: seq<Model>, i: nat)
    requires i <= |catalog| && Scan(s, r, catalog[..i]) == Throws
    ensures Scan(s, r, catalog) == Throws
    decreases |catalog| - i
  {
    if i == |catalog| {
      assert catalog[..i] == catalog;
    } else {
      assert catalog[..i + 1][..i] == catalog[..i];
      ScanStaysThrown(s, r, catalog, i + 1);
    }
  }

  /** The candidates are the eligible models of the catalog, with their costs. */
  lemma {:induction false} ScanExactly(s: Services, r: Request, catalog: seq<Model>)
    ensures Scan(s, r, catalog).Throws? <==> exists i :: 0 <= i < |catalog| && CheckAt(s, r, catalog, i) == Failed
    ensures Scan(s, r, catalog).Candidates? ==>
              forall c :: c in Scan(s, r, catalog).list <==>
                exists i :: 0 <= i < |catalog| && catalog[i] == c.model && CheckAt(s, r, catalog, i) == Eligible(c.cost)
    decreases |catalog|
  {
    hide CheckModel;
    if catalog != [] {
      var n := |catalog| - 1;
      ScanExactly(s, r, catalog[..n]);
      assert forall i :: 0 <= i < n ==> catalog[..n][i] == catalog[i];
      forall i | 0 <= i < n ensures CheckAt(s, r, catalog[..n], i) == CheckAt(s, r, catalog, i) { }
      var all := Scan(s, r, catalog);
      if all.Candidates? {
        var before := Scan(s, r, catalog[..n]).list;
        forall c
          ensures c in all.list <==>
                  exists i :: 0 <= i < |catalog| && catalog[i] == c.model &&
                    CheckAt(s, r, catalog, i) == Eligible(c.cost)
        {
          assert c in all.list <==>
            c in before || (catalog[n] == c.model && CheckAt(s, r, catalog, n) == Eligible(c.cost));
        }
      }
    }
  }

  /** The chosen candidate is eligible, and no eligible model comes before it. */
  lemma {:induction false} BestIsLeast(s: Services, r: Request, order: Collation, catalog: seq<Model>)
    ensures var choice := BestOf(s, r, order, catalog);
            && (choice.ScanFailed? <==> exists i :: 0 <= i < |catalog| && CheckAt(s, r, catalog, i) == Failed)
            && (choice.NoCandidate? <==> forall i :: 0 <= i < |catalog| ==> CheckAt(s, r, catalog, i) == Ineligible)
            && (choice.Chosen? ==>
                  (exists i :: 0 <= i < |catalog| && catalog[i] == choice.candidate.model &&
                               CheckAt(s, r, catalog, i) == Eligible(choice.candidate.cost)) &&
                  forall i, cost :: 0 <= i < |catalog| && CheckAt(s, r, catalog, i) == Eligible(cost) ==>
                    ComesFirst(order, choice.candidate.model, choice.candidate.cost, catalog[i], cost))
  {
    hide CheckModel, Scan;
    forall a, b ensures NotAfter(order, a, b) <==> ComesFirst(order, a.model, a.cost, b.model, b.cost) { }
    ScanExactly(s, r, catalog);
    if Scan(s, r, catalog).Candidates? {
      var list := Scan(s, r, catalog).list;
      var sorted := Sorting.Sort(Rule(order), list);
      RuleOrders(order);
      Sorting.SortSorts(Rule(order), list);
      forall i | 0 <= i < |catalog| ensures list == [] ==> CheckAt(s, r, catalog, i) == Ineligible {
        match CheckAt(s, r, catalog, i) {
          case Eligible(cost) => assert Candidate(catalog[i], cost) in list;
          case _ =>
        }
      }
      if sorted != [] {
        assert sorted[0] in sorted && sorted[0] in list;
        forall i, cost | 0 <= i < |catalog| && CheckAt(s, r, catalog, i) == Eligible(cost)
          ensures NotAfter(order, sorted[0], Candidate(catalog[i], cost))
        {
          var c := Candidate(catalog[i], cost);
          assert c in list && c in sorted;
          assert Rule(order)(c, c) && Rule(order)(sorted[0], c);
        }
      }
    }
  }

  predicate SamePlace(order: Collation, a: Model, b: Model) {
    PlaceOf(order, a.modelKey) == PlaceOf(order, b.modelKey)
  }

  /** Keys are told apart by the collation. */
  predicate Separates(order: Collation, catalog: seq<Model>) {
    forall a, b :: a in catalog && b in catalog ==> SamePlace(order, a, b) ==> a == b
  }

  /** A model gets the same answers at all its places in either catalog. */
  predicate SameAnswers(s: Services, a: seq<Model>, t: Services, b: seq<Model>) {
    forall i, j :: 0 <= i < |a| && 0 <= j < |b| && a[i] == b[j] ==> s.inCatalog(i) == t.inCatalog(j)
  }

  /** The model stands somewhere in the catalog and is checked with this outcome there. */
  ghost predicate Offers(s: Services, r: Request, catalog: seq<Model>, m: Model, check: Check) {
    exists i :: 0 <= i < |catalog| && catalog[i] == m && CheckAt(s, r, catalog, i) == check
  }

  lemma {:induction false} BestOfOffers(s: Services, r: Request, order: Collation, catalog: seq<Model>)
    ensures var choice := BestOf(s, r, order, catalog);
            && (choice.ScanFailed? <==> exists m :: Offers(s, r, catalog, m, Failed))
            && (choice.NoCandidate? <==> forall m, check :: Offers(s, r, catalog, m, check) ==> check == Ineligible)
            && (choice.Chosen? ==>
                  Offers(s, r, catalog, choice.candidate.model, Eligible(choice.candidate.cost)) &&
                  forall m, cost :: Offers(s, r, catalog, m, Eligible(cost)) ==>
                    ComesFirst(order, choice.candidate.model, choice.candidate.cost, m, cost))
  {
    hide CheckAt, BestOf, ComesFirst;
    BestIsLeast(s, r, order, catalog);
    forall i | 0 <= i < |catalog| ensures Offers(s, r, catalog, catalog[i], CheckAt(s, r, catalog, i)) { }
  }

  lemma {:induction false} SameOffers(
    s: Services, a: seq<Model>, t: Services, b: seq<Model>, r: Request, m: Model, check: Check)
    requires (forall i :: 0 <= i < |a| ==> a[i] in b) && SameAnswers(s, a, t, b) && Offers(s, r, a, m, check)
    ensures Offers(t, r, b, m, check)
  {
    hide CheckModel;
    var i :| 0 <= i < |a| && a[i] == m && CheckAt(s, r, a, i) == check;
    var j :| 0 <= j < |b| && b[j] == a[i];
    assert s.inCatalog(i) == t.inCatalog(j);
    assert CheckAt(t, r, b, j) == check;
  }

  /** The choice does not depend on the order of the catalog. */
  lemma {:induction false} ChoiceIgnoresCatalogOrder(
    s: Services, a: seq<Model>, t: Services, b: seq<Model>, r: Request, order: Collation)
    requires multiset(a) == multiset(b) && Separates(order, a) && SameAnswers(s, a, t, b)
    ensures BestOf(s, r, order, a) == BestOf(t, r, order, b)
  {
    hide CheckModel, BestOf, Scan, Separates, Offers, ComesFirst;
    BestOfOffers(s, r, order, a);
    BestOfOffers(t, r, order, b);
    SameMembers(a, b);
    forall m, check ensures Offers(s, r, a, m, check) <==> Offers(t, r, b, m, check) {
      if Offers(s, r, a, m, check) { SameOffers(s, a, t, b, r, m, check); }
      if Offers(t, r, b, m, check) { SameOffers(t, b, s, a, r, m, check); }
    }
    var x, y := BestOf(s, r, order, a), BestOf(t, r, order, b);
    if x.Chosen? && y.Chosen? {
      OfferedIsThere(s, r, a, x.candidate.model, Eligible(x.candidate.cost));
      OfferedIsThere(s, r, a, y.candidate.model, Eligible(y.candidate.cost));
      BeforeEachOther(order, a, x.candidate, y.candidate);
    }
  }

  lemma {:induction false} OfferedIsThere(s: Services, r: Request, catalog: seq<Model>, m: Model, check: Check)
    requires Offers(s, r, catalog, m, check)
    ensures m in catalog
  {
  }

  lemma {:induction false} BeforeEachOther(order: Collation, catalog: seq<Model>, x: Candidate, y: Candidate)
    requires Separates(order, catalog) && x.model in catalog && y.model in catalog
    ensures ComesFirst(order, x.model, x.cost, y.model, y.cost) &&
            ComesFirst(order, y.model, y.cost, x.model, x.cost) ==>
              x == y
  {
    if ComesFirst(order, x.model, x.cost, y.model, y.cost) && ComesFirst(order, y.model, y.cost, x.model, x.cost) {
      assert SamePlace(order, x.model, y.model);
    }
  }

  lemma {:induction false} SameMembers(a: seq<Model>, b: seq<Model>)
    requires multiset(a) == multiset(b)
    ensures forall i :: 0 <= i < |a| ==> a[i] in b
    ensures forall j :: 0 <= j < |b| ==> b[j] in a
  {
    forall m ensures m in a <==> m in b { assert m in multiset(a) <==> m in multiset(b); }
  }

  // ----- the whole decision -----

  datatype DenyReason = ModelNotAuthorized | FallbackInvalid | NoEligibleModel | DependencyUnavailable

  datatype Decision = Allow(model: Model, cost: int, chain: seq<string>) | Deny(reason: DenyReason, chain: seq<string>)

  /**
   * Among the chains from the preferred model in depth-first preorder, the first whose last model is
   * not simply ineligible; nothing on an invalid graph.
   */
  function FirstInPreorder(s: Services, r: Request, byKey: map<string, Model>, preferred: string): Selection {
    if Valid(GraphOf(byKey), preferred, {}, 0) then FirstOf(s, r, byKey, Preorder(GraphOf(byKey), preferred, [], {}))
    else NotFound
  }

  /** routeModel; an empty preferred key is no preference. */
  method RouteModel(
    s: Services, r: Request, order: Collation, catalog: seq<Model>, preferred: string)
    returns (d: Decision)
    ensures r.allowedModels == {} ==> d == Deny(ModelNotAuthorized, [])
    ensures d.Allow? ==> Qualifies(r, d.model, d.cost) && d.model in catalog
    ensures r.allowedModels != {} && preferred != "" ==>
              var g := GraphOf(ByKey(catalog));
              && (d == Deny(FallbackInvalid, [preferred]) <==> !Bounded(g, preferred, 4))
              && (d == Deny(NoEligibleModel, [preferred]) <==>
                    Bounded(g, preferred, 4) &&
                    forall w :: Walk(g, w) && w[0] == preferred ==> CheckWalk(s, r, ByKey(catalog), w) == Ineligible)
              && (d.Allow? ==>
                    Walk(g, d.chain) && d.chain[0] == preferred && d.chain[|d.chain| - 1] == d.model.modelKey &&
                                  s.onWalk(d.chain) == BOTH)
              && (d.Allow? ==> FirstInPreorder(s, r, ByKey(catalog), preferred) == Found(d.chain, d.cost))
              && (d == Deny(DependencyUnavailable, []) <==> FirstInPreorder(s, r, ByKey(catalog), preferred) == Broken)
    ensures r.allowedModels != {} && preferred == "" ==>
              && (d.Allow? <==> BestOf(s, r, order, catalog).Chosen?)
              && (d.Allow? ==> BestOf(s, r, order, catalog) == Chosen(Candidate(d.model, d.cost)) && d.chain == [])
              && (d.Allow? ==> exists i :: 0 <= i < |catalog| && catalog[i] == d.model && s.inCatalog(i) == BOTH)
              && (d == Deny(NoEligibleModel, []) <==> BestOf(s, r, order, catalog) == NoCandidate)
              && (d == Deny(DependencyUnavailable, []) <==> BestOf(s, r, order, catalog) == ScanFailed)
  {
    hide CheckModel, Select, BestOf, Walk;
    if r.allowedModels == {} { return Deny(ModelNotAuthorized, []); }
    if preferred != "" {
      d := RoutePreferred(s, r, catalog, preferred);
      return;
    }
    var choice := ChooseFromCatalog(s, r, order, catalog);
    BestIsLeast(s, r, order, catalog);
    match choice {
      case ScanFailed => return Deny(DependencyUnavailable, []);
      case NoCandidate => return Deny(NoEligibleModel, []);
      case Chosen(c) =>
        var i: nat :| i < |catalog| && catalog[i] == c.model && CheckAt(s, r, catalog, i) == Eligible(c.cost);
        EligibleExactly(s.inCatalog(i), r, c.model, c.cost);
        return Allow(c.model, c.cost, []);
    }
  }

  /** The branch of a preferred model. */
  method RoutePreferred(s: Services, r: Request, catalog: seq<Model>, preferred: string) returns (d: Decision)
    ensures d.Allow? ==> Qualifies(r, d.model, d.cost) && d.model in catalog
    ensures var g := GraphOf(ByKey(catalog));
            && (d == Deny(FallbackInvalid, [preferred]) <==> !Bounded(g, preferred, 4))
            && (d == Deny(NoEligibleModel, [preferred]) <==>
                  Bounded(g, preferred, 4) &&
                  forall w :: Walk(g, w) && w[0] == preferred ==> CheckWalk(s, r, ByKey(catalog), w) == Ineligible)
            && (d.Allow? ==>
                  Walk(g, d.chain) && d.chain[0] == preferred && d.chain[|d.chain| - 1] == d.model.modelKey &&
                                s.onWalk(d.chain) == BOTH)
            && (d.Allow? ==> FirstInPreorder(s, r, ByKey(catalog), preferred) == Found(d.chain, d.cost))
            && (d == Deny(DependencyUnavailable, []) <==> FirstInPreorder(s, r, ByKey(catalog), preferred) == Broken)
  {
    hide CheckModel, Select, Walk, Valid, ByKey, Bounded, FirstOf, Preorder;
    var byKey := ByKey(catalog);
    ValidExactly(GraphOf(byKey), preferred);
    if !Valid(GraphOf(byKey), preferred, {}, 0) { return Deny(FallbackInvalid, [preferred]); }
    SelectExactly(s, r, byKey, preferred);
    SelectIsFirst(s, r, byKey, preferred, [], {});
    var found := Select(s, r, byKey, preferred, [], {});
    WalksAreNotEmpty(GraphOf(byKey));
    match found {
      case Broken => return Deny(DependencyUnavailable, []);
      case NotFound => return Deny(NoEligibleModel, [preferred]);
      case Found(chain, cost) =>
        var key := chain[|chain| - 1];
        ByKeyIsCatalog(catalog, key);
        EligibleExactly(s.onWalk(chain), r, byKey[key], cost);
        return Allow(byKey[key], cost, chain);
    }
  }

  lemma {:induction false} ByKeyIsCatalog(catalog: seq<Model>, key: string)
    ensures key in ByKey(catalog) ==> ByKey(catalog)[key] in catalog && ByKey(catalog)[key].modelKey == key
    decreases |catalog|
  {
    if catalog != [] { ByKeyIsCatalog(catalog[..|catalog| - 1], key); }
  }
}
