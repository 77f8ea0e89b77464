/** Routing a model request: the cost ceiling, eligibility, and the two ways a model is chosen. */
module Routing {
  import opened Results
  import opened FallbackGraph

  datatype Status = Draft | Active | Deprecated | Disabled

  datatype Model = Model(
    modelKey: string, providerKey: string, catalogVersion: int, priceVersion: int, state: Status, providerState: Status,
    capabilities: set<string>, maximumClassification: nat, contextWindowTokens: int, maximumOutputTokens: int,
    currency: string, inputMinorPerMillion: int, outputMinorPerMillion: int, priority: int, fallbacks: seq<string>)

  /** Classifications are given by their rank. */
  datatype Request = Request(
    classification: nat, allowedClassifications: set<nat>, allowedModels: set<string>, capabilities: set<string>,
    inputTokens: int, maximumOutputTokens: int, currency: string, maximumCostMinor: int)

  /** What the credential and health services answer when they are asked about a model; None is a failure. */
  datatype Answers = Answers(active: Option<bool>, healthy: Option<bool>)

  const BOTH := Answers(Some(true), Some(true))

  /** They are asked anew at every visit: of the walk that led to a model, or of a place in the catalog. */
  datatype Services = Services(onWalk: seq<string> -> Answers, inCatalog: nat -> Answers)

  predicate ValidInteger(n: int) { 0 <= n <= MAX_SAFE_INTEGER }

  // ----- the cost ceiling -----

  /** estimateMaximumCost; None is its error. */
  function EstimateMaximumCost(m: Model, inputTokens: int, outputTokens: int): (cost: Option<int>)
  {
    if !ValidInteger(inputTokens) || !ValidInteger(outputTokens) ||
       !ValidInteger(m.inputMinorPerMillion) || !ValidInteger(m.outputMinorPerMillion) then None
    else
      var numerator := inputTokens * m.inputMinorPerMillion + outputTokens * m.outputMinorPerMillion;
      var result := (numerator + 999999) / 1000000;
      if result > MAX_SAFE_INTEGER then None else Some(result)
  }

  /** The estimate is the exact ceiling of the cost in minor units: enough, and not one too many. */
  lemma {:induction false} CostIsCeiling(m: Model, inputTokens: int, outputTokens: int)
    requires EstimateMaximumCost(m, inputTokens, outputTokens).Some?
    ensures var exact := inputTokens * m.inputMinorPerMillion + outputTokens * m.outputMinorPerMillion;
            var cost := EstimateMaximumCost(m, inputTokens, outputTokens).value;
            cost >= 0 && 1000000 * cost >= exact && (forall c :: c < cost ==> 1000000 * c < exact)
  {
    var a, b := inputTokens * m.inputMinorPerMillion, outputTokens * m.outputMinorPerMillion;
    assert a >= 0 && b >= 0;
  }

  /** An amount that can be reckoned with. */
  predicate InRange(n: int) { 0 <= n && n <= 9007199254740991 }

  /** The estimate exists exactly when every amount and the cost itself can be reckoned with. */
  lemma {:induction false} CostExactly(m: Model, inputTokens: int, outputTokens: int)
    ensures var exact := inputTokens * m.inputMinorPerMillion + outputTokens * m.outputMinorPerMillion;
            match EstimateMaximumCost(m, inputTokens, outputTokens)
            case None =>
              !InRange(inputTokens) || !InRange(outputTokens) || !InRange(m.inputMinorPerMillion) ||
              !InRange(m.outputMinorPerMillion) || exact > 1000000 * 9007199254740991
            case Some(cost) =>
              InRange(inputTokens) && InRange(outputTokens) && InRange(m.inputMinorPerMillion) &&
              InRange(m.outputMinorPerMillion) && InRange(cost) && 1000000 * (cost - 1) < exact <= 1000000 * cost
  {
    var a, b := inputTokens * m.inputMinorPerMillion, outputTokens * m.outputMinorPerMillion;
    if InRange(inputTokens) && InRange(outputTokens) && InRange(m.inputMinorPerMillion) &&
      InRange(m.outputMinorPerMillion) {
      assert a >= 0 && b >= 0;
    }
  }

  // ----- eligibility -----

  datatype Check = Eligible(cost: int) | Ineligible | Failed

  predicate Suits(r: Request, m: Model) {
    && m.state == Active && m.providerState == Active && m.modelKey in r.allowedModels
    && r.classification in r.allowedClassifications && r.classification <= m.maximumClassification
    && r.capabilities <= m.capabilities && r.inputTokens + r.maximumOutputTokens <= m.contextWindowTokens
    && r.maximumOutputTokens <= m.maximumOutputTokens && m.currency == r.currency
  }

  function CheckModel(a: Answers, r: Request, m: Model): Check {
    if !Suits(r, m) then Ineligible
    else
      match EstimateMaximumCost(m, r.inputTokens, r.maximumOutputTokens)
      case None => Failed
      case Some(cost) =>
        if cost > r.maximumCostMinor then Ineligible
        else if a.active.None? then Failed
        else if !a.active.value then Ineligible
        else if a.healthy.None? then Failed
        else if a.healthy.value then Eligible(cost)
        else Ineligible
  }

  /**
   * The request may go to this model: both are active, policy allows the model and the classification,
   * the model may see data so classified and can do all that is required, and size and currency fit.
   */
  predicate MayServe(r: Request, m: Model) {
    && m.state == Active && m.providerState == Active
    && (exists k :: k in r.allowedModels && k == m.modelKey)
    && (exists c :: c in r.allowedClassifications && c == r.classification)
    && m.maximumClassification >= r.classification
    && (forall c :: c in r.capabilities ==> c in m.capabilities)
    && m.contextWindowTokens >= r.inputTokens + r.maximumOutputTokens
    && m.maximumOutputTokens >= r.maximumOutputTokens && m.currency == r.currency
  }

  /** The amount the request may cost at most: exact, rounded up, and within its budget. */
  predicate Costs(r: Request, m: Model, cost: int) {
    && InRange(r.inputTokens) && InRange(r.maximumOutputTokens) && InRange(m.inputMinorPerMillion)
    && InRange(m.outputMinorPerMillion) && InRange(cost)
    && var exact := r.inputTokens * m.inputMinorPerMillion + r.maximumOutputTokens * m.outputMinorPerMillion;
       1000000 * (cost - 1) < exact <= 1000000 * cost
  }

  /** What can be said of an eligible model without the services. */
  predicate Qualifies(r: Request, m: Model, cost: int) {
    MayServe(r, m) && Costs(r, m, cost) && cost <= r.maximumCostMinor
  }

  lemma {:induction false} SuitsExactly(r: Request, m: Model)
    ensures Suits(r, m) <==> MayServe(r, m)
  {
  }

  lemma {:induction false} CostsOnce(r: Request, m: Model, a: int, b: int)
    requires Costs(r, m, a) && Costs(r, m, b)
    ensures a == b
  {
  }

  /** The answer about one model, exactly. */
  lemma {:induction false} CheckExactly(a: Answers, r: Request, m: Model)
    ensures forall cost :: CheckModel(a, r, m) == Eligible(cost) <==> Qualifies(r, m, cost) && a == BOTH
    ensures CheckModel(a, r, m) == Failed <==>
            MayServe(r, m) &&
            ((forall cost :: !Costs(r, m, cost)) ||
             ((exists cost :: Costs(r, m, cost) && cost <= r.maximumCostMinor) &&
              (a.active == None || (a.active == Some(true) && a.healthy == None))))
  {
    hide Suits, MayServe;
    SuitsExactly(r, m);
    EstimateIsCost(r, m);
    hide Costs;
  }

  lemma {:induction false} EstimateIsCost(r: Request, m: Model)
    ensures forall cost :: EstimateMaximumCost(m, r.inputTokens, r.maximumOutputTokens) == Some(cost) <==>
            Costs(r, m, cost)
  {
    hide EstimateMaximumCost;
    CostExactly(m, r.inputTokens, r.maximumOutputTokens);
    var estimate := EstimateMaximumCost(m, r.inputTokens, r.maximumOutputTokens);
    forall cost ensures estimate == Some(cost) <==> Costs(r, m, cost) {
      if estimate.Some? && Costs(r, m, cost) { CostsOnce(r, m, cost, estimate.value); }
    }
  }

  lemma {:induction false} EligibleExactly(a: Answers, r: Request, m: Model, cost: int)
    ensures CheckModel(a, r, m) == Eligible(cost) <==> Qualifies(r, m, cost) && a == BOTH
  {
    CheckExactly(a, r, m);
  }

  // ----- the preferred model and its fallbacks -----

  /** The catalog by key; the last entry of a key wins. */
  function ByKey(catalog: seq<Model>): map<string, Model> {
    if catalog == [] then map[]
    else ByKey(catalog[..|catalog| - 1])[catalog[|catalog| - 1].modelKey := catalog[|catalog| - 1]]
  }

  /** The last place of a key in the catalog. */
  predicate IsLastOf(catalog: seq<Model>, key: string, i: nat) {
    i < |catalog| && catalog[i].modelKey == key && forall j :: i < j < |catalog| ==> catalog[j].modelKey != key
  }

  /** A key stands for the last entry of the catalog that has it. */
  lemma {:induction false} ByKeyExactly(catalog: seq<Model>, key: string)
    ensures key in ByKey(catalog) <==> exists m :: m in catalog && m.modelKey == key
    ensures key in ByKey(catalog) ==>
              exists i: nat :: IsLastOf(catalog, key, i) && catalog[i] == ByKey(catalog)[key]
    decreases |catalog|
  {
    if catalog != [] {
      var n := |catalog| - 1;
      ByKeyExactly(catalog[..n], key);
      assert catalog == catalog[..n] + [catalog[n]];
      if catalog[n].modelKey == key {
        assert IsLastOf(catalog, key, n);
      } else if key in ByKey(catalog) {
        var i: nat :| IsLastOf(catalog[..n], key, i) && catalog[..n][i] == ByKey(catalog[..n])[key];
        assert IsLastOf(catalog, key, i);
      }
    }
  }

  function GraphOf(byKey: map<string, Model>): Graph { map k | k in byKey :: byKey[k].fallbacks }

  datatype Selection = Found(chain: seq<string>, cost: int) | NotFound | Broken

  /** The recursion of `select` from one model. */
  function Select(
    s: Services, r: Request, byKey: map<string, Model>, key: string, chain: seq<string>, path: set<string>)
    : Selection
    requires Valid(GraphOf(byKey), key, path, |chain|)
    decreases MAX_DEPTH + 1 - |chain|, 1, 0
  {
    match CheckModel(s.onWalk(chain + [key]), r, byKey[key])
    case Failed => Broken
    case Eligible(cost) => Found(chain + [key], cost)
    case Ineligible => SelectAmong(s, r, byKey, byKey[key].fallbacks, chain + [key], path + {key})
  }

  /** The loop of `select` over the remaining fallbacks. */
  function SelectAmong(s: Services, r: Request, byKey: map<string, Model>, next: seq<string>, chain: seq<string>,
                       path: set<string>): Selection
    requires chain != [] && forall i :: 0 <= i < |next| ==> Valid(GraphOf(byKey), next[i], path, |chain|)
    decreases MAX_DEPTH + 2 - |chain|, 0, |next|
  {
    if next == [] then NotFound
    else
      DeeperIsShallow(GraphOf(byKey), next[0], path, |chain|);
      var found := Select(s, r, byKey, next[0], chain, path);
      if found != NotFound then found else SelectAmong(s, r, byKey, next[1..], chain, path)
  }

  lemma {:induction false} DeeperIsShallow(g: Graph, key: string, path: set<string>, depth: nat)
    requires Valid(g, key, path, depth)
    ensures depth <= MAX_DEPTH
  {
  }

  // ----- the independent description of the choice -----

  /** The chains from a model to everything reachable, in depth-first preorder. */
  function Preorder(g: Graph, key: string, chain: seq<string>, path: set<string>): seq<seq<string>>
    requires Valid(g, key, path, |chain|)
    decreases MAX_DEPTH + 1 - |chain|, 1, 0
  {
    [chain + [key]] + PreorderAmong(g, g[key], chain + [key], path + {key})
  }

  function PreorderAmong(g: Graph, next: seq<string>, chain: seq<string>, path: set<string>): seq<seq<string>>
    requires chain != [] && forall i :: 0 <= i < |next| ==> Valid(g, next[i], path, |chain|)
    decreases MAX_DEPTH + 2 - |chain|, 0, |next|
  {
    if next == [] then []
    else
      DeeperIsShallow(g, next[0], path, |chain|);
      Preorder(g, next[0], chain, path) + PreorderAmong(g, next[1..], chain, path)
  }

  /** The check of the last model of a walk, at that visit. */
  function CheckWalk(s: Services, r: Request, byKey: map<string, Model>, w: seq<string>): Check {
    if w != [] && w[|w| - 1] in byKey then CheckModel(s.onWalk(w), r, byKey[w[|w| - 1]]) else Failed
  }

  /** The first chain whose last model is not simply ineligible. */
  function FirstOf(s: Services, r: Request, byKey: map<string, Model>, chains: seq<seq<string>>): Selection {
    if chains == [] then NotFound
    else
      match CheckWalk(s, r, byKey, chains[0])
      case Failed => Broken
      case Eligible(cost) => Found(chains[0], cost)
      case Ineligible => FirstOf(s, r, byKey, chains[1..])
  }

  lemma {:induction false} FirstOfAppend(
    s: Services, r: Request, byKey: map<string, Model>, a: seq<seq<string>>, b: seq<seq<string>>)
    ensures FirstOf(s, r, byKey, a + b) ==
            if FirstOf(s, r, byKey, a) != NotFound then FirstOf(s, r, byKey, a) else FirstOf(s, r, byKey, b)
    decreases |a|
  {
    hide CheckWalk;
    if a == [] {
      assert a + b == b;
    } else {
      assert (a + b)[0] == a[0] && (a + b)[1..] == a[1..] + b;
      FirstOfAppend(s, r, byKey, a[1..], b);
    }
  }

  /** `select` returns the first choice in depth-first preorder. */
  lemma {:induction false} SelectIsFirst(
    s: Services, r: Request, byKey: map<string, Model>, key: string, chain: seq<string>,
    path: set<string>)
    requires Valid(GraphOf(byKey), key, path, |chain|)
    ensures Select(s, r, byKey, key, chain, path) == FirstOf(s, r, byKey, Preorder(GraphOf(byKey), key, chain, path))
    decreases MAX_DEPTH + 1 - |chain|, 1, 0
  {
    hide CheckModel;
    var g, here := GraphOf(byKey), chain + [key];
    SelectAmongIsFirst(s, r, byKey, g[key], here, path + {key});
    var rest := PreorderAmong(g, g[key], here, path + {key});
    assert ([here] + rest)[0] == here && ([here] + rest)[1..] == rest;
    assert here[|here| - 1] == key;
  }

  lemma {:induction false} SelectAmongIsFirst(
    s: Services, r: Request, byKey: map<string, Model>, next: seq<string>,
    chain: seq<string>, path: set<string>)
    requires chain != [] && forall i :: 0 <= i < |next| ==> Valid(GraphOf(byKey), next[i], path, |chain|)
    ensures SelectAmong(s, r, byKey, next, chain, path) ==
            FirstOf(s, r, byKey, PreorderAmong(GraphOf(byKey), next, chain, path))
    decreases MAX_DEPTH + 2 - |chain|, 0, |next|
  {
    hide Select, Preorder, FirstOf;
    if next == [] {
      FirstOfNone(s, r, byKey);
    } else {
      var g := GraphOf(byKey);
      DeeperIsShallow(g, next[0], path, |chain|);
      SelectIsFirst(s, r, byKey, next[0], chain, path);
      SelectAmongIsFirst(s, r, byKey, next[1..], chain, path);
      FirstOfAppend(s, r, byKey, Preorder(g, next[0], chain, path), PreorderAmong(g, next[1..], chain, path));
    }
  }

  lemma {:induction false} FirstOfNone(s: Services, r: Request, byKey: map<string, Model>)
    ensures FirstOf(s, r, byKey, []) == NotFound
  {
  }

  /** Every chain of the preorder is a walk continuing `chain`. */
  lemma {:induction false} PreorderAreWalks(g: Graph, key: string, chain: seq<string>, path: set<string>, i: nat)
    requires Valid(g, key, path, |chain|) && Walk(g, chain + [key])
    requires i < |Preorder(g, key, chain, path)|
    ensures var c := Preorder(g, key, chain, path)[i]; Walk(g, c) && chain + [key] <= c && |c| <= MAX_DEPTH + 1
    decreases MAX_DEPTH + 1 - |chain|, 1, 0
  {
    if i > 0 {
      AmongAreWalks(g, g[key], key, chain + [key], path + {key}, i - 1);
    }
  }

  lemma {:induction false} AmongAreWalks(
    g: Graph, next: seq<string>, key: string, chain: seq<string>, path: set<string>, i: nat)
    requires chain != [] && chain[|chain| - 1] == key && Walk(g, chain) && key in g
    requires forall j :: 0 <= j < |next| ==> next[j] in g[key] && Valid(g, next[j], path, |chain|)
    requires i < |PreorderAmong(g, next, chain, path)|
    ensures var c := PreorderAmong(g, next, chain, path)[i]; Walk(g, c) && chain <= c && |c| <= MAX_DEPTH + 1
    decreases MAX_DEPTH + 2 - |chain|, 0, |next|
  {
    hide Preorder;
    DeeperIsShallow(g, next[0], path, |chain|);
    var first := Preorder(g, next[0], chain, path);
    if i < |first| {
      assert Walk(g, chain + [next[0]]) by {
        var w := chain + [next[0]];
        assert forall j :: 0 <= j < |chain| ==> w[j] == chain[j];
      }
      PreorderAreWalks(g, next[0], chain, path, i);
      var c := first[i];
      assert chain == (chain + [next[0]])[..|chain|] == c[..|chain|];
    } else {
      AmongAreWalks(g, next[1..], key, chain, path, i - |first|);
    }
  }

  /**
   * One chain is tried before another: it is where the other began, or where they part it takes the
   * fallback that the model lists first.
   */
  predicate TriedBefore(g: Graph, a: seq<string>, b: seq<string>) {
    a <= b || exists k :: 0 < k < |a| && k < |b| && PartsAt(g, a, b, k)
  }

  predicate PartsAt(g: Graph, a: seq<string>, b: seq<string>, k: nat)
    requires 0 < k < |a| && k < |b|
  {
    a[..k] == b[..k] && a[k - 1] in g && IsListedFirst(g[a[k - 1]], a[k], b[k])
  }

  predicate IsListedFirst(next: seq<string>, x: string, y: string) {
    exists i, j :: 0 <= i < j < |next| && next[i] == x && next[j] == y
  }

  /** The preorder, exactly: a model before its fallbacks, and these as they are listed. */
  lemma {:induction false} PreorderExactly(g: Graph, key: string, chain: seq<string>, path: set<string>, i: nat, j: nat)
    requires Valid(g, key, path, |chain|) && Walk(g, chain + [key])
    requires i < j < |Preorder(g, key, chain, path)|
    ensures TriedBefore(g, Preorder(g, key, chain, path)[i], Preorder(g, key, chain, path)[j])
    decreases MAX_DEPTH + 1 - |chain|, 1, 0
  {
    hide TriedBefore;
    var here := chain + [key];
    if i == 0 {
      PreorderAreWalks(g, key, chain, path, j);
      FirstIsTried(g, Preorder(g, key, chain, path)[0], Preorder(g, key, chain, path)[j]);
    } else {
      assert g[key][0..] == g[key];
      AmongExactly(g, key, 0, here, path + {key}, i - 1, j - 1);
    }
  }

  lemma {:induction false} FirstIsTried(g: Graph, a: seq<string>, b: seq<string>)
    requires a <= b
    ensures TriedBefore(g, a, b)
  {
  }

  lemma {:induction false} AmongExactly(
    g: Graph, key: string, o: nat, chain: seq<string>, path: set<string>, i: nat, j: nat)
    requires chain != [] && chain[|chain| - 1] == key && Walk(g, chain) && key in g && o <= |g[key]|
    requires forall n :: 0 <= n < |g[key][o..]| ==> Valid(g, g[key][o..][n], path, |chain|)
    requires i < j < |PreorderAmong(g, g[key][o..], chain, path)|
    ensures var all := PreorderAmong(g, g[key][o..], chain, path); TriedBefore(g, all[i], all[j])
    decreases MAX_DEPTH + 2 - |chain|, 0, |g[key]| - o
  {
    hide TriedBefore, Preorder, Walk, Valid;
    var next := g[key][o..];
    DeeperIsShallow(g, next[0], path, |chain|);
    var first, all := Preorder(g, next[0], chain, path), PreorderAmong(g, next, chain, path);
    assert next[1..] == g[key][o + 1..];
    LongerWalk(g, chain, key, next[0]);
    if j < |first| {
      PreorderExactly(g, next[0], chain, path, i, j);
    } else if i >= |first| {
      AmongExactly(g, key, o + 1, chain, path, i - |first|, j - |first|);
    } else {
      PreorderAreWalks(g, next[0], chain, path, i);
      var y := AmongStarts(g, key, o + 1, chain, path, j - |first|);
      PartsHere(g, chain, first[i], all[j], o, y);
    }
  }

  lemma {:induction false} LongerWalk(g: Graph, chain: seq<string>, key: string, next: string)
    requires chain != [] && chain[|chain| - 1] == key && Walk(g, chain) && key in g && next in g[key]
    ensures Walk(g, chain + [next])
  {
    var w := chain + [next];
    assert forall j :: 0 <= j < |chain| ==> w[j] == chain[j];
  }

  lemma {:induction false} PartsHere(g: Graph, chain: seq<string>, a: seq<string>, b: seq<string>, x: nat, y: nat)
    requires chain != [] && chain[|chain| - 1] in g && x < y < |g[chain[|chain| - 1]]|
    requires chain + [g[chain[|chain| - 1]][x]] <= a && chain + [g[chain[|chain| - 1]][y]] <= b
    ensures TriedBefore(g, a, b)
  {
    var k, key := |chain|, chain[|chain| - 1];
    assert a[..k] == (chain + [g[key][x]])[..k] == chain && b[..k] == (chain + [g[key][y]])[..k] == chain;
    assert a[k] == (chain + [g[key][x]])[k] && b[k] == (chain + [g[key][y]])[k];
    assert a[k - 1] == a[..k][k - 1];
    assert PartsAt(g, a, b, k);
  }

  /** Every chain among the fallbacks goes on with one of them. */
  lemma {:induction false} AmongStarts(g: Graph, key: string, o: nat, chain: seq<string>, path: set<string>, j: nat)
    returns (y: nat)
    requires chain != [] && chain[|chain| - 1] == key && Walk(g, chain) && key in g && o <= |g[key]|
    requires forall n :: 0 <= n < |g[key][o..]| ==> Valid(g, g[key][o..][n], path, |chain|)
    requires j < |PreorderAmong(g, g[key][o..], chain, path)|
    ensures o <= y < |g[key]| && chain + [g[key][y]] <= PreorderAmong(g, g[key][o..], chain, path)[j]
    decreases |g[key]| - o
  {
    hide Preorder, Walk, Valid;
    var next := g[key][o..];
    DeeperIsShallow(g, next[0], path, |chain|);
    var first := Preorder(g, next[0], chain, path);
    assert next[1..] == g[key][o + 1..];
    if j < |first| {
      LongerWalk(g, chain, key, next[0]);
      PreorderAreWalks(g, next[0], chain, path, j);
      y := o;
    } else {
      y := AmongStarts(g, key, o + 1, chain, path, j - |first|);
    }
  }

  /** Every walk from the model is a chain of the preorder. */
  lemma {:induction false} WalksAreInPreorder(
    g: Graph, key: string, chain: seq<string>, path: set<string>, w: seq<string>)
    requires Valid(g, key, path, |chain|) && Walk(g, w) && w[0] == key
    ensures chain + w in Preorder(g, key, chain, path)
    decreases MAX_DEPTH + 1 - |chain|, 1, 0
  {
    var here := chain + [key];
    if |w| == 1 {
      assert w == [key];
      assert Preorder(g, key, chain, path)[0] == here;
    } else {
      SubWalk(g, w, 1, |w|);
      assert chain + w == here + w[1..];
      assert w[0 + 1] in g[w[0]];
      var j :| 0 <= j < |g[key]| && g[key][j] == w[1];
      WalksAreAmong(g, g[key], here, path + {key}, w[1..], j);
    }
  }

  lemma {:induction false} WalksAreAmong(
    g: Graph, next: seq<string>, chain: seq<string>, path: set<string>, w: seq<string>, j: nat)
    requires chain != [] && forall i :: 0 <= i < |next| ==> Valid(g, next[i], path, |chain|)
    requires Walk(g, w) && j < |next| && next[j] == w[0]
    ensures chain + w in PreorderAmong(g, next, chain, path)
    decreases MAX_DEPTH + 2 - |chain|, 0, |next|
  {
    hide Preorder;
    DeeperIsShallow(g, next[0], path, |chain|);
    if j == 0 {
      WalksAreInPreorder(g, next[0], chain, path, w);
    } else {
      WalksAreAmong(g, next[1..], chain, path, w, j - 1);
    }
  }

  lemma {:induction false} FirstOfMeaning(s: Services, r: Request, byKey: map<string, Model>, chains: seq<seq<string>>)
    ensures var f := FirstOf(s, r, byKey, chains);
            && (f == NotFound <==> forall i :: 0 <= i < |chains| ==> CheckWalk(s, r, byKey, chains[i]) == Ineligible)
            && (f.Found? ==> exists i :: 0 <= i < |chains| && chains[i] == f.chain &&
                               CheckWalk(s, r, byKey, f.chain) == Eligible(f.cost) &&
                               forall j :: 0 <= j < i ==> CheckWalk(s, r, byKey, chains[j]) == Ineligible)
    decreases |chains|
  {
    hide CheckWalk;
    if chains != [] {
      FirstOfMeaning(s, r, byKey, chains[1..]);
      var f := FirstOf(s, r, byKey, chains);
      var head := CheckWalk(s, r, byKey, chains[0]);
      assert forall i :: 1 <= i < |chains| ==> chains[1..][i - 1] == chains[i];
      if head == Ineligible && f.Found? {
        var i :| 0 <= i < |chains[1..]| && chains[1..][i] == f.chain &&
                 CheckWalk(s, r, byKey, f.chain) == Eligible(f.cost) &&
                 forall j :: 0 <= j < i ==> CheckWalk(s, r, byKey, chains[1..][j]) == Ineligible;
        assert chains[i + 1] == f.chain;
        forall j | 0 <= j < i + 1 ensures CheckWalk(s, r, byKey, chains[j]) == Ineligible {
          if j > 0 { assert chains[1..][j - 1] == chains[j]; }
        }
      }
    }
  }

  /**
   * The fallback choice, exactly: on a valid graph nothing is found precisely when every model
   * reachable from the preferred one is ineligible; and what is found is an eligible model at the
   * end of a genuine fallback path of at most four keys from the preferred one.
   */
  lemma {:induction false} SelectExactly(s: Services, r: Request, byKey: map<string, Model>, key: string)
    requires Valid(GraphOf(byKey), key, {}, 0)
    ensures var g, f := GraphOf(byKey), Select(s, r, byKey, key, [], {});
            && (f == NotFound <==>
                  forall w :: Walk(g, w) && w[0] == key ==> CheckWalk(s, r, byKey, w) == Ineligible)
            && (f.Found? ==> Walk(g, f.chain) && f.chain[0] == key && |f.chain| <= 4 &&
                             CheckWalk(s, r, byKey, f.chain) == Eligible(f.cost))
  {
    hide CheckWalk, Valid, Select, Preorder, FirstOf, Walk;
    var g, f := GraphOf(byKey), Select(s, r, byKey, key, [], {});
    SelectIsFirst(s, r, byKey, key, [], {});
    var chains := Preorder(g, key, [], {});
    assert [] + [key] == [key];
    SingleIsWalk(g, key);
    forall i | 0 <= i < |chains|
      ensures chains[i] != [] && Walk(g, chains[i]) && chains[i][0] == key && |chains[i]| <= 4
    {
      PreorderAreWalks(g, key, [], {}, i);
    }
    FirstOfMeaning(s, r, byKey, chains);
    forall w | Walk(g, w) && w != [] && w[0] == key
      ensures exists i :: 0 <= i < |chains| && chains[i] == w
    {
      WalksAreInPreorder(g, key, [], {}, w);
      assert [] + w == w;
    }
    WalksAreNotEmpty(g);
  }

  lemma {:induction false} SingleIsWalk(g: Graph, key: string)
    ensures Walk(g, [key])
  {
  }

  lemma {:induction false} WalksAreNotEmpty(g: Graph)
    ensures forall w :: Walk(g, w) ==> w != []
  {
  }
}
