/**
 * The fallback graph between models: the two depth-first checks of the publisher and the router,
 * what they accept, and what publishing keeps.
 */
module FallbackGraph {
  import opened Distinctness

  type Graph = map<string, seq<string>>

  const MAX_DEPTH: nat := 3

  // ----- the router's check: an immutable path -----

  function Valid(g: Graph, key: string, path: set<string>, depth: nat): bool
    decreases MAX_DEPTH + 1 - depth
  {
    depth <= MAX_DEPTH && key in g && key !in path &&
    forall i :: 0 <= i < |g[key]| ==> Valid(g, g[key][i], path + {key}, depth + 1)
  }

  // ----- the publisher's check: a shared set with backtracking -----

  /** What the publisher requires of a model's fallbacks on the current graph. */
  predicate Publishable(g: Graph, modelKey: string, fallbacks: seq<string>) {
    |fallbacks| <= 3 && Distinct(fallbacks) && modelKey !in fallbacks &&
    Valid(g[modelKey := fallbacks], modelKey, {}, 0)
  }

  class GraphChecker {
    const modelKey: string
    const fallbacks: seq<string>
    const graph: Graph
    var visiting: set<string>

    constructor (modelKey: string, fallbacks: seq<string>, graph: Graph)
      ensures this.modelKey == modelKey && this.fallbacks == fallbacks && this.graph == graph && visiting == {}
    {
      this.modelKey, this.fallbacks, this.graph, visiting := modelKey, fallbacks, graph, {};
    }

    method Visit(key: string, depth: nat) returns (ok: bool)
      modifies this
      ensures ok == Valid(graph[modelKey := fallbacks], key, old(visiting), depth)
      ensures ok ==> visiting == old(visiting)
      decreases MAX_DEPTH + 1 - depth
    {
      if depth > MAX_DEPTH || key in visiting || (key != modelKey && key !in graph) { return false; }
      visiting := visiting + {key};
      var next := if key == modelKey then fallbacks else graph[key];
      for i := 0 to |next|
        invariant visiting == old(visiting) + {key}
        invariant forall j :: 0 <= j < i ==>
                    Valid(graph[modelKey := fallbacks], next[j], old(visiting) + {key}, depth + 1)
      {
        var deeper := Visit(next[i], depth + 1);
        if !deeper { return false; }
      }
      visiting := visiting - {key};
      return true;
    }
  }

  /** validGraph accepts exactly the publishable fallbacks: the router's check on the updated graph. */
  method ValidGraph(modelKey: string, fallbacks: seq<string>, graph: Graph) returns (ok: bool)
    ensures ok == Publishable(graph, modelKey, fallbacks)
    ensures ok <==>
            |fallbacks| <= 3 && (forall i, j :: 0 <= i < j < |fallbacks| ==> fallbacks[i] != fallbacks[j]) &&
            (forall f :: f in fallbacks ==> f != modelKey) && Bounded(graph[modelKey := fallbacks], modelKey, 4)
  {
    hide Bounded;
    ValidExactly(graph[modelKey := fallbacks], modelKey);
    var members := set f | f in fallbacks;
    DistinctByCount(fallbacks);
    if |fallbacks| > 3 || |members| != |fallbacks| || modelKey in fallbacks { return false; }
    var checker := new GraphChecker(modelKey, fallbacks, graph);
    ok := checker.Visit(modelKey, 0);
  }

  // ----- walks -----

  predicate Walk(g: Graph, p: seq<string>) {
    p != [] && forall i :: 0 <= i < |p| - 1 ==> p[i] in g && p[i + 1] in g[p[i]]
  }

  /** Every walk from `key` has at most `most` keys and stays inside the graph. */
  ghost predicate Bounded(g: Graph, key: string, most: int) {
    forall p :: Walk(g, p) && p[0] == key ==> |p| <= most && p[|p| - 1] in g
  }

  ghost predicate Acyclic(g: Graph) {
    forall p :: Walk(g, p) && |p| >= 2 ==> p[0] != p[|p| - 1]
  }

  predicate Closed(g: Graph) { forall k :: k in g ==> forall i :: 0 <= i < |g[k]| ==> g[k][i] in g }

  lemma {:induction false} JoinWalks(g: Graph, a: seq<string>, b: seq<string>)
    requires Walk(g, a) && Walk(g, b) && a[|a| - 1] == b[0]
    ensures Walk(g, a + b[1..])
  {
    var p := a + b[1..];
    forall i | 0 <= i < |p| - 1 ensures p[i] in g && p[i + 1] in g[p[i]] {
      if i < |a| - 1 {
        assert p[i] == a[i] && p[i + 1] == a[i + 1];
      } else {
        assert p[i] == b[i - (|a| - 1)] && p[i + 1] == b[i - (|a| - 1) + 1];
      }
    }
  }

  lemma {:induction false} SubWalk(g: Graph, p: seq<string>, i: nat, j: nat)
    requires Walk(g, p) && i < j <= |p|
    ensures Walk(g, p[i..j])
  {
  }

  /** A walk that ends on a cycle can be prolonged at will. */
  lemma {:induction false} Prolong(g: Graph, w: seq<string>, cycle: seq<string>, n: nat) returns (long: seq<string>)
    requires Walk(g, w) && Walk(g, cycle) && |cycle| >= 2 && cycle[0] == cycle[|cycle| - 1] == w[|w| - 1]
    ensures Walk(g, long) && long[0] == w[0] && |long| >= n
    decreases n - |w|
  {
    long := w;
    if |w| < n {
      JoinWalks(g, w, cycle);
      long := Prolong(g, w + cycle[1..], cycle, n);
    }
  }

  // ----- what the checks accept -----

  lemma {:induction false} ValidIsBounded(g: Graph, key: string, path: set<string>, depth: nat, p: seq<string>)
    requires Valid(g, key, path, depth) && Walk(g, p) && p[0] == key
    ensures |p| <= MAX_DEPTH + 1 - depth && p[|p| - 1] in g
    decreases MAX_DEPTH + 1 - depth
  {
    if |p| > 1 {
      var i :| 0 <= i < |g[key]| && g[key][i] == p[1];
      SubWalk(g, p, 1, |p|);
      ValidIsBounded(g, g[key][i], path + {key}, depth + 1, p[1..]);
    }
  }

  /** `trail` leads from the root to `key`, and every walk from the root is bounded. */
  lemma {:induction false} BoundedIsValid(g: Graph, trail: seq<string>, key: string, path: set<string>)
    requires Walk(g, trail + [key]) && path == (set k | k in trail)
    requires Bounded(g, (trail + [key])[0], MAX_DEPTH + 1)
    ensures |trail| <= MAX_DEPTH && Valid(g, key, path, |trail|)
    decreases MAX_DEPTH + 1 - |trail|
  {
    var here := trail + [key];
    assert |here| <= MAX_DEPTH + 1 && key in g;
    if key in path {
      var i :| 0 <= i < |trail| && trail[i] == key;
      var cycle := here[i..];
      SubWalk(g, here, i, |here|);
      assert cycle[0] == here[i] == key;
      var long := Prolong(g, here, cycle, MAX_DEPTH + 2);
      assert false;
    }
    forall i | 0 <= i < |g[key]| ensures Valid(g, g[key][i], path + {key}, |trail| + 1) {
      var next := here + [g[key][i]];
      assert Walk(g, next) by { assert forall j :: 0 <= j < |here| ==> next[j] == here[j]; }
      assert next[0] == here[0];
      assert (set k | k in here) == path + {key};
      BoundedIsValid(g, here, g[key][i], path + {key});
    }
  }

  /**
   * The router's check, exactly: it accepts a model when every walk along fallbacks from it has at
   * most four keys and stays inside the catalog. (Then no such walk repeats a key.)
   */
  lemma {:induction false} ValidExactly(g: Graph, key: string)
    ensures Valid(g, key, {}, 0) <==> Bounded(g, key, 4)
  {
    if Valid(g, key, {}, 0) {
      forall p | Walk(g, p) && p[0] == key ensures |p| <= MAX_DEPTH + 1 && p[|p| - 1] in g {
        ValidIsBounded(g, key, {}, 0, p);
      }
    }
    if Bounded(g, key, MAX_DEPTH + 1) {
      assert [] + [key] == [key];
      BoundedIsValid(g, [], key, {});
    }
  }

  // ----- what publishing keeps -----

  /** Away from the published key the graph has the same walks. */
  lemma {:induction false} SameWalkElsewhere(g: Graph, modelKey: string, fallbacks: seq<string>, p: seq<string>)
    requires p != [] && forall i :: 0 <= i < |p| - 1 ==> p[i] != modelKey
    ensures Walk(g[modelKey := fallbacks], p) <==> Walk(g, p)
  {
  }

  /** A closed walk can be read from any of its keys. */
  lemma {:induction false} Rotate(g: Graph, p: seq<string>, i: nat) returns (q: seq<string>)
    requires Walk(g, p) && |p| >= 2 && p[0] == p[|p| - 1] && i < |p|
    ensures Walk(g, q) && |q| >= 2 && q[0] == q[|q| - 1] == p[i]
  {
    if i == 0 || i == |p| - 1 {
      q := p;
    } else {
      SubWalk(g, p, i, |p|);
      SubWalk(g, p, 0, i + 1);
      JoinWalks(g, p[i..], p[..i + 1]);
      q := p[i..] + p[..i + 1][1..];
    }
  }

  /** The first return of a walk to `key`. */
  lemma {:induction false} FirstReturn(p: seq<string>, key: string) returns (j: nat)
    requires |p| >= 2 && p[|p| - 1] == key
    ensures 1 <= j < |p| && p[j] == key && forall i :: 1 <= i < j ==> p[i] != key
  {
    j := 1;
    while p[j] != key
      invariant 1 <= j < |p| && forall i :: 1 <= i < j ==> p[i] != key
      decreases |p| - j
    {
      j := j + 1;
    }
  }

  /** No fallback leads back to the model, and all of them are in the updated graph. */
  ghost predicate Detached(g: Graph, modelKey: string, fallbacks: seq<string>) {
    && (forall i :: 0 <= i < |fallbacks| ==> fallbacks[i] in g[modelKey := fallbacks])
    && (forall w :: Walk(g, w) && w[0] in fallbacks ==> w[|w| - 1] != modelKey)
  }

  lemma {:induction false} CycleReattaches(g: Graph, modelKey: string, fallbacks: seq<string>, p: seq<string>)
    returns (w: seq<string>)
    requires Acyclic(g) && Walk(g[modelKey := fallbacks], p) && |p| >= 2 && p[0] == p[|p| - 1]
    ensures Walk(g, w) && w[0] in fallbacks && w[|w| - 1] == modelKey
  {
    var after := g[modelKey := fallbacks];
    if forall i :: 0 <= i < |p| - 1 ==> p[i] != modelKey {
      SameWalkElsewhere(g, modelKey, fallbacks, p);
      assert false;
    }
    var i :| 0 <= i < |p| - 1 && p[i] == modelKey;
    var q := Rotate(after, p, i);
    var j := FirstReturn(q, modelKey);
    w := q[1..j + 1];
    SubWalk(after, q, 1, j + 1);
    SameWalkElsewhere(g, modelKey, fallbacks, w);
    assert q[1] in after[q[0]];
  }

  /**
   * Writing a model's fallbacks into an acyclic closed graph, exactly: the graph stays acyclic and
   * closed when every fallback is in it and none leads back to the model on the graph as it is.
   */
  lemma {:induction false} WritingKeepsExactly(g: Graph, modelKey: string, fallbacks: seq<string>)
    requires Acyclic(g) && Closed(g)
    ensures var after := g[modelKey := fallbacks]; Acyclic(after) && Closed(after) <==> Detached(g, modelKey, fallbacks)
  {
    var after := g[modelKey := fallbacks];
    if Detached(g, modelKey, fallbacks) {
      forall p | Walk(after, p) && |p| >= 2 ensures p[0] != p[|p| - 1] {
        if p[0] == p[|p| - 1] { var w := CycleReattaches(g, modelKey, fallbacks, p); }
      }
      forall k | k in after ensures forall i :: 0 <= i < |after[k]| ==> after[k][i] in after {
      }
    }
    if Acyclic(after) && Closed(after) {
      forall w | Walk(g, w) && w[0] in fallbacks ensures w[|w| - 1] != modelKey {
        if w[|w| - 1] == modelKey { AttachedMakesCycle(g, modelKey, fallbacks, w); }
      }
      assert forall i :: 0 <= i < |after[modelKey]| ==> after[modelKey][i] in after;
    }
  }

  lemma {:induction false} AttachedMakesCycle(g: Graph, modelKey: string, fallbacks: seq<string>, w: seq<string>)
    requires Walk(g, w) && w[0] in fallbacks && w[|w| - 1] == modelKey
    ensures !Acyclic(g[modelKey := fallbacks])
  {
    var p := [modelKey] + w;
    var j := FirstReturn(p, modelKey);
    var cycle := p[..j + 1];
    var tail := p[1..j + 1];
    assert tail == w[..j];
    SubWalk(g, w, 0, j);
    SameWalkElsewhere(g, modelKey, fallbacks, tail);
    assert cycle == [modelKey] + tail;
    assert Walk(g[modelKey := fallbacks], cycle);
    assert cycle[0] == cycle[|cycle| - 1];
  }

  /** An accepted publication keeps the whole graph acyclic and closed. */
  lemma {:induction false} PublishingKeeps(g: Graph, modelKey: string, fallbacks: seq<string>)
    requires Acyclic(g) && Closed(g) && Publishable(g, modelKey, fallbacks)
    ensures Acyclic(g[modelKey := fallbacks]) && Closed(g[modelKey := fallbacks])
  {
    var after := g[modelKey := fallbacks];
    ValidExactly(after, modelKey);
    forall i | 0 <= i < |fallbacks| ensures fallbacks[i] in after {
      assert Walk(after, [modelKey, fallbacks[i]]);
    }
    forall w | Walk(g, w) && w[0] in fallbacks ensures w[|w| - 1] != modelKey {
      if w[|w| - 1] == modelKey {
        AttachedMakesCycle(g, modelKey, fallbacks, w);
        var p :| Walk(after, p) && |p| >= 2 && p[0] == p[|p| - 1];
        CycleIsUnbounded(g, modelKey, fallbacks, p);
      }
    }
    WritingKeepsExactly(g, modelKey, fallbacks);
  }

  lemma {:induction false} CycleIsUnbounded(g: Graph, modelKey: string, fallbacks: seq<string>, p: seq<string>)
    requires Acyclic(g) && Walk(g[modelKey := fallbacks], p) && |p| >= 2 && p[0] == p[|p| - 1]
    ensures !Bounded(g[modelKey := fallbacks], modelKey, MAX_DEPTH + 1)
  {
    var after := g[modelKey := fallbacks];
    if forall i :: 0 <= i < |p| - 1 ==> p[i] != modelKey {
      SameWalkElsewhere(g, modelKey, fallbacks, p);
      assert false;
    }
    var i :| 0 <= i < |p| - 1 && p[i] == modelKey;
    var cycle := Rotate(after, p, i);
    var long := Prolong(after, cycle, cycle, MAX_DEPTH + 2);
  }

  datatype Publication = Publication(modelKey: string, fallbacks: seq<string>)

  /** Publications one after the other; a refused one changes nothing. */
  function PublishAll(g: Graph, ps: seq<Publication>): Graph {
    if ps == [] then g
    else
      var before, p := PublishAll(g, ps[..|ps| - 1]), ps[|ps| - 1];
      if Publishable(before, p.modelKey, p.fallbacks) then before[p.modelKey := p.fallbacks] else before
  }

  /** The `i`-th publication is for `key` and is accepted on the graph as it then is. */
  predicate AcceptedAt(g: Graph, ps: seq<Publication>, key: string, i: nat) {
    i < |ps| && ps[i].modelKey == key && Publishable(PublishAll(g, ps[..i]), key, ps[i].fallbacks)
  }

  /** No later publication for `key` is accepted. */
  predicate LastAcceptedAt(g: Graph, ps: seq<Publication>, key: string, i: nat) {
    AcceptedAt(g, ps, key, i) && forall j :: i < j < |ps| ==> !AcceptedAt(g, ps, key, j)
  }

  /** After a run each model has the fallbacks of its last accepted publication, or those it had before. */
  lemma {:induction false} LastPublicationCounts(g: Graph, ps: seq<Publication>, key: string)
    ensures var after := PublishAll(g, ps);
            || (exists i: nat ::
                  i < |ps| && LastAcceptedAt(g, ps, key, i) && key in after && after[key] == ps[i].fallbacks)
            || ((forall i :: 0 <= i < |ps| ==> !AcceptedAt(g, ps, key, i)) &&
                (key in after <==> key in g) && (key in g ==> after[key] == g[key]))
    decreases |ps|
  {
    hide AcceptedAt, PublishAll;
    if ps == [] {
      NothingPublished(g);
    } else {
      var n := |ps| - 1;
      LastPublicationCounts(g, ps[..n], key);
      forall i | 0 <= i < n ensures AcceptedAt(g, ps[..n], key, i) <==> AcceptedAt(g, ps, key, i) {
        AcceptedBefore(g, ps, key, i);
      }
      if AcceptedAt(g, ps, key, n) {
        IsWritten(g, ps, key);
        assert LastAcceptedAt(g, ps, key, n);
      } else {
        IsKept(g, ps, key);
        if i: nat :| i < n && LastAcceptedAt(g, ps[..n], key, i) && key in PublishAll(g, ps[..n]) &&
                     PublishAll(g, ps[..n])[key] == ps[..n][i].fallbacks {
          assert LastAcceptedAt(g, ps, key, i);
        }
      }
    }
  }

  lemma {:induction false} NothingPublished(g: Graph)
    ensures PublishAll(g, []) == g
  {
  }

  lemma {:induction false} AcceptedBefore(g: Graph, ps: seq<Publication>, key: string, i: nat)
    requires i + 1 < |ps|
    ensures AcceptedAt(g, ps[..|ps| - 1], key, i) <==> AcceptedAt(g, ps, key, i)
  {
    hide Publishable, PublishAll;
    assert ps[..|ps| - 1][..i] == ps[..i];
  }

  lemma {:induction false} IsWritten(g: Graph, ps: seq<Publication>, key: string)
    requires ps != [] && AcceptedAt(g, ps, key, |ps| - 1)
    ensures key in PublishAll(g, ps) && PublishAll(g, ps)[key] == ps[|ps| - 1].fallbacks
  {
    hide Publishable;
  }

  lemma {:induction false} IsKept(g: Graph, ps: seq<Publication>, key: string)
    requires ps != [] && !AcceptedAt(g, ps, key, |ps| - 1)
    ensures var before := PublishAll(g, ps[..|ps| - 1]);
            (key in PublishAll(g, ps) <==> key in before) && (key in before ==> PublishAll(g, ps)[key] == before[key])
  {
    hide Publishable;
  }

  /** Over any run of publications the graph stays acyclic and closed. */
  lemma {:induction false} RunKeeps(g: Graph, ps: seq<Publication>)
    requires Acyclic(g) && Closed(g)
    ensures Acyclic(PublishAll(g, ps)) && Closed(PublishAll(g, ps))
    decreases |ps|
  {
    hide Acyclic, Closed, Publishable;
    if ps != [] {
      var before, p := PublishAll(g, ps[..|ps| - 1]), ps[|ps| - 1];
      RunKeeps(g, ps[..|ps| - 1]);
      if Publishable(before, p.modelKey, p.fallbacks) { PublishingKeeps(before, p.modelKey, p.fallbacks); }
    }
  }

  /**
   * Publishing checks one graph and writes to the one it finds later. Two publications that
   * overlap can each be accepted on the same graph and together make a cycle.
   */
  lemma {:induction false} OverlappingPublicationsCanCycle(a: string, b: string)
    requires a != b
    ensures var g: Graph := map[a := [], b := []];
            && Acyclic(g) && Closed(g) && Publishable(g, a, [b]) && Publishable(g, b, [a])
            && !Acyclic(g[a := [b]][b := [a]])
  {
    var g: Graph := map[a := [], b := []];
    EdgelessIsAcyclic(g);
    OneEdgeIsPublishable(g, a, b);
    OneEdgeIsPublishable(g, b, a);
    var after := g[a := [b]][b := [a]];
    assert Walk(after, [a, b, a]);
  }

  lemma {:induction false} EdgelessIsAcyclic(g: Graph)
    requires forall k :: k in g ==> g[k] == []
    ensures Acyclic(g) && Closed(g)
  {
    forall p | Walk(g, p) ensures |p| < 2 {
      FirstStep(g, p);
    }
  }

  lemma {:induction false} FirstStep(g: Graph, p: seq<string>)
    requires Walk(g, p)
    ensures |p| < 2 || (p[0] in g && g[p[0]] != [])
  {
    if |p| >= 2 {
      assert p[0 + 1] in g[p[0]];
    }
  }

  lemma {:induction false} OneEdgeIsPublishable(g: Graph, a: string, b: string)
    requires a != b && b in g && g[b] == []
    ensures Publishable(g, a, [b])
  {
    var after := g[a := [b]];
    assert Valid(after, b, {} + {a}, 1);
  }

  /**
   * Publishing one model can take another past the router's depth: with a chain of four models,
   * giving the last one a fallback makes the first unroutable though every publication is accepted.
   */
  lemma {:induction false} DepthOfOthersIsNotKept(a: string, b: string, c: string, d: string, e: string)
    requires Distinct([a, b, c, d, e])
    ensures var g: Graph := map[a := [b], b := [c], c := [d], d := [], e := []];
            Valid(g, a, {}, 0) && Publishable(g, d, [e]) && !Valid(g[d := [e]], a, {}, 0)
  {
    var keys := [a, b, c, d, e];
    assert keys[0] != keys[1] && keys[0] != keys[2] && keys[0] != keys[3] && keys[0] != keys[4] && keys[1] != keys[2] &&
           keys[1] != keys[3] && keys[1] != keys[4] && keys[2] != keys[3] && keys[2] != keys[4] && keys[3] != keys[4];
    var g: Graph := map[a := [b], b := [c], c := [d], d := [], e := []];
    assert Valid(g, d, {} + {a} + {b} + {c}, 3);
    assert Valid(g, c, {} + {a} + {b}, 2);
    assert Valid(g, b, {} + {a}, 1);
    OneEdgeIsPublishable(g, d, e);
    var after := g[d := [e]];
    assert Walk(after, [a, b, c, d, e]);
    ValidExactly(after, a);
  }

  /** No walk of an acyclic graph comes back to where it has been. */
  lemma {:induction false} NoReturn(g: Graph, p: seq<string>, i: nat, j: nat)
    requires Acyclic(g) && Walk(g, p) && i < j < |p|
    ensures p[i] != p[j]
  {
    hide Walk, Acyclic;
    SubWalk(g, p, i, j + 1);
    var part := p[i..j + 1];
    NoCycle(g, part);
    assert part[0] == p[i] && part[|part| - 1] == p[j];
  }

  lemma {:induction false} NoCycle(g: Graph, p: seq<string>)
    requires Acyclic(g) && Walk(g, p) && |p| >= 2
    ensures p[0] != p[|p| - 1]
  {
    hide Walk;
  }

  /** Chains up to the model and chains on from its new fallbacks, on the graph before the publication. */
  ghost predicate ShortThrough(g: Graph, modelKey: string, fallbacks: seq<string>, key: string) {
    forall w, u :: Leads(g, w, key, modelKey) && Continues(g, u, fallbacks) ==> |w| + |u| <= 4
  }

  predicate Leads(g: Graph, w: seq<string>, from: string, to: string) {
    Walk(g, w) && w[0] == from && w[|w| - 1] == to
  }

  predicate Continues(g: Graph, u: seq<string>, fallbacks: seq<string>) { Walk(g, u) && u[0] in fallbacks }

  /** The walk up to the model and on through a new fallback is one of the new graph. */
  lemma {:induction false} ThroughModel(
    g: Graph, modelKey: string, fallbacks: seq<string>, w: seq<string>, u: seq<string>)
    requires Acyclic(g) && Detached(g, modelKey, fallbacks)
    requires Walk(g, w) && w[|w| - 1] == modelKey && Continues(g, u, fallbacks)
    ensures Walk(g[modelKey := fallbacks], w + u)
  {
    var after, p := g[modelKey := fallbacks], w + u;
    forall i | 0 <= i < |w| - 1 ensures w[i] != modelKey { NoReturn(g, w, i, |w| - 1); }
    forall i | 0 <= i < |u| ensures u[i] != modelKey {
      SubWalk(g, u, 0, i + 1);
      assert u[..i + 1][0] == u[0] && u[..i + 1][|u[..i + 1]| - 1] == u[i];
    }
    SameWalkElsewhere(g, modelKey, fallbacks, w);
    SameWalkElsewhere(g, modelKey, fallbacks, u);
    forall i | 0 <= i < |p| - 1 ensures p[i] in after && p[i + 1] in after[p[i]] {
      if i < |w| - 1 {
        assert p[i] == w[i] && p[i + 1] == w[i + 1];
      } else if i >= |w| {
        assert p[i] == u[i - |w|] && p[i + 1] == u[i - |w| + 1];
      }
    }
  }

  /** A walk of the new graph that goes on from the model splits there into walks of the old one. */
  lemma {:induction false} SplitAtModel(g: Graph, modelKey: string, fallbacks: seq<string>, p: seq<string>, i: nat)
    requires var after := g[modelKey := fallbacks]; Acyclic(after) && Walk(after, p)
    requires i < |p| - 1 && p[i] == modelKey
    ensures Leads(g, p[..i + 1], p[0], modelKey) && Continues(g, p[i + 1..], fallbacks)
  {
    var after, w, u := g[modelKey := fallbacks], p[..i + 1], p[i + 1..];
    SubWalk(after, p, 0, i + 1);
    SubWalk(after, p, i + 1, |p|);
    forall k | 0 <= k < |p| && k != i ensures p[k] != modelKey {
      NoReturn(after, p, if k < i then k else i, if k < i then i else k);
    }
    SameWalkElsewhere(g, modelKey, fallbacks, w);
    SameWalkElsewhere(g, modelKey, fallbacks, u);
    assert p[i + 1] in after[p[i]];
  }

  lemma {:induction false} PublishableIsDetached(g: Graph, modelKey: string, fallbacks: seq<string>)
    requires Acyclic(g) && Closed(g) && Publishable(g, modelKey, fallbacks)
    ensures Detached(g, modelKey, fallbacks)
    ensures Acyclic(g[modelKey := fallbacks]) && Closed(g[modelKey := fallbacks])
  {
    hide Acyclic, Closed, Publishable, Detached;
    PublishingKeeps(g, modelKey, fallbacks);
    WritingKeepsExactly(g, modelKey, fallbacks);
  }

  lemma {:induction false} WalkEndsInside(g: Graph, p: seq<string>)
    requires Closed(g) && Walk(g, p) && p[0] in g
    ensures p[|p| - 1] in g
  {
    if |p| > 1 {
      var before := p[|p| - 2];
      assert p[|p| - 2 + 1] in g[before];
      var i :| 0 <= i < |g[before]| && g[before][i] == p[|p| - 1];
    }
  }

  /**
   * What an accepted publication does to another model, exactly, told from the graph before it: a
   * routable model stays routable if and only if no chain from it to the published one, continued by
   * a chain from one of the new fallbacks, has more than four keys.
   */
  lemma {:induction false} RoutableAfterPublishing(g: Graph, modelKey: string, fallbacks: seq<string>, key: string)
    requires Acyclic(g) && Closed(g) && Publishable(g, modelKey, fallbacks)
    requires key != modelKey && Valid(g, key, {}, 0)
    ensures Valid(g[modelKey := fallbacks], key, {}, 0) <==> ShortThrough(g, modelKey, fallbacks, key)
  {
    hide Valid, Publishable, Acyclic, Closed, Detached, Walk;
    var after := g[modelKey := fallbacks];
    PublishableIsDetached(g, modelKey, fallbacks);
    ValidExactly(g, key);
    ValidExactly(after, key);
    WalksStart(g);
    WalksStart(after);
    if Bounded(after, key, MAX_DEPTH + 1) {
      forall w, u | Leads(g, w, key, modelKey) && Continues(g, u, fallbacks) ensures |w| + |u| <= MAX_DEPTH + 1 {
        ThroughModel(g, modelKey, fallbacks, w, u);
        assert (w + u)[0] == key;
      }
    }
    if ShortThrough(g, modelKey, fallbacks, key) {
      OneKeyIsWalk(g, key);
      assert [key][0] == key;
      forall p | Walk(after, p) && p[0] == key ensures |p| <= MAX_DEPTH + 1 && p[|p| - 1] in after {
        WalkEndsInside(after, p);
        if i :| 0 <= i < |p| - 1 && p[i] == modelKey {
          SplitAtModel(g, modelKey, fallbacks, p, i);
          assert p[..i + 1][0] == key;
        } else {
          SameWalkElsewhere(g, modelKey, fallbacks, p);
        }
      }
    }
  }

  lemma {:induction false} WalksStart(g: Graph)
    ensures forall p :: Walk(g, p) ==> p != []
  {
  }

  lemma {:induction false} OneKeyIsWalk(g: Graph, key: string)
    ensures Walk(g, [key])
  {
  }
}
