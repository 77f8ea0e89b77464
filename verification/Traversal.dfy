/** The bounded breadth-first walk over the knowledge graph. */
module Traversal {
  import opened Results
  import opened Order

  /** The targets of each node's edges; a missing node has none. */
  type Graph = map<string, seq<string>>

  function Edges(g: Graph, node: string): seq<string> { if node in g then g[node] else [] }

  function Targets(g: Graph, nodes: set<string>): set<string> {
    set x, y | x in nodes && y in Edges(g, x) :: y
  }

  function Elements(s: seq<string>): set<string> { set x | x in s }

  // ----- what is near the roots -----

  ghost predicate Path(g: Graph, p: seq<string>) {
    p != [] && forall i :: 0 <= i < |p| - 1 ==> p[i + 1] in Edges(g, p[i])
  }

  /** `x` is at most `hops` edges away from a root. */
  ghost predicate Within(g: Graph, roots: set<string>, hops: nat, x: string) {
    exists p :: Path(g, p) && p != [] && p[0] in roots && |p| <= hops + 1 && p[|p| - 1] == x
  }

  ghost function Reach(g: Graph, roots: set<string>, hops: nat): set<string> {
    if hops == 0 then roots else Reach(g, roots, hops - 1) + Targets(g, Reach(g, roots, hops - 1))
  }

  lemma {:induction false} OneIsPath(g: Graph, x: string)
    ensures Path(g, [x])
  {
  }

  lemma {:induction false} ExtendPath(g: Graph, p: seq<string>, x: string)
    requires Path(g, p) && x in Edges(g, p[|p| - 1])
    ensures var longer := p + [x]; Path(g, longer) && longer[0] == p[0] && longer[|longer| - 1] == x
  {
  }

  lemma {:induction false} ReachedIsWithin(g: Graph, roots: set<string>, hops: nat, x: string)
    requires x in Reach(g, roots, hops)
    ensures Within(g, roots, hops, x)
    decreases hops
  {
    hide Edges, Path;
    if hops == 0 {
      OneIsPath(g, x);
    } else if x in Reach(g, roots, hops - 1) {
      ReachedIsWithin(g, roots, hops - 1, x);
    } else {
      var y :| y in Reach(g, roots, hops - 1) && x in Edges(g, y);
      ReachedIsWithin(g, roots, hops - 1, y);
      var p :| Path(g, p) && p != [] && p[0] in roots && |p| <= hops && p[|p| - 1] == y;
      ExtendPath(g, p, x);
    }
  }

  lemma {:induction false} PathReaches(g: Graph, roots: set<string>, p: seq<string>)
    requires Path(g, p) && p[0] in roots
    ensures p[|p| - 1] in Reach(g, roots, |p| - 1)
    decreases |p|
  {
    hide Edges;
    if |p| > 1 {
      var n := |p| - 1;
      PathReaches(g, roots, p[..n]);
      assert p[n - 1 + 1] in Edges(g, p[n - 1]);
    }
  }

  lemma {:induction false} ReachGrows(g: Graph, roots: set<string>, less: nat, more: nat)
    requires less <= more
    ensures Reach(g, roots, less) <= Reach(g, roots, more)
    decreases more
  {
    if less < more { ReachGrows(g, roots, less, more - 1); }
  }

  /** The levels of the walk are exactly the nodes within that many edges. */
  lemma {:induction false} ReachIsWithin(g: Graph, roots: set<string>, hops: nat, x: string)
    ensures x in Reach(g, roots, hops) <==> Within(g, roots, hops, x)
  {
    hide Reach, Path;
    if x in Reach(g, roots, hops) { ReachedIsWithin(g, roots, hops, x); }
    if Within(g, roots, hops, x) {
      var p :| Path(g, p) && p != [] && p[0] in roots && |p| <= hops + 1 && p[|p| - 1] == x;
      PathReaches(g, roots, p);
      ReachGrows(g, roots, |p| - 1, hops);
    }
  }

  lemma {:induction false} SizeGrows(a: set<string>, b: set<string>)
    requires a <= b
    ensures |a| <= |b|
  {
    assert b == a + (b - a);
  }

  // ----- one level -----

  /** The nodes have few enough edges and, if there is an edge at all, few enough nodes were found. */
  ghost predicate Fits(g: Graph, nodes: set<string>, found: set<string>, maxEdges: int, maxRows: int) {
    && (forall x :: x in nodes ==> |Edges(g, x)| <= maxEdges)
    && ((exists x :: x in nodes && Edges(g, x) != []) ==> |found| <= maxRows)
  }

  ghost predicate LevelFits(g: Graph, level: set<string>, seen: set<string>, maxEdges: int, maxRows: int) {
    Fits(g, level, seen + Targets(g, level), maxEdges, maxRows)
  }

  lemma {:induction false} ElementsGrow(s: seq<string>, i: nat)
    requires i < |s|
    ensures Elements(s[..i + 1]) == Elements(s[..i]) + {s[i]} && Elements(s[..i + 1]) <= Elements(s)
  {
    assert s[..i + 1] == s[..i] + [s[i]];
  }

  lemma {:induction false} ElementsOfAppend(s: seq<string>, x: string)
    ensures Elements(s + [x]) == Elements(s) + {x} && Elements([]) == {}
  {
  }

  lemma {:induction false} OneMore(seen: set<string>, done: set<string>, before: set<string>, x: string)
    ensures seen + (done + {x}) == if x in seen + done then seen + done else seen + done + {x}
    ensures x in seen + done ==> before + (done + {x} - seen) == before + (done - seen)
    ensures x !in seen + done ==> before + (done + {x} - seen) == before + (done - seen) + {x}
  {
  }

  /** The edges of one node; false is the error. */
  method Follow(edges: seq<string>, seen: set<string>, next: seq<string>, maxRows: int)
    returns (ok: bool, found: set<string>, queue: seq<string>)
    ensures ok <==> edges == [] || |seen + Elements(edges)| <= maxRows
    ensures ok ==> found == seen + Elements(edges) && Elements(queue) == Elements(next) + (Elements(edges) - seen)
  {
    hide Elements;
    ok, found, queue := true, seen, next;
    ElementsOfAppend([], "");
    for i := 0 to |edges|
      invariant ok && found == seen + Elements(edges[..i])
      invariant Elements(queue) == Elements(next) + (Elements(edges[..i]) - seen)
      invariant i > 0 ==> |found| <= maxRows
    {
      ElementsGrow(edges, i);
      ElementsOfAppend(queue, edges[i]);
      OneMore(seen, Elements(edges[..i]), Elements(next), edges[i]);
      if edges[i] !in found {
        found := found + {edges[i]};
        queue := queue + [edges[i]];
      }
      if |found| > maxRows {
        SizeGrows(found, seen + Elements(edges));
        ok := false;
        return;
      }
    }
    assert edges[..|edges|] == edges;
  }

  method ExpandLevel(g: Graph, frontier: seq<string>, seen: set<string>, maxEdges: int, maxRows: int)
    returns (ok: bool, found: set<string>, queue: seq<string>)
    ensures ok <==> LevelFits(g, Elements(frontier), seen, maxEdges, maxRows)
    ensures ok ==> found == seen + Targets(g, Elements(frontier)) && Elements(queue) == found - seen
  {
    hide Elements, Targets, Edges, LevelFits;
    ok, found, queue := true, seen, [];
    ElementsOfAppend([], "");
    EmptyLevelFits(g, seen, maxEdges, maxRows);
    for i := 0 to |frontier|
      invariant ok && found == seen + Targets(g, Elements(frontier[..i]))
      invariant Elements(queue) == found - seen
      invariant LevelFits(g, Elements(frontier[..i]), seen, maxEdges, maxRows)
    {
      var edges := Edges(g, frontier[i]);
      ElementsGrow(frontier, i);
      LevelGrows(g, Elements(frontier[..i]), frontier[i], seen, maxEdges, maxRows);
      LevelShrinks(g, Elements(frontier[..i + 1]), Elements(frontier), seen, maxEdges, maxRows);
      NewlyFound(seen, Targets(g, Elements(frontier[..i])), Elements(edges));
      if |edges| > maxEdges {
        ok := false;
        return;
      }
      ok, found, queue := Follow(edges, found, queue, maxRows);
      if !ok { return; }
    }
    assert frontier[..|frontier|] == frontier;
  }

  lemma {:induction false} NewlyFound(seen: set<string>, before: set<string>, more: set<string>)
    ensures seen + before + more == seen + (before + more)
    ensures seen + (before + more) - seen == (seen + before - seen) + (more - (seen + before))
  {
  }

  lemma {:induction false} EmptyLevelFits(g: Graph, seen: set<string>, maxEdges: int, maxRows: int)
    ensures LevelFits(g, {}, seen, maxEdges, maxRows) && Targets(g, {}) == {}
  {
  }

  /** A level grows by a node when the node has few enough edges and they lead to few enough nodes. */
  lemma {:induction false} LevelGrows(
    g: Graph, level: set<string>, node: string, seen: set<string>, maxEdges: int, maxRows: int)
    requires LevelFits(g, level, seen, maxEdges, maxRows)
    ensures Targets(g, level + {node}) == Targets(g, level) + Elements(Edges(g, node))
    ensures LevelFits(g, level + {node}, seen, maxEdges, maxRows) <==>
            |Edges(g, node)| <= maxEdges &&
            (Edges(g, node) == [] || |seen + Targets(g, level + {node})| <= maxRows)
  {
    hide Edges;
    TargetsGrow(g, level, node);
    if Edges(g, node) == [] {
      assert Targets(g, level + {node}) == Targets(g, level);
    } else {
      assert node in level + {node};
    }
  }

  lemma {:induction false} TargetsGrow(g: Graph, level: set<string>, node: string)
    ensures Targets(g, level + {node}) == Targets(g, level) + Elements(Edges(g, node))
  {
  }

  lemma {:induction false} LevelShrinks(
    g: Graph, part: set<string>, level: set<string>, seen: set<string>, maxEdges: int, maxRows: int)
    requires part <= level
    ensures LevelFits(g, level, seen, maxEdges, maxRows) ==> LevelFits(g, part, seen, maxEdges, maxRows)
  {
    hide Edges;
    FitsShrinks(g, part, seen + Targets(g, part), level, seen + Targets(g, level), maxEdges, maxRows);
  }

  /** Fewer nodes with fewer findings fit where more fit. */
  lemma {:induction false} FitsShrinks(
    g: Graph, part: set<string>, less: set<string>, nodes: set<string>, found: set<string>, maxEdges: int, maxRows: int)
    requires part <= nodes && less <= found
    ensures Fits(g, nodes, found, maxEdges, maxRows) ==> Fits(g, part, less, maxEdges, maxRows)
  {
    SizeGrows(less, found);
  }

  // ----- the whole walk -----

  function Hops(maxHops: int): nat { if maxHops < 0 then 0 else maxHops }

  /** The nodes whose edges are followed: those within one hop fewer. */
  ghost function Expanded(g: Graph, roots: set<string>, maxHops: int): set<string> {
    if maxHops <= 0 then {} else Reach(g, roots, maxHops - 1)
  }

  /**
   * When the walk returns: the limits are within the caps, every followed node has few enough
   * edges, and the nodes within reach are few enough. Rows are counted only when an edge is
   * followed, so roots without edges are never too many.
   */
  ghost predicate Admissible(g: Graph, roots: set<string>, maxHops: int, maxEdges: int, maxRows: int) {
    && maxHops <= 2 && maxEdges <= 50 && maxRows <= 500
    && Fits(g, Expanded(g, roots, maxHops), Reach(g, roots, Hops(maxHops)), maxEdges, maxRows)
  }

  /** Roots without edges are returned however many they are. */
  lemma {:induction false} RootsAreNotCounted(roots: set<string>, maxHops: int, maxEdges: int, maxRows: int)
    requires maxHops <= 2 && 0 <= maxEdges <= 50 && maxRows <= 500
    ensures Admissible(map[], roots, maxHops, maxEdges, maxRows) && Reach(map[], roots, Hops(maxHops)) == roots
  {
    NoEdgesNoReach(roots, Hops(maxHops));
  }

  lemma {:induction false} NoEdgesNoReach(roots: set<string>, hops: nat)
    ensures Reach(map[], roots, hops) == roots
  {
    if hops > 0 {
      NoEdgesNoReach(roots, hops - 1);
      assert Targets(map[], roots) == {};
    }
  }

  datatype Outcome = Nodes(sorted: seq<string>) | AccessDenied

  /** The walk returns exactly the nodes within reach, in order, exactly when the limits admit them. */
  method BoundedTraverse(g: Graph, roots: seq<string>, maxHops: int, maxEdges: int, maxRows: int) returns (r: Outcome)
    ensures r.Nodes? <==> Admissible(g, Elements(roots), maxHops, maxEdges, maxRows)
    ensures r.Nodes? ==> Lists(r.sorted, Reach(g, Elements(roots), Hops(maxHops)))
  {
    hide Elements, Reach, Fits, Targets, Lists;
    if maxHops > 2 || maxEdges > 50 || maxRows > 500 { return AccessDenied; }
    ghost var start := Elements(roots);
    var seen, frontier := Elements(roots), roots;
    NothingFollowed(g, start, maxEdges, maxRows);
    for hop := 0 to Hops(maxHops)
      invariant seen == Reach(g, start, hop) == Elements(frontier) + Expanded(g, start, hop)
      invariant Fits(g, Expanded(g, start, hop), seen, maxEdges, maxRows)
    {
      NextLevel(g, start, hop, Elements(frontier), maxEdges, maxRows);
      NextLevelIsAdmitted(g, start, hop, maxHops, maxEdges, maxRows);
      var ok, found, queue := ExpandLevel(g, frontier, seen, maxEdges, maxRows);
      if !ok { return AccessDenied; }
      assert found == Elements(queue) + seen;
      seen, frontier := found, queue;
    }
    var sorted := Sorted(seen);
    return Nodes(sorted);
  }

  lemma {:induction false} NothingFollowed(g: Graph, roots: set<string>, maxEdges: int, maxRows: int)
    ensures Reach(g, roots, 0) == roots && roots == roots + Expanded(g, roots, 0)
    ensures Fits(g, Expanded(g, roots, 0), roots, maxEdges, maxRows)
  {
  }

  /** Following only the newly found nodes is enough. */
  lemma {:induction false} NextLevel(
    g: Graph, roots: set<string>, hop: nat, frontier: set<string>, maxEdges: int, maxRows: int)
    requires Reach(g, roots, hop) == frontier + Expanded(g, roots, hop)
    requires Fits(g, Expanded(g, roots, hop), Reach(g, roots, hop), maxEdges, maxRows)
    ensures var seen := Reach(g, roots, hop);
            && Reach(g, roots, hop + 1) == seen + Targets(g, frontier)
            && (LevelFits(g, frontier, seen, maxEdges, maxRows) <==>
                  Fits(g, seen, Reach(g, roots, hop + 1), maxEdges, maxRows))
  {
    hide Edges, Fits, Targets, Expanded, Reach;
    var seen, after, before := Reach(g, roots, hop), Reach(g, roots, hop + 1), Expanded(g, roots, hop);
    ExpandedIsCovered(g, roots, hop);
    TargetsOfUnion(g, frontier, before);
    assert after == seen + Targets(g, frontier);
    FrontierFits(g, frontier, before, seen, after, maxEdges, maxRows);
  }

  /** What was followed before leads nowhere new. */
  lemma {:induction false} ExpandedIsCovered(g: Graph, roots: set<string>, hop: nat)
    ensures Targets(g, Expanded(g, roots, hop)) <= Reach(g, roots, hop)
    ensures Reach(g, roots, hop + 1) == Reach(g, roots, hop) + Targets(g, Reach(g, roots, hop))
  {
    hide Targets;
    if hop == 0 { EmptyTargets(g); }
  }

  lemma {:induction false} EmptyTargets(g: Graph)
    ensures Targets(g, {}) == {}
  {
  }

  lemma {:induction false} FrontierFits(
    g: Graph, frontier: set<string>, before: set<string>, seen: set<string>, after: set<string>, maxEdges: int,
    maxRows: int)
    requires seen == frontier + before && Fits(g, before, seen, maxEdges, maxRows) &&
             after == seen + Targets(g, frontier)
    ensures Fits(g, frontier, after, maxEdges, maxRows) <==> Fits(g, seen, after, maxEdges, maxRows)
  {
    hide Edges, Targets;
    FitsShrinks(g, frontier, after, seen, after, maxEdges, maxRows);
    if forall x :: x in frontier ==> Edges(g, x) == [] {
      NoTargets(g, frontier);
      assert after == seen;
    }
  }

  lemma {:induction false} NoTargets(g: Graph, nodes: set<string>)
    requires forall x :: x in nodes ==> Edges(g, x) == []
    ensures Targets(g, nodes) == {}
  {
  }

  lemma {:induction false} TargetsOfUnion(g: Graph, a: set<string>, b: set<string>)
    ensures Targets(g, a + b) == Targets(g, a) + Targets(g, b)
  {
  }

  lemma {:induction false} NextLevelIsAdmitted(
    g: Graph, roots: set<string>, hop: nat, maxHops: int, maxEdges: int, maxRows: int)
    requires hop < maxHops
    ensures Admissible(g, roots, maxHops, maxEdges, maxRows) ==>
              Fits(g, Reach(g, roots, hop), Reach(g, roots, hop + 1), maxEdges, maxRows)
  {
    hide Reach, Fits;
    ReachGrows(g, roots, hop, maxHops - 1);
    ReachGrows(g, roots, hop + 1, maxHops);
    FitsShrinks(
      g, Reach(g, roots, hop), Reach(g, roots, hop + 1), Reach(g, roots, maxHops - 1), Reach(g, roots, maxHops),
      maxEdges, maxRows);
  }
}
