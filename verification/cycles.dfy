/** The two-phase cycle detector of `find_circular_dependencies`.

    Phase 1 is a depth-first search over the keys in insertion order that
    collects candidate edges whenever it meets a symbol already on its
    recursion stack.  As in the Python code, the first such hit returns
    `True` all the way up (abandoning the remaining neighbours) and leaves
    every symbol of the aborted branch on the recursion stack; a later root
    that meets one of those stale entries contributes only the direct edge
    into it.  Phase 2 keeps a candidate `(a, b)` exactly when `a` is
    reachable from `b`, searched afresh for every candidate.

    The result is sound (every reported edge lies on a cycle) but not
    complete; see `MissedCycleEdge`. */
module Cycles {
  import opened Dict
  import opened Graph

  type Edge = (string, string)

  /** The mutable state the Python search shares between calls: `visited`,
      `rec_stack` and the candidate set `circular_deps`. */
  datatype Search = Search(visited: set<string>, stack: set<string>, candidates: set<Edge>)

  ghost predicate AllEdges(g: Graph, es: set<Edge>) {
    forall e :: e in es ==> IsEdge(g, e.0, e.1)
  }

  /** `xs.index(x)`: the first position of `x`. */
  function IndexOf(xs: seq<string>, x: string): (i: nat)
    requires x in xs
    ensures i < |xs| && xs[i] == x
    ensures forall j :: 0 <= j < i ==> xs[j] != x
  {
    if xs[0] == x then 0 else 1 + IndexOf(xs[1..], x)
  }

  /** The pairs of neighbouring elements of `cycle`. */
  function Consecutive(cycle: seq<string>): set<Edge> {
    set i | 0 <= i < |cycle| - 1 :: Link(cycle, i)
  }

  /** The pair of `cycle` starting at position `i`. */
  function Link(cycle: seq<string>, i: nat): Edge
    requires i < |cycle| - 1
  {
    (cycle[i], cycle[i + 1])
  }

  /** The edges recorded when the search meets `node` on the recursion stack
      while `path` is the current traversal path: the path from the first
      occurrence of `node`, closed back to `node`; or, when `node` is a stale
      stack entry absent from the path, the single edge from the end of the
      path (nothing on an empty path). */
  function StackHitEdges(path: seq<string>, node: string): set<Edge> {
    if node in path then Consecutive(path[IndexOf(path, node)..] + [node])
    else if |path| > 0 then {(path[|path| - 1], node)}
    else {}
  }

  /** Whatever the recursion stack holds, the recorded edges are edges of the
      graph, as long as the path followed to `node` is a walk. */
  lemma StackHitEdgesAreEdges(g: Graph, path: seq<string>, node: string)
    requires IsWalk(g, path + [node])
    ensures AllEdges(g, StackHitEdges(path, node))
  {
    var w := path + [node];
    if node in path {
      var k := IndexOf(path, node);
      var cycle := path[k..] + [node];
      forall i | 0 <= i < |cycle| - 1
        ensures IsEdge(g, Link(cycle, i).0, Link(cycle, i).1)
      {
        assert cycle[i] == w[k + i] && cycle[i + 1] == w[k + i + 1];
      }
    } else if |path| > 0 {
      assert w[|path| - 1] == path[|path| - 1] && w[|path|] == node;
    }
  }

  lemma WalkExtend(g: Graph, path: seq<string>, n: string)
    requires |path| > 0 && IsWalk(g, path) && IsEdge(g, path[|path| - 1], n)
    ensures IsWalk(g, path + [n])
  {
    var w := path + [n];
    forall i | 0 <= i < |w| - 1
      ensures IsEdge(g, w[i], w[i + 1])
    {
      if i < |path| - 1 {
        assert w[i] == path[i] && w[i + 1] == path[i + 1];
      }
    }
  }

  lemma FewerUnvisited(all: set<string>, v: set<string>, v': set<string>)
    requires v <= v'
    ensures |all - v'| <= |all - v|
  {
    assert all - v' <= all - v;
    SubsetCard(all - v', all - v);
  }

  lemma SubsetCard(a: set<string>, b: set<string>)
    requires a <= b
    ensures |a| <= |b|
  {
    assert b == a + (b - a);
  }

  lemma VisitOne(all: set<string>, v: set<string>, n: string)
    requires n in all && n !in v
    ensures |all - (v + {n})| < |all - v|
  {
    assert all - v == (all - (v + {n})) + {n};
  }

  /** `dfs(node, path)`: returns whether a stack hit occurred below `node`,
      with the updated search state. */
  function Dfs(g: Graph, node: string, path: seq<string>, s: Search): (r: (bool, Search))
    requires node in Nodes(g) && s.visited <= Nodes(g)
    requires IsWalk(g, path + [node])
    requires AllEdges(g, s.candidates)
    ensures s.visited <= r.1.visited <= Nodes(g)
    ensures s.candidates <= r.1.candidates
    ensures AllEdges(g, r.1.candidates)
    decreases |Nodes(g) - s.visited|, 0
  {
    if node in s.stack then
      StackHitEdgesAreEdges(g, path, node);
      (true, s.(candidates := s.candidates + StackHitEdges(path, node)))
    else if node in s.visited then
      (false, s)
    else
      VisitOne(Nodes(g), s.visited, node);
      var r := DfsEach(g, path + [node], Succ(g, node), Enter(s, node));
      if r.0 then r else (false, r.1.(stack := r.1.stack - {node}))
  }

  /** `visited.add(node); rec_stack.add(node)`. */
  function Enter(s: Search, node: string): Search {
    s.(visited := s.visited + {node}, stack := s.stack + {node})
  }

  /** The preconditions of `Dfs`. */
  ghost predicate DfsReady(g: Graph, node: string, path: seq<string>, s: Search) {
    node in Nodes(g) && s.visited <= Nodes(g) && IsWalk(g, path + [node]) && AllEdges(g, s.candidates)
  }

  /** The preconditions of `DfsEach`. */
  ghost predicate EachReady(g: Graph, path: seq<string>, nbrs: seq<string>, s: Search) {
    && |path| > 0 && IsWalk(g, path)
    && (forall n :: n in nbrs ==> IsEdge(g, path[|path| - 1], n))
    && s.visited <= Nodes(g) && AllEdges(g, s.candidates)
  }

  /** Unfolding `dfs` at a symbol on the recursion stack. */
  lemma DfsOnStack(g: Graph, node: string, path: seq<string>, s: Search)
    requires node in Nodes(g) && s.visited <= Nodes(g)
    requires IsWalk(g, path + [node]) && AllEdges(g, s.candidates)
    requires node in s.stack
    ensures Dfs(g, node, path, s) == (true, s.(candidates := s.candidates + StackHitEdges(path, node)))
  {
  }

  /** Unfolding `dfs` at a fresh symbol whose neighbour loop reports a hit. */
  lemma DfsEnterHit(g: Graph, node: string, path: seq<string>, s: Search, r: (bool, Search))
    requires node in Nodes(g) && s.visited <= Nodes(g)
    requires IsWalk(g, path + [node]) && AllEdges(g, s.candidates)
    requires node !in s.stack && node !in s.visited
    requires DfsEach(g, path + [node], Succ(g, node), Enter(s, node)) == r && r.0
    ensures Dfs(g, node, path, s) == r
  {
  }

  /** Unfolding the neighbour loop when its first neighbour reports a hit. */
  lemma DfsEachFirstHit(g: Graph, path: seq<string>, nbrs: seq<string>, s: Search, r: (bool, Search))
    requires |path| > 0 && IsWalk(g, path) && |nbrs| > 0
    requires forall n :: n in nbrs ==> IsEdge(g, path[|path| - 1], n)
    requires s.visited <= Nodes(g) && AllEdges(g, s.candidates)
    requires IsWalk(g, path + [nbrs[0]]) && nbrs[0] in Nodes(g)
    requires Dfs(g, nbrs[0], path, s) == r && r.0
    ensures DfsEach(g, path, nbrs, s) == r
  {
  }

  /** The neighbour loop of `dfs`: `path` already ends with the symbol whose
      neighbours `nbrs` (a suffix of its successor list) are explored. */
  function DfsEach(g: Graph, path: seq<string>, nbrs: seq<string>, s: Search): (r: (bool, Search))
    requires |path| > 0 && IsWalk(g, path)
    requires forall n :: n in nbrs ==> IsEdge(g, path[|path| - 1], n)
    requires s.visited <= Nodes(g)
    requires AllEdges(g, s.candidates)
    ensures s.visited <= r.1.visited <= Nodes(g)
    ensures s.candidates <= r.1.candidates
    ensures AllEdges(g, r.1.candidates)
    decreases |Nodes(g) - s.visited|, |nbrs|
  {
    if |nbrs| == 0 then
      (false, s)
    else
      assert nbrs[0] in nbrs;
      WalkExtend(g, path, nbrs[0]);
      var r := Dfs(g, nbrs[0], path, s);
      if r.0 then r
      else
        FewerUnvisited(Nodes(g), s.visited, r.1.visited);
        assert forall n :: n in nbrs[1..] ==> n in nbrs;
        DfsEach(g, path, nbrs[1..], r.1)
  }

  /** `for node in dependencies: if node not in visited: dfs(node, [])`. */
  function DfsRoots(g: Graph, roots: seq<string>, s: Search): (r: Search)
    requires forall n :: n in roots ==> n in Nodes(g)
    requires s.visited <= Nodes(g)
    requires AllEdges(g, s.candidates)
    ensures s.candidates <= r.candidates
    ensures AllEdges(g, r.candidates)
  {
    if |roots| == 0 then s
    else if roots[0] in s.visited then DfsRoots(g, roots[1..], s)
    else DfsRoots(g, roots[1..], Dfs(g, roots[0], [], s).1)
  }

  /** Phase 1: the candidate edges.  Every candidate is an edge of the graph,
      including the direct edges recorded for stale stack entries. */
  function Candidates(g: Graph): (cs: set<Edge>)
    requires Valid(g)
    ensures forall e :: e in cs ==> IsEdge(g, e.0, e.1)
  {
    DfsRoots(g, g.keys, Search({}, {}, {})).candidates
  }

  /** No edge leaves `c` from a symbol outside `seen`. */
  ghost predicate ClosedBeyond(g: Graph, c: set<string>, seen: set<string>) {
    forall a, b :: a in c && a !in seen && b in Succ(g, a) ==> b in c
  }

  /** `can_reach_back(cur, target)` with the shared `visited_for_path` set
      `seen`: whether `target` was found, and the final `seen`.  A negative
      answer leaves behind a set holding `cur`, not holding `target`, that no
      edge leaves from a symbol this call explored. */
  function Reach(g: Graph, cur: string, target: string, seen: set<string>): (r: (bool, set<string>))
    requires cur in Nodes(g) && seen <= Nodes(g)
    ensures seen <= r.1 <= Nodes(g)
    ensures r.0 ==> Reachable(g, cur, target)
    ensures !r.0 ==> cur in r.1 && (target !in seen ==> target !in r.1) && ClosedBeyond(g, r.1, seen)
    decreases |Nodes(g) - seen|, 0
  {
    if cur == target then
      ReachableRefl(g, cur);
      (true, seen)
    else if cur in seen then
      (false, seen)
    else
      VisitOne(Nodes(g), seen, cur);
      var r := ReachEach(g, Succ(g, cur), target, seen + {cur});
      if r.0 then
        ReachableThroughSuccessor(g, cur, target);
        r
      else r
  }

  lemma ReachableThroughSuccessor(g: Graph, cur: string, target: string)
    requires exists n :: n in Succ(g, cur) && Reachable(g, n, target)
    ensures Reachable(g, cur, target)
  {
    var n :| n in Succ(g, cur) && Reachable(g, n, target);
    ReachablePrepend(g, cur, n, target);
  }

  /** The neighbour loop of `can_reach_back`. */
  function ReachEach(g: Graph, nbrs: seq<string>, target: string, seen: set<string>): (r: (bool, set<string>))
    requires forall n :: n in nbrs ==> n in Nodes(g)
    requires seen <= Nodes(g)
    ensures seen <= r.1 <= Nodes(g)
    ensures r.0 ==> exists n :: n in nbrs && Reachable(g, n, target)
    ensures !r.0 ==> (forall n :: n in nbrs ==> n in r.1)
    ensures !r.0 ==> (target !in seen ==> target !in r.1) && ClosedBeyond(g, r.1, seen)
    decreases |Nodes(g) - seen|, |nbrs|
  {
    if |nbrs| == 0 then
      (false, seen)
    else
      var r := Reach(g, nbrs[0], target, seen);
      if r.0 then r
      else
        FewerUnvisited(Nodes(g), seen, r.1);
        var r' := ReachEach(g, nbrs[1..], target, r.1);
        assert !r'.0 ==> forall n :: n in nbrs ==> n == nbrs[0] || n in nbrs[1..];
        r'
  }

  /** `is_edge_truly_circular(a, b)`, i.e. `can_reach_back(b, a)` from an
      empty visited set: exactly when `a` is reachable from `b`. */
  function CanReachBack(g: Graph, a: string, b: string): (found: bool)
    ensures found <==> Reachable(g, b, a)
  {
    if b in Nodes(g) then
      var r := Reach(g, b, a, {});
      if !r.0 then
        assert Closed(g, r.1);
        ClosedExcludes(g, r.1, b, a);
        r.0
      else r.0
    else
      ReachableFromOutside(g, b, a);
      b == a
  }

  lemma ClosedExcludes(g: Graph, c: set<string>, x: string, y: string)
    requires Closed(g, c) && x in c && y !in c
    ensures !Reachable(g, x, y)
  {
    if Reachable(g, x, y) {
      ClosedHoldsReachable(g, c, x, y);
    }
  }

  /** `find_circular_dependencies`: the candidates of phase 1 that phase 2
      confirms.  Every reported edge is an edge of the graph lying on a
      directed cycle. */
  function FindCircularDependencies(g: Graph): (circular: set<Edge>)
    requires Valid(g)
    ensures forall e :: e in circular ==> OnCycle(g, e.0, e.1)
  {
    set e | e in Candidates(g) && CanReachBack(g, e.0, e.1)
  }

  /** Phase 2 is exactly a filter: a candidate survives iff its tail is
      reachable from its head. */
  lemma ValidationKeepsExactlyReachBack(g: Graph, e: Edge)
    requires Valid(g)
    ensures e in FindCircularDependencies(g) <==> e in Candidates(g) && Reachable(g, e.1, e.0)
  {
  }

  /** Phase 2 keeps `keep` when `keep` is exactly the part of the candidates
      whose tails are reachable from their heads. */
  lemma ValidationResult(g: Graph, keep: set<Edge>)
    requires Valid(g)
    requires keep <= Candidates(g)
    requires forall e :: e in keep ==> Reachable(g, e.1, e.0)
    requires forall e :: e in Candidates(g) && e !in keep ==> !Reachable(g, e.1, e.0)
    ensures FindCircularDependencies(g) == keep
  {
  }

  /** Every edge that lies on a directed cycle: what the detector's phase 2
      would report if phase 1 proposed every edge of the graph. */
  function AllCycleEdges(g: Graph): (circular: set<Edge>)
    requires Valid(g)
    ensures forall a, b :: (a, b) in circular <==> OnCycle(g, a, b)
  {
    set a, b | a in g.m && b in g.m[a] && CanReachBack(g, a, b) :: (a, b)
  }

  /** The reported edges are among the cycle edges. */
  lemma ReportedAreCycleEdges(g: Graph)
    requires Valid(g)
    ensures FindCircularDependencies(g) <= AllCycleEdges(g)
  {
  }
}
