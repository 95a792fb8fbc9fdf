/** The dependency graph shared by all three analysis modes: an ordered
    `dict` from a symbol to the list of symbols it depends on.  Symbols that
    only ever appear as targets have no key; `dependencies.get(n, [])` gives
    them no successors. */
module Graph {
  import opened Dict

  type Graph = Dict<seq<string>>

  /** `dependencies.get(n, [])`. */
  function Succ(g: Graph, n: string): (ts: seq<string>)
    ensures forall t :: t in ts ==> t in Nodes(g)
  {
    Get(g, n, [])
  }

  predicate IsEdge(g: Graph, a: string, b: string) {
    b in Succ(g, a)
  }

  /** Every symbol of the graph: the keys together with every target. */
  function Nodes(g: Graph): set<string> {
    g.m.Keys + (set k, t | k in g.m && t in g.m[k] :: t)
  }

  /** Consecutive elements of `w` are joined by edges. */
  ghost predicate IsWalk(g: Graph, w: seq<string>) {
    forall i :: 0 <= i < |w| - 1 ==> IsEdge(g, w[i], w[i + 1])
  }

  ghost predicate WalkFromTo(g: Graph, w: seq<string>, x: string, y: string) {
    |w| >= 1 && w[0] == x && w[|w| - 1] == y && IsWalk(g, w)
  }

  /** `y` can be reached from `x` by following zero or more edges. */
  ghost predicate Reachable(g: Graph, x: string, y: string) {
    exists w :: WalkFromTo(g, w, x, y)
  }

  /** The edge `a -> b` lies on a directed cycle: `a` is reachable from `b`. */
  ghost predicate OnCycle(g: Graph, a: string, b: string) {
    IsEdge(g, a, b) && Reachable(g, b, a)
  }

  /** No edge leaves `c`. */
  ghost predicate Closed(g: Graph, c: set<string>) {
    forall a, b :: a in c && b in Succ(g, a) ==> b in c
  }

  lemma ReachableRefl(g: Graph, x: string)
    ensures Reachable(g, x, x)
  {
    assert WalkFromTo(g, [x], x, x);
  }

  /** One edge followed by a walk is a walk. */
  lemma ReachablePrepend(g: Graph, x: string, y: string, z: string)
    requires IsEdge(g, x, y) && Reachable(g, y, z)
    ensures Reachable(g, x, z)
  {
    var w :| WalkFromTo(g, w, y, z);
    var w' := [x] + w;
    assert forall i :: 1 <= i < |w'| - 1 ==> w'[i] == w[i - 1] && w'[i + 1] == w[i];
    assert WalkFromTo(g, w', x, z);
  }

  /** A set that no edge leaves holds everything reachable from its members. */
  lemma ClosedHoldsReachable(g: Graph, c: set<string>, x: string, y: string)
    requires Closed(g, c) && x in c && Reachable(g, x, y)
    ensures y in c
  {
    var w :| WalkFromTo(g, w, x, y);
    WalkStaysInClosed(g, c, w);
  }

  lemma {:induction false} WalkStaysInClosed(g: Graph, c: set<string>, w: seq<string>)
    requires Closed(g, c) && |w| >= 1 && w[0] in c && IsWalk(g, w)
    ensures forall i :: 0 <= i < |w| ==> w[i] in c
  {
    if |w| > 1 {
      assert IsEdge(g, w[0], w[1]);
      var w' := w[1..];
      forall i | 0 <= i < |w'| - 1
        ensures IsEdge(g, w'[i], w'[i + 1])
      {
        assert IsEdge(g, w[i + 1], w[i + 2]);
      }
      WalkStaysInClosed(g, c, w');
      assert forall i :: 1 <= i < |w| ==> w[i] == w'[i - 1];
    }
  }

  /** From a symbol outside the graph only the trivial walk starts. */
  lemma ReachableFromOutside(g: Graph, x: string, y: string)
    requires x !in Nodes(g)
    ensures Reachable(g, x, y) <==> x == y
  {
    if x == y {
      ReachableRefl(g, x);
    }
    if Reachable(g, x, y) {
      assert Closed(g, {x});
      ClosedHoldsReachable(g, {x}, x, y);
    }
  }
}
