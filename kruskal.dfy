/**
 * The invariant of the Kruskal loop of generateSpanningTree, stated on
 * values: the root-pointing forest over n nodes (parent and ghost rank),
 * the keys of the edges accepted so far (tree) and the keys of all edges
 * polled so far (done). Two nodes share a root exactly when the accepted
 * edges join them, which is what makes "the roots differ" the test for
 * "the edge closes no cycle".
 *
 * routes[x] is a walk over the accepted edges from x to its root; it is
 * the ghost witness that a shared root means a connection.
 */
module Kruskal {
  import opened Grid
  import opened Walks
  import opened UnionFind

  /** The invariant over the root of every node, tag[x] being the root of x. */
  ghost predicate Tagged(n: nat, tag: seq<nat>, tree: set<Pair>, done: set<Pair>, routes: seq<seq<nat>>)
  {
    && |tag| == n && |routes| == n
    && tree <= done
    && (forall p :: p in done ==> p.0 < n && p.1 < n && tag[p.0] == tag[p.1])
    && (forall x :: 0 <= x < n ==> Connects(tree, routes[x], x, tag[x]))
  }

  ghost predicate Invariant(n: nat, parent: seq<nat>, rank: seq<nat>, tree: set<Pair>, done: set<Pair>, routes: seq<seq<nat>>)
  {
    && |parent| == n && Ranked(parent, rank)
    && Tagged(n, RootMap(parent, rank), tree, done, routes)
    && |tree| + |Roots(parent)| == n
  }

  /** Each node alone on its route. */
  function Alone(n: nat): (r: seq<seq<nat>>)
    ensures |r| == n && forall x :: 0 <= x < n ==> r[x] == [x]
  {
    seq(n, x => [x])
  }

  /** Before any edge is polled: n singleton sets and no accepted edge. */
  lemma Start(n: nat, parent: seq<nat>, rank: seq<nat>)
    requires |parent| == n && Ranked(parent, rank)
    requires forall x :: 0 <= x < n ==> parent[x] == x
    ensures Invariant(n, parent, rank, {}, {}, Alone(n))
  {
    assert parent == Identity(n);
    SingletonRoots(n);
  }

  /** Two nodes share a tag exactly when the accepted edges connect them. */
  lemma SameTagIffConnected(n: nat, tag: seq<nat>, tree: set<Pair>, done: set<Pair>, routes: seq<seq<nat>>, x: nat, y: nat)
    requires Tagged(n, tag, tree, done, routes) && x < n && y < n
    ensures tag[x] == tag[y] <==> Connected(tree, x, y)
  {
    if tag[x] == tag[y] {
      ReverseConnects(tree, routes[y], y, tag[x]);
      JoinConnects(tree, routes[x], Reverse(routes[y]), x, tag[x], y);
    }
    forall q | Connects(tree, q, x, y)
      ensures tag[x] == tag[y]
    {
      TagsAlongWalk(tree, tag, q, x, y);
    }
  }

  /** Two nodes share a root exactly when the accepted edges connect them. */
  lemma SameRootIffConnected(n: nat, parent: seq<nat>, rank: seq<nat>, tree: set<Pair>, done: set<Pair>, routes: seq<seq<nat>>, x: nat, y: nat)
    requires Invariant(n, parent, rank, tree, done, routes) && x < n && y < n
    ensures Root(parent, rank, x) == Root(parent, rank, y) <==> Connected(tree, x, y)
  {
    SameTagIffConnected(n, RootMap(parent, rank), tree, done, routes, x, y);
  }

  /** The routes after accepting the edge (a, b): nodes of the set rooted at r1 walk on over the new edge. */
  function Rerouted(routes: seq<seq<nat>>, tag: seq<nat>, r1: nat, a: nat, b: nat): (r: seq<seq<nat>>)
    requires |tag| == |routes| && a < |routes| && b < |routes| && routes[a] != [] && routes[b] != []
    ensures |r| == |routes|
    ensures forall x :: 0 <= x < |routes| ==>
      r[x] == if tag[x] == r1 then routes[x] + Reverse(routes[a])[1..] + [b] + routes[b][1..] else routes[x]
  {
    seq(|routes|, x requires 0 <= x < |routes| =>
      if tag[x] == r1 then routes[x] + Reverse(routes[a])[1..] + [b] + routes[b][1..] else routes[x])
  }

  /** A walk from x to root r1, then back from r1 to a, over the edge (a, b), and from b to root r2. */
  lemma Bridge(tree: set<Pair>, p: Pair, wx: seq<nat>, wa: seq<nat>, wb: seq<nat>, x: nat, r1: nat, r2: nat)
    requires p.0 < p.1
    requires Connects(tree, wx, x, r1) && Connects(tree, wa, p.0, r1) && Connects(tree, wb, p.1, r2)
    ensures Connects(tree + {p}, wx + Reverse(wa)[1..] + [p.1] + wb[1..], x, r2)
  {
    var t := tree + {p};
    ConnectsMono(tree, t, wx, x, r1);
    ConnectsMono(tree, t, wa, p.0, r1);
    ConnectsMono(tree, t, wb, p.1, r2);
    ReverseConnects(t, wa, p.0, r1);
    JoinConnects(t, wx, Reverse(wa), x, r1, p.0);
    var w1 := wx + Reverse(wa)[1..];
    assert Connects(t, [p.0, p.1], p.0, p.1);
    JoinConnects(t, w1, [p.0, p.1], x, p.0, p.1);
    assert [p.0, p.1][1..] == [p.1];
    JoinConnects(t, w1 + [p.1], wb, x, p.1, r2);
  }

  /** After the union, the set rooted at r1 hangs under r2 and every other node keeps its root. */
  lemma UnionFacts(n: nat, parent: seq<nat>, rank: seq<nat>, r1: nat, r2: nat)
    requires |parent| == n && Ranked(parent, rank)
    requires r1 < n && r2 < n && parent[r1] == r1 && parent[r2] == r2 && r1 != r2
    ensures Ranked(parent[r1 := r2], Raised(rank, r1, r2))
    ensures forall x :: 0 <= x < n ==>
      Root(parent[r1 := r2], Raised(rank, r1, r2), x) == if Root(parent, rank, x) == r1 then r2 else Root(parent, rank, x)
    ensures |Roots(parent[r1 := r2])| == |Roots(parent)| - 1
  {
    forall x | 0 <= x < n
      ensures Ranked(parent[r1 := r2], Raised(rank, r1, r2))
      ensures Root(parent[r1 := r2], Raised(rank, r1, r2), x) == if Root(parent, rank, x) == r1 then r2 else Root(parent, rank, x)
    {
      UnionRoot(parent, rank, r1, r2, x);
    }
    if n == 0 {
      assert false;
    }
    UnionRoot(parent, rank, r1, r2, 0);
    UnionRoots(parent, r1, r2);
  }

  /** Joining the set tagged r1 into the set tagged r2 over the edge p keeps the tag invariant. */
  lemma AcceptTags(n: nat, tag: seq<nat>, tag': seq<nat>, tree: set<Pair>, done: set<Pair>, routes: seq<seq<nat>>, p: Pair)
    requires Tagged(n, tag, tree, done, routes) && |tag'| == n
    requires p.0 < p.1 < n && tag[p.0] != tag[p.1]
    requires forall x :: 0 <= x < n ==> tag'[x] == if tag[x] == tag[p.0] then tag[p.1] else tag[x]
    ensures routes[p.0] != [] && routes[p.1] != []
    ensures Tagged(n, tag', tree + {p}, done + {p}, Rerouted(routes, tag, tag[p.0], p.0, p.1))
  {
    var r1, r2 := tag[p.0], tag[p.1];
    var routes' := Rerouted(routes, tag, r1, p.0, p.1);
    forall x | 0 <= x < n
      ensures Connects(tree + {p}, routes'[x], x, tag'[x])
    {
      if tag[x] == r1 {
        Bridge(tree, p, routes[x], routes[p.0], routes[p.1], x, r1, r2);
      } else {
        ConnectsMono(tree, tree + {p}, routes[x], x, tag[x]);
      }
    }
  }

  /**
   * Accepting an edge whose endpoints have different roots, and joining
   * the two sets by pointing the first root at the second, keeps the
   * invariant, with one edge more and one set fewer.
   */
  lemma Accept(n: nat, parent: seq<nat>, rank: seq<nat>, tree: set<Pair>, done: set<Pair>, routes: seq<seq<nat>>, p: Pair)
    returns (routes': seq<seq<nat>>)
    requires Invariant(n, parent, rank, tree, done, routes)
    requires p.0 < p.1 < n && p !in done
    requires Root(parent, rank, p.0) != Root(parent, rank, p.1)
    ensures var r1, r2 := Root(parent, rank, p.0), Root(parent, rank, p.1);
      Invariant(n, parent[r1 := r2], Raised(rank, r1, r2), tree + {p}, done + {p}, routes')
  {
    var r1, r2 := Root(parent, rank, p.0), Root(parent, rank, p.1);
    var parent', rank' := parent[r1 := r2], Raised(rank, r1, r2);
    UnionFacts(n, parent, rank, r1, r2);
    var tag := RootMap(parent, rank);
    AcceptTags(n, tag, RootMap(parent', rank'), tree, done, routes, p);
    routes' := Rerouted(routes, tag, r1, p.0, p.1);
    OneMore(tree, done, p);
  }

  /** A key not polled before is not yet accepted, so accepting it adds one edge. */
  lemma OneMore(tree: set<Pair>, done: set<Pair>, p: Pair)
    requires tree <= done && p !in done
    ensures |tree + {p}| == |tree| + 1
  {
    assert p !in tree;
  }

  /** Rejecting an edge whose endpoints already share a root keeps the invariant. */
  lemma Reject(n: nat, parent: seq<nat>, rank: seq<nat>, tree: set<Pair>, done: set<Pair>, routes: seq<seq<nat>>, p: Pair)
    requires Invariant(n, parent, rank, tree, done, routes)
    requires p.0 < n && p.1 < n && Root(parent, rank, p.0) == Root(parent, rank, p.1)
    ensures Invariant(n, parent, rank, tree, done + {p}, routes)
  {
  }

  /** One more key in the order: Greedy keeps it exactly when its nodes are not yet connected. */
  lemma GreedyStep(order: seq<Pair>, p: Pair)
    ensures Greedy(order + [p]) == if Connected(Greedy(order), p.0, p.1) then Greedy(order) else Greedy(order) + {p}
  {
    assert (order + [p])[..|order|] == order;
  }

  /**
   * The test of the Kruskal loop: the endpoints of the next key have
   * different roots exactly when the edges kept so far do not connect
   * them, so the loop keeps exactly what Greedy keeps.
   */
  lemma Decide(n: nat, parent: seq<nat>, rank: seq<nat>, tree: set<Pair>, done: set<Pair>, routes: seq<seq<nat>>, keys: seq<Pair>, p: Pair)
    requires Invariant(n, parent, rank, tree, done, routes) && tree == Greedy(keys)
    requires p.0 < n && p.1 < n
    ensures Root(parent, rank, p.0) != Root(parent, rank, p.1) <==> !Connected(tree, p.0, p.1)
    ensures Greedy(keys + [p]) == if Root(parent, rank, p.0) != Root(parent, rank, p.1) then tree + {p} else tree
  {
    SameRootIffConnected(n, parent, rank, tree, done, routes, p.0, p.1);
    GreedyStep(keys, p);
  }

  /**
   * Once every adjacent pair of the grid has been polled, one set is left:
   * the accepted edges number one less than the nodes and connect every
   * node to node 0.
   */
  lemma Spanning(depth: nat, width: nat, parent: seq<nat>, rank: seq<nat>, tree: set<Pair>, routes: seq<seq<nat>>)
    requires depth > 0 && width > 0
    requires Invariant(depth * width, parent, rank, tree, GridPairs(depth, width), routes)
    ensures Roots(parent) == {Root(parent, rank, 0)}
    ensures |tree| == depth * width - 1
    ensures forall x :: 0 <= x < depth * width ==> Connected(tree, 0, x)
  {
    var n := depth * width;
    var tag := RootMap(parent, rank);
    UniformTags(depth, width, tag);
    SingleRoot(parent, rank);
    forall x | 0 <= x < n
      ensures Connected(tree, 0, x)
    {
      SameRootIffConnected(n, parent, rank, tree, GridPairs(depth, width), routes, 0, x);
    }
  }
}
