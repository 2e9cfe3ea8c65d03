/**
 * The root-pointing forest used by the spanning-tree generator: one node
 * per maze cell, named like the cell, each pointing at a parent; a node
 * that points at itself is the root of its set. No union by rank and no
 * path compression.
 *
 * The ghost rank is the acyclicity witness: it strictly increases from a
 * node to its parent, so following parents always ends at a root.
 */
module UnionFind {

  /** Parents stay inside the forest and the rank grows toward the roots. */
  predicate Ranked(parent: seq<nat>, rank: seq<nat>)
  {
    && |rank| == |parent|
    && (forall x :: 0 <= x < |parent| ==> parent[x] < |parent|)
    && (forall x :: 0 <= x < |parent| && parent[x] != x ==> rank[x] < rank[parent[x]])
  }

  function MaxRank(rank: seq<nat>): (m: nat)
    ensures forall x :: 0 <= x < |rank| ==> rank[x] <= m
  {
    if rank == [] then 0
    else
      var m := MaxRank(rank[1..]);
      if rank[0] > m then rank[0] else m
  }

  /** The node reached by following parent links from x until a node points to itself. */
  function Root(parent: seq<nat>, rank: seq<nat>, x: nat): (r: nat)
    requires Ranked(parent, rank) && x < |parent|
    ensures r < |parent| && parent[r] == r
    decreases MaxRank(rank) - rank[x]
  {
    if parent[x] == x then x else Root(parent, rank, parent[x])
  }

  /** The root of every node, as a sequence. */
  function RootMap(parent: seq<nat>, rank: seq<nat>): (m: seq<nat>)
    requires Ranked(parent, rank)
    ensures |m| == |parent|
    ensures forall x :: 0 <= x < |parent| ==> m[x] == Root(parent, rank, x)
  {
    seq(|parent|, x requires 0 <= x < |parent| => Root(parent, rank, x))
  }

  /** The roots of the forest, one per set. */
  function Roots(parent: seq<nat>): set<nat>
  {
    set x | 0 <= x < |parent| && parent[x] == x
  }

  /** x after n parent steps. */
  function Climb(parent: seq<nat>, x: nat, n: nat): nat
    requires forall y :: 0 <= y < |parent| ==> parent[y] < |parent|
    requires x < |parent|
    ensures Climb(parent, x, n) < |parent|
    decreases n
  {
    if n == 0 then x else Climb(parent, parent[x], n - 1)
  }

  /** The rank of the rank update of a union that repoints root1 to root2. */
  function Raised(rank: seq<nat>, root1: nat, root2: nat): seq<nat>
    requires root1 < |rank| && root2 < |rank|
  {
    rank[root2 := if rank[root2] > rank[root1] then rank[root2] else rank[root1] + 1]
  }

  /** n nodes, each its own parent. */
  function Identity(n: nat): (s: seq<nat>)
    ensures |s| == n && forall x :: 0 <= x < n ==> s[x] == x
  {
    seq(n, x => x)
  }

  function Zeros(n: nat): (s: seq<nat>)
    ensures |s| == n && forall x :: 0 <= x < n ==> s[x] == 0
  {
    seq(n, x => 0)
  }

  /** A forest of n singletons: every node is its own root. */
  lemma Singletons(n: nat)
    ensures Ranked(Identity(n), Zeros(n))
    ensures forall x :: 0 <= x < n ==> Root(Identity(n), Zeros(n), x) == x
    ensures |Roots(Identity(n))| == n
  {
    SingletonRoots(n);
  }

  lemma {:induction false} SingletonRoots(n: nat)
    ensures |Roots(Identity(n))| == n
  {
    if n > 0 {
      SingletonRoots(n - 1);
      assert Roots(Identity(n)) == Roots(Identity(n - 1)) + {n - 1};
    } else {
      assert Roots(Identity(n)) == {};
    }
  }

  lemma {:induction false} ClimbNeverDescends(parent: seq<nat>, rank: seq<nat>, x: nat, n: nat)
    requires Ranked(parent, rank) && x < |parent|
    ensures rank[Climb(parent, x, n)] >= rank[x]
    ensures n > 0 && parent[x] != x ==> rank[Climb(parent, x, n)] > rank[x]
    decreases n
  {
    if n > 0 {
      ClimbNeverDescends(parent, rank, parent[x], n - 1);
    }
  }

  /** The parent relation has no cycle: only a root comes back to itself. */
  lemma Acyclic(parent: seq<nat>, rank: seq<nat>, x: nat, n: nat)
    requires Ranked(parent, rank) && x < |parent| && n > 0
    ensures Climb(parent, x, n) == x ==> parent[x] == x
  {
    ClimbNeverDescends(parent, rank, x, n);
  }

  /**
   * Repointing root root1 at another root root2 keeps the forest acyclic;
   * every node whose root was root1 now finds root2, and every other node
   * keeps its root.
   */
  lemma {:induction false} UnionRoot(parent: seq<nat>, rank: seq<nat>, root1: nat, root2: nat, x: nat)
    requires Ranked(parent, rank) && x < |parent|
    requires root1 < |parent| && root2 < |parent| && parent[root1] == root1 && parent[root2] == root2
    requires root1 != root2
    ensures Ranked(parent[root1 := root2], Raised(rank, root1, root2))
    ensures Root(parent[root1 := root2], Raised(rank, root1, root2), x)
         == if Root(parent, rank, x) == root1 then root2 else Root(parent, rank, x)
    decreases MaxRank(rank) - rank[x]
  {
    var parent', rank' := parent[root1 := root2], Raised(rank, root1, root2);
    assert Ranked(parent', rank') by {
      forall y | 0 <= y < |parent'| && parent'[y] != y
        ensures rank'[y] < rank'[parent'[y]]
      {
        if y != root1 {
          assert parent'[y] == parent[y];
        }
      }
    }
    if parent[x] != x {
      UnionRoot(parent, rank, root1, root2, parent[x]);
    } else if x == root1 {
      assert parent'[root2] == root2;
    }
  }

  /** After a union the old root root1 is no longer a root. */
  lemma UnionRoots(parent: seq<nat>, root1: nat, root2: nat)
    requires root1 < |parent| && root2 < |parent| && parent[root1] == root1 && root1 != root2
    ensures Roots(parent[root1 := root2]) == Roots(parent) - {root1}
    ensures |Roots(parent[root1 := root2])| == |Roots(parent)| - 1
  {
    assert Roots(parent[root1 := root2]) == Roots(parent) - {root1};
  }

  /** When every node finds the same root, that root is the only one. */
  lemma SingleRoot(parent: seq<nat>, rank: seq<nat>)
    requires Ranked(parent, rank) && |parent| > 0
    requires forall x :: 0 <= x < |parent| ==> Root(parent, rank, x) == Root(parent, rank, 0)
    ensures Roots(parent) == {Root(parent, rank, 0)}
  {
    var r0 := Root(parent, rank, 0);
    forall r | r in Roots(parent)
      ensures r == r0
    {
      assert Root(parent, rank, r) == r;
    }
  }

  /** The RootPointingNode forest: parent[x] is the name of the parent of node x. */
  class Forest {
    const parent: array<nat>
    ghost var rank: seq<nat>

    ghost predicate Valid()
      reads this, parent
    {
      Ranked(parent[..], rank)
    }

    /** n root-pointing nodes, each its own parent. */
    constructor (n: nat)
      ensures Valid() && fresh(parent) && parent.Length == n
      ensures forall x :: 0 <= x < n ==> parent[x] == x
      ensures forall x :: 0 <= x < n ==> Root(parent[..], rank, x) == x
      ensures |Roots(parent[..])| == n
    {
      parent := new nat[n](x => x);
      rank := Zeros(n);
      new;
      assert parent[..] == Identity(n);
      Singletons(n);
    }

    /** getRootNode: follows parent links until a node points to itself, and returns its name. */
    method GetRoot(p: nat) returns (name: nat)
      requires Valid() && p < parent.Length
      ensures name < parent.Length && parent[name] == name
      ensures name == Root(parent[..], rank, p)
    {
      var q: nat := p;
      while parent[q] != q
        invariant q < parent.Length && |rank| == parent.Length
        invariant Root(parent[..], rank, q) == Root(parent[..], rank, p)
        decreases MaxRank(rank) - rank[q]
      {
        q := parent[q];
      }
      name := q;
    }

    /** Joins two sets by pointing the root root1 at the root root2. */
    method Union(root1: nat, root2: nat)
      requires Valid() && root1 < parent.Length && root2 < parent.Length
      requires parent[root1] == root1 && parent[root2] == root2 && root1 != root2
      modifies this, parent
      ensures Valid()
      ensures parent[..] == old(parent[..])[root1 := root2] && rank == Raised(old(rank), root1, root2)
      ensures Roots(parent[..]) == Roots(old(parent[..])) - {root1}
      ensures forall x :: 0 <= x < parent.Length ==>
        Root(parent[..], rank, x) == if Root(old(parent[..]), old(rank), x) == root1 then root2 else Root(old(parent[..]), old(rank), x)
    {
      parent[root1] := root2;
      rank := Raised(rank, root1, root2);
      UnionRoots(old(parent[..]), root1, root2);
      forall x | 0 <= x < parent.Length
        ensures Root(parent[..], rank, x) == if Root(old(parent[..]), old(rank), x) == root1 then root2 else Root(old(parent[..]), old(rank), x)
      {
        UnionRoot(old(parent[..]), old(rank), root1, root2, x);
      }
    }
  }
}
