/**
 * Walks over a set of undirected edges, each edge given by the canonical
 * key of its two endpoints. Used to state that the open edges of a maze
 * connect its cells and that the solution path runs along them.
 */
module Walks {
  import opened Grid

  /** Every two consecutive nodes of p are joined by an edge of t. */
  predicate Walk(t: set<Pair>, p: seq<nat>)
  {
    forall i :: 0 <= i < |p| - 1 ==> Key(p[i], p[i + 1]) in t
  }

  /** p is a walk over t from x to y. */
  predicate Connects(t: set<Pair>, p: seq<nat>, x: nat, y: nat)
  {
    |p| > 0 && p[0] == x && p[|p| - 1] == y && Walk(t, p)
  }

  ghost predicate Connected(t: set<Pair>, x: nat, y: nat)
  {
    exists p :: Connects(t, p, x, y)
  }

  /** No node occurs twice in p. */
  predicate Simple(p: seq<nat>)
  {
    forall i, j :: 0 <= i < j < |p| ==> p[i] != p[j]
  }

  function Reverse(p: seq<nat>): (r: seq<nat>)
    ensures |r| == |p|
    ensures forall i :: 0 <= i < |p| ==> r[i] == p[|p| - 1 - i]
  {
    if p == [] then [] else Reverse(p[1..]) + [p[0]]
  }

  /** A walk read backwards is a walk between the same two nodes. */
  lemma ReverseConnects(t: set<Pair>, p: seq<nat>, x: nat, y: nat)
    requires Connects(t, p, x, y)
    ensures Connects(t, Reverse(p), y, x)
  {
    var r := Reverse(p);
    forall i | 0 <= i < |r| - 1
      ensures Key(r[i], r[i + 1]) in t
    {
      var j := |p| - 2 - i;
      assert Key(p[j], p[j + 1]) in t;
      assert r[i] == p[j + 1] && r[i + 1] == p[j];
    }
  }

  /** A walk from x to y followed by a walk from y to z is a walk from x to z. */
  lemma JoinConnects(t: set<Pair>, p: seq<nat>, q: seq<nat>, x: nat, y: nat, z: nat)
    requires Connects(t, p, x, y) && Connects(t, q, y, z)
    ensures Connects(t, p + q[1..], x, z)
  {
    var w := p + q[1..];
    forall i | 0 <= i < |w| - 1
      ensures Key(w[i], w[i + 1]) in t
    {
      if i < |p| - 1 {
        assert w[i] == p[i] && w[i + 1] == p[i + 1];
      } else {
        var j := i - (|p| - 1);
        assert w[i] == q[j] && w[i + 1] == q[j + 1];
      }
    }
  }

  /**
   * When every edge of t joins two nodes with equal tags, the two ends of a
   * walk over t carry equal tags.
   */
  lemma {:induction false} TagsAlongWalk(t: set<Pair>, tag: seq<nat>, p: seq<nat>, x: nat, y: nat)
    requires forall e :: e in t ==> e.0 < |tag| && e.1 < |tag| && tag[e.0] == tag[e.1]
    requires x < |tag| && Connects(t, p, x, y)
    ensures y < |tag| && tag[x] == tag[y]
    decreases |p|
  {
    if |p| > 1 {
      var e := Key(p[0], p[1]);
      assert e in t;
      assert Connects(t, p[1..], p[1], y);
      TagsAlongWalk(t, tag, p[1..], p[1], y);
    }
  }

  /** A walk stays a walk when edges are added. */
  lemma ConnectsMono(t: set<Pair>, t2: set<Pair>, p: seq<nat>, x: nat, y: nat)
    requires t <= t2 && Connects(t, p, x, y)
    ensures Connects(t2, p, x, y)
  {
    forall i | 0 <= i < |p| - 1
      ensures Key(p[i], p[i + 1]) in t2
    {
      assert Key(p[i], p[i + 1]) in t;
    }
  }

  /**
   * The reference for Kruskal's algorithm: the keys of order are taken in
   * turn, and a key is kept exactly when its two nodes are not yet joined
   * by a walk over the keys kept before it.
   */
  ghost function Greedy(order: seq<Pair>): set<Pair>
  {
    if order == [] then {}
    else
      var kept := Greedy(order[..|order| - 1]);
      var p := order[|order| - 1];
      if Connected(kept, p.0, p.1) then kept else kept + {p}
  }

  lemma Stay(t: set<Pair>, x: nat)
    ensures Connected(t, x, x)
  {
    assert Connects(t, [x], x, x);
  }

  lemma Step(t: set<Pair>, x: nat, y: nat)
    requires Key(x, y) in t
    ensures Connected(t, x, y)
  {
    assert Connects(t, [x, y], x, y);
  }

  lemma Symmetric(t: set<Pair>, x: nat, y: nat)
    requires Connected(t, x, y)
    ensures Connected(t, y, x)
  {
    var p :| Connects(t, p, x, y);
    ReverseConnects(t, p, x, y);
  }

  lemma Transitive(t: set<Pair>, x: nat, y: nat, z: nat)
    requires Connected(t, x, y) && Connected(t, y, z)
    ensures Connected(t, x, z)
  {
    var p :| Connects(t, p, x, y);
    var q :| Connects(t, q, y, z);
    JoinConnects(t, p, q, x, y, z);
  }

  lemma ConnectedMono(t: set<Pair>, t2: set<Pair>, x: nat, y: nat)
    requires t <= t2 && Connected(t, x, y)
    ensures Connected(t2, x, y)
  {
    var p :| Connects(t, p, x, y);
    ConnectsMono(t, t2, p, x, y);
  }

  /**
   * A walk over s and one more edge q either avoids q, or reaches one end
   * of q over s and goes on over s from the other end.
   */
  lemma {:induction false} SplitOver(s: set<Pair>, q: Pair, w: seq<nat>, x: nat, y: nat)
    requires Connects(s + {q}, w, x, y)
    ensures || Connected(s, x, y)
            || (Connected(s, x, q.0) && Connected(s, q.1, y))
            || (Connected(s, x, q.1) && Connected(s, q.0, y))
    decreases |w|
  {
    if |w| == 1 {
      Stay(s, x);
    } else {
      var z := w[1];
      assert Key(w[0], w[1]) in s + {q};
      forall i | 0 <= i < |w[1..]| - 1
        ensures Key(w[1..][i], w[1..][i + 1]) in s + {q}
      {
        assert Key(w[i + 1], w[i + 2]) in s + {q};
      }
      SplitOver(s, q, w[1..], z, y);
      if Key(x, z) in s {
        Step(s, x, z);
        if Connected(s, z, y) {
          Transitive(s, x, z, y);
        } else if Connected(s, z, q.0) && Connected(s, q.1, y) {
          Transitive(s, x, z, q.0);
        } else {
          Transitive(s, x, z, q.1);
        }
      } else {
        Stay(s, x);
        if x == q.0 {
          assert z == q.1;
        } else {
          assert x == q.1 && z == q.0;
        }
      }
    }
  }

  /** No edge of t closes a cycle: the ends of each are joined by no walk avoiding it. */
  ghost predicate Cycleless(t: set<Pair>)
  {
    forall p :: p in t ==> p.0 < p.1 && !Connected(t - {p}, p.0, p.1)
  }

  /** Adding an edge between two nodes not yet connected closes no cycle. */
  lemma AddBridge(t: set<Pair>, q: Pair)
    requires Cycleless(t) && q.0 < q.1 && !Connected(t, q.0, q.1)
    ensures Cycleless(t + {q})
  {
    var t' := t + {q};
    forall p | p in t'
      ensures p.0 < p.1 && !Connected(t' - {p}, p.0, p.1)
    {
      if p == q {
        if Connected(t' - {p}, p.0, p.1) {
          ConnectedMono(t' - {p}, t, p.0, p.1);
        }
      } else if Connected(t' - {p}, p.0, p.1) {
        var s := t - {p};
        assert t' - {p} == s + {q};
        var w :| Connects(s + {q}, w, p.0, p.1);
        SplitOver(s, q, w, p.0, p.1);
        Step(t, p.0, p.1);
        if Connected(s, p.0, q.0) && Connected(s, q.1, p.1) {
          ConnectedMono(s, t, p.0, q.0);
          ConnectedMono(s, t, q.1, p.1);
          Symmetric(t, p.0, q.0);
          Transitive(t, q.0, p.0, p.1);
          Symmetric(t, q.1, p.1);
          Transitive(t, q.0, p.1, q.1);
        } else {
          assert Connected(s, p.0, q.1) && Connected(s, q.0, p.1);
          ConnectedMono(s, t, p.0, q.1);
          ConnectedMono(s, t, q.0, p.1);
          Symmetric(t, q.0, p.1);
          Transitive(t, p.0, p.1, q.0);
          Symmetric(t, p.0, q.0);
          Transitive(t, q.0, p.0, q.1);
        }
      }
    }
  }

  /** What Greedy keeps of canonical keys has no cycle. */
  lemma {:induction false} GreedyCycleless(order: seq<Pair>)
    requires forall i :: 0 <= i < |order| ==> order[i].0 < order[i].1
    ensures Cycleless(Greedy(order))
  {
    if order != [] {
      var init := order[..|order| - 1];
      GreedyCycleless(init);
      var p := order[|order| - 1];
      if !Connected(Greedy(init), p.0, p.1) {
        AddBridge(Greedy(init), p);
      }
    }
  }

  /** The two ends of a walk of two or more nodes that repeats no node are different. */
  lemma SimpleEnds(p: seq<nat>)
    requires Simple(p)
    ensures |p| > 1 ==> p[0] != p[|p| - 1]
  {
  }

  /**
   * Without cycles, two walks that repeat no node and join the same two
   * nodes take the same first step: otherwise the first edge of one would
   * be bypassed by the rest of it followed by the other walk backwards.
   */
  lemma FirstStep(t: set<Pair>, p: seq<nat>, q: seq<nat>, x: nat, y: nat)
    requires Cycleless(t) && Connects(t, p, x, y) && Connects(t, q, x, y) && Simple(p) && Simple(q)
    requires |p| > 1 && |q| > 1
    ensures p[1] == q[1]
  {
    if p[1] != q[1] {
      var e := Key(x, p[1]);
      assert e in t by {
        assert Key(p[0], p[1]) in t;
      }
      var s := t - {e};
      var p' := p[1..];
      forall i | 0 <= i < |p'| - 1
        ensures Key(p'[i], p'[i + 1]) in s
      {
        assert p'[i] == p[i + 1] && p'[i + 1] == p[i + 2];
        assert Key(p[i + 1], p[i + 2]) in t;
        assert p[0] != p[i + 1] && p[0] != p[i + 2];
      }
      forall i | 0 <= i < |q| - 1
        ensures Key(q[i], q[i + 1]) in s
      {
        assert Key(q[i], q[i + 1]) in t;
        assert q[0] != q[i + 1];
        if i > 0 {
          assert q[0] != q[i];
        }
      }
      assert Connects(s, p', p[1], y);
      assert Connects(s, q, x, y);
      ReverseConnects(s, q, x, y);
      JoinConnects(s, p', Reverse(q), p[1], y, x);
      assert Connected(s, p[1], x);
      if e.0 == x {
        Symmetric(s, p[1], x);
      }
    }
  }

  /** Without cycles, two nodes are joined by at most one walk that repeats no node. */
  lemma {:induction false} UniqueWalk(t: set<Pair>, p: seq<nat>, q: seq<nat>, x: nat, y: nat)
    requires Cycleless(t) && Connects(t, p, x, y) && Connects(t, q, x, y) && Simple(p) && Simple(q)
    ensures p == q
    decreases |p|
  {
    SimpleEnds(p);
    SimpleEnds(q);
    if |p| > 1 && |q| > 1 {
      FirstStep(t, p, q, x, y);
      Rest(t, p, x, y);
      Rest(t, q, x, y);
      UniqueWalk(t, p[1..], q[1..], p[1], y);
      assert p == [x] + p[1..] && q == [x] + q[1..];
    }
  }

  /** A walk of two or more nodes goes on from its second node, still without repeats when it had none. */
  lemma Rest(t: set<Pair>, p: seq<nat>, x: nat, y: nat)
    requires Connects(t, p, x, y) && |p| > 1
    ensures Connects(t, p[1..], p[1], y)
    ensures Simple(p) ==> Simple(p[1..])
  {
    var p' := p[1..];
    forall i | 0 <= i < |p'| - 1
      ensures Key(p'[i], p'[i + 1]) in t
    {
      assert Key(p[i + 1], p[i + 2]) in t;
    }
  }
}
