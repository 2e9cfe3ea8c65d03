/**
 * The edge enumeration of the generator: the scan visits every node in
 * row-major order and each of its four slots in turn, so slot s of the
 * scan is slot s % 4 of node s / 4. A slot emits an edge when its node
 * lies on an odd square of the checkerboard (row + column odd) and the
 * slot is filled. This module proves that the scan emits every adjacent
 * pair of the grid exactly once.
 */
module Enumeration {
  import opened Grid
  import opened Edges

  /** Scan slot s emits an edge. */
  predicate Emits(depth: nat, width: nat, s: nat)
    requires width > 0
  {
    Odd(width, s / 4) && Neighbour(depth, width, s / 4, s % 4).To?
  }

  /** The key of the edge emitted by scan slot s. */
  function SlotKey(depth: nat, width: nat, s: nat): Pair
    requires width > 0 && Emits(depth, width, s)
  {
    Key(s / 4, Neighbour(depth, width, s / 4, s % 4).node)
  }

  /** The keys emitted, in scan order, by the slots before s. */
  function Emitted(depth: nat, width: nat, s: nat): seq<Pair>
    requires width > 0
  {
    if s == 0 then []
    else Emitted(depth, width, s - 1) + (if Emits(depth, width, s - 1) then [SlotKey(depth, width, s - 1)] else [])
  }

  /**
   * The edges the scan has added to the queue before slot s: the t-th
   * emitted key gets the t-th random weight and the wall symbol.
   */
  function Enumerated(depth: nat, width: nat, weights: seq<int>, s: nat): (r: seq<Edge>)
    requires width > 0 && |Emitted(depth, width, s)| <= |weights|
    ensures |r| == |Emitted(depth, width, s)|
  {
    if s == 0 then []
    else
      var before := Emitted(depth, width, s - 1);
      EmittedMono(depth, width, s - 1, s);
      var r := Enumerated(depth, width, weights, s - 1);
      if Emits(depth, width, s - 1) then r + [Edge(SlotKey(depth, width, s - 1), weights[|before|], Wall)] else r
  }

  /** The t-th edge enumerated carries the t-th emitted key and the t-th weight, as a wall. */
  lemma {:induction false} EnumeratedAt(depth: nat, width: nat, weights: seq<int>, s: nat)
    requires width > 0 && |Emitted(depth, width, s)| <= |weights|
    ensures var r := Enumerated(depth, width, weights, s);
      forall t :: 0 <= t < |r| ==> r[t] == Edge(Emitted(depth, width, s)[t], weights[t], Wall)
  {
    if s > 0 {
      EmittedMono(depth, width, s - 1, s);
      EnumeratedAt(depth, width, weights, s - 1);
    }
  }

  /** The set of elements of a sequence. */
  function Elements<T>(xs: seq<T>): set<T>
  {
    set x | x in xs
  }

  /** No element occurs twice. */
  predicate Distinct<T(==)>(xs: seq<T>)
  {
    forall i, j :: 0 <= i < j < |xs| ==> xs[i] != xs[j]
  }

  /** A sequence without repetitions has as many elements as its set. */
  lemma {:induction false} DistinctCard<T>(xs: seq<T>)
    requires Distinct(xs)
    ensures |Elements(xs)| == |xs|
  {
    if xs != [] {
      var init := xs[..|xs| - 1];
      var last := xs[|xs| - 1];
      assert Distinct(init);
      DistinctCard(init);
      assert Elements(xs) == Elements(init) + {last};
      assert last !in Elements(init);
    } else {
      assert Elements(xs) == {};
    }
  }

  /** The scan only ever appends. */
  lemma {:induction false} EmittedMono(depth: nat, width: nat, s: nat, s2: nat)
    requires width > 0 && s <= s2
    ensures |Emitted(depth, width, s)| <= |Emitted(depth, width, s2)|
    ensures Emitted(depth, width, s) == Emitted(depth, width, s2)[..|Emitted(depth, width, s)|]
    decreases s2 - s
  {
    if s < s2 {
      EmittedMono(depth, width, s, s2 - 1);
    }
  }

  /** Slot s is slot s % 4 of node s / 4. */
  lemma SlotCoords(c: nat, k: nat)
    requires k < 4
    ensures (4 * c + k) / 4 == c && (4 * c + k) % 4 == k
  {
    DivModUnique(4, 4 * c + k, c, k);
  }

  /** Every emitted key comes from a slot before s that emits it. */
  lemma {:induction false} EmittedFrom(depth: nat, width: nat, s: nat, t: nat) returns (s': nat)
    requires width > 0 && t < |Emitted(depth, width, s)|
    ensures s' < s && Emits(depth, width, s') && SlotKey(depth, width, s') == Emitted(depth, width, s)[t]
  {
    var before := Emitted(depth, width, s - 1);
    if t < |before| {
      s' := EmittedFrom(depth, width, s - 1, t);
    } else {
      s' := s - 1;
    }
  }

  /** Every slot before s that emits has its key among the first s slots' keys. */
  lemma {:induction false} EmittedHas(depth: nat, width: nat, s': nat, s: nat)
    requires width > 0 && s' < s && Emits(depth, width, s')
    ensures SlotKey(depth, width, s') in Emitted(depth, width, s)
  {
    EmittedMono(depth, width, s' + 1, s);
    var e := Emitted(depth, width, s' + 1);
    assert e[|e| - 1] == SlotKey(depth, width, s');
  }

  /** An emitted key is an adjacent pair of the grid, its smaller name first. */
  lemma SlotKeyInGrid(depth: nat, width: nat, s: nat)
    requires depth > 0 && width > 0 && s < 4 * (depth * width) && Emits(depth, width, s)
    ensures SlotKey(depth, width, s) in GridPairs(depth, width)
    ensures SlotKey(depth, width, s).0 < SlotKey(depth, width, s).1
  {
    NeighbourFacts(depth, width, s / 4, s % 4);
  }

  /**
   * Two slots that emit the same key are the same slot: the odd endpoint
   * of the pair fixes the node, and the other endpoint fixes the slot.
   */
  lemma SlotKeyInjective(depth: nat, width: nat, s1: nat, s2: nat)
    requires depth > 0 && width > 0
    requires s1 < 4 * (depth * width) && s2 < 4 * (depth * width)
    requires Emits(depth, width, s1) && Emits(depth, width, s2)
    requires SlotKey(depth, width, s1) == SlotKey(depth, width, s2)
    ensures s1 == s2
  {
    var c1, k1, c2, k2 := s1 / 4, s1 % 4, s2 / 4, s2 % 4;
    NeighbourFacts(depth, width, c1, k1);
    NeighbourFacts(depth, width, c2, k2);
    assert c1 == c2;
    NeighbourInjective(depth, width, c1, k1, k2);
  }

  /** The scan emits no key twice. */
  lemma {:induction false} EmittedDistinct(depth: nat, width: nat, s: nat)
    requires depth > 0 && width > 0 && s <= 4 * (depth * width)
    ensures Distinct(Emitted(depth, width, s))
  {
    if s > 0 {
      EmittedDistinct(depth, width, s - 1);
      if Emits(depth, width, s - 1) {
        var before := Emitted(depth, width, s - 1);
        forall t | 0 <= t < |before|
          ensures before[t] != SlotKey(depth, width, s - 1)
        {
          var s' := EmittedFrom(depth, width, s - 1, t);
          if before[t] == SlotKey(depth, width, s - 1) {
            SlotKeyInjective(depth, width, s', s - 1);
          }
        }
      }
    }
  }

  /** Every key the full scan emits is an adjacent pair of the grid. */
  lemma EmittedInGrid(depth: nat, width: nat)
    requires depth > 0 && width > 0
    ensures Elements(Emitted(depth, width, 4 * (depth * width))) <= GridPairs(depth, width)
  {
    var n := 4 * (depth * width);
    var e := Emitted(depth, width, n);
    forall p | p in e
      ensures p in GridPairs(depth, width)
    {
      var t :| 0 <= t < |e| && e[t] == p;
      var s := EmittedFrom(depth, width, n, t);
      SlotKeyInGrid(depth, width, s);
    }
  }

  /** An adjacent pair of the grid is emitted at the slot of its odd-square end that points at the other. */
  lemma PairEmitted(depth: nat, width: nat, p: Pair)
    requires depth > 0 && width > 0 && p in GridPairs(depth, width)
    ensures p in Emitted(depth, width, 4 * (depth * width))
  {
    var k := PairSlot(depth, width, p);
    NeighbourFacts(depth, width, p.0, k);
    var c, m := if Odd(width, p.0) then p.0 else p.1, if Odd(width, p.0) then k else Opposite(k);
    assert Neighbour(depth, width, c, m).To?;
    SlotCoords(c, m);
    MulMono(4, c + 1, depth * width);
    EmittedHas(depth, width, 4 * c + m, 4 * (depth * width));
  }

  /** The full scan emits exactly the adjacent pairs of the grid. */
  lemma EmittedPairs(depth: nat, width: nat)
    requires depth > 0 && width > 0
    ensures Elements(Emitted(depth, width, 4 * (depth * width))) == GridPairs(depth, width)
  {
    EmittedInGrid(depth, width);
    forall p | p in GridPairs(depth, width)
      ensures p in Emitted(depth, width, 4 * (depth * width))
    {
      PairEmitted(depth, width, p);
    }
  }

  /** The scan emits depth*(width-1) + width*(depth-1) edges. */
  lemma EmittedCount(depth: nat, width: nat)
    requires depth > 0 && width > 0
    ensures |Emitted(depth, width, 4 * (depth * width))| == EdgeCount(depth, width)
  {
    var e := Emitted(depth, width, 4 * (depth * width));
    EmittedDistinct(depth, width, 4 * (depth * width));
    DistinctCard(e);
    EmittedPairs(depth, width);
    GridPairsCount(depth, width);
  }
}
