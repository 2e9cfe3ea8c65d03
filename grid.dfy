/**
 * The grid geometry of a depth x width maze: node names, the four adjacency
 * slots of a node (0 = west, 1 = north, 2 = east, 3 = south), the set of
 * unordered adjacent pairs, and the facts about them that the generator,
 * the path search and the encoders rely on.
 */
module Grid {

  /** One adjacency slot of a node: empty (null) or the name of a neighbour. */
  datatype Link = Null | To(node: nat)

  /** The printable two-character symbols of nodes and edges. */
  datatype Symbol = Blank | Wall | Path | Visited

  /** The text of a symbol: "  ", "X ", "@ " and the debug marker "V ". */
  function Text(s: Symbol): (t: string)
    ensures |t| == 2
  {
    match s
    case Blank => "  "
    case Wall => "X "
    case Path => "@ "
    case Visited => "V "
  }

  /** Distinct symbols have distinct texts, so comparing texts compares symbols. */
  lemma TextInjective(a: Symbol, b: Symbol)
    ensures Text(a) == Text(b) <==> a == b
  {
  }

  const WEST: nat := 0
  const NORTH: nat := 1
  const EAST: nat := 2
  const SOUTH: nat := 3

  /** An unordered pair of node names, written with the smaller name first. */
  type Pair = (nat, nat)

  /** The canonical key of the unordered pair {a, b}. */
  function Key(a: nat, b: nat): (p: Pair)
    ensures p.0 <= p.1
    ensures (p.0 == a && p.1 == b) || (p.0 == b && p.1 == a)
  {
    if a <= b then (a, b) else (b, a)
  }

  /** The name of the node in row i, column j. */
  function Name(width: nat, i: nat, j: nat): nat
  {
    width * i + j
  }

  function Row(width: nat, c: nat): nat
    requires width > 0
  {
    c / width
  }

  function Col(width: nat, c: nat): nat
    requires width > 0
  {
    c % width
  }

  lemma MulMono(w: nat, a: nat, b: nat)
    ensures a <= b ==> w * a <= w * b
  {
  }

  lemma MulSucc(w: nat, a: nat)
    ensures w * (a + 1) == w * a + w
  {
  }

  lemma DivModUnique(w: nat, c: nat, q: nat, r: nat)
    requires r < w && c == w * q + r
    ensures c / w == q && c % w == r
  {
    MulSucc(w, c / w);
    MulSucc(w, q);
    MulMono(w, c / w + 1, q);
    MulMono(w, q + 1, c / w);
  }

  /** Row and column recover the coordinates a name was built from. */
  lemma NameCoords(width: nat, i: nat, j: nat)
    requires j < width
    ensures Row(width, Name(width, i, j)) == i && Col(width, Name(width, i, j)) == j
  {
    DivModUnique(width, Name(width, i, j), i, j);
  }

  /** A name is rebuilt from its coordinates. */
  lemma CoordsName(width: nat, c: nat)
    requires width > 0
    ensures Name(width, Row(width, c), Col(width, c)) == c && Col(width, c) < width
  {
  }

  /** A node is inside the grid exactly when its row is. */
  lemma RowInGrid(depth: nat, width: nat, c: nat)
    requires width > 0
    ensures c < depth * width <==> Row(width, c) < depth
  {
    CoordsName(width, c);
    MulMono(width, depth, Row(width, c));
    MulMono(width, Row(width, c) + 1, depth);
    MulSucc(width, Row(width, c));
  }

  lemma WestStep(width: nat, c: nat)
    requires width > 0 && Col(width, c) > 0
    ensures Name(width, Row(width, c), Col(width, c) - 1) == c - 1
    ensures Row(width, c - 1) == Row(width, c) && Col(width, c - 1) == Col(width, c) - 1
  {
    CoordsName(width, c);
    NameCoords(width, Row(width, c), Col(width, c) - 1);
  }

  lemma EastStep(width: nat, c: nat)
    requires width > 0 && Col(width, c) < width - 1
    ensures Name(width, Row(width, c), Col(width, c) + 1) == c + 1
    ensures Row(width, c + 1) == Row(width, c) && Col(width, c + 1) == Col(width, c) + 1
  {
    CoordsName(width, c);
    NameCoords(width, Row(width, c), Col(width, c) + 1);
  }

  lemma NorthStep(width: nat, c: nat)
    requires width > 0 && Row(width, c) > 0
    ensures c >= width && Name(width, Row(width, c) - 1, Col(width, c)) == c - width
    ensures Row(width, c - width) == Row(width, c) - 1 && Col(width, c - width) == Col(width, c)
  {
    CoordsName(width, c);
    MulSucc(width, Row(width, c) - 1);
    NameCoords(width, Row(width, c) - 1, Col(width, c));
  }

  lemma SouthStep(width: nat, c: nat)
    requires width > 0
    ensures Name(width, Row(width, c) + 1, Col(width, c)) == c + width
    ensures Row(width, c + width) == Row(width, c) + 1 && Col(width, c + width) == Col(width, c)
  {
    CoordsName(width, c);
    MulSucc(width, Row(width, c));
    NameCoords(width, Row(width, c) + 1, Col(width, c));
  }

  /**
   * What slot k of node c holds once the grid is built: the west, north,
   * east or south neighbour when that position is inside the grid.
   */
  function Neighbour(depth: nat, width: nat, c: nat, k: nat): Link
    requires width > 0
  {
    var i, j := Row(width, c), Col(width, c);
    if k == WEST then (if j > 0 then To(Name(width, i, j - 1)) else Null)
    else if k == NORTH then (if i > 0 then To(Name(width, i - 1, j)) else Null)
    else if k == EAST then (if j < width - 1 then To(Name(width, i, j + 1)) else Null)
    else if k == SOUTH then (if i < depth - 1 then To(Name(width, i + 1, j)) else Null)
    else Null
  }

  /** The opposite direction: west/east and north/south. */
  function Opposite(k: nat): nat
  {
    (k + 2) % 4
  }

  /** Horizontally adjacent pairs: a node and its east neighbour. */
  function HorizontalPairs(width: nat, n: nat): set<Pair>
    requires width > 0
  {
    set c | 0 <= c < n && Col(width, c) < width - 1 :: (c, c + 1)
  }

  /** The name of the node straight below node c. */
  function Below(width: nat, c: nat): nat
  {
    c + width
  }

  /** Vertically adjacent pairs: a node and its south neighbour. */
  function VerticalPairs(width: nat, n: nat): set<Pair>
  {
    set c | 0 <= c < n :: (c, Below(width, c))
  }

  /** Every unordered pair of grid-adjacent nodes, as canonical keys. */
  function GridPairs(depth: nat, width: nat): set<Pair>
    requires depth > 0 && width > 0
  {
    HorizontalPairs(width, depth * width) + VerticalPairs(width, depth * width - width)
  }

  /** The number of adjacent pairs of a depth x width grid. */
  function EdgeCount(depth: nat, width: nat): int
  {
    depth * (width - 1) + width * (depth - 1)
  }

  /** Parity of a node on the checkerboard: row + column odd. */
  predicate Odd(width: nat, c: nat)
    requires width > 0
  {
    (Row(width, c) + Col(width, c)) % 2 == 1
  }

  /** Where each filled slot of node c points, by direction. */
  lemma {:induction false} NeighbourStep(depth: nat, width: nat, c: nat, k: nat)
    requires width > 0 && Neighbour(depth, width, c, k).To?
    ensures var n := Neighbour(depth, width, c, k).node;
      && k < 4
      && (k == WEST ==> n + 1 == c && Row(width, n) == Row(width, c) && Col(width, n) + 1 == Col(width, c))
      && (k == NORTH ==> n + width == c && Row(width, n) + 1 == Row(width, c) && Col(width, n) == Col(width, c))
      && (k == EAST ==> n == c + 1 && Row(width, n) == Row(width, c) && Col(width, n) == Col(width, c) + 1)
      && (k == SOUTH ==> n == c + width && Row(width, n) == Row(width, c) + 1 && Col(width, n) == Col(width, c))
  {
    if k == WEST {
      WestStep(width, c);
    } else if k == NORTH {
      NorthStep(width, c);
    } else if k == EAST {
      EastStep(width, c);
    } else {
      SouthStep(width, c);
    }
  }

  /**
   * A filled slot points inside the grid, its pair is a grid pair, the two
   * nodes lie on different squares of the checkerboard, and the neighbour's
   * opposite slot points back: links are mutual.
   */
  lemma {:induction false} NeighbourFacts(depth: nat, width: nat, c: nat, k: nat)
    requires depth > 0 && width > 0 && c < depth * width && Neighbour(depth, width, c, k).To?
    ensures var n := Neighbour(depth, width, c, k).node;
      && n < depth * width
      && n != c
      && Key(c, n) in GridPairs(depth, width)
      && Odd(width, c) != Odd(width, n)
      && Neighbour(depth, width, n, Opposite(k)) == To(c)
  {
    var n := Neighbour(depth, width, c, k).node;
    NeighbourStep(depth, width, c, k);
    RowInGrid(depth, width, c);
    RowInGrid(depth, width, n);
    RowInGrid(depth - 1, width, c);
    RowInGrid(depth - 1, width, n);
    CoordsName(width, c);
    CoordsName(width, n);
    if k == WEST {
      assert Key(c, n) == (n, n + 1);
      assert Key(c, n) in HorizontalPairs(width, depth * width);
    } else if k == NORTH {
      assert Key(c, n) == (n, Below(width, n));
      assert Key(c, n) in VerticalPairs(width, depth * width - width);
    } else if k == EAST {
      assert Key(c, n) == (c, c + 1);
      assert Key(c, n) in HorizontalPairs(width, depth * width);
    } else {
      assert Key(c, n) == (c, Below(width, c));
      assert Key(c, n) in VerticalPairs(width, depth * width - width);
    }
  }

  /** Every grid pair is reached from its smaller node through the east or south slot. */
  lemma {:induction false} PairSlot(depth: nat, width: nat, p: Pair) returns (k: nat)
    requires depth > 0 && width > 0 && p in GridPairs(depth, width)
    ensures k < 4 && Neighbour(depth, width, p.0, k) == To(p.1)
    ensures p.0 < p.1 < depth * width
  {
    var c := p.0;
    CoordsName(width, c);
    if p in HorizontalPairs(width, depth * width) {
      k := EAST;
      EastStep(width, c);
      RowInGrid(depth, width, c);
      RowInGrid(depth, width, c + 1);
    } else {
      k := SOUTH;
      assert p.1 == c + width;
      RowInGrid(depth - 1, width, c);
      RowInGrid(depth, width, c + width);
      SouthStep(width, c);
    }
  }

  /** A node reaches a given neighbour through one slot only. */
  lemma NeighbourInjective(depth: nat, width: nat, c: nat, k1: nat, k2: nat)
    requires width > 0
    requires Neighbour(depth, width, c, k1).To? && Neighbour(depth, width, c, k1) == Neighbour(depth, width, c, k2)
    ensures k1 == k2
  {
    NeighbourStep(depth, width, c, k1);
    NeighbourStep(depth, width, c, k2);
  }

  lemma HorizontalStep(width: nat, m: nat)
    requires 0 < width
    ensures |HorizontalPairs(width, m + 1)| == |HorizontalPairs(width, m)| + (if Col(width, m) < width - 1 then 1 else 0)
  {
    var h, h' := HorizontalPairs(width, m), HorizontalPairs(width, m + 1);
    forall p | p in h'
      ensures p in h || p == (m, m + 1)
    {
      var c :| 0 <= c < m + 1 && Col(width, c) < width - 1 && p == (c, c + 1);
      assert c < m ==> p in h;
    }
    if Col(width, m) < width - 1 {
      assert (m, m + 1) !in h;
      assert h' == h + {(m, m + 1)};
    } else {
      assert h' == h;
    }
  }

  lemma {:induction false} HorizontalCount(width: nat, q: nat, r: nat)
    requires 0 < width && r <= width
    ensures |HorizontalPairs(width, width * q + r)| == q * (width - 1) + (if r < width then r else width - 1)
    decreases q, r
  {
    if r > 0 {
      var m := width * q + r - 1;
      HorizontalCount(width, q, r - 1);
      DivModUnique(width, m, q, r - 1);
      HorizontalStep(width, m);
    } else if q > 0 {
      HorizontalCount(width, q - 1, width);
      MulSucc(width, q - 1);
      MulSucc(width - 1, q - 1);
    } else {
      assert HorizontalPairs(width, 0) == {};
    }
  }

  lemma {:induction false} VerticalCount(width: nat, n: nat)
    ensures |VerticalPairs(width, n)| == n
  {
    if n > 0 {
      var m := n - 1;
      VerticalCount(width, m);
      var v := VerticalPairs(width, m);
      var e := (m, Below(width, m));
      forall p | p in VerticalPairs(width, n)
        ensures p in v + {e}
      {
        var c :| 0 <= c < n && p == (c, Below(width, c));
        assert c < m ==> p in v;
      }
      assert VerticalPairs(width, n) == v + {e};
      assert e !in v;
    } else {
      assert VerticalPairs(width, n) == {};
    }
  }

  /** A depth x width grid has depth*(width-1) + width*(depth-1) adjacent pairs. */
  lemma GridPairsCount(depth: nat, width: nat)
    requires depth > 0 && width > 0
    ensures |GridPairs(depth, width)| == EdgeCount(depth, width)
  {
    var h := HorizontalPairs(width, depth * width);
    var v := VerticalPairs(width, depth * width - width);
    HorizontalCount(width, depth, 0);
    VerticalCount(width, depth * width - width);
    forall p | p in h
      ensures p !in v
    {
    }
    assert h !! v;
    assert |h + v| == |h| + |v|;
  }

  /**
   * Grid connectivity: when every adjacent pair carries equal tags, every
   * node carries the tag of node 0.
   */
  lemma {:induction false} UniformTags(depth: nat, width: nat, tag: seq<nat>)
    requires depth > 0 && width > 0 && |tag| == depth * width
    requires forall p :: p in GridPairs(depth, width) ==> p.0 < |tag| && p.1 < |tag| && tag[p.0] == tag[p.1]
    ensures forall c :: 0 <= c < depth * width ==> tag[c] == tag[0]
  {
    forall c | 0 <= c < depth * width
      ensures tag[c] == tag[0]
    {
      UniformUpTo(depth, width, tag, c);
    }
  }

  lemma {:induction false} UniformUpTo(depth: nat, width: nat, tag: seq<nat>, c: nat)
    requires depth > 0 && width > 0 && |tag| == depth * width && c < depth * width
    requires forall p :: p in GridPairs(depth, width) ==> p.0 < |tag| && p.1 < |tag| && tag[p.0] == tag[p.1]
    ensures tag[c] == tag[0]
    decreases c
  {
    if c > 0 {
      var k := if Col(width, c) > 0 then WEST else NORTH;
      assert Col(width, c) == 0 ==> Row(width, c) > 0 by {
        CoordsName(width, c);
      }
      NeighbourFacts(depth, width, c, k);
      NeighbourStep(depth, width, c, k);
      var n := Neighbour(depth, width, c, k).node;
      UniformUpTo(depth, width, tag, n);
    }
  }
}
