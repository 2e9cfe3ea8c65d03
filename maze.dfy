/**
 * The maze itself: a depth x width grid of nodes whose adjacency slots are
 * filled, then cut down to a random spanning tree by Kruskal's algorithm,
 * then searched depth-first for the path from the top-left node to the
 * bottom-right one, and finally encoded as a colour grid or as text.
 *
 * Node n of the grid is the GraphNode named n; its fields live in arrays
 * indexed by that name: adjacency[n, k] is slot k of its adjacency list,
 * symbol[n] its printable symbol and visited[n] its visited flag.
 */
module Mazes {
  import opened Grid
  import opened Walks
  import opened UnionFind
  import opened Edges
  import opened Enumeration
  import opened Encoding
  import opened Kruskal

  /** The Stack<GraphNode> of the path search, holding node names. */
  class NodeStack {
    var elems: seq<nat>

    constructor ()
      ensures elems == []
    {
      elems := [];
    }

    method Push(x: nat)
      modifies this
      ensures elems == old(elems) + [x]
    {
      elems := elems + [x];
    }

    method Pop() returns (x: nat)
      requires elems != []
      modifies this
      ensures old(elems) == elems + [x]
    {
      x := elems[|elems| - 1];
      elems := elems[..|elems| - 1];
    }

    method IsEmpty() returns (b: bool)
      ensures b <==> elems == []
    {
      b := elems == [];
    }
  }

  /** The four slots of the node in row i, column j, as initMazeAsGraph fills them. */
  lemma CellSlots(depth: nat, width: nat, i: nat, j: nat, c: nat)
    requires i < depth && j < width && c == width * i + j
    ensures Neighbour(depth, width, c, WEST) == (if j > 0 then To(c - 1) else Null)
    ensures Neighbour(depth, width, c, NORTH) == (if i > 0 then To(c - width) else Null)
    ensures Neighbour(depth, width, c, EAST) == (if j < width - 1 then To(c + 1) else Null)
    ensures Neighbour(depth, width, c, SOUTH) == (if i < depth - 1 then To(c + width) else Null)
  {
    NameCoords(width, i, j);
    if i > 0 {
      MulSucc(width, i - 1);
    }
    MulSucc(width, i);
  }

  /** The node in row i, column j and its north and south neighbours lie inside the grid. */
  lemma CellBounds(depth: nat, width: nat, i: nat, j: nat, c: nat)
    requires i < depth && j < width && c == width * i + j
    ensures c < depth * width
    ensures i > 0 ==> c >= width
    ensures i < depth - 1 ==> c + width < depth * width
  {
    MulMono(width, i + 1, depth);
    MulSucc(width, i);
    if i < depth - 1 {
      MulMono(width, i + 2, depth);
      MulSucc(width, i + 1);
    }
  }

  /** Fills the four slots of the node in row i, column j, named name, with its neighbours. */
  method ConnectNode(adjacency: array2<Link>, depth: nat, width: nat, i: nat, j: nat, ghost name: nat)
    requires i < depth && j < width && name == width * i + j
    requires adjacency.Length0 == depth * width && adjacency.Length1 == 4
    modifies adjacency
    ensures name < depth * width
    ensures forall c, k :: 0 <= c < depth * width && 0 <= k < 4 ==>
      adjacency[c, k] == if c == name then Neighbour(depth, width, c, k) else old(adjacency[c, k])
  {
    var c := width * i + j;
    CellBounds(depth, width, i, j, c);
    CellSlots(depth, width, i, j, c);
    adjacency[c, WEST] := if j > 0 then To(c - 1) else Null;
    adjacency[c, NORTH] := if i > 0 then To(c - width) else Null;
    adjacency[c, EAST] := if j < width - 1 then To(c + 1) else Null;
    adjacency[c, SOUTH] := if i < depth - 1 then To(c + width) else Null;
  }

  /** The inner loop of initMazeAsGraph: fills row i, whose nodes are named lo to lo + width - 1. */
  method ConnectRow(adjacency: array2<Link>, depth: nat, width: nat, i: nat, ghost lo: nat)
    requires i < depth && lo == width * i && lo + width <= depth * width
    requires adjacency.Length0 == depth * width && adjacency.Length1 == 4
    requires forall c, k :: 0 <= c < lo && 0 <= k < 4 ==> adjacency[c, k] == Neighbour(depth, width, c, k)
    requires forall c, k :: lo <= c < depth * width && 0 <= k < 4 ==> adjacency[c, k] == Null
    modifies adjacency
    ensures forall c, k :: 0 <= c < lo + width && 0 <= k < 4 ==> adjacency[c, k] == Neighbour(depth, width, c, k)
    ensures forall c, k :: lo + width <= c < depth * width && 0 <= k < 4 ==> adjacency[c, k] == Null
  {
    for j := 0 to width
      invariant forall c, k :: 0 <= c < lo + j && 0 <= k < 4 ==> adjacency[c, k] == Neighbour(depth, width, c, k)
      invariant forall c, k :: lo + j <= c < depth * width && 0 <= k < 4 ==> adjacency[c, k] == Null
    {
      ConnectNode(adjacency, depth, width, i, j, lo + j);
    }
  }

  /**
   * initMazeAsGraph: depth * width fresh nodes, unvisited and blank, node
   * (i, j) named width*i+j, each slot filled with the neighbour in that
   * direction when it exists.
   */
  method InitMazeAsGraph(depth: nat, width: nat) returns (adjacency: array2<Link>, symbol: array<Symbol>, visited: array<bool>)
    requires depth > 0 && width > 0
    ensures fresh(adjacency) && fresh(symbol) && fresh(visited)
    ensures adjacency.Length0 == depth * width && adjacency.Length1 == 4
    ensures symbol.Length == depth * width && visited.Length == depth * width
    ensures forall c, k :: 0 <= c < depth * width && 0 <= k < 4 ==> adjacency[c, k] == Neighbour(depth, width, c, k)
    ensures forall c :: 0 <= c < depth * width ==> symbol[c] == Blank && !visited[c]
  {
    var n := depth * width;
    symbol := new Symbol[n](c => Blank);
    visited := new bool[n](c => false);
    adjacency := new Link[n, 4]((c, k) => Null);
    ConnectRows(adjacency, depth, width);
  }

  /** The outer loop of initMazeAsGraph: fills the rows one after the other. */
  method ConnectRows(adjacency: array2<Link>, depth: nat, width: nat)
    requires adjacency.Length0 == depth * width && adjacency.Length1 == 4
    requires forall c, k :: 0 <= c < depth * width && 0 <= k < 4 ==> adjacency[c, k] == Null
    modifies adjacency
    ensures forall c, k :: 0 <= c < depth * width && 0 <= k < 4 ==> adjacency[c, k] == Neighbour(depth, width, c, k)
  {
    ghost var lo := 0;
    for i := 0 to depth
      invariant lo == width * i
      invariant forall c, k :: 0 <= c < lo && 0 <= k < 4 ==> adjacency[c, k] == Neighbour(depth, width, c, k)
      invariant forall c, k :: lo <= c < depth * width && 0 <= k < 4 ==> adjacency[c, k] == Null
    {
      RowBounds(depth, width, i);
      ConnectRow(adjacency, depth, width, i, lo);
      lo := lo + width;
    }
    RowBounds(depth, width, depth);
  }

  /** Row i starts at width*i and ends where row i+1 starts, inside the grid when i < depth. */
  lemma RowBounds(depth: nat, width: nat, i: nat)
    ensures width * (i + 1) == width * i + width
    ensures i < depth ==> width * i + width <= depth * width
    ensures width * depth == depth * width
  {
    MulMono(width, i + 1, depth);
    MulSucc(width, i);
    MulComm(width, depth);
  }

  lemma MulComm(a: nat, b: nat)
    ensures a * b == b * a
  {
  }

  /** The edge map built from a sequence of edges: each key maps to the last edge with that key. */
  function MapOf(s: seq<Edge>): map<Pair, Edge>
  {
    if s == [] then map[] else MapOf(s[..|s| - 1])[s[|s| - 1].endpoints := s[|s| - 1]]
  }

  lemma MapOfAppend(s: seq<Edge>, e: Edge)
    ensures MapOf(s + [e]) == MapOf(s)[e.endpoints := e]
  {
    assert (s + [e])[..|s|] == s;
  }

  /** With distinct keys, the map holds exactly the edges of the sequence. */
  lemma {:induction false} MapOfFacts(s: seq<Edge>)
    requires UniqueKeys(s)
    ensures MapOf(s).Keys == Endpoints(s)
    ensures forall e :: e in s ==> MapOf(s)[e.endpoints] == e
  {
    if s != [] {
      var init, last := s[..|s| - 1], s[|s| - 1];
      forall i, j | 0 <= i < j < |init|
        ensures KeyAt(init, i) != KeyAt(init, j)
      {
        assert KeyAt(init, i) == KeyAt(s, i) && KeyAt(init, j) == KeyAt(s, j);
      }
      MapOfFacts(init);
      assert Endpoints(s) == Endpoints(init) + {last.endpoints} by {
        assert forall e :: e in s <==> e in init || e == last;
      }
      forall e | e in s
        ensures MapOf(s)[e.endpoints] == e
      {
        if e != last {
          var i :| 0 <= i < |s| && s[i] == e;
          assert i < |s| - 1 && KeyAt(s, i) != KeyAt(s, |s| - 1);
        }
      }
    }
  }

  /** The scan position of slot k of the node in row i, column j lies inside the scan. */
  lemma ScanBounds(depth: nat, width: nat, i: nat, j: nat, k: nat)
    requires i < depth && j < width && k < 4
    ensures width * i + j < depth * width
    ensures 4 * (width * i + j) + k < 4 * (depth * width)
  {
    MulMono(width, i + 1, depth);
    MulSucc(width, i);
  }

  /** A slot emits exactly when the checkerboard test of generateSpanningTree holds and the slot is filled. */
  lemma ScanTest(depth: nat, width: nat, i: nat, j: nat, k: nat)
    requires j < width && k < 4
    ensures var c := width * i + j;
      && (4 * c + k) / 4 == c && (4 * c + k) % 4 == k
      && (Emits(depth, width, 4 * c + k) <==>
          Neighbour(depth, width, c, k).To? && ((j % 2 == 0 && i % 2 == 1) || (j % 2 == 1 && i % 2 == 0)))
  {
    var c := width * i + j;
    NameCoords(width, i, j);
    SlotCoords(c, k);
    assert Odd(width, c) <==> (i + j) % 2 == 1;
    Parity(i, j);
  }

  /** The sum of two numbers is odd exactly when one of them is odd and the other even. */
  lemma Parity(i: nat, j: nat)
    ensures (i + j) % 2 == 1 <==> (j % 2 == 0 && i % 2 == 1) || (j % 2 == 1 && i % 2 == 0)
  {
  }

  /** Scanning one more slot appends the emitted edge, if any, with the next weight. */
  lemma EnumeratedStep(depth: nat, width: nat, weights: seq<int>, s: nat)
    requires width > 0 && |Emitted(depth, width, s + 1)| <= |weights|
    ensures |Emitted(depth, width, s)| <= |weights|
    ensures Enumerated(depth, width, weights, s + 1)
         == Enumerated(depth, width, weights, s)
            + if Emits(depth, width, s)
              then [Edge(Key(s / 4, Neighbour(depth, width, s / 4, s % 4).node), weights[|Emitted(depth, width, s)|], Wall)]
              else []
  {
  }

  /**
   * One step of the edge scan, at scan position s, slot k of the node in
   * row i, column j: when the source's checkerboard test holds and the
   * slot is filled, the queue grows by one wall edge carrying the next
   * weight; otherwise it is unchanged.
   */
  lemma ScanStep(depth: nat, width: nat, weights: seq<int>, i: nat, j: nat, k: nat, s: nat, link: Link)
    requires i < depth && j < width && k < 4 && |weights| >= EdgeCount(depth, width)
    requires s == 4 * (width * i + j) + k && link == Neighbour(depth, width, width * i + j, k)
    ensures |Emitted(depth, width, s + 1)| <= |weights|
    ensures
      if link != Null && ((j % 2 == 0 && i % 2 == 1) || (j % 2 == 1 && i % 2 == 0)) then
        && |Emitted(depth, width, s)| < |weights|
        && |Emitted(depth, width, s + 1)| == |Emitted(depth, width, s)| + 1
        && Enumerated(depth, width, weights, s + 1)
           == Enumerated(depth, width, weights, s) + [Edge(Key(width * i + j, link.node), weights[|Emitted(depth, width, s)|], Wall)]
      else
        && |Emitted(depth, width, s + 1)| == |Emitted(depth, width, s)|
        && Enumerated(depth, width, weights, s + 1) == Enumerated(depth, width, weights, s)
  {
    var c := width * i + j;
    ScanBounds(depth, width, i, j, k);
    ScanTest(depth, width, i, j, k);
    EmittedCount(depth, width);
    EmittedMono(depth, width, s + 1, 4 * (depth * width));
    EnumeratedStep(depth, width, weights, s);
  }

  /** Slot k of node c once the pairs in cut have been disconnected: the neighbour, unless their pair was cut. */
  function Cut(depth: nat, width: nat, c: nat, k: nat, cut: set<Pair>): Link
    requires width > 0
  {
    var n := Neighbour(depth, width, c, k);
    if n.To? && Key(c, n.node) in cut then Null else n
  }

  /**
   * Disconnecting the two nodes of one more pair, by clearing exactly the
   * slots of each that point at the other, cuts that pair and nothing else.
   */
  lemma CutStep(depth: nat, width: nat, cut: set<Pair>, p: Pair, c: nat, k: nat, link: Link)
    requires width > 0 && p.0 < p.1 && p !in cut && link == Cut(depth, width, c, k, cut)
    ensures Cut(depth, width, c, k, cut + {p})
         == if (c == p.0 && link == To(p.1)) || (c == p.1 && link == To(p.0)) then Null else link
  {
  }

  /** The names of the endpoints of the pairs of t. */
  function Ends(t: set<Pair>): set<nat>
  {
    (set p | p in t :: p.0) + (set p | p in t :: p.1)
  }

  lemma EndsAdd(t: set<Pair>, p: Pair)
    ensures Ends(t + {p}) == Ends(t) + {p.0, p.1}
  {
  }

  /** The edge map has its initial keys, and exactly the entries of the pairs of tree are open. */
  ghost predicate Opened(edgeMap: map<Pair, Edge>, tree: set<Pair>, initialMap: map<Pair, Edge>)
  {
    && edgeMap.Keys == initialMap.Keys
    && forall p :: p in edgeMap ==>
         edgeMap[p] == if p in tree then initialMap[p].(symbol := Blank) else initialMap[p]
  }

  /** Opening the entry of one more pair of the map. */
  lemma OpenStep(edgeMap: map<Pair, Edge>, tree: set<Pair>, initialMap: map<Pair, Edge>, p: Pair)
    requires Opened(edgeMap, tree, initialMap) && p in initialMap
    ensures Opened(edgeMap[p := edgeMap[p].(symbol := Blank)], tree + {p}, initialMap)
  {
  }

  /** Exactly the endpoints of the pairs of tree are marked visited; the other nodes keep their initial symbol. */
  ghost predicate Marked(symbols: seq<Symbol>, tree: set<Pair>, initialSymbol: seq<Symbol>)
  {
    && |initialSymbol| == |symbols|
    && forall c :: 0 <= c < |symbols| ==> symbols[c] == if c in Ends(tree) then Visited else initialSymbol[c]
  }

  /** Marking both endpoints of one more pair. */
  lemma MarkStep(symbols: seq<Symbol>, tree: set<Pair>, initialSymbol: seq<Symbol>, node1: nat, node2: nat)
    requires Marked(symbols, tree, initialSymbol) && node1 < |symbols| && node2 < |symbols|
    ensures Marked(symbols[node1 := Visited][node2 := Visited], tree + {(node1, node2)}, initialSymbol)
  {
    EndsAdd(tree, (node1, node2));
  }

  /**
   * The state of the Kruskal loop on n nodes after the edges of order have
   * been polled: the forest (parent and rank), the spanning tree, the edge
   * map and the node symbols are what the polled edges made of them.
   */
  ghost predicate Built(n: nat, parent: seq<nat>, rank: seq<nat>, edgeMap: map<Pair, Edge>, symbols: seq<Symbol>,
                        spanningTree: seq<Edge>, order: seq<Edge>, routes: seq<seq<nat>>,
                        initialMap: map<Pair, Edge>, initialSymbol: seq<Symbol>)
  {
    && Invariant(n, parent, rank, Endpoints(spanningTree), Endpoints(order), routes)
    && |spanningTree| == |Endpoints(spanningTree)|
    && Endpoints(spanningTree) == Greedy(Keys(order))
    && Opened(edgeMap, Endpoints(spanningTree), initialMap)
    && Marked(symbols, Endpoints(spanningTree), initialSymbol)
  }

  /** Taking a fresh edge into the tree leaves the set of cut pairs as it was. */
  lemma TakenCut(order: seq<Edge>, spanningTree: seq<Edge>, e: Edge)
    requires e.endpoints !in Endpoints(order)
    ensures Endpoints(order + [e]) - Endpoints(spanningTree + [e]) == Endpoints(order) - Endpoints(spanningTree)
  {
    EndpointsAppend(order, e);
    EndpointsAppend(spanningTree, e);
  }

  /** Refusing an edge that is not in the tree adds its pair to the cut pairs. */
  lemma RefusedCut(order: seq<Edge>, spanningTree: seq<Edge>, e: Edge)
    requires e.endpoints !in Endpoints(spanningTree)
    ensures Endpoints(order + [e]) - Endpoints(spanningTree) == (Endpoints(order) - Endpoints(spanningTree)) + {e.endpoints}
  {
    EndpointsAppend(order, e);
  }

  /**
   * The queue the edge scan fills: one wall edge per adjacent pair of the
   * grid, no pair twice, the t-th edge carrying the t-th weight; the edge
   * map built beside it holds every grid pair with its wall edge.
   */
  lemma EnumerationFacts(depth: nat, width: nat, weights: seq<int>)
    requires depth > 0 && width > 0 && |weights| >= EdgeCount(depth, width)
    ensures |Emitted(depth, width, 4 * (depth * width))| == EdgeCount(depth, width)
    ensures var s := Enumerated(depth, width, weights, 4 * (depth * width));
      && |s| == EdgeCount(depth, width)
      && UniqueKeys(s)
      && Endpoints(s) == GridPairs(depth, width)
      && (forall t :: 0 <= t < |s| ==> s[t].symbol == Wall && s[t].weight == weights[t])
      && MapOf(s).Keys == GridPairs(depth, width)
      && (forall p :: p in MapOf(s) ==> MapOf(s)[p] in s && MapOf(s)[p].endpoints == p)
  {
    var n := 4 * (depth * width);
    EmittedCount(depth, width);
    var keys := Emitted(depth, width, n);
    var s := Enumerated(depth, width, weights, n);
    EnumeratedAt(depth, width, weights, n);
    EmittedDistinct(depth, width, n);
    EmittedPairs(depth, width);
    forall i, j | 0 <= i < j < |s|
      ensures KeyAt(s, i) != KeyAt(s, j)
    {
      assert KeyAt(s, i) == keys[i] && KeyAt(s, j) == keys[j];
    }
    forall p
      ensures p in Endpoints(s) <==> p in Elements(keys)
    {
      if p in Elements(keys) {
        var t :| 0 <= t < |keys| && keys[t] == p;
        assert s[t] in s;
      }
    }
    MapOfFacts(s);
  }

  /** The open pairs t span the grid: one fewer than the nodes, no cycle, every node joined to node 0. */
  ghost predicate Spans(depth: nat, width: nat, t: set<Pair>)
  {
    && |t| == depth * width - 1
    && Cycleless(t)
    && forall x :: 0 <= x < depth * width ==> Connected(t, 0, x)
  }

  /**
   * Once the Kruskal loop has polled every grid pair, the edges it accepted
   * are distinct grid pairs that span the grid, and the forest has a single
   * root.
   */
  lemma TreeFacts(depth: nat, width: nat, parent: seq<nat>, rank: seq<nat>, edgeMap: map<Pair, Edge>, symbols: seq<Symbol>,
                  spanningTree: seq<Edge>, order: seq<Edge>, routes: seq<seq<nat>>,
                  initialMap: map<Pair, Edge>, initialSymbol: seq<Symbol>)
    requires depth > 0 && width > 0 && Endpoints(order) == GridPairs(depth, width)
    requires Built(depth * width, parent, rank, edgeMap, symbols, spanningTree, order, routes, initialMap, initialSymbol)
    ensures Endpoints(spanningTree) <= GridPairs(depth, width)
    ensures |spanningTree| == depth * width - 1
    ensures Spans(depth, width, Endpoints(spanningTree))
    ensures Roots(parent) == {Root(parent, rank, 0)}
  {
    var keys := Keys(order);
    forall i | 0 <= i < |keys|
      ensures keys[i].0 < keys[i].1
    {
      assert order[i] in order;
      var _ := PairSlot(depth, width, keys[i]);
    }
    GreedyCycleless(keys);
    Spanning(depth, width, parent, rank, Endpoints(spanningTree), routes);
  }

  /**
   * The edge map after the Kruskal loop: every grid pair keeps its
   * enumerated edge and weight, open exactly when the pair was accepted.
   */
  lemma MapFacts(edgeMap: map<Pair, Edge>, tree: set<Pair>, initial: seq<Edge>, depth: nat, width: nat, weights: seq<int>)
    requires depth > 0 && width > 0 && |weights| >= EdgeCount(depth, width)
    requires |Emitted(depth, width, 4 * (depth * width))| <= |weights|
    requires initial == Enumerated(depth, width, weights, 4 * (depth * width))
    requires forall t :: 0 <= t < |weights| ==> 0 <= weights[t] < 1000
    requires Opened(edgeMap, tree, MapOf(initial))
    ensures edgeMap.Keys == GridPairs(depth, width)
    ensures forall p :: p in edgeMap ==>
      && edgeMap[p].endpoints == p && 0 <= edgeMap[p].weight < 1000
      && edgeMap[p].symbol == if p in tree then Blank else Wall
    ensures forall t :: 0 <= t < |initial| ==> initial[t].endpoints in edgeMap && edgeMap[initial[t].endpoints].weight == weights[t]
  {
    EnumerationFacts(depth, width, weights);
    MapOfFacts(initial);
    forall t | 0 <= t < |initial|
      ensures initial[t].endpoints in edgeMap && edgeMap[initial[t].endpoints].weight == weights[t]
    {
      assert initial[t] in initial;
    }
    forall p | p in edgeMap
      ensures edgeMap[p].endpoints == p && 0 <= edgeMap[p].weight < 1000
      ensures edgeMap[p].symbol == if p in tree then Blank else Wall
    {
      var e := MapOf(initial)[p];
      var t :| 0 <= t < |initial| && initial[t] == e;
    }
  }

  /** The symbols after the nodes of path have been marked as the solution. */
  function Mark(symbols: seq<Symbol>, path: seq<nat>): (r: seq<Symbol>)
    ensures |r| == |symbols|
    ensures forall c :: 0 <= c < |symbols| ==> r[c] == if c in path then Path else symbols[c]
  {
    seq(|symbols|, c requires 0 <= c < |symbols| => if c in path then Path else symbols[c])
  }

  /** Marking one node more in front of a path is marking the path, then that node. */
  lemma MarkFront(symbols: seq<Symbol>, path: seq<nat>, x: nat)
    requires x < |symbols|
    ensures Mark(symbols, [x] + path) == Mark(symbols, path)[x := Path]
  {
    assert forall c :: c in [x] + path <==> c == x || c in path;
  }

  /**
   * Where a call of findPath on current stands, given the stack S, the
   * visited flags V0 and the symbols sym0 it started from. Until the exit
   * is first reached the stack is S with current on top and no symbol has
   * changed; once this call has reached it, the stack is empty and the
   * nodes of S and of route, a walk over t from current to the exit
   * through nodes unvisited at the start, are marked as the solution.
   */
  ghost predicate Progress(stack: seq<nat>, seen: seq<bool>, symbols: seq<Symbol>,
                           S: seq<nat>, V0: seq<bool>, sym0: seq<Symbol>,
                           current: nat, exit: nat, t: set<Pair>, route: seq<nat>)
  {
    && |seen| == |V0| && exit < |V0|
    && if !V0[exit] && seen[exit] then
         && stack == []
         && Connects(t, route, current, exit) && Simple(route)
         && (forall i :: 0 <= i < |route| ==> route[i] < |V0| && !V0[route[i]])
         && symbols == Mark(sym0, S + route)
       else
         stack == S + [current] && symbols == sym0
  }

  /** A node in front of a walk that avoids it keeps the walk free of repeats. */
  lemma SimpleCons(x: nat, p: seq<nat>)
    requires Simple(p) && x !in p
    ensures Simple([x] + p)
  {
    var q := [x] + p;
    forall i, j | 0 <= i < j < |q|
      ensures q[i] != q[j]
    {
      assert q[j] == p[j - 1];
      if i > 0 {
        assert q[i] == p[i - 1];
      }
    }
  }

  /**
   * The open pairs t are what Kruskal's rule keeps of the order in which
   * the edges were polled; that order is the enumerated edges, with the
   * weights drawn for them, sorted by nondecreasing weight; and the edge
   * map holds, for each pair, the weight drawn for it.
   */
  ghost predicate Generated(depth: nat, width: nat, weights: seq<int>, order: seq<Edge>, t: set<Pair>, edgeMap: map<Pair, Edge>)
  {
    && depth > 0 && width > 0
    && |Emitted(depth, width, 4 * (depth * width))| == EdgeCount(depth, width) <= |weights|
    && var initial := Enumerated(depth, width, weights, 4 * (depth * width));
       && Ascending(order) && multiset(order) == multiset(initial)
       && Endpoints(order) == GridPairs(depth, width)
       && t == Greedy(Keys(order))
       && forall i :: 0 <= i < |initial| ==> initial[i].endpoints in edgeMap && edgeMap[initial[i].endpoints].weight == weights[i]
  }

  /**
   * The result of the Kruskal loop over the enumerated edges is what
   * Generated describes: the loop polled them all in nondecreasing order,
   * kept what Kruskal's rule keeps, and opened only map entries.
   */
  lemma GeneratedFacts(depth: nat, width: nat, weights: seq<int>, order: seq<Edge>, t: set<Pair>, edgeMap: map<Pair, Edge>, initial: seq<Edge>)
    requires depth > 0 && width > 0 && |weights| >= EdgeCount(depth, width)
    requires forall i :: 0 <= i < |weights| ==> 0 <= weights[i] < 1000
    requires |Emitted(depth, width, 4 * (depth * width))| == EdgeCount(depth, width)
    requires initial == Enumerated(depth, width, weights, 4 * (depth * width))
    requires Ascending(order) && multiset(order) == multiset(initial) && Endpoints(order) == Endpoints(initial)
    requires t == Greedy(Keys(order))
    requires Opened(edgeMap, t, MapOf(initial))
    ensures Generated(depth, width, weights, order, t, edgeMap)
  {
    EnumerationFacts(depth, width, weights);
    MapFacts(edgeMap, t, initial, depth, width, weights);
  }

  class Maze {
    const width: nat
    const depth: nat
    const adjacency: array2<Link>
    const symbol: array<Symbol>
    const visited: array<bool>
    var edgeMap: map<Pair, Edge>
    /** The open pairs after generation, and the solution path found in them. */
    ghost var tree: set<Pair>
    ghost var solution: seq<nat>
    /** The order in which the Kruskal loop polled the edges. */
    ghost var polled: seq<Edge>

    /**
     * The constructor: builds the grid graph, carves it along a random
     * spanning tree (the random weights are given), and marks the path from
     * maze[0][0] to the bottom-right node.
     */
    constructor (width: nat, depth: nat, weights: seq<int>)
      requires width > 0 && depth > 0 && |weights| >= EdgeCount(depth, width)
      requires forall t :: 0 <= t < |weights| ==> 0 <= weights[t] < 1000
      ensures this.width == width && this.depth == depth
      ensures fresh(adjacency) && fresh(symbol) && fresh(visited)
      ensures Carved(tree) && Spans(depth, width, tree)
      ensures Generated(depth, width, weights, polled, tree, edgeMap)
      ensures Solved(tree, solution)
    {
      this.width := width;
      this.depth := depth;
      var nodes, symbols, seen := InitMazeAsGraph(depth, width);
      adjacency, symbol, visited := nodes, symbols, seen;
      edgeMap := map[];
      new;
      Generate(weights);
    }

    /**
     * Lines 155-160 of the constructor, on the fresh grid graph: carve the
     * maze along the spanning tree the weights select, then search for the
     * path from maze[0][0] to the exit and mark it.
     */
    method Generate(weights: seq<int>)
      requires Shaped() && |weights| >= EdgeCount(depth, width)
      requires forall t :: 0 <= t < |weights| ==> 0 <= weights[t] < 1000
      requires forall c, k :: 0 <= c < Size() && 0 <= k < 4 ==> adjacency[c, k] == Neighbour(depth, width, c, k)
      requires forall c :: 0 <= c < Size() ==> !visited[c]
      modifies this`edgeMap, this`tree, this`solution, this`polled, adjacency, symbol, visited
      ensures Carved(tree) && Spans(depth, width, tree)
      ensures Generated(depth, width, weights, polled, tree, edgeMap)
      ensures Solved(tree, solution)
    {
      Carve(weights);
      var shortestPath, route := Solve(tree);
      solution := route;
    }

    /** The number of nodes. */
    function Size(): nat
    {
      depth * width
    }

    /** Both dimensions positive and one array entry per node (four slots per node). */
    predicate Shaped()
    {
      && depth > 0 && width > 0
      && adjacency.Length0 == Size() && adjacency.Length1 == 4
      && symbol.Length == Size() && visited.Length == Size()
    }

    /**
     * The edge enumeration of generateSpanningTree: every node is scanned
     * in row-major order, and each filled slot of a node on an odd square
     * of the checkerboard puts a wall edge with the next random weight into
     * the priority queue and the edge map.
     */
    method EnumerateEdges(weights: seq<int>) returns (queue: EdgeQueue)
      requires Shaped() && |weights| >= EdgeCount(depth, width)
      requires forall c, k :: 0 <= c < Size() && 0 <= k < 4 ==> adjacency[c, k] == Neighbour(depth, width, c, k)
      modifies this`edgeMap
      ensures fresh(queue)
      ensures |Emitted(depth, width, 4 * Size())| == EdgeCount(depth, width)
      ensures queue.items == Enumerated(depth, width, weights, 4 * Size())
      ensures edgeMap == MapOf(queue.items)
    {
      EmittedCount(depth, width);
      edgeMap := map[];
      queue := new EdgeQueue();
      var count := 0;
      ghost var s := 0;
      for i := 0 to depth
        invariant fresh(queue)
        invariant s == 4 * (width * i) <= 4 * Size()
        invariant count == |Emitted(depth, width, s)| <= |weights|
        invariant queue.items == Enumerated(depth, width, weights, s)
        invariant edgeMap == MapOf(queue.items)
      {
        MulMono(width, i + 1, depth);
        MulSucc(width, i);
        for j := 0 to width
          invariant s == 4 * (width * i + j)
          invariant count == |Emitted(depth, width, s)| <= |weights|
          invariant queue.items == Enumerated(depth, width, weights, s)
          invariant edgeMap == MapOf(queue.items)
        {
          ScanBounds(depth, width, i, j, 0);
          count := ScanNode(queue, weights, i, j, width * i + j, s, count);
          s := s + 4;
        }
      }
      MulComm(width, depth);
    }

    /**
     * The scan of the four slots of the node in row i, column j: each
     * filled slot of a node on an odd square adds a wall edge with the next
     * random weight to the queue and the edge map.
     */
    method ScanNode(queue: EdgeQueue, weights: seq<int>, i: nat, j: nat, ghost c: nat, ghost s: nat, count: nat) returns (count': nat)
      requires Shaped() && |weights| >= EdgeCount(depth, width) && i < depth && j < width
      requires c == width * i + j < Size()
      requires forall k :: 0 <= k < 4 ==> adjacency[c, k] == Neighbour(depth, width, c, k)
      requires s == 4 * (width * i + j)
      requires count == |Emitted(depth, width, s)| <= |weights|
      requires queue.items == Enumerated(depth, width, weights, s)
      requires edgeMap == MapOf(queue.items)
      modifies this`edgeMap, queue
      ensures count' == |Emitted(depth, width, s + 4)| <= |weights|
      ensures queue.items == Enumerated(depth, width, weights, s + 4)
      ensures edgeMap == MapOf(queue.items)
    {
      count' := count;
      ghost var at := s;
      for k := 0 to 4
        invariant at == s + k
        invariant count' == |Emitted(depth, width, at)| <= |weights|
        invariant queue.items == Enumerated(depth, width, weights, at)
        invariant edgeMap == MapOf(queue.items)
      {
        count' := ScanSlot(queue, weights, i, j, k, at, count');
        at := at + 1;
      }
    }

    /** Slot k of the node in row i, column j, at scan position s. */
    method ScanSlot(queue: EdgeQueue, weights: seq<int>, i: nat, j: nat, k: nat, ghost s: nat, count: nat) returns (count': nat)
      requires Shaped() && |weights| >= EdgeCount(depth, width) && i < depth && j < width && k < 4
      requires width * i + j < Size() && adjacency[width * i + j, k] == Neighbour(depth, width, width * i + j, k)
      requires s == 4 * (width * i + j) + k
      requires count == |Emitted(depth, width, s)| <= |weights|
      requires queue.items == Enumerated(depth, width, weights, s)
      requires edgeMap == MapOf(queue.items)
      modifies this`edgeMap, queue
      ensures count' == |Emitted(depth, width, s + 1)| <= |weights|
      ensures queue.items == Enumerated(depth, width, weights, s + 1)
      ensures edgeMap == MapOf(queue.items)
    {
      var c := width * i + j;
      ScanBounds(depth, width, i, j, k);
      var link := adjacency[c, k];
      ScanStep(depth, width, weights, i, j, k, s, link);
      count' := count;
      if link != Null && ((j % 2 == 0 && i % 2 == 1) || (j % 2 == 1 && i % 2 == 0)) {
        var pair := Key(c, link.node);
        var randomWeight := weights[count];
        count' := count + 1;
        MapOfAppend(queue.items, Edge(pair, randomWeight, Wall));
        queue.Add(Edge(pair, randomWeight, Wall));
        edgeMap := edgeMap[pair := Edge(pair, randomWeight, Wall)];
      }
    }

    /**
     * The else branch of the Kruskal loop: removes node1 and node2 from each
     * other's adjacency lists, clearing exactly the slots of each that point
     * at the other.
     */
    method Disconnect(node1: nat, node2: nat)
      requires Shaped() && node1 < Size() && node2 < Size()
      modifies adjacency
      ensures forall c, k :: 0 <= c < Size() && 0 <= k < 4 ==>
        adjacency[c, k] == if (c == node1 && old(adjacency[c, k]) == To(node2)) || (c == node2 && old(adjacency[c, k]) == To(node1))
                           then Null else old(adjacency[c, k])
    {
      for i := 0 to 4
        invariant forall c, k :: 0 <= c < Size() && 0 <= k < 4 ==>
          adjacency[c, k] == if k < i && ((c == node1 && old(adjacency[c, k]) == To(node2)) || (c == node2 && old(adjacency[c, k]) == To(node1)))
                             then Null else old(adjacency[c, k])
      {
        if adjacency[node1, i] != Null && adjacency[node1, i].node == node2 {
          adjacency[node1, i] := Null;
        }
        if adjacency[node2, i] != Null && adjacency[node2, i].node == node1 {
          adjacency[node2, i] := Null;
        }
      }
    }

    /** Every adjacency slot holds its neighbour, unless their pair is in cut. */
    ghost predicate Walls(cut: set<Pair>)
      reads adjacency
    {
      && Shaped()
      && forall c, k :: 0 <= c < Size() && 0 <= k < 4 ==> adjacency[c, k] == Cut(depth, width, c, k, cut)
    }

    /**
     * The then branch of the Kruskal loop, first half: joins the sets of
     * the two endpoints of the pair by pointing root1 at root2 and opens the
     * pair's entry in the edge map.
     */
    method Join(forest: Forest, node1: nat, node2: nat, root1: nat, root2: nat,
                ghost tree: set<Pair>, ghost done: set<Pair>, ghost routes: seq<seq<nat>>, ghost initialMap: map<Pair, Edge>)
      returns (ghost routes': seq<seq<nat>>)
      requires forest.Valid() && forest.parent.Length == Size()
      requires Invariant(Size(), forest.parent[..], forest.rank, tree, done, routes)
      requires node1 < node2 < Size() && (node1, node2) !in done
      requires root1 == Root(forest.parent[..], forest.rank, node1) && root2 == Root(forest.parent[..], forest.rank, node2)
      requires root1 != root2
      requires Opened(edgeMap, tree, initialMap) && (node1, node2) in initialMap
      modifies this`edgeMap, forest, forest.parent
      ensures forest.Valid()
      ensures Invariant(Size(), forest.parent[..], forest.rank, tree + {(node1, node2)}, done + {(node1, node2)}, routes')
      ensures Opened(edgeMap, tree + {(node1, node2)}, initialMap)
    {
      var p := (node1, node2);
      routes' := Accept(Size(), forest.parent[..], forest.rank, tree, done, routes, p);
      forest.Union(root1, root2);
      OpenStep(edgeMap, tree, initialMap, p);
      edgeMap := edgeMap[p := edgeMap[p].(symbol := Blank)];
    }

    /** The then branch of the Kruskal loop, second half: marks both endpoints of the pair visited. */
    method MarkVisited(node1: nat, node2: nat, ghost tree: set<Pair>, ghost initialSymbol: seq<Symbol>)
      requires Shaped() && node1 < node2 < Size() && Marked(symbol[..], tree, initialSymbol)
      modifies symbol
      ensures Marked(symbol[..], tree + {(node1, node2)}, initialSymbol)
    {
      MarkStep(symbol[..], tree, initialSymbol, node1, node2);
      symbol[node1] := Visited;
      symbol[node2] := Visited;
    }

    /**
     * The then branch of the Kruskal loop: the polled edge joins the
     * spanning tree, the sets of its endpoints are joined, its entry in the
     * edge map opens and its endpoints are marked visited.
     */
    method Take(forest: Forest, current: Edge, root1: nat, root2: nat, spanningTree: seq<Edge>, ghost order: seq<Edge>,
                ghost routes: seq<seq<nat>>, ghost initialMap: map<Pair, Edge>, ghost initialSymbol: seq<Symbol>)
      returns (spanningTree': seq<Edge>, ghost routes': seq<seq<nat>>)
      requires Shaped() && forest.Valid() && forest.parent.Length == Size()
      requires current.endpoints.0 < current.endpoints.1 < Size()
      requires current.endpoints !in Endpoints(order) && current.endpoints in initialMap
      requires Built(Size(), forest.parent[..], forest.rank, edgeMap, symbol[..], spanningTree, order, routes, initialMap, initialSymbol)
      requires root1 == Root(forest.parent[..], forest.rank, current.endpoints.0)
      requires root2 == Root(forest.parent[..], forest.rank, current.endpoints.1)
      requires root1 != root2
      requires Greedy(Keys(order + [current])) == Endpoints(spanningTree) + {current.endpoints}
      modifies this`edgeMap, forest, forest.parent, symbol
      ensures forest.Valid()
      ensures spanningTree' == spanningTree + [current]
      ensures Built(Size(), forest.parent[..], forest.rank, edgeMap, symbol[..], spanningTree', order + [current], routes', initialMap, initialSymbol)
    {
      ghost var tree, done := Endpoints(spanningTree), Endpoints(order);
      EndpointsAppend(order, current);
      EndpointsAppend(spanningTree, current);
      spanningTree' := spanningTree + [current];
      routes' := Join(forest, current.endpoints.0, current.endpoints.1, root1, root2, tree, done, routes, initialMap);
      MarkVisited(current.endpoints.0, current.endpoints.1, tree, initialSymbol);
    }

    /**
     * The else branch of the Kruskal loop: the endpoints of the polled edge
     * already share a root, so they are disconnected, which cuts exactly
     * their pair and changes nothing else.
     */
    method Refuse(forest: Forest, current: Edge, spanningTree: seq<Edge>, ghost order: seq<Edge>,
                  ghost routes: seq<seq<nat>>, ghost initialMap: map<Pair, Edge>, ghost initialSymbol: seq<Symbol>)
      requires forest.Valid() && forest.parent.Length == Size()
      requires current.endpoints.0 < current.endpoints.1 < Size() && current.endpoints !in Endpoints(order)
      requires Built(Size(), forest.parent[..], forest.rank, edgeMap, symbol[..], spanningTree, order, routes, initialMap, initialSymbol)
      requires Root(forest.parent[..], forest.rank, current.endpoints.0) == Root(forest.parent[..], forest.rank, current.endpoints.1)
      requires Greedy(Keys(order + [current])) == Endpoints(spanningTree)
      requires Walls(Endpoints(order) - Endpoints(spanningTree))
      modifies adjacency
      ensures Built(Size(), forest.parent[..], forest.rank, edgeMap, symbol[..], spanningTree, order + [current], routes, initialMap, initialSymbol)
      ensures Walls(Endpoints(order + [current]) - Endpoints(spanningTree))
    {
      ghost var tree, done, p := Endpoints(spanningTree), Endpoints(order), current.endpoints;
      EndpointsAppend(order, current);
      Reject(Size(), forest.parent[..], forest.rank, tree, done, routes, p);
      RefusedCut(order, spanningTree, current);
      var node1, node2 := current.endpoints.0, current.endpoints.1;
      Disconnect(node1, node2);
      forall c, k | 0 <= c < Size() && 0 <= k < 4
        ensures adjacency[c, k] == Cut(depth, width, c, k, (done - tree) + {p})
      {
        CutStep(depth, width, done - tree, p, c, k, old(adjacency[c, k]));
      }
    }

    /**
     * The body of the Kruskal loop after the poll: when the endpoints of the
     * polled edge lie in different sets of the forest it joins the spanning
     * tree, otherwise it stays a wall and its endpoints are disconnected.
     */
    method Consider(forest: Forest, current: Edge, spanningTree: seq<Edge>, ghost order: seq<Edge>, ghost routes: seq<seq<nat>>,
                    ghost initialMap: map<Pair, Edge>, ghost initialSymbol: seq<Symbol>)
      returns (spanningTree': seq<Edge>, ghost routes': seq<seq<nat>>)
      requires forest.Valid() && forest.parent.Length == Size()
      requires current.endpoints.0 < current.endpoints.1 < Size()
      requires current.endpoints !in Endpoints(order) && current.endpoints in initialMap
      requires Built(Size(), forest.parent[..], forest.rank, edgeMap, symbol[..], spanningTree, order, routes, initialMap, initialSymbol)
      requires Walls(Endpoints(order) - Endpoints(spanningTree))
      modifies this`edgeMap, forest, forest.parent, adjacency, symbol
      ensures forest.Valid()
      ensures Built(Size(), forest.parent[..], forest.rank, edgeMap, symbol[..], spanningTree', order + [current], routes', initialMap, initialSymbol)
      ensures Walls(Endpoints(order + [current]) - Endpoints(spanningTree'))
    {
      ghost var tree, done := Endpoints(spanningTree), Endpoints(order);
      KeysAppend(order, current);
      var node1, node2 := current.endpoints.0, current.endpoints.1;
      var root1 := forest.GetRoot(node1);
      var root2 := forest.GetRoot(node2);
      Decide(Size(), forest.parent[..], forest.rank, tree, done, routes, Keys(order), current.endpoints);
      if root1 != root2 {
        ghost var cut := done - tree;
        spanningTree', routes' := Take(forest, current, root1, root2, spanningTree, order, routes, initialMap, initialSymbol);
        assert Walls(cut);
        TakenCut(order, spanningTree, current);
      } else {
        Refuse(forest, current, spanningTree, order, routes, initialMap, initialSymbol);
        spanningTree', routes' := spanningTree, routes;
      }
    }

    /**
     * One turn of the Kruskal loop: polls a lightest edge from the queue
     * and considers it.
     */
    method Turn(queue: EdgeQueue, forest: Forest, spanningTree: seq<Edge>, ghost order: seq<Edge>, ghost routes: seq<seq<nat>>,
                ghost initial: seq<Edge>, ghost initialMap: map<Pair, Edge>, ghost initialSymbol: seq<Symbol>)
      returns (spanningTree': seq<Edge>, ghost order': seq<Edge>, ghost routes': seq<seq<nat>>)
      requires forest.Valid() && forest.parent.Length == Size() && queue.items != []
      requires Draining(order, queue.items, initial)
      requires forall p :: p in Endpoints(initial) ==> p.0 < p.1 < Size() && p in initialMap
      requires Built(Size(), forest.parent[..], forest.rank, edgeMap, symbol[..], spanningTree, order, routes, initialMap, initialSymbol)
      requires Walls(Endpoints(order) - Endpoints(spanningTree))
      modifies this`edgeMap, queue, forest, forest.parent, adjacency, symbol
      ensures forest.Valid()
      ensures Draining(order', queue.items, initial)
      ensures Built(Size(), forest.parent[..], forest.rank, edgeMap, symbol[..], spanningTree', order', routes', initialMap, initialSymbol)
      ensures Walls(Endpoints(order') - Endpoints(spanningTree'))
      ensures |queue.items| < |old(queue.items)|
    {
      ghost var items := queue.items;
      var current := queue.Poll();
      ghost var at :| 0 <= at < |items| && items[at] == current && queue.items == items[..at] + items[at + 1..];
      DrainStep(order, items, initial, current, at);
      spanningTree', routes' := Consider(forest, current, spanningTree, order, routes, initialMap, initialSymbol);
      order' := order + [current];
    }

    /**
     * The Kruskal loop of generateSpanningTree: polls edges until the queue
     * is empty. The spanning tree is what Greedy keeps of the polled order,
     * which is nondecreasing in weight; every initial pair ends up with its
     * endpoints in one set of the forest.
     */
    method BuildTree(queue: EdgeQueue, forest: Forest) returns (spanningTree: seq<Edge>, ghost order: seq<Edge>, ghost routes: seq<seq<nat>>)
      requires Shaped() && forest.Valid() && forest.parent.Length == Size()
      requires forall x :: 0 <= x < Size() ==> forest.parent[x] == x
      requires UniqueKeys(queue.items)
      requires forall p :: p in Endpoints(queue.items) ==> p.0 < p.1 < Size() && p in edgeMap
      requires forall c, k :: 0 <= c < Size() && 0 <= k < 4 ==> adjacency[c, k] == Neighbour(depth, width, c, k)
      modifies this`edgeMap, queue, forest, forest.parent, adjacency, symbol
      ensures queue.items == []
      ensures multiset(order) == multiset(old(queue.items)) && Ascending(order)
      ensures Endpoints(order) == Endpoints(old(queue.items))
      ensures forest.Valid()
      ensures Built(Size(), forest.parent[..], forest.rank, edgeMap, symbol[..], spanningTree, order, routes, old(edgeMap), old(symbol[..]))
      ensures Walls(Endpoints(order) - Endpoints(spanningTree))
    {
      spanningTree := [];
      order := [];
      ghost var initial := queue.items;
      DrainStart(initial);
      Start(Size(), forest.parent[..], forest.rank);
      routes := Alone(Size());
      var empty := queue.IsEmpty();
      while !empty
        invariant forest.Valid() && forest.parent.Length == Size()
        invariant Draining(order, queue.items, initial)
        invariant forall p :: p in Endpoints(initial) ==> p.0 < p.1 < Size() && p in old(edgeMap)
        invariant Built(Size(), forest.parent[..], forest.rank, edgeMap, symbol[..], spanningTree, order, routes, old(edgeMap), old(symbol[..]))
        invariant Walls(Endpoints(order) - Endpoints(spanningTree))
        invariant empty <==> queue.items == []
        decreases |queue.items|
      {
        spanningTree, order, routes := Turn(queue, forest, spanningTree, order, routes, initial, old(edgeMap), old(symbol[..]));
        empty := queue.IsEmpty();
      }
      Drained(order, initial);
    }

    /** The reset at the end of generateSpanningTree: every node symbol becomes blank again. */
    method ResetSymbols()
      requires Shaped()
      modifies symbol
      ensures forall c :: 0 <= c < Size() ==> symbol[c] == Blank
    {
      for i := 0 to depth
        invariant forall c :: 0 <= c < width * i ==> symbol[c] == Blank
      {
        MulMono(width, i + 1, depth);
        MulSucc(width, i);
        for j := 0 to width
          invariant forall c :: 0 <= c < width * i + j ==> symbol[c] == Blank
        {
          symbol[width * i + j] := Blank;
        }
      }
      MulComm(width, depth);
    }

    /**
     * The maze once generated, with open pairs t: t holds grid pairs only,
     * an adjacency slot keeps its neighbour exactly when their pair is in
     * t, and the edge map holds every grid pair, open when in t and a wall
     * otherwise, with its weight in [0, 1000).
     */
    ghost predicate Carved(t: set<Pair>)
      reads this`edgeMap, adjacency
    {
      && Shaped()
      && Walls(GridPairs(depth, width) - t)
      && t <= GridPairs(depth, width)
      && edgeMap.Keys == GridPairs(depth, width)
      && forall p :: p in edgeMap ==>
           && edgeMap[p].endpoints == p && 0 <= edgeMap[p].weight < 1000
           && edgeMap[p].symbol == if p in t then Blank else Wall
    }

    /**
     * The Kruskal part of generateSpanningTree, over the freshly enumerated
     * queue and a fresh root-pointing forest: the accepted edges are what
     * Greedy keeps of the nondecreasing poll order; they span the grid
     * without a cycle, the forest ends with one root, and the maze is
     * carved along them.
     */
    method KruskalPhase(queue: EdgeQueue, ghost weights: seq<int>) returns (spanningTree: seq<Edge>, ghost order: seq<Edge>, ghost forest: Forest)
      requires Shaped() && |weights| >= EdgeCount(depth, width)
      requires forall t :: 0 <= t < |weights| ==> 0 <= weights[t] < 1000
      requires forall c, k :: 0 <= c < Size() && 0 <= k < 4 ==> adjacency[c, k] == Neighbour(depth, width, c, k)
      requires |Emitted(depth, width, 4 * Size())| == EdgeCount(depth, width)
      requires queue.items == Enumerated(depth, width, weights, 4 * Size())
      requires edgeMap == MapOf(queue.items)
      modifies this`edgeMap, queue, adjacency, symbol
      ensures Carved(Endpoints(spanningTree))
      ensures |spanningTree| == Size() - 1 && Spans(depth, width, Endpoints(spanningTree))
      ensures Generated(depth, width, weights, order, Endpoints(spanningTree), edgeMap)
      ensures forest.Valid() && forest.parent.Length == Size() && Roots(forest.parent[..]) == {Root(forest.parent[..], forest.rank, 0)}
    {
      ghost var initial := queue.items;
      EnumerationFacts(depth, width, weights);
      forall p | p in Endpoints(initial)
        ensures p.0 < p.1 < Size()
      {
        var _ := PairSlot(depth, width, p);
      }
      var rootPointingForest := new Forest(Size());
      ghost var routes;
      spanningTree, order, routes := BuildTree(queue, rootPointingForest);
      TreeFacts(depth, width, rootPointingForest.parent[..], rootPointingForest.rank, edgeMap, symbol[..],
                spanningTree, order, routes, MapOf(initial), old(symbol[..]));
      MapFacts(edgeMap, Endpoints(spanningTree), initial, depth, width, weights);
      GeneratedFacts(depth, width, weights, order, Endpoints(spanningTree), edgeMap, initial);
      forest := rootPointingForest;
    }

    /**
     * generateSpanningTree: enumerates the edges, runs the Kruskal loop over
     * a fresh root-pointing forest and resets the node symbols. The accepted
     * edges are what Greedy keeps of the nondecreasing poll order; they
     * span the grid without a cycle, the forest ends with one root, and the
     * maze is carved along them.
     */
    method GenerateSpanningTree(weights: seq<int>) returns (spanningTree: seq<Edge>, ghost order: seq<Edge>, ghost forest: Forest)
      requires Shaped() && |weights| >= EdgeCount(depth, width)
      requires forall t :: 0 <= t < |weights| ==> 0 <= weights[t] < 1000
      requires forall c, k :: 0 <= c < Size() && 0 <= k < 4 ==> adjacency[c, k] == Neighbour(depth, width, c, k)
      modifies this`edgeMap, adjacency, symbol
      ensures Carved(Endpoints(spanningTree))
      ensures |spanningTree| == Size() - 1 && Spans(depth, width, Endpoints(spanningTree))
      ensures forall c :: 0 <= c < Size() ==> symbol[c] == Blank
      ensures Generated(depth, width, weights, order, Endpoints(spanningTree), edgeMap)
      ensures forest.Valid() && forest.parent.Length == Size() && Roots(forest.parent[..]) == {Root(forest.parent[..], forest.rank, 0)}
    {
      var queue := EnumerateEdges(weights);
      spanningTree, order, forest := KruskalPhase(queue, weights);
      ResetSymbols();
    }

    /**
     * The generation step of the constructor: the grid carved along the
     * random spanning tree recorded in tree, which is what Kruskal's rule
     * keeps of the poll order recorded in polled; every node blank and
     * still unvisited.
     */
    method Carve(weights: seq<int>)
      requires Shaped() && |weights| >= EdgeCount(depth, width)
      requires forall t :: 0 <= t < |weights| ==> 0 <= weights[t] < 1000
      requires forall c, k :: 0 <= c < Size() && 0 <= k < 4 ==> adjacency[c, k] == Neighbour(depth, width, c, k)
      requires forall c :: 0 <= c < Size() ==> !visited[c]
      modifies this`edgeMap, this`tree, this`polled, adjacency, symbol
      ensures Carved(tree) && Spans(depth, width, tree)
      ensures Generated(depth, width, weights, polled, tree, edgeMap)
      ensures forall c :: 0 <= c < Size() ==> !visited[c] && symbol[c] == Blank
    {
      var spanningTree;
      ghost var forest;
      spanningTree, polled, forest := GenerateSpanningTree(weights);
      tree := Endpoints(spanningTree);
    }

    /** The name of maze[depth-1][width-1], the bottom-right node, where the path search stops. */
    function Exit(): (e: nat)
      requires depth > 0 && width > 0
      ensures e == Size() - 1
    {
      MulSucc(width, depth - 1);
      width * (depth - 1) + (width - 1)
    }

    /** The nodes not yet visited. */
    ghost function Unseen(): set<nat>
      reads visited
    {
      set y | 0 <= y < visited.Length && !visited[y]
    }

    /** Every filled adjacency slot points at a node whose pair with its owner is in t. */
    ghost predicate Linked(t: set<Pair>)
      reads adjacency
    {
      && Shaped()
      && forall c, k :: 0 <= c < Size() && 0 <= k < 4 && adjacency[c, k].To? ==>
           adjacency[c, k].node < Size() && Key(c, adjacency[c, k].node) in t
    }

    /**
     * Every node visited in after but not in before, other than skip and
     * the exit, has all its neighbours visited in after.
     */
    ghost predicate Explored(before: seq<bool>, after: seq<bool>, skip: nat)
      reads adjacency
    {
      && Shaped() && |before| == Size() && |after| == Size()
      && forall y, k ::
           (&& 0 <= y < Size() && 0 <= k < 4 && y != skip && y != Exit() && after[y] && !before[y]
            && adjacency[y, k].To? && adjacency[y, k].node < Size())
           ==> after[adjacency[y, k].node]
    }

    lemma ExploredTrans(a: seq<bool>, b: seq<bool>, c: seq<bool>, skip: nat)
      requires Explored(a, b, skip) && Explored(b, c, Exit())
      requires forall y :: 0 <= y < Size() && b[y] ==> c[y]
      ensures Explored(a, c, skip)
    {
    }

    /** The exit branch of findPath: pops the whole stack, marking each node popped as the solution. */
    method MarkStack(shortestPath: NodeStack)
      requires forall x :: x in shortestPath.elems ==> x < symbol.Length
      modifies shortestPath, symbol
      ensures shortestPath.elems == []
      ensures symbol[..] == Mark(old(symbol[..]), old(shortestPath.elems))
    {
      ghost var full := shortestPath.elems;
      var empty := shortestPath.IsEmpty();
      while !empty
        invariant shortestPath.elems == full[..|shortestPath.elems|]
        invariant symbol[..] == Mark(old(symbol[..]), full[|shortestPath.elems|..])
        invariant empty <==> shortestPath.elems == []
        invariant forall y :: y in full ==> y < symbol.Length
        decreases |shortestPath.elems|
      {
        ghost var m := |shortestPath.elems|;
        var x := shortestPath.Pop();
        assert x == full[m - 1] && x in full && full[m - 1..] == [x] + full[m..];
        MarkFront(old(symbol[..]), full[m..], x);
        symbol[x] := Path;
        empty := shortestPath.IsEmpty();
      }
    }

    /**
     * findPath: marks current visited and pushes it; at the exit, marks the
     * whole stack as the solution and empties it; otherwise explores each
     * adjacency slot in turn. When the call returns, every node it visited
     * (the exit aside) has all its neighbours visited, and it stands as
     * Progress says.
     */
    method FindPath(shortestPath: NodeStack, current: nat, ghost t: set<Pair>) returns (ghost route: seq<nat>)
      requires Linked(t) && current < Size() && !visited[current]
      requires forall x :: x in shortestPath.elems ==> x < Size()
      modifies shortestPath, visited, symbol
      decreases Unseen(), 0
      ensures Unseen() <= old(Unseen()) - {current}
      ensures forall y :: 0 <= y < Size() && old(visited[y]) ==> visited[y]
      ensures Explored(old(visited[..]), visited[..], Exit())
      ensures Progress(shortestPath.elems, visited[..], symbol[..], old(shortestPath.elems), old(visited[..]), old(symbol[..]),
                       current, Exit(), t, route)
    {
      ghost var S, V0, sym0 := shortestPath.elems, visited[..], symbol[..];
      visited[current] := true;
      shortestPath.Push(current);
      if current == Exit() {
        MarkStack(shortestPath);
        route := [current];
        return;
      }
      route := [];
      for k := 0 to 4
        invariant Unseen() <= old(Unseen()) - {current}
        invariant forall y :: 0 <= y < Size() && V0[y] ==> visited[y]
        invariant Explored(V0, visited[..], current)
        invariant forall j :: 0 <= j < k && adjacency[current, j].To? ==> visited[adjacency[current, j].node]
        invariant Progress(shortestPath.elems, visited[..], symbol[..], S, V0, sym0, current, Exit(), t, route)
      {
        ghost var Vk := visited[..];
        route := Explore(shortestPath, current, k, t, S, V0, sym0, route);
        ExploredTrans(V0, Vk, visited[..], current);
      }
    }

    /**
     * One slot of the loop of findPath: an unvisited neighbour in slot k is
     * searched, and popped again when the stack is not empty.
     */
    method Explore(shortestPath: NodeStack, current: nat, k: nat, ghost t: set<Pair>,
                   ghost S: seq<nat>, ghost V0: seq<bool>, ghost sym0: seq<Symbol>, ghost route: seq<nat>)
      returns (ghost route': seq<nat>)
      requires Linked(t) && current < Size() && k < 4 && current != Exit() && visited[current]
      requires |V0| == Size() && !V0[current] && forall y :: 0 <= y < Size() && V0[y] ==> visited[y]
      requires forall x :: x in S ==> x < Size()
      requires Progress(shortestPath.elems, visited[..], symbol[..], S, V0, sym0, current, Exit(), t, route)
      modifies shortestPath, visited, symbol
      decreases Unseen(), 1
      ensures Unseen() <= old(Unseen())
      ensures forall y :: 0 <= y < Size() && old(visited[y]) ==> visited[y]
      ensures Explored(old(visited[..]), visited[..], Exit())
      ensures adjacency[current, k].To? ==> visited[adjacency[current, k].node]
      ensures Progress(shortestPath.elems, visited[..], symbol[..], S, V0, sym0, current, Exit(), t, route')
    {
      route' := route;
      var g := adjacency[current, k];
      if g != Null && !visited[g.node] {
        ghost var Vc, found, stack := visited[..], visited[Exit()], shortestPath.elems;
        var sub := FindPath(shortestPath, g.node, t);
        var empty := shortestPath.IsEmpty();
        if !empty {
          ghost var pushed := shortestPath.elems;
          var _ := shortestPath.Pop();
          assert shortestPath.elems == pushed[..|pushed| - 1];
        }
        if found || !visited[Exit()] {
          assert shortestPath.elems == stack;
        } else {
          route' := [current] + sub;
          assert Connects(t, [current, g.node], current, g.node);
          JoinConnects(t, [current, g.node], sub, current, g.node, Exit());
          assert [current, g.node] + sub[1..] == route';
          SimpleCons(current, sub);
          assert S + [current] + sub == S + route';
        }
      }
    }

    /** A pair of the carved maze is reached through a slot of each of its two nodes. */
    lemma SlotOf(t: set<Pair>, a: nat, b: nat) returns (k: nat)
      requires Carved(t) && Key(a, b) in t
      ensures a < Size() && b < Size() && k < 4 && adjacency[a, k] == To(b)
    {
      var p := Key(a, b);
      var k0 := PairSlot(depth, width, p);
      if a == p.0 {
        k := k0;
      } else {
        NeighbourFacts(depth, width, p.0, k0);
        k := Opposite(k0);
      }
      assert adjacency[a, k] == Cut(depth, width, a, k, GridPairs(depth, width) - t);
    }

    /** In the carved maze every filled slot points along a pair of t. */
    lemma CarvedLinked(t: set<Pair>)
      requires Carved(t)
      ensures Linked(t)
    {
      forall c, k | 0 <= c < Size() && 0 <= k < 4 && adjacency[c, k].To?
        ensures adjacency[c, k].node < Size() && Key(c, adjacency[c, k].node) in t
      {
        assert adjacency[c, k] == Cut(depth, width, c, k, GridPairs(depth, width) - t);
        NeighbourFacts(depth, width, c, k);
      }
    }

    /**
     * The search reaches the exit: a walk over t from a visited node to the
     * exit, through nodes none of which was visited before, stays inside the
     * visited nodes, since each of them but the exit has all its neighbours
     * visited.
     */
    lemma {:induction false} Reached(t: set<Pair>, before: seq<bool>, after: seq<bool>, w: seq<nat>, x: nat)
      requires Carved(t) && Explored(before, after, Exit())
      requires forall y :: 0 <= y < Size() ==> !before[y]
      requires Connects(t, w, x, Exit()) && x < Size() && after[x]
      ensures after[Exit()]
      decreases |w|
    {
      if x != Exit() {
        assert Key(w[0], w[1]) in t;
        var k := SlotOf(t, x, w[1]);
        forall i | 0 <= i < |w[1..]| - 1
          ensures Key(w[1..][i], w[1..][i + 1]) in t
        {
          assert Key(w[i + 1], w[i + 2]) in t;
        }
        Reached(t, before, after, w[1..], w[1]);
      }
    }

    /**
     * The solved maze: route is a walk over the open pairs t from node 0 to
     * the exit that repeats no node, it is the only such walk, and exactly
     * its nodes carry the solution symbol, all others being blank.
     */
    ghost predicate Solved(t: set<Pair>, route: seq<nat>)
      reads symbol
    {
      && Shaped()
      && Connects(t, route, 0, Exit()) && Simple(route)
      && (forall w :: Connects(t, w, 0, Exit()) && Simple(w) ==> w == route)
      && forall c :: 0 <= c < Size() ==> symbol[c] == if c in route then Path else Blank
    }

    /**
     * Lines 158-160 of the constructor: findPath from maze[0][0] with a
     * fresh stack, on a maze carved along a spanning tree, every node
     * unvisited and blank. The search reaches the exit, leaves the stack
     * empty, and marks the unique tree path as the solution.
     */
    method Solve(ghost t: set<Pair>) returns (shortestPath: NodeStack, ghost route: seq<nat>)
      requires Carved(t) && Spans(depth, width, t)
      requires forall c :: 0 <= c < Size() ==> !visited[c] && symbol[c] == Blank
      modifies visited, symbol
      ensures fresh(shortestPath) && shortestPath.elems == []
      ensures visited[Exit()]
      ensures Solved(t, route)
    {
      shortestPath := new NodeStack();
      CarvedLinked(t);
      ghost var V0, sym0 := visited[..], symbol[..];
      route := FindPath(shortestPath, 0, t);
      assert Connected(t, 0, Exit());
      ghost var w :| Connects(t, w, 0, Exit());
      Reached(t, V0, visited[..], w, 0);
      forall w' | Connects(t, w', 0, Exit()) && Simple(w')
        ensures w' == route
      {
        UniqueWalk(t, w', route, 0, Exit());
      }
      forall c | 0 <= c < Size()
        ensures symbol[c] == if c in route then Path else Blank
      {
        assert symbol[c] == Mark(sym0, [] + route)[c];
        assert [] + route == route;
      }
    }

    /** A 1 x 1 maze: the single node is both start and exit, and it alone is marked. */
    lemma SingleCell(t: set<Pair>, route: seq<nat>)
      requires depth == 1 && width == 1 && Solved(t, route)
      ensures route == [0] && symbol[0] == Path
    {
      SimpleEnds(route);
    }

    /**
     * The colour picture of a solved maze: a cell centre is the solution
     * colour exactly when the cell is on the solution path, and a gap
     * between two neighbouring cells is a wall exactly when their pair was
     * not opened.
     */
    lemma SolvedPicture(t: set<Pair>, route: seq<nat>, r: nat, c: nat)
      requires Carved(t) && Solved(t, route) && r < depth && c < width
      ensures ColorAt(depth, width, symbol[..], edgeMap, 2 * r + 1, 2 * c + 1) == if Name(width, r, c) in route then 'R' else 'W'
      ensures c + 1 < width ==>
        (ColorAt(depth, width, symbol[..], edgeMap, 2 * r + 1, 2 * c + 2) == 'B' <==> Key(Name(width, r, c), Name(width, r, c) + 1) !in t)
      ensures r + 1 < depth ==>
        (ColorAt(depth, width, symbol[..], edgeMap, 2 * r + 2, 2 * c + 1) == 'B' <==> Key(Name(width, r, c), Below(width, Name(width, r, c))) !in t)
    {
      CentreRule(depth, width, symbol[..], edgeMap, r, c);
      if c + 1 < width {
        EastGapRule(depth, width, symbol[..], edgeMap, r, c);
      }
      if r + 1 < depth {
        SouthGapRule(depth, width, symbol[..], edgeMap, r, c);
      }
    }

    /** One entry of mazeToColorArray, by the branches of the loop body. */
    method ColorOf(i: nat, j: nat) returns (ch: char)
      requires Shaped() && GridPairs(depth, width) <= edgeMap.Keys && i < 2 * depth + 1 && j < 2 * width + 1
      ensures ch == ColorAt(depth, width, symbol[..], edgeMap, i, j)
    {
      if i == 0 {
        ch := if j == 1 then 'R' else 'B';
      } else if i == 2 * depth {
        ch := if j == 2 * width - 1 then 'R' else 'B';
      } else if (i % 2 == 0 && j % 2 == 0) || j == 0 || j == 2 * width {
        ch := 'B';
      } else if i % 2 == 1 && j % 2 == 1 {
        CellInGrid(depth, width, (i - 1) / 2, (j - 1) / 2);
        ch := if symbol[Name(width, (i - 1) / 2, (j - 1) / 2)] == Blank then 'W' else 'R';
      } else if i % 2 == 1 {
        EastKey(depth, width, (i - 1) / 2, (j - 1) / 2);
        ch := GapOf(Name(width, (i - 1) / 2, (j - 1) / 2), Name(width, (i - 1) / 2, (j + 1) / 2));
      } else {
        SouthKey(depth, width, (i - 1) / 2, (j - 1) / 2);
        ch := GapOf(Name(width, (i - 1) / 2, (j - 1) / 2), Name(width, (i + 1) / 2, (j - 1) / 2));
      }
    }

    /** The colour of the gap between nodes a and b: red on the solution, white when open, black when a wall. */
    method GapOf(a: nat, b: nat) returns (ch: char)
      requires a < symbol.Length && b < symbol.Length && Key(a, b) in edgeMap
      ensures ch == GapColor(symbol[..], edgeMap, a, b)
      ensures ch == 'R' <==> symbol[a] == Path && symbol[b] == Path && edgeMap[Key(a, b)].symbol == Blank
      ensures ch == 'B' <==> edgeMap[Key(a, b)].symbol != Blank
    {
      var open := edgeMap[Key(a, b)].symbol == Blank;
      if symbol[a] == Path && symbol[b] == Path && open {
        ch := 'R';
      } else {
        ch := if open then 'W' else 'B';
      }
    }

    /**
     * mazeToColorArray: a (2*depth+1) x (2*width+1) array whose entry at
     * row i, column j is ColorAt(i, j).
     */
    method MazeToColorArray() returns (colorArray: array2<char>)
      requires Shaped() && GridPairs(depth, width) <= edgeMap.Keys
      ensures fresh(colorArray) && colorArray.Length0 == 2 * depth + 1 && colorArray.Length1 == 2 * width + 1
      ensures forall i, j :: 0 <= i < 2 * depth + 1 && 0 <= j < 2 * width + 1 ==>
        colorArray[i, j] == ColorAt(depth, width, symbol[..], edgeMap, i, j)
    {
      colorArray := new char[2 * depth + 1, 2 * width + 1];
      for i := 0 to 2 * depth + 1
        invariant forall i', j :: 0 <= i' < i && 0 <= j < 2 * width + 1 ==>
          colorArray[i', j] == ColorAt(depth, width, symbol[..], edgeMap, i', j)
      {
        for j := 0 to 2 * width + 1
          invariant forall i', j' :: 0 <= i' < i && 0 <= j' < 2 * width + 1 ==>
            colorArray[i', j'] == ColorAt(depth, width, symbol[..], edgeMap, i', j')
          invariant forall j' :: 0 <= j' < j ==> colorArray[i, j'] == ColorAt(depth, width, symbol[..], edgeMap, i, j')
        {
          colorArray[i, j] := ColorOf(i, j);
        }
      }
    }

    /** One token of toString, by the branches of the loop body. */
    method TokenOf(i: nat, j: nat) returns (token: string)
      requires Shaped() && GridPairs(depth, width) <= edgeMap.Keys && i < 2 * depth + 1 && j < 2 * width + 1
      ensures token == TokenAt(depth, width, symbol[..], edgeMap, i, j)
    {
      if i == 0 {
        token := if j == 1 then Text(Blank) else Text(Wall);
      } else if i == 2 * depth {
        token := if j == 2 * width - 1 then Text(Blank) else Text(Wall);
      } else if (i % 2 == 0 && j % 2 == 0) || j == 0 || j == 2 * width {
        token := Text(Wall);
      } else if i % 2 == 1 && j % 2 == 1 {
        CellInGrid(depth, width, (i - 1) / 2, (j - 1) / 2);
        token := Text(symbol[Name(width, (i - 1) / 2, (j - 1) / 2)]);
      } else if i % 2 == 1 {
        EastKey(depth, width, (i - 1) / 2, (j - 1) / 2);
        token := Text(edgeMap[Key(Name(width, (i - 1) / 2, (j - 1) / 2), Name(width, (i - 1) / 2, (j + 1) / 2))].symbol);
      } else {
        SouthKey(depth, width, (i - 1) / 2, (j - 1) / 2);
        token := Text(edgeMap[Key(Name(width, (i - 1) / 2, (j - 1) / 2), Name(width, (i + 1) / 2, (j - 1) / 2))].symbol);
      }
    }

    /** The inner loop of toString: the tokens of row i, concatenated. */
    method RowString(i: nat) returns (row: string)
      requires Shaped() && GridPairs(depth, width) <= edgeMap.Keys && i < 2 * depth + 1
      ensures row == JoinRow(TokenRows(depth, width, symbol[..], edgeMap)[i])
    {
      ghost var line := TokenRows(depth, width, symbol[..], edgeMap)[i];
      row := "";
      for j := 0 to 2 * width + 1
        invariant row == JoinRow(line[..j])
      {
        var token := TokenOf(i, j);
        JoinRowSnoc(line, j);
        row := row + token;
      }
      assert line[..2 * width + 1] == line;
    }

    /**
     * toString: the rows of tokens, each row followed by a newline; the
     * layout lemmas of the encoding say where each token lands.
     */
    method ToString() returns (ret: string)
      requires Shaped() && GridPairs(depth, width) <= edgeMap.Keys
      ensures ret == JoinLines(TokenRows(depth, width, symbol[..], edgeMap))
    {
      ghost var rows := TokenRows(depth, width, symbol[..], edgeMap);
      ret := "";
      for i := 0 to 2 * depth + 1
        invariant ret == JoinLines(rows[..i])
      {
        var row := RowString(i);
        ret := ret + row + "\n";
        JoinLinesSnoc(rows, i);
      }
      assert rows[..2 * depth + 1] == rows;
    }
  }
}
