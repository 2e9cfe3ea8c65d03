# Maze generation by randomised Kruskal, with its solver and encoders

This project is a Dafny model of the core of `Maze.java`, a program that
builds a random perfect maze and solves it. A `Maze` of `depth` rows and
`width` columns starts as a grid graph. `initMazeAsGraph` creates one
`GraphNode` per cell, named `width*i+j`. Each node has four adjacency
slots: west, north, east and south.

`generateSpanningTree` then works in three steps:

- It enumerates every pair of adjacent cells once. It scans the slots of
  the cells on the odd squares of a checkerboard. Each pair becomes an
  `Edge` with a random weight in `[0, 1000)` and the wall symbol `"X "`,
  put both in a priority queue and in an edge map.
- It runs Kruskal's algorithm over a root-pointing forest (union-find
  without ranks or path compression). An edge whose endpoints have
  different roots joins the spanning tree, and its entry in the edge map
  opens to `"  "`. Any other edge leaves its two cells disconnected in
  each other's adjacency lists.
- It resets every node symbol to blank.

The constructor then runs the depth-first `findPath` from the top-left
cell to the bottom-right cell. It marks the cells of the path found with
`"@ "`. `mazeToColorArray` and `toString` encode the result as a
`(2*depth+1) x (2*width+1)` colour grid or as a text picture.

The model keeps the source's imperative form:

- `Mazes.Maze` is a class whose node fields live in arrays indexed by
  node name: `adjacency` (a `depth*width x 4` array of links), `symbol`
  and `visited`. The edge map is a `map` field.
- `UnionFind.Forest` is a class over a parent array.
- `Edges.EdgeQueue` and `Mazes.NodeStack` are classes over a sequence.
- Every loop of the source is a `while` or `for` loop with its
  invariants, except the loops that only allocate: node creation
  (Maze.java:299-303) and the forest's `put` (Maze.java:217). These become
  array initialisers. A loop body that carries a lot of proof is split
  into its own method.

Methods are proved against specification functions and predicates:

- `Walks.Greedy` is Kruskal's result on a given order of edges.
- `Enumeration.Enumerated` is the queue the scan builds.
- `Encoding.ColorAt` and `Encoding.TokenAt` give the value at each
  position of the two encodings.
- `Kruskal.Invariant`: two nodes share a root exactly when the accepted
  edges connect them.

The main results are these:

- The generated maze is a spanning tree of the grid: exactly
  `depth*width-1` open pairs, no cycle, every cell reachable from cell 0.
  See `Mazes.Maze.GenerateSpanningTree` and `Mazes.TreeFacts`.
- The search marks exactly the unique simple path from the entrance to
  the exit. See `Mazes.Maze.Solve` and `Walks.UniqueWalk`.
- Each encoding follows its per-position rule. See
  `Encoding.PictureToken`, `Mazes.Maze.SolvedPicture` and
  `Encoding.EncodersAgree`.

## Model

| member | source | states |
|---|---|---|
| Grid.TextInjective | Maze.java:391-412 | the four symbol texts `"  "`, `"X "`, `"@ "`, `"V "` are pairwise distinct, so the source's string comparisons compare symbols |
| Grid.NameCoords | Maze.java:301 | a node name `width*i+j` gives back its row `i` and column `j` |
| Grid.NeighbourFacts | Maze.java:308-311 | a filled slot points at a different node inside the grid; the pair lies in the grid's adjacent pairs; the neighbour's opposite slot points back, so links are mutual |
| Grid.NeighbourInjective | Maze.java:308-311 | two slots of one node never hold the same neighbour |
| Grid.PairSlot | Maze.java:308-311 | every adjacent pair of the grid is reached through some slot of its smaller node |
| Grid.GridPairsCount | Maze.java:213-233 | the grid has exactly `depth*(width-1) + width*(depth-1)` adjacent pairs |
| Grid.HorizontalCount | Maze.java:308 | the count of pairs within rows over a prefix of the nodes |
| Grid.VerticalCount | Maze.java:311 | the count of pairs between consecutive rows over a prefix of the nodes |
| Grid.UniformTags | Maze.java:236-268 | a labelling equal on the two ends of every adjacent pair is constant over the grid, because the grid is connected |
| Mazes.CellSlots | Maze.java:308-311 | the four slots of cell `(i, j)` hold the west, north, east and south neighbour exactly when `j>0`, `i>0`, `j<width-1` and `i<depth-1` |
| Mazes.ConnectNode | Maze.java:308-311 | fills the four slots of one node with its neighbours and changes no other slot |
| Mazes.ConnectRow | Maze.java:307-312 | after row `i`, every node of rows up to `i` holds its neighbours and later nodes are still empty |
| Mazes.ConnectRows | Maze.java:306-313 | after the loop, every slot of every node holds its neighbour (or null at the border) |
| Mazes.InitMazeAsGraph | Maze.java:293-315 | `depth*width` fresh nodes, unvisited and blank, each slot holding the neighbour in that direction when it exists |
| Mazes.NodeStack.Push | Maze.java:177 | pushing puts the node on top of the stack |
| Mazes.NodeStack.Pop | Maze.java:181 | popping returns the top node and removes it |
| Mazes.NodeStack.IsEmpty | Maze.java:180 | true exactly when the stack holds no node |
| Edges.CompareTo | Maze.java:108-112 | returns -1, 0 or 1; negative exactly when this edge is lighter, positive exactly when it is heavier |
| Edges.CompareToOrder | Maze.java:108-112 | compareTo is antisymmetric in sign and transitive, a total preorder by weight |
| Edges.EdgeQueue.Add | Maze.java:228 | the edge joins the queue's contents |
| Edges.EdgeQueue.IsEmpty | Maze.java:236 | true exactly when the queue holds no edge |
| Edges.EdgeQueue.Poll | Maze.java:238 | returns an edge no heavier than any queued edge and removes exactly that one occurrence |
| Edges.Lightest | Maze.java:238 | the position of an edge of least weight in a nonempty queue |
| Edges.DrainStep | Maze.java:236-238 | polling a lightest edge moves it to the polled sequence; its pair was not polled before, and the polled sequence stays nondecreasing in weight |
| Edges.Drained | Maze.java:236 | once the queue is empty, the polled edges are a permutation of the initial queue |
| Enumeration.EnumeratedAt | Maze.java:227-229 | every enumerated edge is a wall edge with the weight drawn at its turn |
| Enumeration.SlotKeyInGrid | Maze.java:222-226 | an emitted pair is an adjacent pair of the grid, its smaller name first |
| Enumeration.SlotKeyInjective | Maze.java:221-222 | the checkerboard test lets each adjacent pair through at one slot only |
| Enumeration.EmittedDistinct | Maze.java:221-222 | the scan emits no pair twice |
| Enumeration.EmittedInGrid | Maze.java:222-226 | every pair the full scan emits is an adjacent pair of the grid |
| Enumeration.PairEmitted | Maze.java:213-222 | every adjacent pair of the grid is emitted, at the slot of its odd-square cell that points at the other cell |
| Enumeration.EmittedPairs | Maze.java:213-233 | the full scan emits exactly the adjacent pairs of the grid |
| Enumeration.EmittedCount | Maze.java:213-233 | the full scan emits `depth*(width-1) + width*(depth-1)` pairs |
| Enumeration.DistinctCard | Maze.java:213-233 | a sequence without repeats has as many elements as its set |
| Mazes.ScanTest | Maze.java:222 | a slot emits exactly when it is filled and `j%2==0 && i%2==1 \|\| j%2==1 && i%2==0` holds |
| Mazes.ScanStep | Maze.java:222-229 | one slot of the scan adds a wall edge with the next weight when the test holds, and adds nothing otherwise |
| Mazes.Maze.ScanSlot | Maze.java:222-230 | one slot of the scan: the queue and the count of weights drawn follow the enumeration, and the edge map mirrors the queue |
| Mazes.Maze.ScanNode | Maze.java:219-231 | the four slots of one node, with the same results |
| Mazes.Maze.EnumerateEdges | Maze.java:213-233 | the queue holds the enumerated edges in scan order, one weight drawn per edge, and the edge map is built from the queue |
| Mazes.MapOfFacts | Maze.java:229 | with distinct pairs, the edge map holds exactly the queue's pairs, each mapped to its edge |
| Mazes.EnumerationFacts | Maze.java:213-233 | the queue holds one wall edge per adjacent pair with no pair twice, the `t`-th carrying the `t`-th weight, and the edge map holds every pair with its edge |
| UnionFind.Root | Maze.java:281-287 | following parents from a node ends at a node that is its own parent |
| UnionFind.Acyclic | Maze.java:127-139 | following parents never comes back to a node other than a root: the forest has no cycle |
| UnionFind.ClimbNeverDescends | Maze.java:283-284 | the rank witness grows strictly along parent steps, so getRootNode terminates |
| UnionFind.Singletons | Maze.java:217 | a fresh forest of `n` nodes has every node as its own root and `n` roots |
| UnionFind.UnionRoot | Maze.java:249 | pointing root1 at root2 keeps the forest acyclic; nodes under root1 now find root2 and every other node keeps its root |
| UnionFind.UnionRoots | Maze.java:249 | the union removes exactly root1 from the roots |
| UnionFind.SingleRoot | Maze.java:236-268 | when all nodes find the same root, it is the only root |
| UnionFind.Forest.constructor | Maze.java:217 | `n` root-pointing nodes, each its own parent and root |
| UnionFind.Forest.GetRoot | Maze.java:281-287 | returns the name of the node reached by following parents, which is its own parent |
| UnionFind.Forest.Union | Maze.java:249 | repoints root1 at root2 and nothing else, keeps the forest valid, removes root1 from the roots and moves root1's set under root2 |
| Walks.ReverseConnects | Maze.java:236-268 | a walk read backwards joins the same two nodes |
| Walks.JoinConnects | Maze.java:236-268 | two walks meeting at a node join into one walk |
| Walks.SplitOver | Maze.java:245 | a walk using one more edge shows that the nodes were connected before, or that each end was connected to an end of the new edge |
| Walks.AddBridge | Maze.java:245-247 | adding an edge between unconnected nodes keeps the edge set free of cycles |
| Walks.GreedyCycleless | Maze.java:236-268 | the edges Kruskal keeps, on any order, contain no cycle |
| Walks.FirstStep | Maze.java:186-193 | in a cycleless edge set, two simple walks between the same nodes take the same first step |
| Walks.UniqueWalk | Maze.java:174-195 | in a cycleless edge set, there is at most one simple walk between two nodes |
| Kruskal.Start | Maze.java:217 | before the loop, the invariant holds with no edge accepted: every node alone, `n` roots |
| Kruskal.SameTagIffConnected | Maze.java:242-245 | two nodes share a root label exactly when the accepted edges connect them |
| Kruskal.SameRootIffConnected | Maze.java:242-245 | `root1 != root2` holds exactly when the accepted edges do not connect the endpoints |
| Kruskal.Accept | Maze.java:245-249 | accepting an edge whose roots differ and joining the two sets keeps the invariant, with one edge more and one root fewer |
| Kruskal.Reject | Maze.java:257 | passing over an edge whose endpoints share a root keeps the invariant |
| Kruskal.GreedyStep | Maze.java:245-247 | Kruskal keeps the next edge exactly when its endpoints are not yet connected |
| Kruskal.Decide | Maze.java:242-247 | the loop's test agrees with Kruskal's rule, so the loop keeps exactly what Kruskal keeps |
| Kruskal.Spanning | Maze.java:236-268 | after every adjacent pair is polled, there is one root, `depth*width-1` accepted edges, and every node is connected to node 0 |
| Mazes.CutStep | Maze.java:261-266 | disconnecting one more pair clears exactly the slots of its two nodes that point at each other |
| Mazes.OpenStep | Maze.java:251 | opening one more entry of the edge map changes that entry's symbol to blank and nothing else |
| Mazes.MarkStep | Maze.java:252-253 | marking both endpoints visited keeps the rule "visited exactly at the endpoints of accepted edges" |
| Mazes.Maze.Disconnect | Maze.java:261-266 | clears exactly the slots of node1 that point at node2 and of node2 that point at node1; every other slot is unchanged |
| Mazes.Maze.Join | Maze.java:249-251 | unions the two roots and opens the pair's map entry, keeping the Kruskal invariant with the pair accepted |
| Mazes.Maze.MarkVisited | Maze.java:252-253 | marks both endpoints visited, keeping the visited rule |
| Mazes.Maze.Take | Maze.java:245-256 | the edge joins the spanning tree; the forest, the map and the symbols stay what the polled edges made of them |
| Mazes.Maze.Refuse | Maze.java:257-266 | the state stays what the polled edges made of it, and the cut pairs grow by exactly this pair |
| Mazes.Maze.Consider | Maze.java:239-267 | one turn after the poll: accepted exactly when the roots differ, keeping the loop invariant either way |
| Mazes.Maze.Turn | Maze.java:236-267 | one turn of the loop: polls a lightest edge, keeps the invariant and shrinks the queue |
| Mazes.Maze.BuildTree | Maze.java:236-268 | the queue ends empty; the polled order is a nondecreasing permutation of it; the tree is what Kruskal keeps of that order; only refused pairs are cut from the adjacency lists |
| Mazes.TreeFacts | Maze.java:236-268 | after the loop, the accepted pairs are `depth*width-1` grid pairs with no cycle, connecting every node to node 0, and the forest has one root |
| Mazes.MapFacts | Maze.java:229-251 | after the loop, the edge map holds every grid pair with the weight drawn for it (in `[0,1000)`), blank exactly when accepted and a wall otherwise |
| Mazes.Maze.ResetSymbols | Maze.java:271-273 | every node symbol becomes blank |
| Mazes.Maze.KruskalPhase | Maze.java:217-268 | the Kruskal loop over the enumerated queue and a fresh forest: the accepted edges are what Kruskal's rule keeps of a nondecreasing-weight order of the enumerated edges, span the grid, and carve the maze; the forest has one root |
| Mazes.GeneratedFacts | Maze.java:229-268 | a loop outcome that polled every enumerated edge in nondecreasing order, kept what Kruskal's rule keeps and opened only map entries is Kruskal's tree for the weights, with each map entry carrying its drawn weight |
| Mazes.Maze.GenerateSpanningTree | Maze.java:202-274 | the maze is carved along a spanning tree of the grid, which is what Kruskal's rule keeps of a nondecreasing-weight order of the enumerated edges with the weights drawn for them; each map entry carries its drawn weight; the forest has one root; every symbol is blank |
| Mazes.Maze.Carve | Maze.java:155 | the generation step of the constructor: the maze is carved along Kruskal's spanning tree for the given weights, recorded in `tree` (what Kruskal's rule keeps of the nondecreasing order of the enumerated edges recorded in `polled`), with nodes still unvisited and blank |
| Mazes.Maze.Generate | Maze.java:155-160 | generation then path search on the fresh grid graph: the maze is carved along Kruskal's spanning tree for the given weights and solved along its unique path |
| Mazes.Maze.Exit | Maze.java:179 | the bottom-right node `maze[depth-1][width-1]` is the last name, `depth*width-1` |
| Mazes.MarkFront | Maze.java:181 | marking one more node in front of a path marks the path, then that node |
| Mazes.Maze.MarkStack | Maze.java:179-184 | pops the whole stack, marking exactly the nodes it held as the solution, and leaves it empty |
| Mazes.Maze.FindPath | Maze.java:174-195 | visits current and only new nodes; every node it visits other than the exit has all its neighbours visited; once the exit is reached the stack is empty and the stack plus a simple walk to the exit are marked; otherwise the stack gains current and no symbol changes |
| Mazes.Maze.Explore | Maze.java:186-193 | one slot of the loop: an unvisited neighbour is searched and popped again when the stack is not empty, with the same guarantees |
| Mazes.Maze.SlotOf | Maze.java:186-187 | an open pair of the carved maze is reachable through a slot of each of its nodes |
| Mazes.Maze.CarvedLinked | Maze.java:186-187 | in the carved maze, every filled slot points along an open pair |
| Mazes.Maze.Reached | Maze.java:186-193 | the search reaches the exit, because the exit is connected to the start and every visited node has all its neighbours visited |
| Mazes.Maze.Solve | Maze.java:157-160 | findPath from `maze[0][0]` with a fresh stack reaches the exit and leaves the stack empty; exactly the nodes of the only simple walk from start to exit are marked `"@ "`, and all others are blank |
| Mazes.Maze.SingleCell | Maze.java:179-184 | in a 1x1 maze the single node is start and exit, and it alone is marked |
| Mazes.Maze.constructor | Maze.java:149-167 | the maze is carved along the spanning tree Kruskal's rule keeps for the given weights, with the edge map complete and carrying the drawn weights, and solved along its unique path |
| Encoding.BorderRule | Maze.java:384-389 | the frame and the even/even corners are wall (`'B'`, `"X "`), except the entrance (0, 1) and the exit (2*depth, 2*width-1), which are `'R'` and blank text |
| Encoding.CentreRule | Maze.java:390-391 | a cell centre is ground when the cell's symbol is blank and solution colour otherwise; its token is the cell's symbol |
| Encoding.EastGapRule | Maze.java:392-403 | the gap east of a cell shows the edge to its right neighbour: solution colour when it is open and both cells are on the path, ground when only open, wall otherwise; its token is the edge's symbol |
| Encoding.SouthGapRule | Maze.java:404-416 | the gap south of a cell shows the edge to the cell below, by the same rule |
| Encoding.EncodersAgree | Maze.java:375-457 | a colour is a black wall exactly where the text shows `"X "`, and a ground colour shows blank text |
| Mazes.Maze.GapOf | Maze.java:395-400 | a gap is `'R'` exactly when both cells are marked and the edge is open, and `'B'` exactly when the edge is a wall |
| Mazes.Maze.ColorOf | Maze.java:384-416 | one entry of the colour grid, by the branches of the loop body |
| Mazes.Maze.MazeToColorArray | Maze.java:375-421 | a fresh `(2*depth+1) x (2*width+1)` array whose every entry follows the colour rule |
| Mazes.Maze.SolvedPicture | Maze.java:375-421 | in the solved maze a cell centre is red exactly when the cell is on the solution path, and a gap is black exactly when its pair was not opened |
| Mazes.Maze.TokenOf | Maze.java:434-451 | one token of the text, by the branches of the loop body |
| Mazes.Maze.RowString | Maze.java:433-453 | the tokens of one row, concatenated |
| Mazes.Maze.ToString | Maze.java:426-457 | the rows of tokens, each followed by a newline |
| Encoding.PictureToken | Maze.java:426-457 | in the text, every line is `2*(2*width+1)+1` characters long; the token at row `i`, column `j` sits at offset `i*(2*(2*width+1)+1) + 2*j`; each line ends with a newline; and the whole text is `2*depth+1` such lines |

## Left out

- The GUI (`mazeGUI`), `display` and the debug displays inside `generateSpanningTree` are left out. They are output only. So are the constructor's `debug` and `runGUI` parameters.
- `Main.java` is not part of this model. Its `main` ignores its arguments and constructs one maze from the constants `WIDTH`, `DEPTH`, `DEBUG` and `RUN_GUI` (Main.java:22-30).
- The debug `toString` methods of `GraphNode` and `Edge` are left out. They are output only.
- `java.util.Random` is replaced by a sequence of weights given to the constructor. It needs one weight per adjacent pair, each in `[0, 1000)`. The `t`-th edge enumerated takes the `t`-th weight.
- A `GraphNode` is represented by its name. Its fields live in arrays indexed by that name. The `Set<GraphNode>` endpoints of an edge are the pair of names, smaller name first.
- The order of the two nodes that `HashSet.toArray` yields is not modelled. `node1` is always the node with the smaller name, so `root1` is the root of the smaller name. Which root is repointed changes the forest's shape, but not the edges accepted.
- Edges.EdgeQueue.Poll: among edges of equal weight, the model lets any one come out first. `PriorityQueue`'s heap order among equal weights is not modelled. The results hold for every such order.
- `rootPointingForest` is a `HashMap<Integer, RootPointingNode>` in the source and a parent array here. The source fills it inside the enumeration loop; here it is created whole between the enumeration and the Kruskal loop, which no step in between reads.
- `root1 != root2` in the source compares two `Integer` references. Both come from the root nodes' own `name` fields, so equal names are the same object, and the model compares values.
- The source uses 32-bit `int`, so `width*i+j`, `2*depth+1` and the edge count would overflow for very large mazes. The model's integers are unbounded.
- Mazes.Maze.constructor: requires `width > 0` and `depth > 0`, and its `nat` parameters rule out negative dimensions. With a zero dimension the source generates nothing and then fails with `ArrayIndexOutOfBoundsException` at `maze[0][0]` (Maze.java:159). With a negative one it fails with `NegativeArraySizeException` at `new GraphNode[depth][width]` (Maze.java:296). Neither failure is modelled.
- Mazes.InitMazeAsGraph: the node-creation loop (Maze.java:299-303) is three array initialisers, not a loop. The arrays are fresh, so no order of creation or aliasing between nodes is lost.
- Recursion depth is not modelled. The source's `findPath` recursion can overflow the Java stack on large mazes.
- The `"V "` symbol appears only as the `Visited` marker set during generation. The reset afterwards removes it.
- Loop bodies that carry most of the proof are separate methods: `ConnectRows`, `ConnectRow`, `ConnectNode`, `ScanNode`, `ScanSlot`, `Turn`, `Consider`, `Take`, `Refuse`, `Join`, `MarkVisited`, `Explore`, `ColorOf`, `GapOf`, `TokenOf` and `RowString`. They do what the inline code does, in the same order.
- `mazeToColorArray` and `toString` are specified for any state with a symbol per node and an edge-map entry per adjacent pair. They are not limited to the state after construction.
