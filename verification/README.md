# Layered flowchart layout, modelled in Dafny

The repository lays out a flowchart drawn as a single-source, single-sink DAG of
nodes and edges. `src/Layout.ts` holds free functions:

- `fillChildNodes` turns the edge list into each node's ordered child list, a
  branch flag and a resolved join node.
- `getNodeById` and `getEdgeBySourceNodeId` / `getEdgeByTargetNodeId` look nodes and
  edges up.
- `dfs` / `getNodesBetween` walk from a branch node down to its join.
- `isAtomicTree` / `getAtomicTree` pick out branch regions with no nested branch.
- `getBranchMaximumHeight` measures a non-forking chain.
- `assignLayers` ranks nodes by longest path with a fixpoint relaxation.
- `layoutMinimumBranchTree` checks one unit and lays it out.

`src/AtomicTreeLayout.ts` holds the class `AtomicTreeLayout`. Its `layout()`:

1. computes longest-path depths from the start node with a queue;
2. groups the reached nodes by depth in queue order;
3. sorts each layer by descending weight;
4. writes `x = depth · h` and a zero-centred `y` into the nodes.

`repositionTree`, `getHeight` and `getWidth` move the layout and measure it. Each is
guarded by the `isLaidOut` flag.

## How the model is built

- **Node references.** A node is its index in the node list (`Types.XNode`). Child
  and join references are indices too. A node's `joinNode` is an `Option<nat>`, with
  `None` for the `null` the XNode constructor sets (src/XNode.ts:46). Where the code
  tells `undefined` and `null` apart, a reference is a `Types.NodeRef`: `Undefined`,
  `Null` or `Node(i)`. Reading a property of `null` throws a TypeError, modelled as
  the error `NullReference`.
- **Coordinates.** The coordinates the code writes in place live in one shared
  `array<Point>`, indexed like the node list. `AtomicLayout.AtomicTreeLayout` is a
  class over that array. Its methods are proved against specification functions on
  `pos[..]`: `Placement.PlaceLayers` and `Placement.Offset`.
- **Numbers.** Spacings and coordinates are `real`.
- **Acyclicity.** The code has no cycle cap. On a cycle the loops of assignLayers,
  calculateNodeDepths and groupNodesByDepth never end, and the recursive dfs and
  getBranchMaximumHeight overflow the call stack (a RangeError). The model therefore takes a ghost rank that grows along every child link
  (`Graphs.Ranked`), or along every edge for `assignLayers`. The queue loops
  terminate because each step lowers the number of paths left to explore
  (`Graphs.SumPaths`).
- **Filter callbacks.** Every filter callback in `src/Layout.ts` has a block body
  without `return`, so as written each filter keeps nothing. `LayoutLookup` models
  that literally (`GetNodeByIdAsWritten`). Everything else uses the evident
  predicates, and the first finding below records the gap.
- **Grouping.** `Bfs` models groupNodesByDepth's queue as written: a child is refused
  only while it is still waiting in the queue. `BfsOnce` models the visited-set queue
  the code evidently intends, and `AtomicLayout.AtomicTreeLayout.Layout` uses it. The
  third finding below records the difference; `RepeatExample` shows it on a unit.
- **Worked example.** `LayoutExample` is the five-node example at the end of
  `src/AtomicTreeLayout.ts`. The model proves the coordinates layout() writes for it:
  a(0,0), d(100,-30), b(100,30), c(200,0), e(300,0). Both groupings give the same
  layers here. As written, the following repositionTree(a, 500, 500) then fails with
  "layout not performed", because `isLaidOut` is never set (`TestRunAsWritten`).
  With the corrected layout(), which sets the flag, the move passes and gives
  (500,500), (600,470), (600,530), (700,500), (800,500) (`TestRun`). The comments
  beside the example expect b at y=-30, d at y=+30 and c at y=-30 (then 470). The
  code sorts heavier d first, and a one-node layer is centred at 0, so the model
  follows the code.

## Model

| member | source | states |
|---|---|---|
| LayoutLookup.GetNodeByIdAsWritten | src/Layout.ts:264-275 | The lookup as written: an empty list throws "nodes is null" |
| LayoutLookup.AsWrittenLookupAlwaysFails | src/Layout.ts:268-273 | As written the lookup never succeeds, even when a node carries the id: a non-empty list always throws "not found" |
| LayoutLookup.GetNodeById | src/Layout.ts:264-275 | An empty list throws "nodes is null"; otherwise the first node with the id is returned, and the lookup throws exactly when no node carries it |
| LayoutLookup.GetEdgeBySourceNodeId | src/Layout.ts:277-288 | An empty edge list throws, and only it does; otherwise the result is the filter of the edges by source |
| LayoutLookup.EdgesFrom | src/Layout.ts:281-283 | Exactly the edges with that source, as a subsequence of the edge list (input order) |
| LayoutLookup.EdgesFromCounts | src/Layout.ts:281-283 | Each edge with the source occurs in the result as often as in the input; others not at all |
| LayoutLookup.GetEdgeByTargetNodeId | src/Layout.ts:290-301 | An empty edge list throws, and only it does; otherwise the result is the filter of the edges by target |
| LayoutLookup.EdgesTo | src/Layout.ts:294-296 | Exactly the edges with that target, in input order |
| LayoutLookup.EdgesToCounts | src/Layout.ts:294-296 | Each edge with the target occurs in the result as often as in the input; others not at all |
| LayoutLookup.ResolveTargets | src/Layout.ts:248-250 | Resolving every target of the out-edges succeeds iff every target id names a node; entry k is the first node with target k's id; a failure names an unknown target |
| LayoutLookup.FillNode | src/Layout.ts:244-260 | One node's update succeeds iff the edge list is non-empty and its targets (and, when it becomes a branch, its join id) resolve; the filled node keeps its old children and appends the targets in edge order, is a branch iff it has a child, and gets its join node only then |
| LayoutLookup.FilledNode | src/Layout.ts:248-258 | Appending the resolved targets and setting the flag and join node yields the filled state |
| LayoutLookup.FillChildNodes | src/Layout.ts:243-262 | Succeeds iff every node resolves (an empty node list trivially); empty edges with nodes throw "edges is null"; an error is one of the two lookup errors; on success every node is in its filled state |
| LayoutLookup.FillStep | src/Layout.ts:244-260 | Writing one filled node extends the filled prefix of the list by one |
| LayoutLayers.InitialLayers | src/Layout.ts:80-82 | Exactly the listed ids and the start id get a layer, all of them 0 |
| LayoutLayers.RelaxPass | src/Layout.ts:87-94 | One pass over the edges keeps the loop invariant and never lowers or drops a layer; a pass that changed something raised some layer; a pass that changed nothing settled every edge |
| LayoutLayers.AssignLayers | src/Layout.ts:79-98 | On acyclic edges the loop ends; every listed node and the start have a layer; every edge whose source has a layer has target layer above source layer; each layer is the length of a longest edge path from a seed |
| LayoutLayers.FixpointAllLongest | src/Layout.ts:85-95 | At the fixpoint every layer is the length of a longest edge path from a seed |
| LayoutLayers.FixpointClimbs | src/Layout.ts:88-92 | At the fixpoint a path from a node with a layer climbs at least one layer per edge |
| LayoutLayers.FixpointWitness | src/Layout.ts:85-95 | At the fixpoint some path from a seed reaches v in exactly layer(v) edges |
| LayoutLayers.FixpointLongest | src/Layout.ts:85-95 | No edge path from a seed to v is longer than layer(v), and one reaches it |
| LayoutLayers.RelaxKeeps | src/Layout.ts:90-93 | Raising a target to one above its source keeps the relaxation invariant and only grows the layers |
| Depths.FinalDepths | src/AtomicTreeLayout.ts:61-79 | The end state of the queue loop (every key reachable, every child closed, every depth justified by a parent) gives the longest-path depths |
| Depths.DepthsUnique | src/AtomicTreeLayout.ts:61-79 | The depth map of a start is unique: two maps meeting the depth specification are equal |
| Depths.DepthBound | src/AtomicTreeLayout.ts:61-79 | Every depth is below the number of nodes |
| Depths.OnlyStartAtZero | src/AtomicTreeLayout.ts:62 | The start is the only node at depth 0 |
| Depths.GapFree | src/AtomicTreeLayout.ts:108-110 | Every depth from 0 up to a node's depth is taken by some node, so the depths are 0..max without gaps |
| Depths.MaxDepth | src/AtomicTreeLayout.ts:187 | `Math.max` over the depths: an upper bound that some node attains |
| Depths.MaxDepthAttained | src/AtomicTreeLayout.ts:186-189 | The largest depth belongs to a reached node and is below the node count |
| Bfs.Pushed | src/AtomicTreeLayout.ts:101-105 | Every child ends up queued: it was queued already or is pushed, and only children not yet queued are pushed |
| Bfs.BfsStep | src/AtomicTreeLayout.ts:91-106 | A dequeue hands out the head and then the order of the next queue, and lowers the termination measure |
| Bfs.BfsSound | src/AtomicTreeLayout.ts:91-106 | Every dequeued node is reachable from the start |
| Bfs.BfsComplete | src/AtomicTreeLayout.ts:91-106 | Every node reachable from a queued node is dequeued |
| Bfs.BfsFromStart | src/AtomicTreeLayout.ts:89-106 | From the start alone, the queue hands out exactly the reachable nodes |
| Bfs.FilterDepth | src/AtomicTreeLayout.ts:93-98 | The dequeued nodes of depth k, in dequeue order |
| Bfs.GroupAppend | src/AtomicTreeLayout.ts:93-98 | Dequeuing one more node appends it to the bucket of its depth, creating the bucket if missing; other buckets are unchanged |
| Bfs.GroupIsFilter | src/AtomicTreeLayout.ts:93-98 | Bucket k exists iff a dequeued node has depth k, and holds the dequeued nodes of depth k in dequeue order |
| Bfs.ValuesOfRange | src/AtomicTreeLayout.ts:108-110 | Sorting buckets keyed 0..c-1 by key lists them by index |
| Bfs.LayersByDepth | src/AtomicTreeLayout.ts:87-111 | The returned list has max depth + 1 non-empty layers; layer k is the dequeued nodes of depth k in queue order; every reached node is in the layer of its depth |
| Bfs.SameNodes | src/AtomicTreeLayout.ts:87-106 | The grouping queue dequeues exactly the nodes that have a depth |
| Bfs.GroupKeys | src/AtomicTreeLayout.ts:93-97 | The buckets are keyed by exactly the depths 0..max |
| Placement.Insert | src/AtomicTreeLayout.ts:120 | One insertion step of the descending sort: the node set grows by the inserted node |
| Placement.SortByWeight | src/AtomicTreeLayout.ts:120 | `[...layer].sort((a, b) => b.weight - a.weight)`: same length, indices stay in range |
| Placement.SortPermutes | src/AtomicTreeLayout.ts:120 | The sort is a permutation of the layer |
| Placement.SortIsSorted | src/AtomicTreeLayout.ts:120 | The sorted layer has non-increasing weights |
| Placement.SortIsStable | src/AtomicTreeLayout.ts:120 | Nodes of equal weight keep their relative (queue) order |
| Placement.SortedSameNodes | src/AtomicTreeLayout.ts:120 | The sort keeps the node set and keeps a duplicate-free layer duplicate-free |
| Placement.PlaceRowAt | src/AtomicTreeLayout.ts:123-129 | The node at sorted index j, when it does not occur again later in the row, gets (x, -(n-1)·v/2 + j·v): the last write wins |
| Placement.LastOccurrence | src/AtomicTreeLayout.ts:123-129 | Every node of a row has a last index, the one whose write stays |
| Placement.DistinctLast | src/AtomicTreeLayout.ts:123-129 | In a duplicate-free row every index is the last one of its node |
| Placement.PlaceRowOutside | src/AtomicTreeLayout.ts:126-129 | A node outside the row keeps its position |
| Placement.PlaceLayersOutside | src/AtomicTreeLayout.ts:118-130 | A node in no layer keeps its x and y |
| Placement.PlaceLayersAt | src/AtomicTreeLayout.ts:118-130 | With no node in two layers, the node at the last sorted index j of its occurrences in layer d ends at (d·h, RowY(n, j, v)), repeats within a layer included |
| Placement.LaterLayerMissing | src/AtomicTreeLayout.ts:118-130 | A node of layer d is in no later layer, so later layers do not overwrite it |
| Placement.PlaceTopLayer | src/AtomicTreeLayout.ts:118-130 | Placing layer d sets its last-index nodes to their row positions |
| Placement.PlacedAtLast | src/AtomicTreeLayout.ts:118-130 | Every node of layer d ends in column d·h at the row position of its last sorted index |
| Placement.LayerGeometry | src/AtomicTreeLayout.ts:118-130 | In a placed duplicate-free layer, sorted index i is at x = d·h, its y is opposite to that of index n-1-i and one spacing below that of index i+1, and a one-node layer sits at y = 0 |
| Placement.ColumnOfLayer | src/AtomicTreeLayout.ts:127 | With no node in two layers, every node of layer d ends in column d·h, repeats included |
| Placement.HeavierNotAbove | src/AtomicTreeLayout.ts:120-128 | With no node in two layers, a strictly heavier node of a placed layer never gets a larger y, repeats included |
| Placement.RowSymmetric | src/AtomicTreeLayout.ts:123-128 | Sorted indices i and n-1-i get opposite y: rows are centred on 0 |
| Placement.RowStep | src/AtomicTreeLayout.ts:128 | Adjacent sorted indices are exactly one vertical spacing apart |
| Placement.RowMonotone | src/AtomicTreeLayout.ts:128 | With a non-negative spacing, later sorted indices never get a smaller y |
| Placement.OffsetExact | src/AtomicTreeLayout.ts:196-201 | Over a duplicate-free list every listed node moves by exactly (dx, dy) and every other node stays |
| Placement.OffsetKeepsShape | src/AtomicTreeLayout.ts:196-201 | The move keeps the offset between any two listed nodes |
| Placement.MaxY | src/AtomicTreeLayout.ts:179 | `Math.max` over the listed y: an upper bound attained by a listed node |
| Placement.MinY | src/AtomicTreeLayout.ts:179 | `Math.min` over the listed y: a lower bound attained by a listed node |
| Placement.VerticalSpan | src/AtomicTreeLayout.ts:177-180 | max y minus min y: not negative and at least every pairwise y difference |
| Placement.OffsetKeepsSpan | src/AtomicTreeLayout.ts:177-201 | The move raises the highest and lowest y by dy and keeps the vertical span |
| AtomicLayout.RelaxChildren | src/AtomicTreeLayout.ts:69-75 | Every child of the dequeued node gets depth at least one above it; a raised child is pushed; the loop invariant is kept |
| AtomicLayout.DepthStep | src/AtomicTreeLayout.ts:65-76 | One dequeue-and-relax step keeps the depth-loop invariant |
| AtomicLayout.EnqueueNew | src/AtomicTreeLayout.ts:101-105 | Appends exactly the children not already in the queue, in order |
| AtomicLayout.BucketByDepth | src/AtomicTreeLayout.ts:91-106 | The grouping loop ends with the buckets of the full queue order |
| AtomicLayout.DepthsCovered | src/AtomicTreeLayout.ts:87-111 | Under the depth specification, every node the grouping loop dequeues has a depth |
| AtomicLayout.DepthLayersByDepth | src/AtomicTreeLayout.ts:87-111 | The layers are max depth + 1 non-empty lists; layer k holds the depth-k nodes in queue order; every reached node is in its own layer |
| AtomicLayout.DepthLayersDisjoint | src/AtomicTreeLayout.ts:87-111 | No node is in two of the as-written layers |
| AtomicLayout.ReachedColumn | src/AtomicTreeLayout.ts:117-131 | Every reached node ends in the column of its depth, also when the as-written grouping repeats it |
| AtomicLayout.EnqueueUnseen | src/AtomicTreeLayout.ts:101-105 | With a visited set: appends exactly the children never queued before, in order, and adds them to the set |
| AtomicLayout.UnseenStep | src/AtomicTreeLayout.ts:101-105 | One child of the visited-set forEach is pushed iff never queued, and the rest of the children push as before |
| AtomicLayout.BucketByDepthOnce | src/AtomicTreeLayout.ts:91-106 | The visited-set grouping loop ends with the buckets of the visited-set queue order |
| AtomicLayout.OnceBucketStep | src/AtomicTreeLayout.ts:91-98 | One dequeue of the visited-set queue appends the node to its bucket and keeps the rest of the order |
| AtomicLayout.OnceLoopStep | src/AtomicTreeLayout.ts:91-106 | One iteration of the visited-set loop keeps its invariant and lowers the termination measure |
| AtomicLayout.SeenAfterStep | src/AtomicTreeLayout.ts:101-105 | After a dequeue the visited set is still the dequeued nodes plus the queue |
| AtomicLayout.OnceLayersWhenDistinct | src/AtomicTreeLayout.ts:87-111 | When the as-written queue repeats no node, both groupings return the same layers |
| AtomicLayout.OnceInOwnLayer | src/AtomicTreeLayout.ts:87-111 | With the visited-set grouping a reached node is in the layer of its depth, and no node is in two layers |
| AtomicLayout.UnreachedUnmoved | src/AtomicTreeLayout.ts:117-131 | A node not reachable from the start keeps its x and y |
| AtomicLayout.InOwnLayer | src/AtomicTreeLayout.ts:98 | A reached node is in the layer of its depth |
| AtomicLayout.NotInLayers | src/AtomicTreeLayout.ts:87-106 | An unreachable node is in no layer |
| AtomicLayout.AtomicTreeLayout.constructor | src/AtomicTreeLayout.ts:32-37 | Stores the nodes, start, end and config; not laid out; depth map unassigned |
| AtomicLayout.AtomicTreeLayout.CalculateNodeDepths | src/AtomicTreeLayout.ts:61-79 | Returns the longest-path depths: exactly the reachable nodes have a depth, and depth(v) is the length of a longest path from the start |
| AtomicLayout.AtomicTreeLayout.GroupNodesByDepth | src/AtomicTreeLayout.ts:87-111 | For the depth map layout() passes: returns the as-written depth layers in ascending depth order, each in queue order |
| AtomicLayout.AtomicTreeLayout.GroupNodesByDepthOnce | src/AtomicTreeLayout.ts:87-111 | The same grouping with a visited set: returns the visited-set layers |
| AtomicLayout.AtomicTreeLayout.LayoutLayers | src/AtomicTreeLayout.ts:117-131 | The new positions are PlaceLayers over the layers with the module-level spacings (100, 60) |
| AtomicLayout.AtomicTreeLayout.LayoutAsWritten | src/AtomicTreeLayout.ts:42-54 | layout() as written: the depth map is assigned, the positions are placed over the as-written layers, and `isLaidOut` is unchanged |
| AtomicLayout.AtomicTreeLayout.Layout | src/AtomicTreeLayout.ts:42-54 | The corrected layout: the positions are placed over the visited-set layers, and `isLaidOut` is set at the end |
| AtomicLayout.AtomicTreeLayout.ValidateLayoutState | src/AtomicTreeLayout.ts:167-171 | Passes iff laid out; otherwise fails with "layout not performed" |
| AtomicLayout.AtomicTreeLayout.ApplyPositionOffset | src/AtomicTreeLayout.ts:196-201 | The new positions are the listed nodes moved by (dx, dy) |
| AtomicLayout.AtomicTreeLayout.RepositionTree | src/AtomicTreeLayout.ts:139-144 | Fails without moving anything unless laid out; otherwise moves by the start node's (not the argument's) distance to (newX, newY), so over a duplicate-free list holding it the start lands there |
| AtomicLayout.AtomicTreeLayout.GetHeight | src/AtomicTreeLayout.ts:150-153 | Fails iff not laid out; otherwise the non-negative vertical span of the nodes |
| AtomicLayout.AtomicTreeLayout.GetWidth | src/AtomicTreeLayout.ts:159-162 | Fails with "layout not performed" iff not laid out; an unassigned depth map throws; otherwise max depth times this.config's horizontal spacing |
| AtomicLayout.AtomicTreeLayout.WidthOfDeepest | src/AtomicTreeLayout.ts:186-189 | The width is the depth of a deepest reached node times the spacing |
| AtomicLayout.RepositionAfterLayoutAsWritten | src/AtomicTreeLayout.ts:24-54 | With layout() as written, the move after it fails: the flag is never set |
| AtomicLayout.RepositionAfterLayout | src/AtomicTreeLayout.ts:139-144 | With the flag set by layout(), the move passes and puts the start node at (newX, newY) |
| LayoutBranches.Dfs | src/Layout.ts:225-234 | Appends the walk below a node to the accumulator |
| LayoutBranches.GetNodesBetween | src/Layout.ts:212-216 | Returns the walk between the two nodes |
| LayoutBranches.BetweenHead | src/Layout.ts:226-229 | The walk starts with its start node, and a start with the end's id is the whole walk |
| LayoutBranches.DiamondWalkRepeatsJoin | src/Layout.ts:225-234 | On a diamond the walk pushes the join node twice: there is no visited set |
| LayoutBranches.BetweenReachable | src/Layout.ts:225-234 | Every pushed node is reachable from the start |
| LayoutBranches.BetweenClosed | src/Layout.ts:225-234 | Every child of a pushed node other than the end is pushed too |
| LayoutBranches.BetweenMinimal | src/Layout.ts:225-234 | Every pushed node is the start or a child of a pushed node other than the end |
| LayoutBranches.BranchNodes | src/Layout.ts:202-204 | The branch nodes of a list: empty iff no node of the list is a branch |
| Types.JoinRef | src/XNode.ts:17 | A join node that is set is a reference to it; an unset one is `null` |
| LayoutBranches.IsAtomicTree | src/Layout.ts:194-210 | Throws iff the start is not a node, the end is `null` or `undefined` (loose `==`), or both ids match; a `null` start with a real end reads `.id` of null; otherwise the walk if it holds no branch node and [] if it does; [] whenever the start is a branch |
| LayoutBranches.BranchStartIsNotAtomic | src/Layout.ts:200-207 | A walk from a branch node holds a branch node |
| LayoutBranches.GetAtomicTree | src/Layout.ts:171-186 | Throws iff some branch node's join is missing or shares its id; otherwise the map is empty |
| LayoutBranches.Max | src/Layout.ts:145-161 | `Math.max` of two reals: the larger argument |
| LayoutBranches.GetBranchMaximumHeight | src/Layout.ts:140-162 | An `undefined` node gives 0; a result is ≥ 0, and ≥ the branch node's height when both are nodes; a non-zero result is the height of a reachable node; it throws a TypeError on a `null` reference and otherwise only on a chain node without exactly one child |
| LayoutBranches.BranchHeightCases | src/Layout.ts:141-156 | Matching ids give max(height, 0); a chain node with no child or with several throws the corresponding error; a `null` node or join throws a TypeError |
| LayoutBranches.ChainFailsAtNullJoin | src/Layout.ts:159 | The recursion passes the join's own joinNode, so when that is the default `null` a one-child chain node throws a TypeError |
| LayoutBranches.LayoutMinimumBranchTree | src/Layout.ts:100-132 | Throws iff the start has no child or some child's height throws (positions untouched then); with children and an end node whose joinNode is `null`, it throws a TypeError; otherwise lays the unit out with layout() as written and returns the 100×100 record of the given nodes, start and end |
| LayoutExample.TestDepths | src/AtomicTreeLayout.ts:213-223 | The example's depths are a:0, b:1, d:1, c:2, e:3 |
| LayoutExample.TestOrder | src/AtomicTreeLayout.ts:213-223 | The grouping queue hands out a, b, d, c, e |
| LayoutExample.TestDepthLayers | src/AtomicTreeLayout.ts:213-226 | The example's layers are [a], [b, d], [c], [e] |
| LayoutExample.TestSorted | src/AtomicTreeLayout.ts:215-217 | Sorting by weight puts d before b |
| LayoutExample.TestPlacement | src/AtomicTreeLayout.ts:226-232 | layout() places a(0,0), d(100,-30), b(100,30), c(200,0), e(300,0) |
| LayoutExample.TestShift | src/AtomicTreeLayout.ts:241 | Moving by (500, 500) gives a(500,500), b(600,530), c(700,500), d(600,470), e(800,500) |
| LayoutExample.TestOnceLayers | src/AtomicTreeLayout.ts:213-226 | The example's queue repeats no node, so the visited-set grouping gives the same layers |
| LayoutExample.TestOnceLayoutResult | src/AtomicTreeLayout.ts:224-232 | The corrected layout() places the example's nodes at the coordinates above |
| LayoutExample.TestLayout | src/AtomicTreeLayout.ts:224-226 | Constructing the example and running the corrected layout() yields the coordinates above, with `isLaidOut` set |
| LayoutExample.TestRunAsWritten | src/AtomicTreeLayout.ts:212-247 | The example as written: layout() yields the coordinates above, then repositionTree(a, 500, 500) fails with "layout not performed" and moves nothing |
| LayoutExample.TestRun | src/AtomicTreeLayout.ts:212-247 | The example with the corrected layout(): repositionTree(a, 500, 500) passes and yields the moved coordinates |
| BfsOnce.OnceCost | src/AtomicTreeLayout.ts:91-106 | A step of the visited-set queue keeps every entry in range and lowers the termination measure |
| BfsOnce.PushedDistinct | src/AtomicTreeLayout.ts:101-105 | Pushing the children not yet queued keeps the queued list duplicate-free |
| BfsOnce.PushedIgnores | src/AtomicTreeLayout.ts:101-105 | Queued nodes that are no child do not change what is pushed |
| BfsOnce.OnceKeeps | src/AtomicTreeLayout.ts:91-106 | Every dequeued or waiting node ends up in the visited-set order |
| BfsOnce.OnceDistinct | src/AtomicTreeLayout.ts:91-106 | The visited-set queue dequeues no node twice |
| BfsOnce.OnceSound | src/AtomicTreeLayout.ts:91-106 | Every node it dequeues is reachable from the start |
| BfsOnce.OnceClosed | src/AtomicTreeLayout.ts:91-106 | At the end every child of a dequeued node was dequeued |
| BfsOnce.PathStaysIn | src/AtomicTreeLayout.ts:91-106 | A path from a dequeued node stays among the dequeued nodes |
| BfsOnce.OnceFromStart | src/AtomicTreeLayout.ts:89-106 | From the start, the visited-set queue dequeues exactly the reachable nodes, each once |
| BfsOnce.OnceSameNodes | src/AtomicTreeLayout.ts:87-106 | It dequeues exactly the nodes that have a depth |
| BfsOnce.OnceLayers | src/AtomicTreeLayout.ts:87-111 | The visited-set layers stay within the node list |
| BfsOnce.OnceWithin | src/AtomicTreeLayout.ts:87-111 | Every dequeued node has a depth, and every layer entry is a node |
| BfsOnce.FilterKeepsDistinct | src/AtomicTreeLayout.ts:93-98 | The depth-k part of a duplicate-free order is duplicate-free |
| BfsOnce.OnceLayersByDepth | src/AtomicTreeLayout.ts:87-111 | max depth + 1 non-empty layers; a node is in layer k iff it has depth k; no node is twice in a layer or in two layers |
| BfsOnce.OnceMatches | src/AtomicTreeLayout.ts:91-106 | When the as-written order repeats nothing, the visited-set order equals it |
| BfsOnce.OnceMatchesWhenDistinct | src/AtomicTreeLayout.ts:91-106 | From the start, the two queues hand out the same order iff the as-written one repeats no node |
| RepeatExample.RepeatDepths | src/AtomicTreeLayout.ts:61-79 | In the unit a→b, a→c, b→d, c→e, e→d the depths are a 0, b 1, c 1, e 2, d 3 |
| RepeatExample.RepeatOrder | src/AtomicTreeLayout.ts:91-106 | The as-written queue hands out a, b, c, d, e, d |
| RepeatExample.RepeatOnceOrder | src/AtomicTreeLayout.ts:91-106 | The visited-set queue hands out a, b, c, d, e |
| RepeatExample.RepeatedInLayer | src/AtomicTreeLayout.ts:87-111 | As written, the depth-3 layer of the unit is [d, d], so the layers are not duplicate-free |
| RepeatExample.ListedOnce | src/AtomicTreeLayout.ts:87-111 | With the visited set, the depth-3 layer of the unit is [d] and the layers are duplicate-free |

## Left out

- `layoutGraph` (src/Layout.ts:33-77) is not modelled as one operation. It only calls
  fillChildNodes, getAtomicTree and assignLayers in turn, builds maps nobody reads,
  drops the layers and returns its input. Its forEach over the atomic trees
  (src/Layout.ts:65-68) would call layoutMinimumBranchTree for each, but it never runs,
  because the map getAtomicTree returns is always empty (LayoutBranches.GetAtomicTree).
  Its parts are modelled.
- The layout direction (`LayoutDirection`) is not used by any code, so nothing is modelled for it.
- Composite-node folding, re-centring of branch and join nodes, and summed sizes of
  `BigXNode` are not implemented by the code, so they are not modelled.
- JavaScript numbers are modelled as `real`: no NaN, no ±Infinity, no rounding.
- AtomicLayout.AtomicTreeLayout.GetHeight: requires a non-empty node list, because
  `Math.max()` of nothing is -Infinity, which `real` cannot express.
- Console output of the example is not modelled.
- Cycles: on a cycle the loops never end, and the recursive dfs and getBranchMaximumHeight
  overflow the stack (RangeError); the model assumes acyclic input through a rank witness.
- Throwing part-way: fillChildNodes can throw after it has already pushed children into
  earlier nodes, and into the current one (src/Layout.ts:244-259). The model returns only
  the error and does not say what state those earlier updates left. getAtomicTree and
  layoutMinimumBranchTree change no node before they throw. getAtomicTree only writes its
  local map. layoutMinimumBranchTree throws before it builds and lays out its
  AtomicTreeLayout, and its model ensures the positions are unchanged on an error.
- LayoutLookup.FillChildNodes: modelled on values (it returns the updated node list)
  rather than pushing into shared node objects, so aliasing between node objects is not captured.
- Node references are indices, so a reference can be `undefined` or `null` but never
  a dangling or foreign object. `{} as XNode` in the example's join fields is a node
  with no fields; nothing in the modelled example reads it.
- The fillChildNodes branch test: as written the comma expression `node.childNodes,length === 0` compares a free
  identifier `length` with 0. The model uses the evident `node.childNodes.length === 0`.
- The filter callbacks of getAtomicTree, isAtomicTree and getEdgeBy…NodeId also return nothing
  as written; the model applies their evident predicates (only getNodeById has an as-written twin).
- layoutMinimumBranchTree lays its unit out with layout() as the code has it, so over
  the as-written grouping; the layout object is dropped, so its flag is not observable.
- The child-height sum in layoutMinimumBranchTree is overwritten at every child and
  never read, so the model leaves out its value.
- Placement.LayerGeometry: requires layer d to be duplicate-free. When the as-written
  grouping repeats a node, the node keeps the y of its last sorted index
  (Placement.PlacedAtLast), so the index-by-index symmetry does not describe it.
- layoutLayers reads the module-level `config` (100, 60), not `this.config`. The
  model keeps the two apart: AtomicLayout.AtomicTreeLayout.LayoutLayers uses the
  module constants, and GetWidth uses the instance's.
- The example's comments expect coordinates the code does not produce (see above).
  The model proves what the code produces.
- src/XNode.ts, src/BigXNode.ts and src/Type.ts are records with accessors; they become the datatypes of `Types`.

## Findings

| source | as written | input that shows it | evidently intended | confidence | as-written member | corrected member |
|---|---|---|---|---|---|---|
| src/Layout.ts:264-275 | the filter callback `node => { node.id === nodeId }` has no `return`, so filter keeps nothing and getNodeById throws "not found" for every non-empty list | nodes = [a], nodeId = "a" | return the first node whose id equals nodeId | not executed | LayoutLookup.AsWrittenLookupAlwaysFails | LayoutLookup.GetNodeById |
| src/AtomicTreeLayout.ts:24-54 | `isLaidOut` starts false and layout() never sets it, so repositionTree, getHeight and getWidth throw even after layout() | the example: layout() then repositionTree(a, 500, 500) | layout() sets `isLaidOut = true` after writing the coordinates | not executed | AtomicLayout.RepositionAfterLayoutAsWritten | AtomicLayout.RepositionAfterLayout |
| src/AtomicTreeLayout.ts:101-105 | a child is refused only while it is still waiting in the queue, so a node reached again after it was dequeued is queued again and appears twice in its layer | a→b, a→c, b→d, c→e, e→d: the order is a, b, c, d, e, d and the depth-3 layer is [d, d] | queue each node once, with a set of the nodes queued so far | not executed | RepeatExample.RepeatedInLayer | BfsOnce.OnceLayersByDepth |
