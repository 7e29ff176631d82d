/**
 * A unit whose join is reached by branches of unequal length: a -> b, a -> c,
 * b -> d, c -> e, e -> d (node i of [a, b, c, d, e] is index i). The longest path
 * to d is a, c, e, d, so d has depth 3. The queue of groupNodesByDepth, which only
 * refuses a child still waiting in it, dequeues d after b and again after e, and
 * d appears twice in its layer; the visited-set grouping lists it once.
 */
module RepeatExample {
  import opened Types
  import opened Seqs
  import opened Graphs
  import opened Depths
  import opened Bfs
  import opened Placement
  import opened AtomicLayout
  import opened BfsOnce

  function RepeatTree(): seq<XNode> {
    [ XNode("a", 0.0, 100.0, 100.0, [1, 2], false, "", None),
      XNode("b", 1.0, 100.0, 100.0, [3], false, "", None),
      XNode("c", 2.0, 100.0, 100.0, [4], false, "", None),
      XNode("d", 3.0, 100.0, 100.0, [], false, "", None),
      XNode("e", 4.0, 100.0, 100.0, [3], false, "", None) ]
  }

  /** The links of the unit, which are all the grouping reads of it. */
  ghost predicate RepeatShape(g: seq<XNode>) {
    && |g| == 5
    && g[0].childNodes == [1, 2] && g[1].childNodes == [3] && g[2].childNodes == [4]
    && g[3].childNodes == [] && g[4].childNodes == [3]
    && g[0].joinNode.None? && g[1].joinNode.None? && g[2].joinNode.None? && g[3].joinNode.None? && g[4].joinNode.None?
  }

  lemma RepeatChildren()
    ensures RepeatShape(RepeatTree())
  {
  }

  /** A rank witnessing that the unit has no cycle: a 0, b 1, c 1, d 3, e 2. */
  function RepeatRank(): seq<nat> {
    [0, 1, 1, 3, 2]
  }

  /** The longest-path depths from a: a 0, b 1, c 1, e 2, d 3. */
  function RepeatDepth(): map<nat, nat> {
    map[0 := 0, 1 := 1, 2 := 1, 4 := 2, 3 := 3]
  }

  lemma RepeatRanked(g: seq<XNode>, rank: seq<nat>)
    requires RepeatShape(g) && rank == RepeatRank()
    ensures Ranked(g, rank)
  {
    forall v, k | 0 <= v < |g| && 0 <= k < |g[v].childNodes|
      ensures g[v].childNodes[k] < |g| && rank[v] < rank[g[v].childNodes[k]]
    {
      assert v == 0 || v == 1 || v == 2 || v == 4;
    }
    assert forall v :: 0 <= v < |g| ==> g[v].joinNode.None? && rank[v] < |g|;
  }

  lemma RepeatKeys(v: nat)
    requires v in RepeatDepth()
    ensures v < 5 && RepeatDepth()[v] == [0, 1, 1, 3, 2][v]
  {
  }

  lemma RepeatReachable(g: seq<XNode>)
    requires RepeatShape(g)
    ensures forall v :: v in RepeatDepth() ==> v < |g| && Reachable(g, 0, v)
  {
    assert PathFromTo(g, [0], 0, 0);
    assert PathFromTo(g, [0, 1], 0, 1);
    assert PathFromTo(g, [0, 2], 0, 2);
    assert PathFromTo(g, [0, 1, 3], 0, 3);
    assert PathFromTo(g, [0, 2, 4], 0, 4);
  }

  lemma RepeatClosed(g: seq<XNode>)
    requires RepeatShape(g)
    ensures AllClosed(g, RepeatDepth())
  {
    var d := RepeatDepth();
    forall u | u in d ensures u < |g| && Closed(g, d, u) {
      RepeatKeys(u);
      forall c | c in g[u].childNodes ensures c in d && d[c] >= d[u] + 1 {
        assert c == 1 || c == 2 || c == 3 || c == 4;
        assert c in d;
        RepeatKeys(c);
      }
    }
  }

  lemma RepeatJustified(g: seq<XNode>)
    requires RepeatShape(g)
    ensures AllJustified(g, 0, RepeatDepth())
  {
    var d := RepeatDepth();
    forall v | v in d ensures Justified(g, 0, d, v) {
      RepeatKeys(v);
      var parent := [0, 0, 0, 4, 2][v];
      assert v != 0 ==> v in g[parent].childNodes;
      RepeatKeys(parent);
    }
  }

  /** RepeatDepth() is the depth map calculateNodeDepths returns for the unit. */
  lemma RepeatDepths(g: seq<XNode>)
    requires RepeatShape(g)
    ensures DepthsSpec(g, 0, RepeatDepth())
  {
    RepeatReachable(g);
    RepeatClosed(g);
    RepeatJustified(g);
    FinalDepths(g, 0, RepeatDepth());
  }

  /** The only depth map calculateNodeDepths can return for the unit, key by key. */
  lemma RepeatDepthValues(g: seq<XNode>, depth: map<nat, nat>)
    requires RepeatShape(g) && DepthsSpec(g, 0, depth)
    ensures 0 in depth && 1 in depth && 2 in depth && 3 in depth && 4 in depth
    ensures depth[0] == 0 && depth[1] == 1 && depth[2] == 1 && depth[4] == 2 && depth[3] == 3
  {
    RepeatDepths(g);
    DepthsUnique(g, 0, depth, RepeatDepth());
  }

  /** The children each dequeue of the as-written queue pushes. */
  lemma RepeatPushes()
    ensures Pushed([], [1, 2]) == [1, 2] && Pushed([2], [3]) == [3] && Pushed([3], [4]) == [4]
    ensures Pushed([4], []) == [] && Pushed([], [3]) == [3] && Pushed([], []) == []
    ensures [2] + [3] == [2, 3] && [3] + [4] == [3, 4] && [4] + [] == [4]
    ensures [0] + [1, 2, 3, 4, 3] == [0, 1, 2, 3, 4, 3] && [1] + [2, 3, 4, 3] == [1, 2, 3, 4, 3]
    ensures [2] + [3, 4, 3] == [2, 3, 4, 3] && [3] + [4, 3] == [3, 4, 3] && [4] + [3] == [4, 3] && [3] + [] == [3]
  {
  }

  lemma RepeatDequeue(g: seq<XNode>, rank: seq<nat>, q: seq<nat>, next: seq<nat>)
    requires RepeatShape(g) && rank == RepeatRank() && |q| > 0 && AllIn(g, q)
    requires q[1..] + Pushed(q[1..], g[q[0]].childNodes) == next
    ensures Ranked(g, rank) && AllIn(g, next) && BfsOrder(g, rank, q) == [q[0]] + BfsOrder(g, rank, next)
  {
    RepeatRanked(g, rank);
    BfsStep(g, rank, q);
  }

  /** The queue [e] hands out e and then d again, since d has left the queue by then. */
  lemma RepeatOrderTail(g: seq<XNode>, rank: seq<nat>)
    requires RepeatShape(g) && rank == RepeatRank()
    ensures Ranked(g, rank) && BfsOrder(g, rank, [3, 4]) == [3, 4, 3]
  {
    RepeatPushes();
    RepeatDequeue(g, rank, [3], []);
    assert BfsOrder(g, rank, []) == [];
    RepeatDequeue(g, rank, [4], [3]);
    RepeatDequeue(g, rank, [3, 4], [4]);
  }

  /** The as-written queue hands out a, b, c, d, e, d. */
  lemma RepeatOrder(g: seq<XNode>, rank: seq<nat>)
    requires RepeatShape(g) && rank == RepeatRank()
    ensures Ranked(g, rank) && BfsOrder(g, rank, [0]) == [0, 1, 2, 3, 4, 3]
  {
    RepeatPushes();
    RepeatOrderTail(g, rank);
    RepeatDequeue(g, rank, [2, 3], [3, 4]);
    RepeatDequeue(g, rank, [1, 2], [2, 3]);
    RepeatDequeue(g, rank, [0], [1, 2]);
  }

  /** The visited-set queue refuses d after e, since d was queued before. */
  lemma RepeatOncePushes()
    ensures Pushed([0], [1, 2]) == [1, 2] && Pushed([0, 1, 2], [3]) == [3] && Pushed([0, 1, 2, 3], [4]) == [4]
    ensures Pushed([0, 1, 2, 3, 4], []) == [] && Pushed([0, 1, 2, 3, 4], [3]) == []
    ensures [] + [0] == [0] && [0] + [1, 2] == [0, 1, 2] && [0, 1] + [2, 3] == [0, 1, 2, 3]
    ensures [0, 1, 2] + [3, 4] == [0, 1, 2, 3, 4] && [0, 1, 2, 3] + [4] == [0, 1, 2, 3, 4]
    ensures [0] + [1] == [0, 1] && [0, 1] + [2] == [0, 1, 2] && [0, 1, 2] + [3] == [0, 1, 2, 3]
    ensures [2] + [3] == [2, 3] && [3] + [4] == [3, 4] && [4] + [] == [4]
  {
  }

  lemma RepeatOnceDequeue(g: seq<XNode>, rank: seq<nat>, done: seq<nat>, q: seq<nat>, next: seq<nat>)
    requires RepeatShape(g) && rank == RepeatRank() && |q| > 0 && AllIn(g, q)
    requires q[1..] + Pushed(done + q, g[q[0]].childNodes) == next
    ensures Ranked(g, rank) && AllIn(g, next)
    ensures OnceOrder(g, rank, done, q) == OnceOrder(g, rank, done + [q[0]], next)
  {
    RepeatRanked(g, rank);
    OnceCost(g, rank, done, q);
  }

  /** After a, b and c, the visited-set queue [d, e] hands out d and e and stops. */
  lemma RepeatOnceTail(g: seq<XNode>, rank: seq<nat>)
    requires RepeatShape(g) && rank == RepeatRank()
    ensures Ranked(g, rank) && OnceOrder(g, rank, [0, 1, 2], [3, 4]) == [0, 1, 2, 3, 4]
  {
    RepeatOncePushes();
    RepeatOnceDequeue(g, rank, [0, 1, 2, 3], [4], []);
    assert OnceOrder(g, rank, [0, 1, 2, 3, 4], []) == [0, 1, 2, 3, 4];
    RepeatOnceDequeue(g, rank, [0, 1, 2], [3, 4], [4]);
  }

  /** The visited-set queue hands out a, b, c, d, e: d only once. */
  lemma RepeatOnceOrder(g: seq<XNode>, rank: seq<nat>)
    requires RepeatShape(g) && rank == RepeatRank()
    ensures Ranked(g, rank) && OnceOrder(g, rank, [], [0]) == [0, 1, 2, 3, 4]
  {
    RepeatOncePushes();
    RepeatOnceTail(g, rank);
    RepeatOnceDequeue(g, rank, [0, 1], [2, 3], [3, 4]);
    RepeatOnceDequeue(g, rank, [0], [1, 2], [2, 3]);
    RepeatOnceDequeue(g, rank, [], [0], [1, 2]);
  }

  /** The depth-3 nodes of the dequeue order a, b, c, d, e, d: d, twice. */
  lemma RepeatFilter(order: seq<nat>, d: map<nat, nat>)
    requires order == [0, 1, 2, 3, 4, 3]
    requires 0 in d && 1 in d && 2 in d && 3 in d && 4 in d
    requires d[0] == 0 && d[1] == 1 && d[2] == 1 && d[4] == 2 && d[3] == 3
    ensures FilterDepth(order, d, 3) == [3, 3]
  {
    var o3: seq<nat> := [0, 1, 2];
    var o4: seq<nat> := [0, 1, 2, 3];
    var o5: seq<nat> := [0, 1, 2, 3, 4];
    assert order[..5] == o5 && o5[..4] == o4 && o4[..3] == o3;
    FilterNone(o3, d, 3);
    assert FilterDepth(o4, d, 3) == [3];
    assert FilterDepth(o5, d, 3) == [3];
  }

  /** The depth-3 nodes of the visited-set order a, b, c, d, e: d alone. */
  lemma RepeatOnceFilter(order: seq<nat>, d: map<nat, nat>)
    requires order == [0, 1, 2, 3, 4]
    requires 0 in d && 1 in d && 2 in d && 3 in d && 4 in d
    requires d[0] == 0 && d[1] == 1 && d[2] == 1 && d[4] == 2 && d[3] == 3
    ensures FilterDepth(order, d, 3) == [3]
  {
    var o3: seq<nat> := [0, 1, 2];
    var o4: seq<nat> := [0, 1, 2, 3];
    assert order[..4] == o4 && o4[..3] == o3;
    FilterNone(o3, d, 3);
    assert FilterDepth(o4, d, 3) == [3];
  }

  /** The as-written layer of depth 3 is the depth-3 part of a, b, c, d, e, d. */
  lemma RepeatLayerThree(g: seq<XNode>, rank: seq<nat>, depth: map<nat, nat>)
    requires RepeatShape(g) && rank == RepeatRank() && DepthsSpec(g, 0, depth) && 3 in depth && depth[3] == 3
    ensures Ranked(g, rank) && Covered(g, rank, 0, depth)
    ensures var layers := DepthLayers(g, rank, 0, depth);
            3 < |layers| && layers[3] == FilterDepth(BfsOrder(g, rank, [0]), depth, 3)
  {
    RepeatRanked(g, rank);
    DepthLayersByDepth(g, rank, 0, depth);
  }

  /**
   * groupNodesByDepth as written puts d twice into its layer for this unit, so its
   * layers are not duplicate-free. `depth` is any map calculateNodeDepths may
   * return, which here is RepeatDepth() alone.
   */
  lemma RepeatedInLayer(g: seq<XNode>, rank: seq<nat>, depth: map<nat, nat>)
    requires RepeatShape(g) && rank == RepeatRank() && DepthsSpec(g, 0, depth)
    ensures Ranked(g, rank) && Covered(g, rank, 0, depth)
    ensures var layers := DepthLayers(g, rank, 0, depth);
            3 < |layers| && layers[3] == [3, 3] && !DistinctLayers(layers)
  {
    RepeatDepthValues(g, depth);
    RepeatLayerThree(g, rank, depth);
    RepeatOrder(g, rank);
    RepeatFilter(BfsOrder(g, rank, [0]), depth);
    var layers := DepthLayers(g, rank, 0, depth);
    assert layers[3][0] == layers[3][1];
  }

  /** The visited-set grouping lists d once in its layer. */
  lemma ListedOnce(g: seq<XNode>, rank: seq<nat>, depth: map<nat, nat>)
    requires RepeatShape(g) && rank == RepeatRank() && DepthsSpec(g, 0, depth)
    ensures Ranked(g, rank)
    ensures var layers := OnceLayers(g, rank, 0, depth);
            3 < |layers| && layers[3] == [3] && DistinctLayers(layers)
  {
    RepeatOnceOrder(g, rank);
    RepeatDepthValues(g, depth);
    OnceLayersByDepth(g, rank, 0, depth);
    OnceSameNodes(g, rank, 0, depth);
    var layers := LayersByDepth(g, rank, 0, depth, OnceOrder(g, rank, [], [0]));
    RepeatOnceFilter(OnceOrder(g, rank, [], [0]), depth);
  }
}
