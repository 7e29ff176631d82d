/**
 * The test case at the end of src/AtomicTreeLayout.ts: five nodes a, b, c, d, e
 * (weights 0, 1, 2, 3, 4) with a -> b, a -> d, b -> c, c -> e, d -> e, laid out
 * from a with spacing (100, 60) and then moved so that a lands on (500, 500).
 * Node i of the list [a, b, c, d, e] is index i.
 */
module LayoutExample {
  import opened Types
  import opened Seqs
  import opened Graphs
  import opened Depths
  import opened Bfs
  import opened Placement
  import opened AtomicLayout
  import opened BfsOnce

  function TestTree(): seq<XNode> {
    [ XNode("a", 0.0, 100.0, 100.0, [1, 3], false, "", None),
      XNode("b", 1.0, 100.0, 100.0, [2], false, "", None),
      XNode("c", 2.0, 100.0, 100.0, [4], false, "", None),
      XNode("d", 3.0, 100.0, 100.0, [4], false, "", None),
      XNode("e", 4.0, 100.0, 100.0, [], false, "", None) ]
  }

  /** A rank witnessing that the test tree has no cycle: a 0, b 1, c 2, d 1, e 3. */
  function TestRank(): seq<nat> {
    [0, 1, 2, 1, 3]
  }

  /** The longest-path depths from a: a 0, b 1, d 1, c 2, e 3. */
  function TestDepth(): map<nat, nat> {
    map[0 := 0, 1 := 1, 3 := 1, 2 := 2, 4 := 3]
  }

  lemma TestRanked(g: seq<XNode>, rank: seq<nat>)
    requires TestShape(g) && rank == TestRank()
    ensures Ranked(g, rank)
  {
    forall v, k | 0 <= v < |g| && 0 <= k < |g[v].childNodes|
      ensures g[v].childNodes[k] < |g| && rank[v] < rank[g[v].childNodes[k]]
    {
      assert v == 0 || v == 1 || v == 2 || v == 3;
    }
    assert forall v :: 0 <= v < |g| ==> g[v].joinNode.None? && rank[v] < |g|;
  }

  /** The links and weights of the test tree, which are all the layout reads of it. */
  ghost predicate TestShape(g: seq<XNode>) {
    && |g| == 5
    && g[0].childNodes == [1, 3] && g[1].childNodes == [2] && g[2].childNodes == [4]
    && g[3].childNodes == [4] && g[4].childNodes == []
    && g[0].weight == 0.0 && g[1].weight == 1.0 && g[2].weight == 2.0 && g[3].weight == 3.0 && g[4].weight == 4.0
    && g[0].joinNode.None? && g[1].joinNode.None? && g[2].joinNode.None? && g[3].joinNode.None? && g[4].joinNode.None?
  }

  lemma TestChildren()
    ensures TestShape(TestTree())
  {
  }

  lemma TestReachable(g: seq<XNode>)
    requires TestShape(g)
    ensures forall v :: v in TestDepth() ==> v < |g| && Reachable(g, 0, v)
  {
    assert PathFromTo(g, [0], 0, 0);
    assert PathFromTo(g, [0, 1], 0, 1);
    assert PathFromTo(g, [0, 3], 0, 3);
    assert PathFromTo(g, [0, 1, 2], 0, 2);
    assert PathFromTo(g, [0, 3, 4], 0, 4);
  }

  lemma TestKeys(v: nat)
    requires v in TestDepth()
    ensures v < 5 && TestDepth()[v] == [0, 1, 2, 1, 3][v]
  {
  }

  lemma TestClosed(g: seq<XNode>)
    requires TestShape(g)
    ensures AllClosed(g, TestDepth())
  {
    var d := TestDepth();
    forall u | u in d ensures u < |g| && Closed(g, d, u) {
      TestKeys(u);
      forall c | c in g[u].childNodes ensures c in d && d[c] >= d[u] + 1 {
        assert c == 1 || c == 2 || c == 3 || c == 4;
        assert c in d;
        TestKeys(c);
      }
    }
  }

  lemma TestJustified(g: seq<XNode>)
    requires TestShape(g)
    ensures AllJustified(g, 0, TestDepth())
  {
    var d := TestDepth();
    forall v | v in d ensures Justified(g, 0, d, v) {
      TestKeys(v);
      var parent := [0, 0, 1, 0, 2][v];
      assert v != 0 ==> v in g[parent].childNodes;
      TestKeys(parent);
    }
  }

  /** calculateNodeDepths on the test tree can only return TestDepth(). */
  lemma TestDepths(g: seq<XNode>, depth: map<nat, nat>)
    requires TestShape(g) && DepthsSpec(g, 0, depth)
    ensures depth == TestDepth()
  {
    TestReachable(g);
    TestClosed(g);
    TestJustified(g);
    FinalDepths(g, 0, TestDepth());
    DepthsUnique(g, 0, depth, TestDepth());
  }

  /** One dequeue of groupNodesByDepth's queue `q` on the test tree leaves `next`. */
  lemma TestDequeue(g: seq<XNode>, rank: seq<nat>, q: seq<nat>, next: seq<nat>)
    requires TestShape(g) && rank == TestRank() && |q| > 0 && AllIn(g, q)
    requires q[1..] + Pushed(q[1..], g[q[0]].childNodes) == next
    ensures Ranked(g, rank) && AllIn(g, next) && BfsOrder(g, rank, q) == [q[0]] + BfsOrder(g, rank, next)
  {
    TestRanked(g, rank);
    BfsStep(g, rank, q);
  }

  /** The children each dequeue of the test run pushes. */
  lemma TestPushes()
    ensures Pushed([], [1, 3]) == [1, 3] && Pushed([3], [2]) == [2] && Pushed([2], [4]) == [4]
    ensures Pushed([4], [4]) == [] && Pushed([], []) == []
    ensures [4] + [] == [4] && [2] + [4] == [2, 4] && [3] + [2, 4] == [3, 2, 4]
    ensures [1] + [3, 2, 4] == [1, 3, 2, 4] && [0] + [1, 3, 2, 4] == [0, 1, 3, 2, 4]
  {
  }

  /** The queue [c, e] hands out c and then e; from [d, c] it is d, c, e. */
  lemma TestOrderTail(g: seq<XNode>, rank: seq<nat>)
    requires TestShape(g) && rank == TestRank()
    ensures Ranked(g, rank) && BfsOrder(g, rank, [3, 2]) == [3, 2, 4]
  {
    TestPushes();
    TestDequeue(g, rank, [4], []);
    assert BfsOrder(g, rank, []) == [];
    TestDequeue(g, rank, [2, 4], [4]);
    TestDequeue(g, rank, [3, 2], [2, 4]);
  }

  /** groupNodesByDepth's queue on the test tree hands out a, b, d, c, e. */
  lemma TestOrder(g: seq<XNode>, rank: seq<nat>)
    requires TestShape(g) && rank == TestRank()
    ensures Ranked(g, rank) && BfsOrder(g, rank, [0]) == [0, 1, 3, 2, 4]
  {
    TestPushes();
    TestOrderTail(g, rank);
    TestDequeue(g, rank, [1, 3], [3, 2]);
    TestDequeue(g, rank, [0], [1, 3]);
  }

  /** The layers of the test run: [a], [b, d], [c], [e]. */
  function TestLayers(): seq<seq<nat>> {
    [[0], [1, 3], [2], [4]]
  }

  /** The buckets groupNodesByDepth fills for the dequeue order a, b, d, c, e. */
  lemma TestGroup(d: map<nat, nat>)
    requires 0 in d && 1 in d && 2 in d && 3 in d && 4 in d
    requires d[0] == 0 && d[1] == 1 && d[3] == 1 && d[2] == 2 && d[4] == 3
    ensures forall x :: x in [0, 1, 3, 2, 4] ==> x in d
    ensures var m := Group([0, 1, 3, 2, 4], d);
            && 0 in m && 1 in m && 2 in m && 3 in m && 4 !in m
            && m[0] == [0] && m[1] == [1, 3] && m[2] == [2] && m[3] == [4]
  {
    var o0: seq<nat> := [];
    var o1: seq<nat> := [0];
    var o2: seq<nat> := [0, 1];
    var o3: seq<nat> := [0, 1, 3];
    var o4: seq<nat> := [0, 1, 3, 2];
    var o5: seq<nat> := [0, 1, 3, 2, 4];
    assert o1 == o0 + [0] && o2 == o1 + [1] && o3 == o2 + [3] && o4 == o3 + [2] && o5 == o4 + [4];
    GroupAppend(o0, d, 0);
    var m1 := Group(o1, d);
    assert 0 in m1 && m1[0] == [0] && forall k :: k in m1 ==> k == 0;
    GroupAppend(o1, d, 1);
    var m2 := Group(o2, d);
    assert 0 in m2 && m2[0] == [0] && 1 in m2 && m2[1] == [1] && forall k :: k in m2 ==> k <= 1;
    GroupAppend(o2, d, 3);
    var m3 := Group(o3, d);
    assert [1] + [3] == [1, 3];
    assert 0 in m3 && m3[0] == [0] && 1 in m3 && m3[1] == [1, 3] && forall k :: k in m3 ==> k <= 1;
    GroupAppend(o3, d, 2);
    var m4 := Group(o4, d);
    assert 0 in m4 && m4[0] == [0] && 1 in m4 && m4[1] == [1, 3] && 2 in m4 && m4[2] == [2] && forall k :: k in m4 ==> k <= 2;
    GroupAppend(o4, d, 4);
  }

  /** Listed by ascending depth, the buckets are TestLayers(). */
  lemma TestValues(d: map<nat, nat>)
    requires 0 in d && 1 in d && 2 in d && 3 in d && 4 in d
    requires d[0] == 0 && d[1] == 1 && d[3] == 1 && d[2] == 2 && d[4] == 3
    ensures forall x :: x in [0, 1, 3, 2, 4] ==> x in d
    ensures Layers([0, 1, 3, 2, 4], d, 5) == TestLayers()
  {
    TestGroup(d);
    var m := Group([0, 1, 3, 2, 4], d);
    ValuesOfRange(m, 5, 4);
    var layers := ValuesInKeyOrder(m, 5);
    assert layers[0] == [0] && layers[1] == [1, 3] && layers[2] == [2] && layers[3] == [4];
  }

  /** groupNodesByDepth on the test tree returns TestLayers(). */
  lemma TestDepthLayers(g: seq<XNode>, rank: seq<nat>, d: map<nat, nat>)
    requires TestShape(g) && rank == TestRank() && d == TestDepth()
    ensures Ranked(g, rank) && Covered(g, rank, 0, d) && DepthLayers(g, rank, 0, d) == TestLayers()
  {
    TestOrder(g, rank);
    assert d[0] == 0 && d[1] == 1 && d[3] == 1 && d[2] == 2 && d[4] == 3;
    TestValues(d);
  }

  // ---------------------------------------------------------------- coordinates

  /** Each layer of the test run, stably sorted by descending weight: d comes before b. */
  lemma TestSorted(g: seq<XNode>)
    requires TestShape(g)
    ensures Within([1, 3], |g|)
    ensures SortByWeight(g, [0]) == [0] && SortByWeight(g, [1, 3]) == [3, 1]
    ensures SortByWeight(g, [2]) == [2] && SortByWeight(g, [4]) == [4]
  {
    var s0, s1, s3: seq<nat> := [], [1, 3], [3];
    assert s1[1..] == s3 && s3[1..] == s0;
    assert SortByWeight(g, s3) == Insert(g, 3, s0) == [3];
    assert Insert(g, 1, s3) == [3] + Insert(g, 1, s0);
  }

  /** Layers are distinct when every node carries the index of its one layer. */
  lemma LayeredByIndex(layers: seq<seq<nat>>, layerOf: seq<nat>)
    requires forall k :: 0 <= k < |layers| ==> Distinct(layers[k])
    requires forall k, x :: 0 <= k < |layers| && x in layers[k] ==> x < |layerOf|
    requires forall k, x :: 0 <= k < |layers| && x in layers[k] && x < |layerOf| ==> layerOf[x] == k
    ensures LayersWithin(layers, |layerOf|) && DistinctLayers(layers)
  {
    forall k, i | 0 <= k < |layers| && 0 <= i < |layers[k]| ensures layers[k][i] < |layerOf| {
      assert layers[k][i] in layers[k];
    }
    forall a, b | 0 <= a < b < |layers| ensures Disjoint(layers[a], layers[b]) {
      forall x | x in layers[a] ensures x !in layers[b] {
        assert layerOf[x] == a;
      }
    }
  }

  lemma TestLayerOf(k: nat, x: nat)
    requires k < 4 && x in TestLayers()[k]
    ensures x < 5 && [0, 1, 2, 1, 3][x] == k
  {
    var layers := TestLayers();
    assert layers[0] == [0] && layers[1] == [1, 3] && layers[2] == [2] && layers[3] == [4];
  }

  lemma TestDistinct()
    ensures LayersWithin(TestLayers(), 5) && DistinctLayers(TestLayers())
  {
    var layers := TestLayers();
    forall k, x | 0 <= k < 4 && x in layers[k] ensures x < 5 && [0, 1, 2, 1, 3][x] == k {
      TestLayerOf(k, x);
    }
    assert layers[1] == [1, 3];
    LayeredByIndex(layers, [0, 1, 2, 1, 3]);
  }

  lemma TestNodeAt(g: seq<XNode>, ps: seq<Point>, d: nat, j: nat)
    requires TestShape(g) && |ps| == 5 && d < 4 && j < |TestLayers()[d]|
    ensures LayersWithin(TestLayers(), 5)
    ensures PlaceLayers(g, ps, TestLayers(), 100.0, 60.0, 4)[SortByWeight(g, TestLayers()[d])[j]]
            == Point(d as real * 100.0, RowY(|TestLayers()[d]|, j, 60.0))
  {
    TestDistinct();
    SortedSameNodes(g, TestLayers()[d]);
    DistinctLast(SortByWeight(g, TestLayers()[d]), j);
    PlaceLayersAt(g, ps, TestLayers(), 100.0, 60.0, 4, d, j);
  }

  /**
   * layoutLayers on the test layers, from any starting coordinates: a (0, 0),
   * d (100, -30), b (100, 30), c (200, 0), e (300, 0).
   */
  lemma TestPlacement(g: seq<XNode>, ps: seq<Point>)
    requires TestShape(g) && |ps| == 5
    ensures LayersWithin(TestLayers(), 5)
    ensures var pos := PlaceLayers(g, ps, TestLayers(), 100.0, 60.0, 4);
            && pos[0] == Point(0.0, 0.0) && pos[1] == Point(100.0, 30.0) && pos[2] == Point(200.0, 0.0)
            && pos[3] == Point(100.0, -30.0) && pos[4] == Point(300.0, 0.0)
  {
    var layers := TestLayers();
    assert layers[0] == [0] && layers[1] == [1, 3] && layers[2] == [2] && layers[3] == [4];
    TestSorted(g);
    TestNodeAt(g, ps, 0, 0);
    TestNodeAt(g, ps, 1, 0);
    TestNodeAt(g, ps, 1, 1);
    TestNodeAt(g, ps, 2, 0);
    TestNodeAt(g, ps, 3, 0);
    assert RowY(1, 0, 60.0) == 0.0 && RowY(2, 0, 60.0) == -30.0 && RowY(2, 1, 60.0) == 30.0;
  }

  /** The coordinates layout() gives the test tree, listed a, b, c, d, e. */
  function TestLaidOut(): seq<Point> {
    [Point(0.0, 0.0), Point(100.0, 30.0), Point(200.0, 0.0), Point(100.0, -30.0), Point(300.0, 0.0)]
  }

  /** The same coordinates after repositionTree(a, 500, 500). */
  function TestMoved(): seq<Point> {
    [Point(500.0, 500.0), Point(600.0, 530.0), Point(700.0, 500.0), Point(600.0, 470.0), Point(800.0, 500.0)]
  }

  lemma TestLaidOutAt(g: seq<XNode>, ps: seq<Point>)
    requires TestShape(g) && |ps| == 5
    ensures LayersWithin(TestLayers(), 5) && PlaceLayers(g, ps, TestLayers(), 100.0, 60.0, 4) == TestLaidOut()
  {
    TestPlacement(g, ps);
  }

  /** Moving every node by (500, 500) turns the laid-out coordinates into TestMoved(). */
  lemma TestShift(ps: seq<Point>, nodes: seq<nat>)
    requires ps == TestLaidOut() && nodes == [0, 1, 2, 3, 4]
    ensures Within(nodes, |ps|) && Offset(ps, nodes, 500.0, 500.0, 5) == TestMoved()
  {
    assert Distinct(nodes) && nodes[..5] == nodes;
    forall w | 0 <= w < 5 ensures Offset(ps, nodes, 500.0, 500.0, 5)[w] == Point(ps[w].x + 500.0, ps[w].y + 500.0) {
      OffsetExact(ps, nodes, 500.0, 500.0, 5, w);
      assert nodes[w] == w;
    }
  }

  /** Whatever depth map layout() records, it places the test tree at TestLaidOut(). */
  lemma TestLayoutResult(g: seq<XNode>, rank: seq<nat>, depth: map<nat, nat>, before: seq<Point>, after: seq<Point>)
    requires TestShape(g) && rank == TestRank() && |before| == 5
    requires Ranked(g, rank) && DepthsSpec(g, 0, depth) && Covered(g, rank, 0, depth)
    requires after == PlaceLayers(g, before, DepthLayers(g, rank, 0, depth),
                                  ModuleConfig.horizontalSpacing, ModuleConfig.verticalSpacing,
                                  |DepthLayers(g, rank, 0, depth)|)
    ensures after == TestLaidOut()
  {
    TestDepths(g, depth);
    TestDepthLayers(g, rank, depth);
    TestLaidOutAt(g, before);
  }

  /**
   * The queue as written repeats no node of the test tree, so the visited-set
   * grouping of the corrected layout() places it at TestLaidOut() too.
   */
  lemma TestOnceLayoutResult(g: seq<XNode>, rank: seq<nat>, depth: map<nat, nat>, before: seq<Point>, after: seq<Point>)
    requires TestShape(g) && rank == TestRank() && |before| == 5
    requires Ranked(g, rank) && DepthsSpec(g, 0, depth)
    requires after == PlaceLayers(g, before, OnceLayers(g, rank, 0, depth),
                                  ModuleConfig.horizontalSpacing, ModuleConfig.verticalSpacing,
                                  |OnceLayers(g, rank, 0, depth)|)
    ensures after == TestLaidOut()
  {
    TestOnceLayers(g, rank, depth);
    TestLayoutResult(g, rank, depth, before, after);
  }

  /** On the test tree the visited-set grouping returns the as-written layers. */
  lemma TestOnceLayers(g: seq<XNode>, rank: seq<nat>, depth: map<nat, nat>)
    requires TestShape(g) && rank == TestRank() && DepthsSpec(g, 0, depth)
    ensures Ranked(g, rank) && Covered(g, rank, 0, depth)
    ensures OnceLayers(g, rank, 0, depth) == DepthLayers(g, rank, 0, depth)
  {
    TestOrder(g, rank);
    TestOrderDistinct(BfsOrder(g, rank, [0]));
    OnceLayersWhenDistinct(g, rank, 0, depth);
  }

  lemma TestOrderDistinct(s: seq<nat>)
    requires s == [0, 1, 3, 2, 4]
    ensures Distinct(s)
  {
  }

  // ---------------------------------------------------------------- the test run

  /** new AtomicTreeLayout([a, b, c, d, e], a, e, config) followed by the corrected layout(). */
  method TestLayout(g: seq<XNode>) returns (t: AtomicTreeLayout)
    requires TestShape(g)
    ensures fresh(t) && fresh(t.pos) && t.Valid() && t.isLaidOut
    ensures t.g == g && t.nodes == [0, 1, 2, 3, 4] && t.startNode == 0 && t.pos[..] == TestLaidOut()
  {
    ghost var rank := TestRank();
    TestRanked(g, rank);
    var pos := new Point[5](i => Point(0.0, 0.0));
    ghost var initial := pos[..];
    t := new AtomicTreeLayout(g, rank, pos, [0, 1, 2, 3, 4], 0, 4, LayoutConfig(100.0, 60.0));
    t.Layout();
    TestOnceLayoutResult(g, rank, t.depthMap.value, initial, pos[..]);
  }

  /**
   * The test case with the corrected layout(): lay the tree out from a, then move
   * it so that a lands on (500, 500). Returns the coordinates after each step,
   * listed a, b, c, d, e. It holds for TestTree() and for any node list with the
   * same links and weights.
   */
  method TestRun(g: seq<XNode>) returns (laid: seq<Point>, moved: seq<Point>, r: Outcome)
    requires TestShape(g)
    ensures laid == TestLaidOut()
    ensures r == Pass && moved == TestMoved()
  {
    var t := TestLayout(g);
    laid := t.pos[..];
    r := t.RepositionTree(0, 500.0, 500.0);
    TestShift(laid, t.nodes);
    moved := t.pos[..];
  }

  /**
   * The test case as written: layout() writes the same coordinates, but the
   * repositionTree(a, 500, 500) that follows throws "layout not performed" and
   * moves nothing, since `isLaidOut` stays false.
   */
  method TestRunAsWritten(g: seq<XNode>) returns (laid: seq<Point>, after: seq<Point>, r: Outcome)
    requires TestShape(g)
    ensures laid == TestLaidOut()
    ensures r == Fail(LayoutNotPerformed) && after == laid
  {
    ghost var rank := TestRank();
    TestRanked(g, rank);
    var pos := new Point[5](i => Point(0.0, 0.0));
    ghost var initial := pos[..];
    var t := new AtomicTreeLayout(g, rank, pos, [0, 1, 2, 3, 4], 0, 4, LayoutConfig(100.0, 60.0));
    t.LayoutAsWritten();
    TestLayoutResult(g, rank, t.depthMap.value, initial, pos[..]);
    laid := pos[..];
    r := t.RepositionTree(0, 500.0, 500.0);
    after := pos[..];
  }
}
