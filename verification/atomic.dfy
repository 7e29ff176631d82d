/**
 * The per-unit layout of src/AtomicTreeLayout.ts: class AtomicTreeLayout, which
 * computes longest-path depths from its start node, groups the reached nodes into
 * layers, writes the coordinates of every layer into the nodes, and answers
 * translation and size queries guarded by its `isLaidOut` flag.
 *
 * The node objects are the list `g` (their links and weights) and the array `pos`
 * (their x and y, which the class writes in place); `this.nodes`, `startNode` and
 * `endNode` are indices into both.
 */
module AtomicLayout {
  import opened Types
  import opened Seqs
  import opened Graphs
  import opened Depths
  import opened Bfs
  import opened Placement
  import opened BfsOnce

  /** The module-level spacing that layoutLayers reads instead of `this.config`. */
  const ModuleConfig := LayoutConfig(100.0, 60.0)

  // ---------------------------------------------------------------- calculateNodeDepths

  /** Every node that had a depth still has one, at least as large. */
  ghost predicate Grows(d0: map<nat, nat>, d: map<nat, nat>) {
    forall v :: v in d0 ==> v in d && d0[v] <= d[v]
  }

  /**
   * What the forEach over the children of `u` achieves: every child has a depth
   * beyond `u`'s, depths only grow, and a node whose depth was set is a child of `u`
   * at depth d0[u] + 1 and was pushed.
   */
  ghost predicate Relaxed(g: seq<XNode>, d0: map<nat, nat>, u: nat, d: map<nat, nat>, pushed: seq<nat>)
    requires u < |g| && u in d0
  {
    && Grows(d0, d)
    && (forall c :: c in g[u].childNodes ==> c in d && d[c] >= d0[u] + 1)
    && (forall v :: v in d && (v !in d0 || d[v] != d0[v]) ==> v in g[u].childNodes && d[v] == d0[u] + 1 && v in pushed)
    && (forall x :: x in pushed ==> x in d)
  }

  /**
   * The state of the queue loop: the start at depth 0, only reachable nodes have a
   * depth, queued nodes have one, every node out of the queue is closed, and every
   * depth is owed to a parent.
   */
  ghost predicate DepthLoop(g: seq<XNode>, start: nat, depth: map<nat, nat>, queue: seq<nat>) {
    && start < |g| && start in depth && depth[start] == 0
    && (forall v :: v in depth ==> v < |g| && Reachable(g, start, v))
    && (forall i :: 0 <= i < |queue| ==> queue[i] in depth)
    && (forall u :: u in depth && u < |g| && u !in queue ==> Closed(g, depth, u))
    && AllJustified(g, start, depth)
  }

  /** The forEach of calculateNodeDepths over the children of `u` (a missing depth reads as -1). */
  method RelaxChildren(g: seq<XNode>, ghost rank: seq<nat>, depth0: map<nat, nat>, queue0: seq<nat>, u: nat)
      returns (depth: map<nat, nat>, queue: seq<nat>, ghost pushed: seq<nat>)
    requires Ranked(g, rank) && u < |g| && u in depth0
    ensures queue == queue0 + pushed
    ensures AllIn(g, pushed) && SumPaths(g, rank, pushed) <= SumPaths(g, rank, g[u].childNodes)
    ensures Relaxed(g, depth0, u, depth, pushed)
  {
    var currentDepth := depth0[u];
    var cs := g[u].childNodes;
    depth, queue, pushed := depth0, queue0, [];
    RelaxStart(g, rank, depth0, u);
    for i := 0 to |cs|
      invariant queue == queue0 + pushed
      invariant RelaxedPrefix(g, rank, depth0, u, i, depth, pushed)
    {
      var child := cs[i];
      var existingDepth: int := if child in depth then depth[child] else -1;
      RelaxStep(g, rank, depth0, u, i, depth, pushed);
      if currentDepth + 1 > existingDepth {
        depth := depth[child := currentDepth + 1];
        queue := queue + [child];
        pushed := pushed + [child];
      }
    }
    RelaxEnd(g, rank, depth0, u, depth, pushed);
  }

  /** The loop state of relaxChildren after the first `i` children of `u`. */
  ghost predicate RelaxedPrefix(g: seq<XNode>, rank: seq<nat>, d0: map<nat, nat>, u: nat, i: nat,
                                d: map<nat, nat>, pushed: seq<nat>)
    requires u < |g| && u in d0
  {
    var cs := g[u].childNodes;
    && Ranked(g, rank) && i <= |cs|
    && AllIn(g, pushed) && AllIn(g, cs[..i]) && SumPaths(g, rank, pushed) <= SumPaths(g, rank, cs[..i])
    && Grows(d0, d)
    && (forall c :: c in cs[..i] ==> c in d && d[c] >= d0[u] + 1)
    && (forall v :: v in d && (v !in d0 || d[v] != d0[v]) ==> v in cs && d[v] == d0[u] + 1 && v in pushed)
    && (forall x :: x in pushed ==> x in d)
  }

  lemma RelaxStart(g: seq<XNode>, rank: seq<nat>, d0: map<nat, nat>, u: nat)
    requires Ranked(g, rank) && u < |g| && u in d0
    ensures RelaxedPrefix(g, rank, d0, u, 0, d0, [])
  {
  }

  /** One child of the forEach: a child whose depth grows is written and queued, any other is left alone. */
  lemma RelaxStep(g: seq<XNode>, rank: seq<nat>, d0: map<nat, nat>, u: nat, i: nat, d: map<nat, nat>, pushed: seq<nat>)
    requires Ranked(g, rank) && u < |g| && u in d0
    requires RelaxedPrefix(g, rank, d0, u, i, d, pushed) && i < |g[u].childNodes|
    ensures var c := g[u].childNodes[i];
            var e: int := if c in d then d[c] else -1;
            if d0[u] + 1 > e then RelaxedPrefix(g, rank, d0, u, i + 1, d[c := d0[u] + 1], pushed + [c])
            else RelaxedPrefix(g, rank, d0, u, i + 1, d, pushed)
  {
    var cs := g[u].childNodes;
    var c := cs[i];
    var e: int := if c in d then d[c] else -1;
    assert AllIn(g, cs);
    assert cs[..i + 1] == cs[..i] + [c];
    SumPathsAppend(g, rank, cs[..i], [c]);
    if d0[u] + 1 > e {
      RelaxPush(g, rank, d0, u, i, d, pushed);
    }
  }

  /** The child `c` gets depth d0[u] + 1 and joins the queue. */
  lemma RelaxPush(g: seq<XNode>, rank: seq<nat>, d0: map<nat, nat>, u: nat, i: nat, d: map<nat, nat>, pushed: seq<nat>)
    requires Ranked(g, rank) && u < |g| && u in d0
    requires RelaxedPrefix(g, rank, d0, u, i, d, pushed) && i < |g[u].childNodes|
    requires var c := g[u].childNodes[i]; c !in d || d[c] < d0[u] + 1
    ensures RelaxedPrefix(g, rank, d0, u, i + 1, d[g[u].childNodes[i] := d0[u] + 1], pushed + [g[u].childNodes[i]])
  {
    var cs := g[u].childNodes;
    var c := cs[i];
    assert AllIn(g, cs);
    assert cs[..i + 1] == cs[..i] + [c];
    SumPathsAppend(g, rank, cs[..i], [c]);
    SumPathsAppend(g, rank, pushed, [c]);
  }

  lemma RelaxEnd(g: seq<XNode>, rank: seq<nat>, d0: map<nat, nat>, u: nat, d: map<nat, nat>, pushed: seq<nat>)
    requires Ranked(g, rank) && u < |g| && u in d0
    requires RelaxedPrefix(g, rank, d0, u, |g[u].childNodes|, d, pushed)
    ensures AllIn(g, pushed) && SumPaths(g, rank, pushed) <= SumPaths(g, rank, g[u].childNodes)
    ensures Relaxed(g, d0, u, d, pushed)
  {
    assert g[u].childNodes[..|g[u].childNodes|] == g[u].childNodes;
  }

  /** A depth owed to a parent stays owed when the map grows and the node's own depth is unchanged. */
  lemma JustifiedGrows(g: seq<XNode>, start: nat, d0: map<nat, nat>, d: map<nat, nat>, v: nat)
    requires v in d0 && v in d && d[v] == d0[v] && Grows(d0, d) && Justified(g, start, d0, v)
    ensures Justified(g, start, d, v)
  {
    if v != start {
      var u :| u in d0 && u < |g| && v in g[u].childNodes && d0[v] <= d0[u] + 1;
      assert u in d && d[v] <= d[u] + 1;
    }
  }

  /** Relaxing the children of a reached node keeps the start at 0 and every depth owed to a parent. */
  lemma StepKeepsStart(g: seq<XNode>, rank: seq<nat>, start: nat, d0: map<nat, nat>, u: nat, d: map<nat, nat>, pushed: seq<nat>)
    requires Ranked(g, rank) && u < |g| && u in d0 && Reachable(g, start, u)
    requires start < |g| && start in d0 && d0[start] == 0
    requires Relaxed(g, d0, u, d, pushed)
    ensures start in d && d[start] == 0 && d[u] == d0[u]
  {
    ReachableRank(g, rank, start, u);
    forall c | c in g[u].childNodes ensures c != start && c != u {
      ChildRank(g, rank, u, c);
    }
  }

  lemma StepKeepsJustified(g: seq<XNode>, start: nat, d0: map<nat, nat>, u: nat, d: map<nat, nat>, pushed: seq<nat>)
    requires u < |g| && u in d0 && AllJustified(g, start, d0)
    requires Relaxed(g, d0, u, d, pushed) && d[u] == d0[u]
    ensures AllJustified(g, start, d)
  {
    forall v | v in d ensures Justified(g, start, d, v) {
      if v in d0 && d[v] == d0[v] {
        JustifiedGrows(g, start, d0, d, v);
      } else {
        assert u in d && v in g[u].childNodes && d[v] <= d[u] + 1;
      }
    }
  }

  lemma StepKeepsReachable(g: seq<XNode>, start: nat, d0: map<nat, nat>, u: nat, d: map<nat, nat>, pushed: seq<nat>)
    requires u < |g| && u in d0 && (forall v :: v in d0 ==> v < |g| && Reachable(g, start, v))
    requires WellFormed(g) && Relaxed(g, d0, u, d, pushed)
    ensures forall v :: v in d ==> v < |g| && Reachable(g, start, v)
  {
    forall v | v in d ensures v < |g| && Reachable(g, start, v) {
      if !(v in d0 && d[v] == d0[v]) {
        var k :| 0 <= k < |g[u].childNodes| && g[u].childNodes[k] == v;
        ReachableStep(g, start, u, v);
      }
    }
  }

  lemma StepKeepsClosed(g: seq<XNode>, d0: map<nat, nat>, q0: seq<nat>, u: nat, d: map<nat, nat>, pushed: seq<nat>)
    requires |q0| > 0 && q0[0] == u && u < |g| && u in d0
    requires forall w :: w in d0 && w < |g| && w !in q0 ==> Closed(g, d0, w)
    requires Relaxed(g, d0, u, d, pushed) && d[u] == d0[u]
    ensures forall w :: w in d && w < |g| && w !in q0[1..] + pushed ==> Closed(g, d, w)
  {
    forall w | w in d && w < |g| && w !in q0[1..] + pushed ensures Closed(g, d, w) {
      if w != u {
        assert w !in pushed && w in d0 && d[w] == d0[w];
        assert w !in q0 by {
          assert q0 == [u] + q0[1..];
        }
        assert Closed(g, d0, w);
      }
    }
  }

  /** One dequeue-and-relax step of calculateNodeDepths keeps its loop state and shrinks the queue's measure. */
  lemma DepthStep(g: seq<XNode>, rank: seq<nat>, start: nat, d0: map<nat, nat>, q0: seq<nat>, d: map<nat, nat>, pushed: seq<nat>)
    requires Ranked(g, rank) && AllIn(g, q0) && |q0| > 0 && DepthLoop(g, start, d0, q0)
    requires q0[0] in d0 && Relaxed(g, d0, q0[0], d, pushed)
    requires AllIn(g, pushed) && SumPaths(g, rank, pushed) <= SumPaths(g, rank, g[q0[0]].childNodes)
    ensures AllIn(g, q0[1..] + pushed) && DepthLoop(g, start, d, q0[1..] + pushed)
    ensures SumPaths(g, rank, q0[1..] + pushed) < SumPaths(g, rank, q0)
  {
    var node := q0[0];
    StepKeepsStart(g, rank, start, d0, node, d, pushed);
    StepKeepsJustified(g, start, d0, node, d, pushed);
    StepKeepsReachable(g, start, d0, node, d, pushed);
    StepKeepsClosed(g, d0, q0, node, d, pushed);
    QueueCostLess(g, rank, q0, pushed);
    QueuedHaveDepth(d0, q0, d, pushed);
  }

  /** The queue after one step costs less than before: the children of the head cost less than the head. */
  lemma QueueCostLess(g: seq<XNode>, rank: seq<nat>, q0: seq<nat>, pushed: seq<nat>)
    requires Ranked(g, rank) && AllIn(g, q0) && |q0| > 0
    requires AllIn(g, pushed) && SumPaths(g, rank, pushed) <= SumPaths(g, rank, g[q0[0]].childNodes)
    ensures AllIn(g, q0[1..] + pushed) && SumPaths(g, rank, q0[1..] + pushed) < SumPaths(g, rank, q0)
  {
    ChildrenCostLess(g, rank, q0[0]);
    SumPathsAppend(g, rank, q0[1..], pushed);
  }

  /** Every node still queued after one step has a depth. */
  lemma QueuedHaveDepth(d0: map<nat, nat>, q0: seq<nat>, d: map<nat, nat>, pushed: seq<nat>)
    requires |q0| > 0 && (forall i :: 0 <= i < |q0| ==> q0[i] in d0) && Grows(d0, d)
    requires forall x :: x in pushed ==> x in d
    ensures forall i :: 0 <= i < |q0[1..] + pushed| ==> (q0[1..] + pushed)[i] in d
  {
    var q := q0[1..] + pushed;
    forall i | 0 <= i < |q| ensures q[i] in d {
      if i < |q0| - 1 {
        assert q[i] == q0[i + 1];
      } else {
        assert q[i] == pushed[i - |q0| + 1];
      }
    }
  }

  // ---------------------------------------------------------------- groupNodesByDepth

  /** The forEach of groupNodesByDepth: each child not already waiting in the queue is pushed. */
  method EnqueueNew(queue0: seq<nat>, cs: seq<nat>) returns (queue: seq<nat>)
    ensures queue == queue0 + Pushed(queue0, cs)
  {
    queue := queue0;
    for i := 0 to |cs|
      invariant queue + Pushed(queue, cs[i..]) == queue0 + Pushed(queue0, cs)
    {
      var child := cs[i];
      assert cs[i..][1..] == cs[i + 1..];
      if child !in queue {
        assert queue + Pushed(queue, cs[i..]) == (queue + [child]) + Pushed(queue + [child], cs[i + 1..]);
        queue := queue + [child];
      }
    }
  }

  /** Every node the queue of groupNodesByDepth dequeues is a node with a depth. */
  ghost predicate Covered(g: seq<XNode>, rank: seq<nat>, start: nat, depth: map<nat, nat>)
    requires Ranked(g, rank) && start < |g|
  {
    forall x :: x in BfsOrder(g, rank, [start]) ==> x < |g| && x in depth
  }

  /** The queue loop of groupNodesByDepth: every dequeued node is appended to the bucket of its depth. */
  method BucketByDepth(g: seq<XNode>, ghost rank: seq<nat>, start: nat, depth: map<nat, nat>)
      returns (buckets: map<nat, seq<nat>>)
    requires Ranked(g, rank) && start < |g| && Covered(g, rank, start, depth)
    ensures buckets == Group(BfsOrder(g, rank, [start]), depth)
  {
    ghost var order := BfsOrder(g, rank, [start]);
    buckets := map[];
    var queue := [start];
    ghost var visited: seq<nat> := [];
    while |queue| > 0
      invariant AllIn(g, queue)
      invariant visited + BfsOrder(g, rank, queue) == order
      invariant forall x :: x in visited ==> x in depth
      invariant buckets == Group(visited, depth)
      decreases SumPaths(g, rank, queue)
    {
      var node := queue[0];
      BucketStep(g, rank, order, visited, queue, depth, buckets);
      queue := queue[1..];
      var d := depth[node];
      var bucket := if d in buckets then buckets[d] else [];
      buckets := buckets[d := bucket + [node]];
      queue := EnqueueNew(queue, g[node].childNodes);
      visited := visited + [node];
    }
    assert visited == order;
  }

  /** One iteration of groupNodesByDepth: dequeue the head, append it to its depth's bucket, enqueue its new children. */
  lemma BucketStep(g: seq<XNode>, rank: seq<nat>, order: seq<nat>, visited: seq<nat>, q: seq<nat>,
                   depth: map<nat, nat>, buckets: map<nat, seq<nat>>)
    requires Ranked(g, rank) && AllIn(g, q) && |q| > 0 && visited + BfsOrder(g, rank, q) == order
    requires forall x :: x in order ==> x in depth
    requires forall x :: x in visited ==> x in depth
    requires buckets == Group(visited, depth)
    ensures q[0] in depth
    ensures var q1 := q[1..] + Pushed(q[1..], g[q[0]].childNodes);
            AllIn(g, q1) && SumPaths(g, rank, q1) < SumPaths(g, rank, q) &&
            (visited + [q[0]]) + BfsOrder(g, rank, q1) == order
    ensures forall x :: x in visited + [q[0]] ==> x in depth
    ensures var d := depth[q[0]];
            buckets[d := (if d in buckets then buckets[d] else []) + [q[0]]] == Group(visited + [q[0]], depth)
  {
    DequeueStep(g, rank, order, visited, q, depth);
    GroupAppend(visited, depth, q[0]);
  }

  /** One dequeue of groupNodesByDepth moves the head of the queue to the dequeued prefix of the order. */
  lemma DequeueStep(g: seq<XNode>, rank: seq<nat>, order: seq<nat>, visited: seq<nat>, q: seq<nat>, depth: map<nat, nat>)
    requires Ranked(g, rank) && AllIn(g, q) && |q| > 0 && visited + BfsOrder(g, rank, q) == order
    requires forall x :: x in order ==> x in depth
    ensures q[0] in depth
    ensures AllIn(g, NextQueue(g, q)) && SumPaths(g, rank, NextQueue(g, q)) < SumPaths(g, rank, q)
    ensures (visited + [q[0]]) + BfsOrder(g, rank, NextQueue(g, q)) == order
  {
    BfsStep(g, rank, q);
    var rest := BfsOrder(g, rank, NextQueue(g, q));
    assert order == visited + ([q[0]] + rest);
    assert order[|visited|] == q[0];
  }

  /**
   * The forEach of the visited-set grouping: each child never queued before is
   * added to the visited set and pushed. `seen0` lists the nodes the set holds.
   */
  method EnqueueUnseen(visited0: set<nat>, queue0: seq<nat>, cs: seq<nat>, ghost seen0: seq<nat>)
      returns (visited: set<nat>, queue: seq<nat>)
    requires forall x :: x in visited0 <==> x in seen0
    ensures queue == queue0 + Pushed(seen0, cs)
    ensures forall x :: x in visited <==> x in seen0 + Pushed(seen0, cs)
  {
    visited, queue := visited0, queue0;
    ghost var added: seq<nat> := [];
    assert seen0 + added == seen0 && cs[0..] == cs;
    for i := 0 to |cs|
      invariant queue == queue0 + added
      invariant forall x :: x in visited <==> x in seen0 + added
      invariant added + Pushed(seen0 + added, cs[i..]) == Pushed(seen0, cs)
    {
      var child := cs[i];
      UnseenStep(seen0, added, cs, i, Pushed(seen0, cs));
      if child !in visited {
        visited := visited + {child};
        queue := queue + [child];
        added := added + [child];
      }
    }
  }

  /** One child of the forEach: pushed iff not yet queued, and the rest pushes as before. */
  lemma UnseenStep(seen: seq<nat>, added: seq<nat>, cs: seq<nat>, i: nat, target: seq<nat>)
    requires i < |cs| && added + Pushed(seen + added, cs[i..]) == target
    ensures cs[i] in seen + added ==> added + Pushed(seen + added, cs[i + 1..]) == target
    ensures cs[i] !in seen + added ==> (added + [cs[i]]) + Pushed(seen + (added + [cs[i]]), cs[i + 1..]) == target
  {
    assert cs[i..][1..] == cs[i + 1..];
    assert (seen + added) + [cs[i]] == seen + (added + [cs[i]]);
  }

  /** The state of the visited-set queue loop after dequeuing `done`. */
  ghost predicate OnceLoop(g: seq<XNode>, rank: seq<nat>, order: seq<nat>, depth: map<nat, nat>, done: seq<nat>,
                           queue: seq<nat>, visited: set<nat>, buckets: map<nat, seq<nat>>)
  {
    && Ranked(g, rank) && AllIn(g, queue)
    && (forall x :: x in order ==> x in depth)
    && OnceOrder(g, rank, done, queue) == order
    && (forall x :: x in visited <==> x in done + queue)
    && (forall x :: x in done ==> x in depth)
    && buckets == Group(done, depth)
  }

  /** The queue loop of the visited-set grouping: each reached node is bucketed once. */
  method BucketByDepthOnce(g: seq<XNode>, ghost rank: seq<nat>, start: nat, depth: map<nat, nat>)
      returns (buckets: map<nat, seq<nat>>)
    requires Ranked(g, rank) && DepthsSpec(g, start, depth)
    ensures forall x :: x in OnceOrder(g, rank, [], [start]) ==> x in depth
    ensures buckets == Group(OnceOrder(g, rank, [], [start]), depth)
  {
    ghost var order := OnceOrder(g, rank, [], [start]);
    OnceSameNodes(g, rank, start, depth);
    buckets := map[];
    var queue := [start];
    var visited := {start};
    ghost var done: seq<nat> := [];
    assert done + queue == [start];
    while |queue| > 0
      invariant OnceLoop(g, rank, order, depth, done, queue, visited, buckets)
      decreases SumPaths(g, rank, queue)
    {
      var node := queue[0];
      OnceBucketStep(g, rank, order, done, queue, depth);
      ghost var q0, b0 := queue, buckets;
      queue := queue[1..];
      var d := depth[node];
      var bucket := if d in buckets then buckets[d] else [];
      buckets := buckets[d := bucket + [node]];
      visited, queue := EnqueueUnseen(visited, queue, g[node].childNodes, done + q0);
      OnceLoopStep(g, rank, order, depth, done, q0, b0, visited, queue, buckets);
      done := done + [node];
    }
    assert done + queue == done;
  }

  /** One iteration keeps the state of the visited-set queue loop and lowers its measure. */
  lemma OnceLoopStep(g: seq<XNode>, rank: seq<nat>, order: seq<nat>, depth: map<nat, nat>, done: seq<nat>,
                     q: seq<nat>, buckets: map<nat, seq<nat>>, visited': set<nat>, queue': seq<nat>, buckets': map<nat, seq<nat>>)
    requires Ranked(g, rank) && AllIn(g, q) && |q| > 0
    requires forall x :: x in order ==> x in depth
    requires OnceOrder(g, rank, done, q) == order
    requires forall x :: x in done ==> x in depth
    requires buckets == Group(done, depth) && q[0] in depth
    requires queue' == q[1..] + Pushed(done + q, g[q[0]].childNodes)
    requires forall x :: x in visited' <==> x in (done + q) + Pushed(done + q, g[q[0]].childNodes)
    requires var d := depth[q[0]]; buckets' == buckets[d := (if d in buckets then buckets[d] else []) + [q[0]]]
    ensures OnceLoop(g, rank, order, depth, done + [q[0]], queue', visited', buckets')
    ensures SumPaths(g, rank, queue') < SumPaths(g, rank, q)
  {
    OnceBucketStep(g, rank, order, done, q, depth);
    SeenAfterStep(done, q, Pushed(done + q, g[q[0]].childNodes), queue', visited');
  }

  lemma SeenAfterStep(done: seq<nat>, q: seq<nat>, p: seq<nat>, queue': seq<nat>, visited': set<nat>)
    requires |q| > 0 && queue' == q[1..] + p
    requires forall x :: x in visited' <==> x in (done + q) + p
    ensures forall x :: x in visited' <==> x in (done + [q[0]]) + queue'
  {
    assert (done + [q[0]]) + queue' == (done + q) + p;
  }

  /** One iteration of the visited-set grouping: the head has a depth and moves to the dequeued prefix. */
  lemma OnceBucketStep(g: seq<XNode>, rank: seq<nat>, order: seq<nat>, done: seq<nat>, q: seq<nat>, depth: map<nat, nat>)
    requires Ranked(g, rank) && AllIn(g, q) && |q| > 0 && OnceOrder(g, rank, done, q) == order
    requires forall x :: x in order ==> x in depth
    requires forall x :: x in done ==> x in depth
    ensures q[0] in depth
    ensures AllIn(g, NextOnce(g, done, q)) && SumPaths(g, rank, NextOnce(g, done, q)) < SumPaths(g, rank, q)
    ensures OnceOrder(g, rank, done + [q[0]], NextOnce(g, done, q)) == order
    ensures forall x :: x in done + [q[0]] ==> x in depth
    ensures Group(done + [q[0]], depth) ==
            var d := depth[q[0]]; var m := Group(done, depth); m[d := (if d in m then m[d] else []) + [q[0]]]
  {
    OnceCost(g, rank, done, q);
    OnceKeeps(g, rank, done, q);
    assert q[0] in done + q;
    GroupAppend(done, depth, q[0]);
  }

  /** The layer list groupNodesByDepth returns from `start` for the depth map `depth`. */
  ghost function DepthLayers(g: seq<XNode>, rank: seq<nat>, start: nat, depth: map<nat, nat>): (layers: seq<seq<nat>>)
    requires Ranked(g, rank) && start < |g| && Covered(g, rank, start, depth)
    ensures LayersWithin(layers, |g|)
  {
    CoveredWithin(g, rank, start, depth);
    Layers(BfsOrder(g, rank, [start]), depth, |g|)
  }

  /** Every entry of the key-ordered value list is one of the map's values. */
  lemma {:induction false} ValuesFromMap<V>(m: map<nat, V>, n: nat)
    ensures forall k :: 0 <= k < |ValuesInKeyOrder(m, n)| ==> ValuesInKeyOrder(m, n)[k] in m.Values
  {
    if n > 0 {
      ValuesFromMap(m, n - 1);
      var r, p := ValuesInKeyOrder(m, n), ValuesInKeyOrder(m, n - 1);
      forall k | 0 <= k < |r| ensures r[k] in m.Values {
        if k < |p| {
          assert r[k] == p[k];
        } else {
          assert n - 1 in m && r == p + [m[n - 1]];
          assert r[k] == m[n - 1];
        }
      }
    }
  }

  lemma CoveredWithin(g: seq<XNode>, rank: seq<nat>, start: nat, depth: map<nat, nat>)
    requires Ranked(g, rank) && start < |g| && Covered(g, rank, start, depth)
    ensures LayersWithin(Layers(BfsOrder(g, rank, [start]), depth, |g|), |g|)
  {
    var order := BfsOrder(g, rank, [start]);
    GroupIsFilter(order, depth);
    ValuesFromMap(Group(order, depth), |g|);
    var layers := Layers(order, depth, |g|);
    forall k, i | 0 <= k < |layers| && 0 <= i < |layers[k]| ensures layers[k][i] < |g| {
      var j :| j in Group(order, depth) && layers[k] == Group(order, depth)[j];
      assert layers[k][i] in FilterDepth(order, depth, j);
    }
  }

  /** The depths of calculateNodeDepths cover the dequeue order of groupNodesByDepth. */
  lemma DepthsCovered(g: seq<XNode>, rank: seq<nat>, start: nat, depth: map<nat, nat>)
    requires Ranked(g, rank) && DepthsSpec(g, start, depth)
    ensures Covered(g, rank, start, depth)
  {
    SameNodes(g, rank, start, depth);
  }

  /**
   * For the depths of calculateNodeDepths the layers are indexed by depth, 0 up to
   * the largest: layer k holds the dequeued nodes of depth k in dequeue order and is
   * never empty, and every reached node is in the layer of its depth.
   */
  lemma DepthLayersByDepth(g: seq<XNode>, rank: seq<nat>, start: nat, depth: map<nat, nat>)
    requires Ranked(g, rank) && DepthsSpec(g, start, depth)
    ensures Covered(g, rank, start, depth)
    ensures var layers := DepthLayers(g, rank, start, depth);
            && |layers| == MaxDepth(depth, |g|) + 1
            && (forall k :: 0 <= k < |layers| ==> layers[k] == FilterDepth(BfsOrder(g, rank, [start]), depth, k) && |layers[k]| > 0)
            && (forall v :: v in depth ==> depth[v] < |layers| && v in layers[depth[v]])
  {
    SameNodes(g, rank, start, depth);
    var layers := LayersByDepth(g, rank, start, depth, BfsOrder(g, rank, [start]));
  }

  /** No node is in two layers: each layer holds only the nodes of its own depth. */
  lemma DepthLayersDisjoint(g: seq<XNode>, rank: seq<nat>, start: nat, depth: map<nat, nat>)
    requires Ranked(g, rank) && DepthsSpec(g, start, depth)
    ensures Covered(g, rank, start, depth)
    ensures LayersDisjoint(DepthLayers(g, rank, start, depth))
  {
    DepthLayersByDepth(g, rank, start, depth);
    var layers := DepthLayers(g, rank, start, depth);
    forall a, b | 0 <= a < b < |layers| ensures Disjoint(layers[a], layers[b]) {
      forall x | x in layers[a] ensures x !in layers[b] {
        assert x in depth && depth[x] == a;
      }
    }
  }

  /** When the as-written queue repeats no node, both groupings return the same layers. */
  lemma OnceLayersWhenDistinct(g: seq<XNode>, rank: seq<nat>, start: nat, depth: map<nat, nat>)
    requires Ranked(g, rank) && DepthsSpec(g, start, depth) && Distinct(BfsOrder(g, rank, [start]))
    ensures Covered(g, rank, start, depth)
    ensures OnceLayers(g, rank, start, depth) == DepthLayers(g, rank, start, depth)
  {
    DepthsCovered(g, rank, start, depth);
    OnceMatchesWhenDistinct(g, rank, start);
  }

  /** A reached node ends in the column of its depth. */
  lemma ReachedColumn(g: seq<XNode>, rank: seq<nat>, ps: seq<Point>, start: nat, depth: map<nat, nat>, h: real, v: real, w: nat)
    requires Ranked(g, rank) && |ps| == |g| && DepthsSpec(g, start, depth) && Covered(g, rank, start, depth)
    requires w in depth
    ensures var layers := DepthLayers(g, rank, start, depth);
            PlaceLayers(g, ps, layers, h, v, |layers|)[w].x == depth[w] as real * h
  {
    var layers := DepthLayers(g, rank, start, depth);
    InOwnLayer(g, rank, start, depth, w);
    DepthLayersDisjoint(g, rank, start, depth);
    ColumnOfLayer(g, ps, layers, h, v, depth[w], w);
  }

  /** With the visited-set grouping a reached node is in the layer of its depth, and in no other. */
  lemma OnceInOwnLayer(g: seq<XNode>, rank: seq<nat>, start: nat, depth: map<nat, nat>, w: nat)
    requires Ranked(g, rank) && DepthsSpec(g, start, depth) && w in depth
    ensures var layers := OnceLayers(g, rank, start, depth);
            depth[w] < |layers| && w in layers[depth[w]] && LayersDisjoint(layers)
  {
    OnceLayersByDepth(g, rank, start, depth);
    assert depth[w] <= MaxDepth(depth, |g|);
  }

  /** A node not reachable from the start keeps its coordinates. */
  lemma UnreachedUnmoved(g: seq<XNode>, rank: seq<nat>, ps: seq<Point>, start: nat, depth: map<nat, nat>, h: real, v: real, w: nat)
    requires Ranked(g, rank) && |ps| == |g| && DepthsSpec(g, start, depth) && Covered(g, rank, start, depth)
    requires w < |g| && !Reachable(g, start, w)
    ensures var layers := DepthLayers(g, rank, start, depth);
            PlaceLayers(g, ps, layers, h, v, |layers|)[w] == ps[w]
  {
    var layers := DepthLayers(g, rank, start, depth);
    NotInLayers(g, rank, start, depth, w);
    PlaceLayersOutside(g, ps, layers, h, v, |layers|, w);
  }

  lemma InOwnLayer(g: seq<XNode>, rank: seq<nat>, start: nat, depth: map<nat, nat>, w: nat)
    requires Ranked(g, rank) && DepthsSpec(g, start, depth) && Covered(g, rank, start, depth) && w in depth
    ensures depth[w] < |DepthLayers(g, rank, start, depth)| && w in DepthLayers(g, rank, start, depth)[depth[w]]
  {
    DepthLayersByDepth(g, rank, start, depth);
  }

  lemma NotInLayers(g: seq<XNode>, rank: seq<nat>, start: nat, depth: map<nat, nat>, w: nat)
    requires Ranked(g, rank) && DepthsSpec(g, start, depth) && Covered(g, rank, start, depth)
    requires w < |g| && !Reachable(g, start, w)
    ensures forall k :: 0 <= k < |DepthLayers(g, rank, start, depth)| ==> w !in DepthLayers(g, rank, start, depth)[k]
  {
    DepthLayersByDepth(g, rank, start, depth);
    assert w !in depth;
  }

  /** `n` spacings of `h`: the coordinate of column `n`. */
  function Scaled(n: nat, h: real): real {
    n as real * h
  }

  // ---------------------------------------------------------------- the class

  class AtomicTreeLayout {
    /** The node objects, without their coordinates. */
    const g: seq<XNode>
    /** A rank growing along every child link: the nodes form a DAG. */
    ghost const rank: seq<nat>
    /** The coordinates of the node objects, written in place. */
    const pos: array<Point>
    const nodes: seq<nat>
    const startNode: nat
    const endNode: nat
    const config: LayoutConfig
    var isLaidOut: bool
    /** `None` while the definitely-assigned field `depthMap!` has not been assigned. */
    var depthMap: Option<map<nat, nat>>

    ghost predicate Valid()
      reads this
    {
      && Ranked(g, rank)
      && startNode < |g| && endNode < |g| && Within(nodes, |g|)
      && pos.Length == |g|
      && (depthMap.Some? ==> DepthsSpec(g, startNode, depthMap.value))
    }

    constructor (g: seq<XNode>, ghost rank: seq<nat>, pos: array<Point>, nodes: seq<nat>, startNode: nat, endNode: nat, config: LayoutConfig)
      requires Ranked(g, rank) && startNode < |g| && endNode < |g| && Within(nodes, |g|) && pos.Length == |g|
      ensures Valid()
      ensures this.g == g && this.rank == rank && this.pos == pos && this.nodes == nodes
      ensures this.startNode == startNode && this.endNode == endNode && this.config == config
      ensures !isLaidOut && depthMap == None
    {
      this.g := g;
      this.rank := rank;
      this.pos := pos;
      this.nodes := nodes;
      this.startNode := startNode;
      this.endNode := endNode;
      this.config := config;
      isLaidOut := false;
      depthMap := None;
    }

    /**
     * calculateNodeDepths: the queue relaxation ends, and the map it returns gives
     * exactly the nodes reachable from `start` their longest-path depth from it.
     */
    method CalculateNodeDepths(start: nat) returns (depth: map<nat, nat>)
      requires Valid() && start < |g|
      ensures DepthsSpec(g, start, depth)
    {
      depth := map[start := 0];
      var queue := [start];
      assert PathFromTo(g, [start], start, start);
      while |queue| > 0
        invariant AllIn(g, queue) && DepthLoop(g, start, depth, queue)
        decreases SumPaths(g, rank, queue)
      {
        ghost var q0, d0 := queue, depth;
        var node := queue[0];
        queue := queue[1..];
        ghost var pushed;
        depth, queue, pushed := RelaxChildren(g, rank, depth, queue, node);
        DepthStep(g, rank, start, d0, q0, depth, pushed);
      }
      FinalDepths(g, start, depth);
    }

    /**
     * groupNodesByDepth: the dequeue order of its queue, bucketed by depth and
     * listed by ascending depth.
     */
    method GroupNodesByDepth(start: nat, depth: map<nat, nat>) returns (layers: seq<seq<nat>>)
      requires Valid() && DepthsSpec(g, start, depth)
      ensures Covered(g, rank, start, depth)
      ensures layers == DepthLayers(g, rank, start, depth)
    {
      DepthsCovered(g, rank, start, depth);
      var buckets := BucketByDepth(g, rank, start, depth);
      layers := ValuesInKeyOrder(buckets, |g|);
    }

    /**
     * groupNodesByDepth with a visited set: every reached node is dequeued, and
     * bucketed, exactly once.
     */
    method GroupNodesByDepthOnce(start: nat, depth: map<nat, nat>) returns (layers: seq<seq<nat>>)
      requires Valid() && DepthsSpec(g, start, depth)
      ensures layers == OnceLayers(g, rank, start, depth)
    {
      var buckets := BucketByDepthOnce(g, rank, start, depth);
      layers := ValuesInKeyOrder(buckets, |g|);
    }

    /**
     * layoutLayers: layer k, stably sorted by descending weight, goes to x = k·h and
     * rows centred on y = 0, with the module-level spacing.
     */
    method LayoutLayers(layers: seq<seq<nat>>)
      requires Valid() && LayersWithin(layers, |g|)
      modifies pos
      ensures pos[..] == PlaceLayers(g, old(pos[..]), layers, ModuleConfig.horizontalSpacing, ModuleConfig.verticalSpacing, |layers|)
    {
      var h, v := ModuleConfig.horizontalSpacing, ModuleConfig.verticalSpacing;
      for depth := 0 to |layers|
        invariant pos[..] == PlaceLayers(g, old(pos[..]), layers, h, v, depth)
      {
        var sortedNodes := SortByWeight(g, layers[depth]);
        var startY := -((|sortedNodes| as real) - 1.0) * v / 2.0;
        ghost var base := pos[..];
        for index := 0 to |sortedNodes|
          invariant pos[..] == PlaceRow(base, sortedNodes, depth as real * h, v, index)
        {
          var node := sortedNodes[index];
          pos[node] := Point(depth as real * h, startY + (index as real) * v);
        }
      }
    }

    /**
     * layout() as written: depths, then layers, then coordinates. It records the
     * depth map but leaves `isLaidOut` as it was.
     */
    method LayoutAsWritten()
      requires Valid()
      modifies this, pos
      ensures Valid() && isLaidOut == old(isLaidOut)
      ensures depthMap.Some? && DepthsSpec(g, startNode, depthMap.value) && Covered(g, rank, startNode, depthMap.value)
      ensures pos[..] == PlaceLayers(g, old(pos[..]), DepthLayers(g, rank, startNode, depthMap.value),
                                     ModuleConfig.horizontalSpacing, ModuleConfig.verticalSpacing,
                                     |DepthLayers(g, rank, startNode, depthMap.value)|)
    {
      var depths := CalculateNodeDepths(startNode);
      depthMap := Some(depths);
      var layers := GroupNodesByDepth(startNode, depths);
      LayoutLayers(layers);
    }

    /**
     * layout() with both corrections: each reached node is grouped once, and the
     * flag its queries check is set once the coordinates are written.
     */
    method Layout()
      requires Valid()
      modifies this, pos
      ensures Valid() && isLaidOut
      ensures depthMap.Some? && DepthsSpec(g, startNode, depthMap.value)
      ensures pos[..] == PlaceLayers(g, old(pos[..]), OnceLayers(g, rank, startNode, depthMap.value),
                                     ModuleConfig.horizontalSpacing, ModuleConfig.verticalSpacing,
                                     |OnceLayers(g, rank, startNode, depthMap.value)|)
    {
      var depths := CalculateNodeDepths(startNode);
      depthMap := Some(depths);
      var layers := GroupNodesByDepthOnce(startNode, depths);
      LayoutLayers(layers);
      isLaidOut := true;
    }

    /** validateLayoutState: passes exactly when the layout was performed. */
    function ValidateLayoutState(): (r: Outcome)
      reads this
      ensures r.Pass? <==> isLaidOut
      ensures r.Fail? ==> r.error == LayoutNotPerformed
    {
      if !isLaidOut then Fail(LayoutNotPerformed) else Pass
    }

    /** applyPositionOffset: every entry of `nodes` is moved by (dx, dy), in list order. */
    method ApplyPositionOffset(dx: real, dy: real)
      requires Valid()
      modifies pos
      ensures pos[..] == Offset(old(pos[..]), nodes, dx, dy, |nodes|)
    {
      for i := 0 to |nodes|
        invariant pos[..] == Offset(old(pos[..]), nodes, dx, dy, i)
      {
        var node := nodes[i];
        pos[node] := Point(pos[node].x + dx, pos[node].y + dy);
      }
    }

    /**
     * repositionTree: fails unless laid out; otherwise translates `nodes` so that
     * `this.startNode` (not the `requestedStart` argument, which is ignored) lands
     * on (newX, newY) when it is one of the duplicate-free `nodes`.
     */
    method RepositionTree(requestedStart: nat, newX: real, newY: real) returns (r: Outcome)
      requires Valid()
      modifies pos
      ensures r == ValidateLayoutState()
      ensures r.Fail? ==> pos[..] == old(pos[..])
      ensures r.Pass? ==> pos[..] == Offset(old(pos[..]), nodes, newX - old(pos[startNode].x), newY - old(pos[startNode].y), |nodes|)
      ensures r.Pass? && Distinct(nodes) && startNode in nodes ==> pos[startNode] == Point(newX, newY)
    {
      r := ValidateLayoutState();
      if r.Fail? {
        return;
      }
      var dx := newX - pos[startNode].x;
      var dy := newY - pos[startNode].y;
      ghost var before := pos[..];
      ApplyPositionOffset(dx, dy);
      if Distinct(nodes) && startNode in nodes {
        OffsetExact(before, nodes, dx, dy, |nodes|, startNode);
        assert nodes[..|nodes|] == nodes;
      }
    }

    /** getHeight: fails unless laid out; otherwise the vertical span of `nodes`. */
    function GetHeight(): (r: Result<real>)
      requires Valid() && |nodes| > 0
      reads this, pos
      ensures r.Err? <==> !isLaidOut
      ensures r.Err? ==> r.error == LayoutNotPerformed
      ensures r.Ok? ==> r.value >= 0.0 && r.value == VerticalSpan(pos[..], nodes)
    {
      match ValidateLayoutState()
      case Fail(e) => Err(e)
      case Pass => Ok(VerticalSpan(pos[..], nodes))
    }

    /**
     * getWidth: fails unless laid out, then fails if no depth map was recorded;
     * otherwise the largest depth times `this.config.horizontalSpacing`.
     */
    function GetWidth(): (r: Result<real>)
      requires Valid()
      reads this
      ensures r == Err(LayoutNotPerformed) <==> !isLaidOut
      ensures isLaidOut && depthMap.None? ==> r == Err(DepthMapUndefined)
      ensures r.Ok? ==> depthMap.Some? && r.value == Scaled(MaxDepth(depthMap.value, |g|), config.horizontalSpacing)
    {
      match ValidateLayoutState()
      case Fail(e) => Err(e)
      case Pass =>
        if depthMap.None? then Err(DepthMapUndefined)
        else Ok(Scaled(MaxDepth(depthMap.value, |g|), config.horizontalSpacing))
    }

    /** The width is the depth of a deepest reached node times the spacing. */
    lemma WidthOfDeepest()
      requires Valid() && isLaidOut && depthMap.Some?
      ensures exists v :: v in depthMap.value && GetWidth() == Ok(Scaled(depthMap.value[v], config.horizontalSpacing)) &&
                (forall w :: w in depthMap.value ==> depthMap.value[w] <= depthMap.value[v])
    {
      var v := MaxDepthAttained(g, rank, startNode, depthMap.value);
      DepthsBelowN(g, startNode, depthMap.value);
    }
  }

  // ---------------------------------------------------------------- the example flow: layout() followed by repositionTree

  /**
   * The flow at the end of src/AtomicTreeLayout.ts with layout() as written: the
   * reposition that follows the layout always fails, as `isLaidOut` stays false.
   */
  method RepositionAfterLayoutAsWritten(g: seq<XNode>, ghost rank: seq<nat>, nodes: seq<nat>, startNode: nat, endNode: nat,
                                        config: LayoutConfig, newX: real, newY: real) returns (r: Outcome)
    requires Ranked(g, rank) && startNode < |g| && endNode < |g| && Within(nodes, |g|)
    ensures r == Fail(LayoutNotPerformed)
  {
    var pos := new Point[|g|](i => Point(0.0, 0.0));
    var t := new AtomicTreeLayout(g, rank, pos, nodes, startNode, endNode, config);
    t.LayoutAsWritten();
    r := t.RepositionTree(startNode, newX, newY);
  }

  /** The same flow with the flag set by layout(): the start node lands on (newX, newY). */
  method RepositionAfterLayout(g: seq<XNode>, ghost rank: seq<nat>, nodes: seq<nat>, startNode: nat, endNode: nat,
                               config: LayoutConfig, newX: real, newY: real) returns (r: Outcome, at: Point)
    requires Ranked(g, rank) && startNode < |g| && endNode < |g| && Within(nodes, |g|)
    ensures r == Pass
    ensures Distinct(nodes) && startNode in nodes ==> at == Point(newX, newY)
  {
    var pos := new Point[|g|](i => Point(0.0, 0.0));
    var t := new AtomicTreeLayout(g, rank, pos, nodes, startNode, endNode, config);
    t.Layout();
    r := t.RepositionTree(startNode, newX, newY);
    at := pos[startNode];
  }
}
