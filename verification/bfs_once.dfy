/**
 * groupNodesByDepth with a visited set: a child is queued only when it has never
 * been queued before, so each reachable node is dequeued exactly once. This is
 * the grouping the queue of src/AtomicTreeLayout.ts evidently intends; module Bfs
 * models the queue as written, which only refuses a child still waiting in it.
 *
 * The visited set is the list of every node queued so far: the dequeued prefix
 * `done` followed by the waiting queue.
 */
module BfsOnce {
  import opened Types
  import opened Seqs
  import opened Graphs
  import opened Depths
  import opened Bfs
  import opened Placement

  /** The queue after dequeuing `q[0]` and queuing each of its children never queued before. */
  function NextOnce(g: seq<XNode>, done: seq<nat>, q: seq<nat>): seq<nat>
    requires |q| > 0 && q[0] < |g|
  {
    q[1..] + Pushed(done + q, g[q[0]].childNodes)
  }

  /** A step of the visited-set queue shrinks the number of paths left to explore. */
  lemma OnceCost(g: seq<XNode>, rank: seq<nat>, done: seq<nat>, q: seq<nat>)
    requires Ranked(g, rank) && AllIn(g, q) && |q| > 0
    ensures AllIn(g, NextOnce(g, done, q))
    ensures SumPaths(g, rank, NextOnce(g, done, q)) < SumPaths(g, rank, q)
  {
    var cs := g[q[0]].childNodes;
    ChildrenCostLess(g, rank, q[0]);
    PushedCost(g, rank, done + q, cs);
    SumPathsAppend(g, rank, q[1..], Pushed(done + q, cs));
  }

  /** The whole dequeue order: `done`, then the nodes the queue `q` still hands out. */
  ghost function OnceOrder(g: seq<XNode>, rank: seq<nat>, done: seq<nat>, q: seq<nat>): seq<nat>
    requires Ranked(g, rank) && AllIn(g, q)
    decreases SumPaths(g, rank, q)
  {
    if q == [] then done
    else
      OnceCost(g, rank, done, q);
      OnceOrder(g, rank, done + [q[0]], NextOnce(g, done, q))
  }

  /** A child is pushed only if not yet queued, and each at most once. */
  lemma {:induction false} PushedDistinct(s: seq<nat>, cs: seq<nat>)
    requires Distinct(s)
    ensures Distinct(s + Pushed(s, cs))
    decreases |cs|
  {
    if cs != [] && cs[0] !in s {
      var s' := s + [cs[0]];
      DistinctJoin(s, [cs[0]]);
      PushedDistinct(s', cs[1..]);
      assert s + Pushed(s, cs) == s' + Pushed(s', cs[1..]);
    } else if cs != [] {
      PushedDistinct(s, cs[1..]);
    }
  }

  /** Entries of `a` that no child equals do not change what is pushed. */
  lemma {:induction false} PushedIgnores(a: seq<nat>, b: seq<nat>, cs: seq<nat>)
    requires forall c :: c in cs ==> c !in a
    ensures Pushed(a + b, cs) == Pushed(b, cs)
    decreases |cs|
  {
    if cs != [] {
      assert cs[0] !in a;
      if cs[0] !in b {
        assert (a + b) + [cs[0]] == a + (b + [cs[0]]);
        PushedIgnores(a, b + [cs[0]], cs[1..]);
      } else {
        PushedIgnores(a, b, cs[1..]);
      }
    }
  }

  /** Everything already dequeued or waiting ends up in the dequeue order. */
  lemma {:induction false} OnceKeeps(g: seq<XNode>, rank: seq<nat>, done: seq<nat>, q: seq<nat>)
    requires Ranked(g, rank) && AllIn(g, q)
    ensures forall x :: x in done + q ==> x in OnceOrder(g, rank, done, q)
    decreases SumPaths(g, rank, q)
  {
    if q != [] {
      OnceCost(g, rank, done, q);
      var d, n := done + [q[0]], NextOnce(g, done, q);
      OnceKeeps(g, rank, d, n);
      assert done + q == d + q[1..];
      assert forall x :: x in q[1..] ==> x in n;
    }
  }

  /** No node is dequeued twice. */
  lemma {:induction false} OnceDistinct(g: seq<XNode>, rank: seq<nat>, done: seq<nat>, q: seq<nat>)
    requires Ranked(g, rank) && AllIn(g, q) && Distinct(done + q)
    ensures Distinct(OnceOrder(g, rank, done, q))
    decreases SumPaths(g, rank, q)
  {
    if q != [] {
      OnceCost(g, rank, done, q);
      var cs := g[q[0]].childNodes;
      PushedDistinct(done + q, cs);
      assert (done + [q[0]]) + NextOnce(g, done, q) == (done + q) + Pushed(done + q, cs);
      OnceDistinct(g, rank, done + [q[0]], NextOnce(g, done, q));
    } else {
      assert done + q == done;
    }
  }

  /** Every dequeued node is reachable from `s` when every queued one is. */
  lemma {:induction false} OnceSound(g: seq<XNode>, rank: seq<nat>, s: nat, done: seq<nat>, q: seq<nat>)
    requires Ranked(g, rank) && AllIn(g, q)
    requires forall x :: x in done + q ==> x < |g| && Reachable(g, s, x)
    ensures forall x :: x in OnceOrder(g, rank, done, q) ==> x < |g| && Reachable(g, s, x)
    decreases SumPaths(g, rank, q)
  {
    if q != [] {
      OnceCost(g, rank, done, q);
      var cs := g[q[0]].childNodes;
      var d, n := done + [q[0]], NextOnce(g, done, q);
      assert q[0] in done + q;
      forall x | x in d + n ensures x < |g| && Reachable(g, s, x) {
        if x in Pushed(done + q, cs) {
          ChildRank(g, rank, q[0], x);
          ReachableStep(g, s, q[0], x);
        } else {
          assert x in done + q;
        }
      }
      OnceSound(g, rank, s, d, n);
    } else {
      assert done + q == done;
    }
  }

  /** Every child of a dequeued node has been queued. */
  ghost predicate ChildrenQueued(g: seq<XNode>, done: seq<nat>, q: seq<nat>) {
    forall u, c :: u in done && u < |g| && c in g[u].childNodes ==> c in done + q
  }

  /** Once the queue is empty, the dequeued nodes are closed under children. */
  lemma {:induction false} OnceClosed(g: seq<XNode>, rank: seq<nat>, done: seq<nat>, q: seq<nat>)
    requires Ranked(g, rank) && AllIn(g, q) && ChildrenQueued(g, done, q)
    ensures ChildrenQueued(g, OnceOrder(g, rank, done, q), [])
    decreases SumPaths(g, rank, q)
  {
    if q == [] {
      assert done + q == done;
    } else {
      OnceCost(g, rank, done, q);
      var cs := g[q[0]].childNodes;
      var d, n := done + [q[0]], NextOnce(g, done, q);
      forall u, c | u in d && u < |g| && c in g[u].childNodes ensures c in d + n {
        assert c in done + q || c in Pushed(done + q, cs);
      }
      OnceClosed(g, rank, d, n);
    }
  }

  /** A child-closed list that holds `s` holds every node on a path from `s`. */
  lemma {:induction false} PathStaysIn(g: seq<XNode>, order: seq<nat>, p: seq<nat>, i: nat)
    requires ChildrenQueued(g, order, []) && IsPath(g, p) && p[0] in order && i < |p|
    ensures p[i] in order
    decreases i
  {
    if i > 0 {
      PathStaysIn(g, order, p, i - 1);
      assert p[i] in g[p[i - 1]].childNodes;
      assert order + [] == order;
    }
  }

  /** From the start alone, the visited-set queue dequeues every reachable node exactly once. */
  lemma OnceFromStart(g: seq<XNode>, rank: seq<nat>, s: nat)
    requires Ranked(g, rank) && s < |g|
    ensures Distinct(OnceOrder(g, rank, [], [s]))
    ensures forall x: nat :: x in OnceOrder(g, rank, [], [s]) <==> x < |g| && Reachable(g, s, x)
  {
    var order := OnceOrder(g, rank, [], [s]);
    assert [] + [s] == [s];
    OnceDistinct(g, rank, [], [s]);
    assert PathFromTo(g, [s], s, s);
    OnceSound(g, rank, s, [], [s]);
    OnceKeeps(g, rank, [], [s]);
    OnceClosed(g, rank, [], [s]);
    forall x: nat | x < |g| && Reachable(g, s, x) ensures x in order {
      var p :| PathFromTo(g, p, s, x);
      PathStaysIn(g, order, p, |p| - 1);
    }
  }

  /** The dequeue order of the visited-set queue holds exactly the nodes with a depth. */
  lemma OnceSameNodes(g: seq<XNode>, rank: seq<nat>, start: nat, depth: map<nat, nat>)
    requires Ranked(g, rank) && DepthsSpec(g, start, depth)
    ensures forall x :: x in OnceOrder(g, rank, [], [start]) <==> x in depth
  {
    OnceFromStart(g, rank, start);
    assert KeysReachable(g, start, depth);
  }

  /** The layers of the visited-set grouping: its buckets listed by ascending depth. */
  ghost function OnceLayers(g: seq<XNode>, rank: seq<nat>, start: nat, depth: map<nat, nat>): (layers: seq<seq<nat>>)
    requires Ranked(g, rank) && DepthsSpec(g, start, depth)
    ensures LayersWithin(layers, |g|)
  {
    OnceSameNodes(g, rank, start, depth);
    OnceWithin(g, rank, start, depth);
    Layers(OnceOrder(g, rank, [], [start]), depth, |g|)
  }

  lemma OnceWithin(g: seq<XNode>, rank: seq<nat>, start: nat, depth: map<nat, nat>)
    requires Ranked(g, rank) && DepthsSpec(g, start, depth)
    ensures forall x :: x in OnceOrder(g, rank, [], [start]) ==> x in depth
    ensures LayersWithin(Layers(OnceOrder(g, rank, [], [start]), depth, |g|), |g|)
  {
    var order := OnceOrder(g, rank, [], [start]);
    OnceSameNodes(g, rank, start, depth);
    var layers := LayersByDepth(g, rank, start, depth, order);
    DepthsBelowN(g, start, depth);
    forall k, i | 0 <= k < |layers| && 0 <= i < |layers[k]| ensures layers[k][i] < |g| {
      assert layers[k][i] in FilterDepth(order, depth, k);
    }
  }

  /** Filtering a duplicate-free order leaves a duplicate-free layer. */
  lemma {:induction false} FilterKeepsDistinct(order: seq<nat>, depth: map<nat, nat>, k: nat)
    requires Distinct(order)
    ensures Distinct(FilterDepth(order, depth, k))
    decreases |order|
  {
    if order != [] {
      var init, x := order[..|order| - 1], order[|order| - 1];
      assert order == init + [x];
      DistinctSplit(init, [x]);
      FilterKeepsDistinct(init, depth, k);
      if x in depth && depth[x] == k {
        DistinctJoin(FilterDepth(init, depth, k), [x]);
      }
    }
  }

  /**
   * The layers of the visited-set grouping: max depth + 1 non-empty layers, layer
   * k holding exactly the nodes of depth k, each once, and no node in two layers.
   */
  lemma OnceLayersByDepth(g: seq<XNode>, rank: seq<nat>, start: nat, depth: map<nat, nat>)
    requires Ranked(g, rank) && DepthsSpec(g, start, depth)
    ensures var layers := OnceLayers(g, rank, start, depth);
            && |layers| == MaxDepth(depth, |g|) + 1
            && (forall k :: 0 <= k < |layers| ==> |layers[k]| > 0)
            && (forall k, x :: 0 <= k < |layers| ==> (x in layers[k] <==> x in depth && depth[x] == k))
            && DistinctLayers(layers)
  {
    var order := OnceOrder(g, rank, [], [start]);
    OnceFromStart(g, rank, start);
    OnceSameNodes(g, rank, start, depth);
    var layers := LayersByDepth(g, rank, start, depth, order);
    forall k | 0 <= k < |layers| ensures Distinct(layers[k]) {
      FilterKeepsDistinct(order, depth, k);
    }
    forall a, b | 0 <= a < b < |layers| ensures Disjoint(layers[a], layers[b]) {
      forall x | x in layers[a] ensures x !in layers[b] {
        assert x in depth && depth[x] == a;
      }
    }
  }

  /** While the as-written order stays duplicate-free, both queues push the same children. */
  lemma {:induction false} OnceMatches(g: seq<XNode>, rank: seq<nat>, done: seq<nat>, q: seq<nat>)
    requires Ranked(g, rank) && AllIn(g, q) && Distinct(done + BfsOrder(g, rank, q))
    ensures OnceOrder(g, rank, done, q) == done + BfsOrder(g, rank, q)
    decreases SumPaths(g, rank, q)
  {
    if q != [] {
      BfsStep(g, rank, q);
      OnceCost(g, rank, done, q);
      var cs, d := g[q[0]].childNodes, done + [q[0]];
      var next := NextQueue(g, q);
      assert done + BfsOrder(g, rank, q) == d + BfsOrder(g, rank, next);
      DistinctSplit(d, BfsOrder(g, rank, next));
      forall c | c in cs ensures c !in d {
        ChildRank(g, rank, q[0], c);
        if c in d {
          assert c in q[1..] || c in Pushed(q[1..], cs);
          assert c in next;
          var i :| 0 <= i < |next| && next[i] == c;
          assert PathFromTo(g, [c], c, c);
          BfsComplete(g, rank, next, i, c);
        }
      }
      assert done + q == d + q[1..];
      PushedIgnores(d, q[1..], cs);
      assert NextOnce(g, done, q) == next;
      OnceMatches(g, rank, d, next);
    }
  }

  /** The two groupings dequeue the same nodes in the same order exactly when the as-written one repeats nothing. */
  lemma OnceMatchesWhenDistinct(g: seq<XNode>, rank: seq<nat>, start: nat)
    requires Ranked(g, rank) && start < |g|
    ensures OnceOrder(g, rank, [], [start]) == BfsOrder(g, rank, [start]) <==> Distinct(BfsOrder(g, rank, [start]))
  {
    OnceFromStart(g, rank, start);
    if Distinct(BfsOrder(g, rank, [start])) {
      assert [] + BfsOrder(g, rank, [start]) == BfsOrder(g, rank, [start]);
      OnceMatches(g, rank, [], [start]);
    }
  }
}
