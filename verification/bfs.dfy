/**
 * What groupNodesByDepth of src/AtomicTreeLayout.ts computes: the order in which
 * its queue dequeues nodes, the per-depth buckets it fills, and the layer list it
 * returns once the buckets are sorted by depth.
 *
 * The queue only refuses a child that is still waiting in it (`queue.includes`),
 * not one already dequeued, so a node reached again later is dequeued, and put in
 * its bucket, a second time.
 */
module Bfs {
  import opened Types
  import opened Graphs
  import opened Depths

  /** The children in `cs` that the forEach pushes onto queue `q`: each one not yet queued, in order. */
  function Pushed(q: seq<nat>, cs: seq<nat>): (r: seq<nat>)
    ensures forall c :: c in cs ==> c in q || c in r
    ensures forall c :: c in r ==> c in cs && c !in q
    decreases |cs|
  {
    if cs == [] then []
    else if cs[0] in q then Pushed(q, cs[1..])
    else [cs[0]] + Pushed(q + [cs[0]], cs[1..])
  }

  /** The queue after dequeuing `q[0]` and pushing its children. */
  function NextQueue(g: seq<XNode>, q: seq<nat>): seq<nat>
    requires |q| > 0 && q[0] < |g|
  {
    q[1..] + Pushed(q[1..], g[q[0]].childNodes)
  }

  lemma {:induction false} PushedCost(g: seq<XNode>, rank: seq<nat>, q: seq<nat>, cs: seq<nat>)
    requires Ranked(g, rank) && AllIn(g, cs)
    ensures AllIn(g, Pushed(q, cs))
    ensures SumPaths(g, rank, Pushed(q, cs)) <= SumPaths(g, rank, cs)
    decreases |cs|
  {
    if cs != [] {
      if cs[0] in q {
        PushedCost(g, rank, q, cs[1..]);
      } else {
        PushedCost(g, rank, q + [cs[0]], cs[1..]);
        var r := Pushed(q + [cs[0]], cs[1..]);
        assert ([cs[0]] + r)[1..] == r;
      }
    }
  }

  /** A dequeue-and-push step shrinks the number of paths left to explore. */
  lemma StepCost(g: seq<XNode>, rank: seq<nat>, q: seq<nat>)
    requires Ranked(g, rank) && AllIn(g, q) && |q| > 0
    ensures AllIn(g, NextQueue(g, q))
    ensures SumPaths(g, rank, NextQueue(g, q)) < SumPaths(g, rank, q)
  {
    var cs := g[q[0]].childNodes;
    ChildrenCostLess(g, rank, q[0]);
    PushedCost(g, rank, q[1..], cs);
    SumPathsAppend(g, rank, q[1..], Pushed(q[1..], cs));
  }

  /** The nodes in the order the queue hands them out. */
  ghost function BfsOrder(g: seq<XNode>, rank: seq<nat>, q: seq<nat>): seq<nat>
    requires Ranked(g, rank) && AllIn(g, q)
    decreases SumPaths(g, rank, q)
  {
    if q == [] then []
    else
      StepCost(g, rank, q);
      [q[0]] + BfsOrder(g, rank, NextQueue(g, q))
  }

  /** One dequeue: the head comes out first, then the order of the next queue. */
  lemma BfsStep(g: seq<XNode>, rank: seq<nat>, q: seq<nat>)
    requires Ranked(g, rank) && AllIn(g, q) && |q| > 0
    ensures AllIn(g, NextQueue(g, q)) && SumPaths(g, rank, NextQueue(g, q)) < SumPaths(g, rank, q)
    ensures BfsOrder(g, rank, q) == [q[0]] + BfsOrder(g, rank, NextQueue(g, q))
  {
    StepCost(g, rank, q);
  }

  /** Everything dequeued is reachable from some queued node. */
  lemma {:induction false} BfsSound(g: seq<XNode>, rank: seq<nat>, s: nat, q: seq<nat>)
    requires Ranked(g, rank) && AllIn(g, q)
    requires forall i :: 0 <= i < |q| ==> Reachable(g, s, q[i])
    ensures forall x :: x in BfsOrder(g, rank, q) ==> x < |g| && Reachable(g, s, x)
    decreases SumPaths(g, rank, q)
  {
    if q != [] {
      StepCost(g, rank, q);
      var next := NextQueue(g, q);
      forall i | 0 <= i < |next| ensures Reachable(g, s, next[i]) {
        if i < |q| - 1 {
          assert next[i] == q[i + 1];
        } else {
          assert next[i] in g[q[0]].childNodes;
          ReachableStep(g, s, q[0], next[i]);
        }
      }
      BfsSound(g, rank, s, next);
    }
  }

  /** Everything reachable from a queued node is dequeued at some point. */
  lemma {:induction false} BfsComplete(g: seq<XNode>, rank: seq<nat>, q: seq<nat>, i: nat, x: nat)
    requires Ranked(g, rank) && AllIn(g, q)
    requires i < |q| && Reachable(g, q[i], x)
    ensures x in BfsOrder(g, rank, q)
    decreases SumPaths(g, rank, q)
  {
    StepCost(g, rank, q);
    var next := NextQueue(g, q);
    if i > 0 {
      assert next[i - 1] == q[i];
      BfsComplete(g, rank, next, i - 1, x);
    } else {
      var p :| PathFromTo(g, p, q[0], x);
      if |p| > 1 {
        var c := p[1];
        assert c in g[q[0]].childNodes;
        assert c in q[1..] || c in Pushed(q[1..], g[q[0]].childNodes);
        assert c in next;
        var j :| 0 <= j < |next| && next[j] == c;
        PathSplit(g, p, 1);
        BfsComplete(g, rank, next, j, x);
      }
    }
  }

  /** Starting from the start alone, the queue hands out exactly the reachable nodes. */
  lemma BfsFromStart(g: seq<XNode>, rank: seq<nat>, s: nat)
    requires Ranked(g, rank) && s < |g|
    ensures forall x: nat :: x in BfsOrder(g, rank, [s]) <==> x < |g| && Reachable(g, s, x)
  {
    assert PathFromTo(g, [s], s, s);
    BfsSound(g, rank, s, [s]);
    forall x: nat | x < |g| && Reachable(g, s, x) ensures x in BfsOrder(g, rank, [s]) {
      BfsComplete(g, rank, [s], 0, x);
    }
  }

  /** The nodes of `order` at depth `k`, in their order there. */
  function FilterDepth(order: seq<nat>, depth: map<nat, nat>, k: nat): (r: seq<nat>)
    ensures forall x :: x in r <==> x in order && x in depth && depth[x] == k
  {
    if order == [] then []
    else
      var x := order[|order| - 1];
      assert order == order[..|order| - 1] + [x];
      FilterDepth(order[..|order| - 1], depth, k) + (if x in depth && depth[x] == k then [x] else [])
  }

  lemma {:induction false} FilterNone(order: seq<nat>, depth: map<nat, nat>, k: nat)
    requires forall x :: x in order && x in depth ==> depth[x] != k
    ensures FilterDepth(order, depth, k) == []
  {
    if order != [] {
      assert forall x :: x in order[..|order| - 1] ==> x in order;
      FilterNone(order[..|order| - 1], depth, k);
    }
  }

  /** The buckets groupNodesByDepth has filled after dequeuing `order`. */
  function Group(order: seq<nat>, depth: map<nat, nat>): map<nat, seq<nat>>
    requires forall x :: x in order ==> x in depth
  {
    if order == [] then map[]
    else
      var x := order[|order| - 1];
      var m := Group(order[..|order| - 1], depth);
      m[depth[x] := (if depth[x] in m then m[depth[x]] else []) + [x]]
  }

  /** Dequeuing one more node appends it to the bucket of its depth. */
  lemma GroupAppend(order: seq<nat>, depth: map<nat, nat>, x: nat)
    requires (forall y :: y in order ==> y in depth) && x in depth
    ensures forall y :: y in order + [x] ==> y in depth
    ensures var m := Group(order, depth);
            Group(order + [x], depth) == m[depth[x] := (if depth[x] in m then m[depth[x]] else []) + [x]]
  {
    assert (order + [x])[..|order|] == order;
  }

  /** Bucket `k` holds the dequeued nodes of depth `k`, in dequeue order; it exists iff one does. */
  lemma {:induction false} GroupIsFilter(order: seq<nat>, depth: map<nat, nat>)
    requires forall x :: x in order ==> x in depth
    ensures forall k :: k in Group(order, depth) <==> exists x :: x in order && depth[x] == k
    ensures forall k :: k in Group(order, depth) ==> Group(order, depth)[k] == FilterDepth(order, depth, k)
    decreases |order|
  {
    if order != [] {
      var init := order[..|order| - 1];
      var x := order[|order| - 1];
      assert order == init + [x];
      GroupIsFilter(init, depth);
      var m := Group(init, depth);
      forall k | k in Group(order, depth) ensures Group(order, depth)[k] == FilterDepth(order, depth, k) {
        if k == depth[x] && k !in m {
          FilterNone(init, depth, k);
        }
      }
    }
  }

  /** The values of `m` for keys below `n`, in ascending key order. */
  function ValuesInKeyOrder<V>(m: map<nat, V>, n: nat): (r: seq<V>)
    ensures |r| <= n
  {
    if n == 0 then [] else ValuesInKeyOrder(m, n - 1) + (if n - 1 in m then [m[n - 1]] else [])
  }

  /** When the keys below `n` are exactly 0..c-1, sorting by key lists the values by index. */
  lemma {:induction false} ValuesOfRange<V>(m: map<nat, V>, n: nat, c: nat)
    requires c <= n && forall k: nat :: k < n ==> (k in m <==> k < c)
    ensures |ValuesInKeyOrder(m, n)| == c
    ensures forall k: nat :: k < c ==> ValuesInKeyOrder(m, n)[k] == m[k]
  {
    if n > c {
      ValuesOfRange(m, n - 1, c);
    } else if n > 0 {
      ValuesOfRange(m, n - 1, n - 1);
    }
  }

  /** The layer list groupNodesByDepth returns: the buckets of the dequeue order, sorted by depth. */
  function Layers(order: seq<nat>, depth: map<nat, nat>, n: nat): seq<seq<nat>>
    requires forall x :: x in order ==> x in depth
  {
    ValuesInKeyOrder(Group(order, depth), n)
  }

  /**
   * For the dequeue order from the start, the returned layers are indexed by depth,
   * 0 up to the largest: layer k holds, in dequeue order, the dequeued nodes of
   * depth k, is never empty, and every reachable node is in the layer of its depth.
   */
  lemma LayersByDepth(g: seq<XNode>, rank: seq<nat>, start: nat, depth: map<nat, nat>, order: seq<nat>)
      returns (layers: seq<seq<nat>>)
    requires Ranked(g, rank) && DepthsSpec(g, start, depth)
    requires forall x :: x in order <==> x in depth
    ensures layers == Layers(order, depth, |g|)
    ensures |layers| == MaxDepth(depth, |g|) + 1
    ensures forall k :: 0 <= k < |layers| ==> layers[k] == FilterDepth(order, depth, k) && |layers[k]| > 0
    ensures forall v :: v in depth ==> depth[v] < |layers| && v in layers[depth[v]]
  {
    layers := Layers(order, depth, |g|);
    GroupKeys(g, rank, start, depth, order);
    var top := MaxDepthAttained(g, rank, start, depth);
    SortedBuckets(order, depth, |g|, MaxDepth(depth, |g|) + 1, layers);
    DepthsBelowN(g, start, depth);
  }

  lemma DepthsBelowN(g: seq<XNode>, start: nat, depth: map<nat, nat>)
    requires DepthsSpec(g, start, depth)
    ensures forall v :: v in depth ==> v < |g| && depth[v] <= MaxDepth(depth, |g|)
  {
    assert KeysReachable(g, start, depth);
  }

  /** The dequeued nodes are exactly the nodes with a depth. */
  lemma SameNodes(g: seq<XNode>, rank: seq<nat>, start: nat, depth: map<nat, nat>)
    requires Ranked(g, rank) && DepthsSpec(g, start, depth)
    ensures forall x :: x in BfsOrder(g, rank, [start]) <==> x in depth
  {
    BfsFromStart(g, rank, start);
    assert KeysReachable(g, start, depth);
  }

  /** Buckets keyed 0..c-1, listed by key: list entry k is the depth-k filter of the order. */
  lemma SortedBuckets(order: seq<nat>, depth: map<nat, nat>, n: nat, c: nat, layers: seq<seq<nat>>)
    requires forall x :: x in order ==> x in depth
    requires c <= n && forall k: nat :: k < n ==> (k in Group(order, depth) <==> k < c)
    requires layers == ValuesInKeyOrder(Group(order, depth), n)
    ensures |layers| == c
    ensures forall k :: 0 <= k < c ==> layers[k] == FilterDepth(order, depth, k) && |layers[k]| > 0
  {
    var m := Group(order, depth);
    GroupIsFilter(order, depth);
    ValuesOfRange(m, n, c);
    forall k | 0 <= k < c ensures |m[k]| > 0 {
      assert k in m;
      var x :| x in order && depth[x] == k;
    }
  }

  /** The buckets are keyed by exactly the depths 0..MaxDepth. */
  lemma GroupKeys(g: seq<XNode>, rank: seq<nat>, start: nat, depth: map<nat, nat>, order: seq<nat>)
    requires Ranked(g, rank) && DepthsSpec(g, start, depth)
    requires forall x :: x in order <==> x in depth
    ensures forall k: nat :: k < |g| ==> (k in Group(order, depth) <==> k < MaxDepth(depth, |g|) + 1)
  {
    GroupIsFilter(order, depth);
    var m := Group(order, depth);
    var top := MaxDepthAttained(g, rank, start, depth);
    forall k: nat | k < |g| ensures k in m <==> k < MaxDepth(depth, |g|) + 1 {
      if k in m {
        var x :| x in order && depth[x] == k;
      }
      if k < MaxDepth(depth, |g|) + 1 {
        var w := GapFree(g, start, depth, top, k);
        assert w in order;
      }
    }
  }
}
