/**
 * What calculateNodeDepths of src/AtomicTreeLayout.ts computes: the longest-path
 * depth from the start of every node reachable from it, and the facts the layer
 * grouping relies on (depths are bounded and gap-free).
 */
module Depths {
  import opened Types
  import opened Graphs

  /** Every child of `u` has a depth, at least one more than `u`'s. */
  ghost predicate Closed(g: seq<XNode>, depth: map<nat, nat>, u: nat)
    requires u < |g| && u in depth
  {
    forall c :: c in g[u].childNodes ==> c in depth && depth[c] >= depth[u] + 1
  }

  /** `v` is the start or owes its depth to a parent at most one level above. */
  ghost predicate Justified(g: seq<XNode>, start: nat, depth: map<nat, nat>, v: nat)
    requires v in depth
  {
    v == start || exists u :: u in depth && u < |g| && v in g[u].childNodes && depth[v] <= depth[u] + 1
  }

  /** `depth[v]` is the number of edges on a longest path from `start` to `v`. */
  ghost predicate LongestTo(g: seq<XNode>, start: nat, depth: map<nat, nat>, v: nat)
    requires v in depth
  {
    && (exists p :: PathFromTo(g, p, start, v) && |p| == depth[v] + 1)
    && (forall p :: PathFromTo(g, p, start, v) ==> |p| <= depth[v] + 1)
  }

  /**
   * The depth map of calculateNodeDepths: the start at 0, exactly the reachable
   * nodes have a depth, every child lies deeper than its parent, and each depth is
   * a longest-path length.
   */
  ghost predicate DepthsSpec(g: seq<XNode>, start: nat, depth: map<nat, nat>) {
    && start < |g| && start in depth && depth[start] == 0
    && KeysReachable(g, start, depth)
    && AllClosed(g, depth)
    && AllLongest(g, start, depth)
  }

  /** Exactly the nodes reachable from `start` have a depth. */
  ghost predicate KeysReachable(g: seq<XNode>, start: nat, depth: map<nat, nat>) {
    forall v: nat :: v in depth <==> v < |g| && Reachable(g, start, v)
  }

  ghost predicate AllClosed(g: seq<XNode>, depth: map<nat, nat>) {
    forall u :: u in depth ==> u < |g| && Closed(g, depth, u)
  }

  ghost predicate AllJustified(g: seq<XNode>, start: nat, depth: map<nat, nat>) {
    forall u :: u in depth ==> Justified(g, start, depth, u)
  }

  ghost predicate AllLongest(g: seq<XNode>, start: nat, depth: map<nat, nat>) {
    forall v {:trigger LongestTo(g, start, depth, v)} :: v in depth ==> LongestTo(g, start, depth, v)
  }

  /** Along a path from a node with a depth, depths grow by at least one per edge. */
  lemma {:induction false} ClosedClimbs(g: seq<XNode>, depth: map<nat, nat>, p: seq<nat>)
    requires AllClosed(g, depth)
    requires IsPath(g, p) && p[0] in depth
    ensures p[|p| - 1] in depth && depth[p[0]] + |p| - 1 <= depth[p[|p| - 1]]
    decreases |p|
  {
    if |p| > 1 {
      var q := p[..|p| - 1];
      assert IsPath(g, q) by {
        forall i | 0 <= i < |q| - 1 ensures q[i + 1] in g[q[i]].childNodes {
          assert q[i] == p[i] && q[i + 1] == p[i + 1];
        }
      }
      ClosedClimbs(g, depth, q);
      assert Closed(g, depth, q[|q| - 1]);
    }
  }

  /** With closure and justification, some path from the start has exactly `depth[v]` edges. */
  lemma {:induction false} JustifiedPath(g: seq<XNode>, start: nat, depth: map<nat, nat>, v: nat)
      returns (p: seq<nat>)
    requires start < |g| && start in depth && depth[start] == 0
    requires AllClosed(g, depth)
    requires AllJustified(g, start, depth)
    requires v in depth
    ensures PathFromTo(g, p, start, v) && |p| == depth[v] + 1
    decreases depth[v]
  {
    if v == start {
      p := [start];
    } else {
      var u :| u in depth && u < |g| && v in g[u].childNodes && depth[v] <= depth[u] + 1;
      assert Closed(g, depth, u);
      var q := JustifiedPath(g, start, depth, u);
      PathExtend(g, q, start, u, v);
      p := q + [v];
    }
  }

  /** The end state of the queue loop meets DepthsSpec. */
  lemma FinalDepths(g: seq<XNode>, start: nat, depth: map<nat, nat>)
    requires start < |g| && start in depth && depth[start] == 0
    requires forall v :: v in depth ==> v < |g| && Reachable(g, start, v)
    requires AllClosed(g, depth)
    requires AllJustified(g, start, depth)
    ensures DepthsSpec(g, start, depth)
  {
    AllReachableHaveDepth(g, start, depth);
    forall v | v in depth ensures LongestTo(g, start, depth, v) {
      FinalLongest(g, start, depth, v);
    }
  }

  lemma ReachableHasDepth(g: seq<XNode>, start: nat, depth: map<nat, nat>, v: nat)
    requires start in depth && AllClosed(g, depth) && Reachable(g, start, v)
    ensures v in depth
  {
    var p :| PathFromTo(g, p, start, v);
    ClosedClimbs(g, depth, p);
  }

  lemma AllReachableHaveDepth(g: seq<XNode>, start: nat, depth: map<nat, nat>)
    requires start in depth && AllClosed(g, depth)
    ensures forall v: nat :: Reachable(g, start, v) ==> v in depth
  {
    forall v | Reachable(g, start, v) ensures v in depth {
      ReachableHasDepth(g, start, depth, v);
    }
  }

  lemma FinalLongest(g: seq<XNode>, start: nat, depth: map<nat, nat>, v: nat)
    requires start < |g| && start in depth && depth[start] == 0
    requires AllClosed(g, depth)
    requires AllJustified(g, start, depth)
    requires v in depth
    ensures LongestTo(g, start, depth, v)
  {
    var w := JustifiedPath(g, start, depth, v);
    forall p | PathFromTo(g, p, start, v) ensures |p| <= depth[v] + 1 {
      ClosedClimbs(g, depth, p);
    }
  }

  /** A depth is less than the number of nodes. */
  lemma DepthBound(g: seq<XNode>, rank: seq<nat>, start: nat, depth: map<nat, nat>, v: nat)
    requires Ranked(g, rank) && DepthsSpec(g, start, depth) && v in depth
    ensures depth[v] < |g|
  {
    assert LongestTo(g, start, depth, v);
    var p :| PathFromTo(g, p, start, v) && |p| == depth[v] + 1;
    PathRank(g, rank, p);
  }

  /** The start is the only node at depth 0. */
  lemma OnlyStartAtZero(g: seq<XNode>, start: nat, depth: map<nat, nat>, v: nat)
    requires DepthsSpec(g, start, depth) && v in depth && depth[v] == 0
    ensures v == start
  {
    assert LongestTo(g, start, depth, v);
    var p :| PathFromTo(g, p, start, v) && |p| == depth[v] + 1;
  }

  /**
   * Depths have no gaps: below every depth each smaller depth is taken, by the node
   * at that position on a longest path.
   */
  lemma GapFree(g: seq<XNode>, start: nat, depth: map<nat, nat>, v: nat, k: nat) returns (w: nat)
    requires start in depth && depth[start] == 0 && AllClosed(g, depth) && AllLongest(g, start, depth)
    requires v in depth && k <= depth[v]
    ensures w in depth && depth[w] == k
  {
    assert LongestTo(g, start, depth, v);
    var p :| PathFromTo(g, p, start, v) && |p| == depth[v] + 1;
    PathSplit(g, p, k);
    w := p[k];
    var pre, post := p[..k + 1], p[k..];
    ClosedClimbs(g, depth, pre);
    assert pre[|pre| - 1] == w;
    assert LongestTo(g, start, depth, w);
    var q :| PathFromTo(g, q, start, w) && |q| == depth[w] + 1;
    PathJoin(g, q, post, start, w, v);
    var r := q + post[1..];
    assert |r| <= depth[v] + 1;
  }

  /**
   * The largest depth among the nodes below `n`, or 0 if there is none; with every
   * key below `n` this is `Math.max` over the values of the depth map.
   */
  function MaxDepth(depth: map<nat, nat>, n: nat): (r: nat)
    ensures forall v: nat :: v < n && v in depth ==> depth[v] <= r
    ensures r == 0 || exists v: nat :: v < n && v in depth && depth[v] == r
  {
    if n == 0 then 0
    else
      var rest := MaxDepth(depth, n - 1);
      if n - 1 in depth && depth[n - 1] > rest then depth[n - 1] else rest
  }

  /** Under DepthsSpec the maximum is the depth of some reachable node and below N. */
  lemma MaxDepthAttained(g: seq<XNode>, rank: seq<nat>, start: nat, depth: map<nat, nat>) returns (v: nat)
    requires Ranked(g, rank) && DepthsSpec(g, start, depth)
    ensures v in depth && depth[v] == MaxDepth(depth, |g|) && MaxDepth(depth, |g|) < |g|
  {
    var r := MaxDepth(depth, |g|);
    if r == 0 {
      v := start;
    } else {
      v :| v < |g| && v in depth && depth[v] == r;
    }
    DepthBound(g, rank, start, depth, v);
  }

  /** DepthsSpec leaves no choice: two depth maps that meet it are the same map. */
  lemma DepthsUnique(g: seq<XNode>, start: nat, d1: map<nat, nat>, d2: map<nat, nat>)
    requires DepthsSpec(g, start, d1) && DepthsSpec(g, start, d2)
    ensures d1 == d2
  {
    forall v | v in d1 ensures v in d2 && d1[v] == d2[v] {
      assert v < |g| && Reachable(g, start, v);
      assert LongestTo(g, start, d1, v) && LongestTo(g, start, d2, v);
      var p1 :| PathFromTo(g, p1, start, v) && |p1| == d1[v] + 1;
      var p2 :| PathFromTo(g, p2, start, v) && |p2| == d2[v] + 1;
    }
    forall v | v in d2 ensures v in d1 {
      assert v < |g| && Reachable(g, start, v);
    }
  }
}
