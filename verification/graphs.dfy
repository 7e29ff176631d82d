/**
 * Child links between node indices: well-formedness, acyclicity (witnessed by a
 * rank that grows along every child link), paths, reachability and the number of
 * paths leaving a node, which is the termination measure of the queue loops.
 */
module Graphs {
  import opened Types

  /** Every child and every resolved join is a valid node index. */
  ghost predicate WellFormed(g: seq<XNode>) {
    && (forall v, k :: 0 <= v < |g| && 0 <= k < |g[v].childNodes| ==> g[v].childNodes[k] < |g|)
    && (forall v :: 0 <= v < |g| && g[v].joinNode.Some? ==> g[v].joinNode.value < |g|)
  }

  /**
   * `rank` numbers the nodes 0..N-1 so that every child has a larger rank than its
   * parent: the child links form a DAG.
   */
  ghost predicate Acyclic(g: seq<XNode>, rank: seq<nat>) {
    && |rank| == |g|
    && (forall v :: 0 <= v < |g| ==> rank[v] < |g|)
    && (forall v, k :: 0 <= v < |g| && 0 <= k < |g[v].childNodes| && g[v].childNodes[k] < |g| ==>
          rank[v] < rank[g[v].childNodes[k]])
  }

  ghost predicate Ranked(g: seq<XNode>, rank: seq<nat>) {
    WellFormed(g) && Acyclic(g, rank)
  }

  lemma ChildRank(g: seq<XNode>, rank: seq<nat>, v: nat, c: nat)
    requires Ranked(g, rank) && v < |g| && c in g[v].childNodes
    ensures c < |g| && rank[v] < rank[c]
  {
    var k :| 0 <= k < |g[v].childNodes| && g[v].childNodes[k] == c;
  }

  /** A non-empty sequence of valid indices, each the child of the one before. */
  ghost predicate IsPath(g: seq<XNode>, p: seq<nat>) {
    && |p| > 0
    && (forall i :: 0 <= i < |p| ==> p[i] < |g|)
    && (forall i :: 0 <= i < |p| - 1 ==> p[i + 1] in g[p[i]].childNodes)
  }

  ghost predicate PathFromTo(g: seq<XNode>, p: seq<nat>, s: nat, v: nat) {
    IsPath(g, p) && p[0] == s && p[|p| - 1] == v
  }

  ghost predicate Reachable(g: seq<XNode>, s: nat, v: nat) {
    exists p :: PathFromTo(g, p, s, v)
  }

  lemma PathExtend(g: seq<XNode>, p: seq<nat>, s: nat, v: nat, c: nat)
    requires PathFromTo(g, p, s, v) && c < |g| && c in g[v].childNodes
    ensures PathFromTo(g, p + [c], s, c)
  {
    var q := p + [c];
    forall i | 0 <= i < |q| - 1 ensures q[i + 1] in g[q[i]].childNodes {
      if i < |p| - 1 { assert q[i] == p[i] && q[i + 1] == p[i + 1]; }
    }
  }

  lemma ReachableStep(g: seq<XNode>, s: nat, v: nat, c: nat)
    requires Reachable(g, s, v) && c < |g| && c in g[v].childNodes
    ensures Reachable(g, s, c)
  {
    var p :| PathFromTo(g, p, s, v);
    PathExtend(g, p, s, v, c);
  }

  lemma PathSplit(g: seq<XNode>, p: seq<nat>, k: nat)
    requires IsPath(g, p) && k < |p|
    ensures PathFromTo(g, p[..k + 1], p[0], p[k])
    ensures PathFromTo(g, p[k..], p[k], p[|p| - 1])
  {
    var a, b := p[..k + 1], p[k..];
    forall i | 0 <= i < |a| - 1 ensures a[i + 1] in g[a[i]].childNodes {
      assert a[i] == p[i] && a[i + 1] == p[i + 1];
    }
    forall i | 0 <= i < |b| - 1 ensures b[i + 1] in g[b[i]].childNodes {
      assert b[i] == p[k + i] && b[i + 1] == p[k + i + 1];
    }
  }

  /** A path to `u` followed by a path from `u` is a path. */
  lemma PathJoin(g: seq<XNode>, p: seq<nat>, q: seq<nat>, s: nat, u: nat, v: nat)
    requires PathFromTo(g, p, s, u) && PathFromTo(g, q, u, v)
    ensures PathFromTo(g, p + q[1..], s, v) && |p + q[1..]| == |p| + |q| - 1
  {
    var r := p + q[1..];
    forall i | 0 <= i < |r| ensures r[i] < |g| {
      if i >= |p| { assert r[i] == q[i - |p| + 1]; }
    }
    forall i | 0 <= i < |r| - 1 ensures r[i + 1] in g[r[i]].childNodes {
      if i < |p| - 1 {
        assert r[i] == p[i] && r[i + 1] == p[i + 1];
      } else {
        assert r[i] == q[i - |p| + 1] && r[i + 1] == q[i - |p| + 2];
      }
    }
    if |q| > 1 {
      assert r[|r| - 1] == q[|q| - 1];
    }
  }

  /** Ranks grow strictly along a path, so a path has at most N nodes. */
  lemma {:induction false} PathRank(g: seq<XNode>, rank: seq<nat>, p: seq<nat>)
    requires Ranked(g, rank) && IsPath(g, p)
    ensures rank[p[0]] + |p| - 1 <= rank[p[|p| - 1]]
    ensures |p| <= |g|
    decreases |p|
  {
    if |p| > 1 {
      var q := p[1..];
      assert IsPath(g, q) by {
        forall i | 0 <= i < |q| - 1 ensures q[i + 1] in g[q[i]].childNodes {
          assert q[i] == p[i + 1] && q[i + 1] == p[i + 2];
        }
      }
      PathRank(g, rank, q);
      ChildRank(g, rank, p[0], p[1]);
    }
  }

  /** Ranks never decrease from a node to one reachable from it. */
  lemma ReachableRank(g: seq<XNode>, rank: seq<nat>, s: nat, v: nat)
    requires Ranked(g, rank) && Reachable(g, s, v)
    ensures rank[s] <= rank[v]
  {
    var p :| PathFromTo(g, p, s, v);
    PathRank(g, rank, p);
  }

  /** Number of paths that start at `v`. */
  ghost function PathCount(g: seq<XNode>, rank: seq<nat>, v: nat): (r: nat)
    requires Ranked(g, rank) && v < |g|
    ensures r >= 1
    decreases |g| - rank[v], 1
  {
    1 + ChildPathCount(g, rank, v, 0)
  }

  /** Sum of PathCount over the children of `v` from position `i` on. */
  ghost function ChildPathCount(g: seq<XNode>, rank: seq<nat>, v: nat, i: nat): nat
    requires Ranked(g, rank) && v < |g| && i <= |g[v].childNodes|
    decreases |g| - rank[v], 0, |g[v].childNodes| - i
  {
    if i == |g[v].childNodes| then 0
    else
      var c := g[v].childNodes[i];
      assert rank[v] < rank[c] < |g|;
      PathCount(g, rank, c) + ChildPathCount(g, rank, v, i + 1)
  }

  ghost predicate AllIn(g: seq<XNode>, q: seq<nat>) {
    forall i :: 0 <= i < |q| ==> q[i] < |g|
  }

  /** Sum of PathCount over a queue of nodes. */
  ghost function SumPaths(g: seq<XNode>, rank: seq<nat>, q: seq<nat>): nat
    requires Ranked(g, rank) && AllIn(g, q)
  {
    if q == [] then 0 else PathCount(g, rank, q[0]) + SumPaths(g, rank, q[1..])
  }

  lemma {:induction false} SumPathsAppend(g: seq<XNode>, rank: seq<nat>, a: seq<nat>, b: seq<nat>)
    requires Ranked(g, rank) && AllIn(g, a) && AllIn(g, b)
    ensures AllIn(g, a + b)
    ensures SumPaths(g, rank, a + b) == SumPaths(g, rank, a) + SumPaths(g, rank, b)
  {
    if a == [] {
      assert a + b == b;
    } else {
      assert (a + b)[1..] == a[1..] + b;
      SumPathsAppend(g, rank, a[1..], b);
    }
  }

  lemma {:induction false} ChildPathCountIsSum(g: seq<XNode>, rank: seq<nat>, v: nat, i: nat)
    requires Ranked(g, rank) && v < |g| && i <= |g[v].childNodes|
    ensures AllIn(g, g[v].childNodes[i..])
    ensures ChildPathCount(g, rank, v, i) == SumPaths(g, rank, g[v].childNodes[i..])
    decreases |g[v].childNodes| - i
  {
    var cs := g[v].childNodes;
    if i < |cs| {
      ChildPathCountIsSum(g, rank, v, i + 1);
      assert cs[i..][1..] == cs[i + 1..];
    }
  }

  /** Dequeuing `v` and enqueuing some of its children shrinks the measure. */
  lemma ChildrenCostLess(g: seq<XNode>, rank: seq<nat>, v: nat)
    requires Ranked(g, rank) && v < |g|
    ensures AllIn(g, g[v].childNodes)
    ensures SumPaths(g, rank, g[v].childNodes) < PathCount(g, rank, v)
  {
    ChildPathCountIsSum(g, rank, v, 0);
    assert g[v].childNodes[0..] == g[v].childNodes;
  }
}
