/**
 * The branch-unit helpers of src/Layout.ts: the depth-first walk between a branch
 * node and its join node (dfs, getNodesBetween), the atomic-unit test
 * (isAtomicTree, getAtomicTree), the chain height (getBranchMaximumHeight) and the
 * layout of one unit (layoutMinimumBranchTree).
 *
 * A node reference a caller passes is a `NodeRef`: `undefined`, `null` or a node
 * index; `joinNode` fields are read through `JoinRef`, so an unset join is `null`. The filter
 * callbacks are read with their evident predicate (`node.isBranchNode`), as in
 * module LayoutLookup.
 */
module LayoutBranches {
  import opened Types
  import opened Seqs
  import opened Graphs
  import opened Depths
  import opened Placement
  import opened AtomicLayout

  /** The module-level `conf` of src/Layout.ts. */
  const Conf := LayoutConfig(100.0, 64.0)

  // ---------------------------------------------------------------- dfs

  /**
   * The nodes dfs(v, e, ·) pushes, in push order: `v`, then, unless `v` has the
   * end's id, the walk below each child in turn. Nothing is deduplicated: a node
   * is pushed once per path that reaches it.
   */
  ghost function Between(g: seq<XNode>, rank: seq<nat>, v: nat, e: nat): seq<nat>
    requires Ranked(g, rank) && v < |g| && e < |g|
    decreases |g| - rank[v], 1
  {
    [v] + if g[v].id == g[e].id then [] else BetweenFrom(g, rank, v, e, 0)
  }

  /** The walks below the children of `v` from the `i`-th on, concatenated. */
  ghost function BetweenFrom(g: seq<XNode>, rank: seq<nat>, v: nat, e: nat, i: nat): seq<nat>
    requires Ranked(g, rank) && v < |g| && e < |g| && i <= |g[v].childNodes|
    decreases |g| - rank[v], 0, |g[v].childNodes| - i
  {
    if i == |g[v].childNodes| then []
    else
      var c := g[v].childNodes[i];
      ChildRank(g, rank, v, c);
      Between(g, rank, c, e) + BetweenFrom(g, rank, v, e, i + 1)
  }

  /** dfs: push `node`, stop at the end's id, otherwise recurse into each child in order. */
  method Dfs(g: seq<XNode>, ghost rank: seq<nat>, node: nat, endNode: nat, allNodes0: seq<nat>)
      returns (allNodes: seq<nat>)
    requires Ranked(g, rank) && node < |g| && endNode < |g|
    ensures allNodes == allNodes0 + Between(g, rank, node, endNode)
    decreases |g| - rank[node]
  {
    allNodes := allNodes0 + [node];
    if g[node].id == g[endNode].id {
      return;
    }
    var cs := g[node].childNodes;
    for i := 0 to |cs|
      invariant allNodes + BetweenFrom(g, rank, node, endNode, i) == allNodes0 + Between(g, rank, node, endNode)
    {
      ChildRank(g, rank, node, cs[i]);
      allNodes := Dfs(g, rank, cs[i], endNode, allNodes);
    }
  }

  /** getNodesBetween: the walk from `startNode` into a fresh list. */
  method GetNodesBetween(g: seq<XNode>, ghost rank: seq<nat>, startNode: nat, endNode: nat) returns (allNodes: seq<nat>)
    requires Ranked(g, rank) && startNode < |g| && endNode < |g|
    ensures allNodes == Between(g, rank, startNode, endNode)
  {
    allNodes := Dfs(g, rank, startNode, endNode, []);
  }

  /** The walk starts with its start node, and a start with the end's id is the whole walk. */
  lemma BetweenHead(g: seq<XNode>, rank: seq<nat>, v: nat, e: nat)
    requires Ranked(g, rank) && v < |g| && e < |g|
    ensures |Between(g, rank, v, e)| > 0 && Between(g, rank, v, e)[0] == v
    ensures g[v].id == g[e].id ==> Between(g, rank, v, e) == [v]
  {
  }

  /** A four-node diamond a -> b, a -> c, b -> d, c -> d with end d. */
  function Diamond(): seq<XNode> {
    [ XNode("a", 0.0, 10.0, 10.0, [1, 2], true, "d", Some(3)),
      XNode("b", 0.0, 10.0, 10.0, [3], false, "", None),
      XNode("c", 0.0, 10.0, 10.0, [3], false, "", None),
      XNode("d", 0.0, 10.0, 10.0, [], false, "", None) ]
  }

  lemma DiamondRanked()
    ensures Ranked(Diamond(), [0, 1, 2, 3])
  {
    var g, rank := Diamond(), [0, 1, 2, 3];
    assert g[0].childNodes == [1, 2] && g[1].childNodes == [3] && g[2].childNodes == [3] && g[3].childNodes == [];
  }

  /** The walk does not deduplicate: in the diamond the join node is pushed once per branch. */
  lemma DiamondWalkRepeatsJoin()
    ensures Ranked(Diamond(), [0, 1, 2, 3])
    ensures Between(Diamond(), [0, 1, 2, 3], 0, 3) == [0, 1, 3, 2, 3]
  {
    DiamondRanked();
    var g, rank := Diamond(), [0, 1, 2, 3];
    assert Between(g, rank, 1, 3) == [1, 3] by {
      assert Between(g, rank, 3, 3) == [3];
    }
    assert Between(g, rank, 2, 3) == [2, 3] by {
      assert Between(g, rank, 3, 3) == [3];
    }
    assert BetweenFrom(g, rank, 0, 3, 1) == [2, 3];
  }

  /** A node reachable from a child of `v` is reachable from `v`. */
  lemma ReachableViaChild(g: seq<XNode>, v: nat, c: nat, x: nat)
    requires v < |g| && c in g[v].childNodes && Reachable(g, c, x)
    ensures Reachable(g, v, x)
  {
    var q :| PathFromTo(g, q, c, x);
    var p := [v, c];
    assert PathFromTo(g, p, v, c);
    PathJoin(g, p, q, v, c, x);
  }

  /** Every node the walk pushes is reachable from where it started. */
  lemma {:induction false} BetweenReachable(g: seq<XNode>, rank: seq<nat>, v: nat, e: nat)
    requires Ranked(g, rank) && v < |g| && e < |g|
    ensures forall x :: x in Between(g, rank, v, e) ==> Reachable(g, v, x)
    decreases |g| - rank[v], 1
  {
    assert PathFromTo(g, [v], v, v);
    if g[v].id != g[e].id {
      BetweenFromReachable(g, rank, v, e, 0);
    }
  }

  lemma {:induction false} BetweenFromReachable(g: seq<XNode>, rank: seq<nat>, v: nat, e: nat, i: nat)
    requires Ranked(g, rank) && v < |g| && e < |g| && i <= |g[v].childNodes|
    ensures forall x :: x in BetweenFrom(g, rank, v, e, i) ==> Reachable(g, v, x)
    decreases |g| - rank[v], 0, |g[v].childNodes| - i
  {
    if i < |g[v].childNodes| {
      var c := g[v].childNodes[i];
      ChildRank(g, rank, v, c);
      BetweenReachable(g, rank, c, e);
      BetweenFromReachable(g, rank, v, e, i + 1);
      forall x | x in Between(g, rank, c, e) ensures Reachable(g, v, x) {
        ReachableViaChild(g, v, c, x);
      }
    }
  }

  /** Each child from the `i`-th on heads its own walk inside BetweenFrom. */
  lemma {:induction false} ChildrenInBetweenFrom(g: seq<XNode>, rank: seq<nat>, v: nat, e: nat, i: nat)
    requires Ranked(g, rank) && v < |g| && e < |g| && i <= |g[v].childNodes|
    ensures forall k :: i <= k < |g[v].childNodes| ==> g[v].childNodes[k] in BetweenFrom(g, rank, v, e, i)
    decreases |g[v].childNodes| - i
  {
    if i < |g[v].childNodes| {
      var c := g[v].childNodes[i];
      ChildRank(g, rank, v, c);
      BetweenHead(g, rank, c, e);
      ChildrenInBetweenFrom(g, rank, v, e, i + 1);
    }
  }

  /**
   * The walk is closed under the children of every node it pushes that is not
   * the end: nothing between the start and the end is missed.
   */
  lemma {:induction false} BetweenClosed(g: seq<XNode>, rank: seq<nat>, v: nat, e: nat)
    requires Ranked(g, rank) && v < |g| && e < |g|
    ensures forall y, c :: y in Between(g, rank, v, e) && y < |g| && g[y].id != g[e].id && c in g[y].childNodes ==>
              c in Between(g, rank, v, e)
    decreases |g| - rank[v], 1
  {
    if g[v].id != g[e].id {
      ChildrenInBetweenFrom(g, rank, v, e, 0);
      BetweenFromClosed(g, rank, v, e, 0);
    }
  }

  lemma {:induction false} BetweenFromClosed(g: seq<XNode>, rank: seq<nat>, v: nat, e: nat, i: nat)
    requires Ranked(g, rank) && v < |g| && e < |g| && i <= |g[v].childNodes|
    ensures forall y, c :: y in BetweenFrom(g, rank, v, e, i) && y < |g| && g[y].id != g[e].id && c in g[y].childNodes ==>
              c in BetweenFrom(g, rank, v, e, i)
    decreases |g| - rank[v], 0, |g[v].childNodes| - i
  {
    if i < |g[v].childNodes| {
      var c := g[v].childNodes[i];
      ChildRank(g, rank, v, c);
      BetweenClosed(g, rank, c, e);
      BetweenFromClosed(g, rank, v, e, i + 1);
    }
  }

  /**
   * The walk adds nothing else: every node it pushes is the start or a child of a
   * pushed node that is not the end. In particular the end's own children are
   * pushed only when some other pushed node also has them.
   */
  lemma {:induction false} BetweenMinimal(g: seq<XNode>, rank: seq<nat>, v: nat, e: nat)
    requires Ranked(g, rank) && v < |g| && e < |g|
    ensures forall x :: x in Between(g, rank, v, e) ==>
              x == v || exists y :: y in Between(g, rank, v, e) && y < |g| && g[y].id != g[e].id && x in g[y].childNodes
    decreases |g| - rank[v], 1
  {
    if g[v].id != g[e].id {
      var b := Between(g, rank, v, e);
      BetweenFromMinimal(g, rank, v, e, 0);
      forall x | x in b && x != v
        ensures exists y :: y in b && y < |g| && g[y].id != g[e].id && x in g[y].childNodes
      {
        assert x in BetweenFrom(g, rank, v, e, 0);
        if x in g[v].childNodes {
          assert v in b;
        } else {
          var y :| y in BetweenFrom(g, rank, v, e, 0) && y < |g| && g[y].id != g[e].id && x in g[y].childNodes;
          assert y in b;
        }
      }
    }
  }

  lemma {:induction false} BetweenFromMinimal(g: seq<XNode>, rank: seq<nat>, v: nat, e: nat, i: nat)
    requires Ranked(g, rank) && v < |g| && e < |g| && i <= |g[v].childNodes|
    ensures forall x :: x in BetweenFrom(g, rank, v, e, i) ==>
              x in g[v].childNodes[i..] ||
              exists y :: y in BetweenFrom(g, rank, v, e, i) && y < |g| && g[y].id != g[e].id && x in g[y].childNodes
    decreases |g| - rank[v], 0, |g[v].childNodes| - i
  {
    if i < |g[v].childNodes| {
      var cs := g[v].childNodes;
      var c := cs[i];
      ChildRank(g, rank, v, c);
      var here, rest := Between(g, rank, c, e), BetweenFrom(g, rank, v, e, i + 1);
      assert BetweenFrom(g, rank, v, e, i) == here + rest;
      BetweenMinimal(g, rank, c, e);
      BetweenFromMinimal(g, rank, v, e, i + 1);
      forall x | x in here + rest
        ensures x in cs[i..] ||
                exists y :: y in here + rest && y < |g| && g[y].id != g[e].id && x in g[y].childNodes
      {
        if x in here {
          if x == c {
            assert cs[i..][0] == c;
          } else {
            var y :| y in here && y < |g| && g[y].id != g[e].id && x in g[y].childNodes;
            assert y in here + rest;
          }
        } else if x in cs[i + 1..] {
          assert cs[i + 1..] == cs[i..][1..];
        } else {
          var y :| y in rest && y < |g| && g[y].id != g[e].id && x in g[y].childNodes;
          assert y in here + rest;
        }
      }
    }
  }

  // ---------------------------------------------------------------- isAtomicTree, getAtomicTree

  /** No node of `s` is a branch node. */
  predicate NoBranch(g: seq<XNode>, s: seq<nat>) {
    forall x :: x in s && x < |g| ==> !g[x].isBranchNode
  }

  /** `nodes.filter(node => node.isBranchNode)` over node indices. */
  function BranchNodes(g: seq<XNode>, s: seq<nat>): (r: seq<nat>)
    ensures forall x :: x in r <==> x in s && x < |g| && g[x].isBranchNode
    ensures r == [] <==> NoBranch(g, s)
  {
    if s == [] then []
    else (if s[0] < |g| && g[s[0]].isBranchNode then [s[0]] else []) + BranchNodes(g, s[1..])
  }

  /**
   * isAtomicTree: throws when the start is `undefined`, the end is `undefined` or
   * `null` (the loose `==`), or both carry the same id; reading the id of a `null`
   * start is a TypeError. Otherwise returns the walk between them if it holds no
   * branch node, and [] if it does.
   */
  method IsAtomicTree(g: seq<XNode>, ghost rank: seq<nat>, startNode: NodeRef, endNode: NodeRef)
      returns (r: Result<seq<nat>>)
    requires Ranked(g, rank) && RefWithin(startNode, |g|) && RefWithin(endNode, |g|)
    ensures r.Err? <==> !startNode.Node? || !endNode.Node? || g[startNode.index].id == g[endNode.index].id
    ensures r.Err? ==> r.error == if startNode.Null? && endNode.Node? then NullReference else NoElementBetween
    ensures r.Ok? ==> var b := Between(g, rank, startNode.index, endNode.index);
                      r.value == if NoBranch(g, b) then b else []
    ensures r.Ok? && g[startNode.index].isBranchNode ==> r.value == []
  {
    if startNode.Undefined? || !endNode.Node? {
      return Err(NoElementBetween);
    }
    if startNode.Null? {
      return Err(NullReference);
    }
    if g[startNode.index].id == g[endNode.index].id {
      return Err(NoElementBetween);
    }
    var allNodes := GetNodesBetween(g, rank, startNode.index, endNode.index);
    BetweenReachable(g, rank, startNode.index, endNode.index);
    forall x | x in allNodes ensures x < |g| {
      var p :| PathFromTo(g, p, startNode.index, x);
    }
    var allBranchNodes := BranchNodes(g, allNodes);
    var rs := [];
    if |allBranchNodes| == 0 {
      rs := allNodes;
    }
    r := Ok(rs);
    if g[startNode.index].isBranchNode {
      BranchStartIsNotAtomic(g, rank, startNode.index, endNode.index);
    }
  }

  /** A walk that starts at a branch node holds a branch node, so isAtomicTree returns [] for it. */
  lemma BranchStartIsNotAtomic(g: seq<XNode>, rank: seq<nat>, s: nat, e: nat)
    requires Ranked(g, rank) && s < |g| && e < |g| && g[s].isBranchNode
    ensures !NoBranch(g, Between(g, rank, s, e))
  {
    BetweenHead(g, rank, s, e);
    assert s in Between(g, rank, s, e);
  }

  /** isAtomicTree(node, node.joinNode) throws for this branch node: its join is `null` or has its id. */
  predicate JoinMissing(g: seq<XNode>, i: nat)
    requires i < |g|
  {
    match g[i].joinNode
    case None => true
    case Some(j) => j < |g| && g[i].id == g[j].id
  }

  /**
   * getAtomicTree: asks isAtomicTree(node, node.joinNode) for every branch node in
   * list order, stops at the first throw, and keeps the non-empty answers. Since
   * the walk from a branch node contains that node, no answer is non-empty.
   */
  method GetAtomicTree(g: seq<XNode>, ghost rank: seq<nat>) returns (r: Result<map<nat, seq<nat>>>)
    requires Ranked(g, rank)
    ensures r.Err? <==> exists i :: 0 <= i < |g| && g[i].isBranchNode && JoinMissing(g, i)
    ensures r.Err? ==> r.error == NoElementBetween
    ensures r.Ok? ==> r.value == map[]
  {
    var rs: map<nat, seq<nat>> := map[];
    var allBranchNodes := BranchNodes(g, Indices(|g|));
    assert forall m :: 0 <= m < |allBranchNodes| ==> allBranchNodes[m] in allBranchNodes;
    for k := 0 to |allBranchNodes|
      invariant forall m :: 0 <= m < k ==> allBranchNodes[m] < |g| && !JoinMissing(g, allBranchNodes[m])
      invariant rs == map[]
    {
      var node := allBranchNodes[k];
      var atomicTree := IsAtomicTree(g, rank, Node(node), JoinRef(g[node].joinNode));
      if atomicTree.Err? {
        assert node < |g| && g[node].isBranchNode && JoinMissing(g, node);
        return Err(atomicTree.error);
      }
      if |atomicTree.value| > 0 {
        // rs.set(node, atomicTree) is never reached: the walk from `node` holds `node` itself.
        assert false;
      }
      assert allBranchNodes[k] < |g| && !JoinMissing(g, allBranchNodes[k]);
    }
    EveryBranchAsked(g, allBranchNodes);
    r := Ok(rs);
  }

  /** Every branch node of the list is among those getAtomicTree asks about. */
  lemma EveryBranchAsked(g: seq<XNode>, bs: seq<nat>)
    requires WellFormed(g) && bs == BranchNodes(g, Indices(|g|))
    requires forall m :: 0 <= m < |bs| ==> bs[m] < |g| && !JoinMissing(g, bs[m])
    ensures forall i :: 0 <= i < |g| && g[i].isBranchNode ==> !JoinMissing(g, i)
  {
    forall i | 0 <= i < |g| && g[i].isBranchNode ensures !JoinMissing(g, i) {
      assert Indices(|g|)[i] == i;
      assert i in bs;
      var m :| 0 <= m < |bs| && bs[m] == i;
    }
  }

  // ---------------------------------------------------------------- getBranchMaximumHeight

  function Max(a: real, b: real): (r: real)
    ensures r >= a && r >= b && (r == a || r == b)
  {
    if a >= b then a else b
  }

  /**
   * getBranchMaximumHeight: 0 when either reference is `undefined` (the strict
   * `=== undefined`); a TypeError when either is `null`, since its id is read next;
   * max(height, 0) at the join; otherwise the chain node must have exactly one
   * child, and the answer is the larger of its height and the child's answer. As
   * written the recursive call passes the join node's own joinNode, not the join node.
   */
  function GetBranchMaximumHeight(g: seq<XNode>, ghost rank: seq<nat>, branchNode: NodeRef, branchJoinNode: NodeRef)
      : (r: Result<real>)
    requires Ranked(g, rank) && RefWithin(branchNode, |g|) && RefWithin(branchJoinNode, |g|)
    ensures branchNode.Undefined? || branchJoinNode.Undefined? ==> r == Ok(0.0)
    ensures r.Ok? ==> r.value >= 0.0
    ensures r.Ok? && branchNode.Node? && branchJoinNode.Node? ==> r.value >= g[branchNode.index].height
    ensures r.Ok? && r.value != 0.0 ==>
              branchNode.Node? && exists x: nat :: x < |g| && Reachable(g, branchNode.index, x) && g[x].height == r.value
    ensures r.Err? ==> !branchNode.Undefined? && !branchJoinNode.Undefined?
    ensures r.Err? && r.error != NullReference ==>
              branchNode.Node? && branchJoinNode.Node? && g[branchNode.index].id != g[branchJoinNode.index].id
    ensures r.Err? ==> r.error == ChainWithoutChild || r.error == NestedBranch || r.error == NullReference
    decreases if branchNode.Node? then |g| - rank[branchNode.index] else 0
  {
    if branchNode.Undefined? || branchJoinNode.Undefined? then Ok(0.0)
    else if branchNode.Null? || branchJoinNode.Null? then Err(NullReference)
    else
      var b, j := branchNode.index, branchJoinNode.index;
      assert PathFromTo(g, [b], b, b);
      if g[b].id == g[j].id then Ok(Max(g[b].height, 0.0))
      else if |g[b].childNodes| == 0 then Err(ChainWithoutChild)
      else if |g[b].childNodes| > 1 then Err(NestedBranch)
      else
        var c := g[b].childNodes[0];
        ChildRank(g, rank, b, c);
        match GetBranchMaximumHeight(g, rank, Node(c), JoinRef(g[j].joinNode))
        case Err(err) => Err(err)
        case Ok(h) =>
          ChildHeightReachable(g, rank, b, c, h);
          Ok(Max(g[b].height, h))
  }

  /** A non-zero answer for the child is the height of a node reachable from the parent. */
  lemma ChildHeightReachable(g: seq<XNode>, rank: seq<nat>, b: nat, c: nat, h: real)
    requires Ranked(g, rank) && b < |g| && c in g[b].childNodes
    requires h != 0.0 ==> exists x: nat :: x < |g| && Reachable(g, c, x) && g[x].height == h
    ensures h != 0.0 ==> exists x: nat :: x < |g| && Reachable(g, b, x) && g[x].height == h
  {
    if h != 0.0 {
      var x: nat :| x < |g| && Reachable(g, c, x) && g[x].height == h;
      ReachableViaChild(g, b, c, x);
    }
  }

  /** The checks of getBranchMaximumHeight, in order: the first that applies decides. */
  lemma BranchHeightCases(g: seq<XNode>, rank: seq<nat>, b: nat, j: nat)
    requires Ranked(g, rank) && b < |g| && j < |g|
    ensures GetBranchMaximumHeight(g, rank, Null, Node(j)) == Err(NullReference)
    ensures GetBranchMaximumHeight(g, rank, Node(b), Null) == Err(NullReference)
    ensures g[b].id == g[j].id ==> GetBranchMaximumHeight(g, rank, Node(b), Node(j)) == Ok(Max(g[b].height, 0.0))
    ensures g[b].id != g[j].id && |g[b].childNodes| == 0 ==>
              GetBranchMaximumHeight(g, rank, Node(b), Node(j)) == Err(ChainWithoutChild)
    ensures g[b].id != g[j].id && |g[b].childNodes| > 1 ==>
              GetBranchMaximumHeight(g, rank, Node(b), Node(j)) == Err(NestedBranch)
  {
  }

  /**
   * Because the recursion moves to the join node's joinNode, a one-child chain
   * node whose join node still has the default `null` joinNode throws: the child
   * is measured against `null`.
   */
  lemma ChainFailsAtNullJoin(g: seq<XNode>, rank: seq<nat>, b: nat, j: nat)
    requires Ranked(g, rank) && b < |g| && j < |g|
    requires g[b].id != g[j].id && |g[b].childNodes| == 1 && g[j].joinNode.None?
    ensures GetBranchMaximumHeight(g, rank, Node(b), Node(j)) == Err(NullReference)
  {
    var c := g[b].childNodes[0];
    ChildRank(g, rank, b, c);
    assert GetBranchMaximumHeight(g, rank, Node(c), Null) == Err(NullReference);
  }

  // ---------------------------------------------------------------- layoutMinimumBranchTree

  /** getBranchMaximumHeight throws for the `k`-th child of the start node. */
  predicate ChildFails(g: seq<XNode>, rank: seq<nat>, startNode: nat, endNode: nat, k: nat)
    requires Ranked(g, rank) && startNode < |g| && endNode < |g| && k < |g[startNode].childNodes|
  {
    GetBranchMaximumHeight(g, rank, Node(g[startNode].childNodes[k]), JoinRef(g[endNode].joinNode)).Err?
  }

  /**
   * layoutMinimumBranchTree: throws when the start node has no child; asks
   * getBranchMaximumHeight(child, endNode.joinNode) for every child in order
   * (propagating the first throw, and keeping only the last answer plus the
   * spacing); then lays the unit out with an AtomicTreeLayout built with `conf`
   * and returns the fixed 100 x 100 record.
   */
  method LayoutMinimumBranchTree(g: seq<XNode>, ghost rank: seq<nat>, pos: array<Point>,
                                 nodes: seq<nat>, startNode: nat, endNode: nat)
      returns (r: Result<BigXNode>, ghost depth: map<nat, nat>)
    requires Ranked(g, rank) && startNode < |g| && endNode < |g| && Within(nodes, |g|) && pos.Length == |g|
    modifies pos
    ensures |g[startNode].childNodes| == 0 ==> r == Err(ChildUndefined)
    ensures |g[startNode].childNodes| > 0 && g[endNode].joinNode.None? ==> r == Err(NullReference)
    ensures r.Err? <==> |g[startNode].childNodes| == 0 ||
                        exists k :: 0 <= k < |g[startNode].childNodes| && ChildFails(g, rank, startNode, endNode, k)
    ensures r.Err? ==> pos[..] == old(pos[..])
    ensures r.Ok? ==> r.value == BigXNode(100.0, 100.0, nodes, startNode, endNode)
    ensures r.Ok? ==> DepthsSpec(g, startNode, depth) && Covered(g, rank, startNode, depth) &&
                      pos[..] == PlaceLayers(g, old(pos[..]), DepthLayers(g, rank, startNode, depth),
                                             ModuleConfig.horizontalSpacing, ModuleConfig.verticalSpacing,
                                             |DepthLayers(g, rank, startNode, depth)|)
  {
    depth := map[];
    var childNodes := g[startNode].childNodes;
    if |childNodes| == 0 {
      return Err(ChildUndefined), depth;
    }
    var childNodeHeight: real := 0.0 - Conf.verticalSpacing;
    for k := 0 to |childNodes|
      invariant forall m :: 0 <= m < k ==> !ChildFails(g, rank, startNode, endNode, m)
      invariant pos[..] == old(pos[..])
      invariant k > 0 ==> g[endNode].joinNode.Some?
    {
      ChildRank(g, rank, startNode, childNodes[k]);
      var childNodeMaxHeight := GetBranchMaximumHeight(g, rank, Node(childNodes[k]), JoinRef(g[endNode].joinNode));
      if childNodeMaxHeight.Err? {
        assert ChildFails(g, rank, startNode, endNode, k);
        return Err(childNodeMaxHeight.error), depth;
      }
      childNodeHeight := childNodeMaxHeight.value + Conf.verticalSpacing;
    }
    var atomicTreeLayout := new AtomicTreeLayout(g, rank, pos, nodes, startNode, endNode, Conf);
    atomicTreeLayout.LayoutAsWritten();
    depth := atomicTreeLayout.depthMap.value;
    r := Ok(BigXNode(100.0, 100.0, nodes, startNode, endNode));
  }
}
