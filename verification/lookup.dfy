/**
 * Node and edge lookups and the graph indexer of src/Layout.ts (fillChildNodes,
 * getNodeById, getEdgeBySourceNodeId, getEdgeByTargetNodeId).
 *
 * As written, every filter callback in src/Layout.ts has a block body without a
 * `return`, so it yields `undefined` and `filter` keeps nothing. The members below
 * whose name ends in AsWritten model that; the others, which the rest of the
 * model uses, apply the evident predicates (`node.id === nodeId`,
 * `edge.source === sourceNodeId`, `edge.target === targetNodeId`).
 */
module LayoutLookup {
  import opened Types
  import opened Seqs

  /** A block-bodied callback without `return`: its `undefined` is falsy. */
  function CallbackAsWritten<T>(x: T): bool {
    false
  }

  /** getNodeById exactly as written: its filter always yields []. */
  function GetNodeByIdAsWritten(nodes: seq<XNode>, nodeId: string): (r: Result<nat>)
    ensures |nodes| == 0 ==> r == Err(NodesNull)
  {
    if |nodes| == 0 then Err(NodesNull)
    else
      var rs := Filter(Indices(|nodes|), CallbackAsWritten);
      if |rs| == 0 then Err(NodeNotFound(nodeId)) else Ok(rs[0])
  }

  /** The as-written lookup never finds a node, even one whose id matches. */
  lemma AsWrittenLookupAlwaysFails(nodes: seq<XNode>, nodeId: string)
    ensures GetNodeByIdAsWritten(nodes, nodeId).Err?
    ensures |nodes| > 0 ==> GetNodeByIdAsWritten(nodes, nodeId) == Err(NodeNotFound(nodeId))
  {
    if |nodes| > 0 {
      FilterEmpty(Indices(|nodes|), CallbackAsWritten);
    }
  }

  /** The first node whose id is `nodeId`; throws on an empty list or no match. */
  function GetNodeById(nodes: seq<XNode>, nodeId: string): (r: Result<nat>)
    ensures |nodes| == 0 <==> r == Err(NodesNull)
    ensures r.Ok? ==> r.value < |nodes| && nodes[r.value].id == nodeId
    ensures r.Ok? ==> forall j :: 0 <= j < r.value ==> nodes[j].id != nodeId
    ensures r.Err? ==> r == Err(NodesNull) || r == Err(NodeNotFound(nodeId))
    ensures r.Err? <==> !HasId(nodes, nodeId)
  {
    if |nodes| == 0 then Err(NodesNull)
    else match FirstWithId(nodes, nodeId)
      case None => Err(NodeNotFound(nodeId))
      case Some(i) => Ok(i)
  }

  /** The edges leaving `sourceNodeId`, in input order; throws on an empty edge list. */
  function GetEdgeBySourceNodeId(edges: seq<XEdge>, sourceNodeId: string): (r: Result<seq<XEdge>>)
    ensures |edges| == 0 <==> r == Err(EdgesNull)
    ensures r.Ok? ==> r.value == EdgesFrom(edges, sourceNodeId)
  {
    if |edges| == 0 then Err(EdgesNull)
    else Ok(EdgesFrom(edges, sourceNodeId))
  }

  /** The edges entering `targetNodeId`, in input order; throws on an empty edge list. */
  function GetEdgeByTargetNodeId(edges: seq<XEdge>, targetNodeId: string): (r: Result<seq<XEdge>>)
    ensures |edges| == 0 <==> r == Err(EdgesNull)
    ensures r.Ok? ==> r.value == EdgesTo(edges, targetNodeId)
  {
    if |edges| == 0 then Err(EdgesNull)
    else Ok(EdgesTo(edges, targetNodeId))
  }

  /** `edges.filter(edge => edge.source === sourceNodeId)`: the edges with that source, in order. */
  function EdgesFrom(edges: seq<XEdge>, sourceNodeId: string): (r: seq<XEdge>)
    ensures forall e :: e in r ==> e in edges && e.source == sourceNodeId
    ensures forall e :: e in edges && e.source == sourceNodeId ==> e in r
    ensures Subsequence(r, edges)
  {
    if edges == [] then []
    else
      var rest := EdgesFrom(edges[1..], sourceNodeId);
      if edges[0].source == sourceNodeId then [edges[0]] + rest else rest
  }

  /** Each edge with the source occurs in the filter as often as in the edge list. */
  lemma {:induction false} EdgesFromCounts(edges: seq<XEdge>, sourceNodeId: string, e: XEdge)
    ensures multiset(EdgesFrom(edges, sourceNodeId))[e] == if e.source == sourceNodeId then multiset(edges)[e] else 0
  {
    if edges != [] {
      EdgesFromCounts(edges[1..], sourceNodeId, e);
      assert edges == [edges[0]] + edges[1..];
    }
  }

  /** `edges.filter(edge => edge.target === targetNodeId)`. */
  function EdgesTo(edges: seq<XEdge>, targetNodeId: string): (r: seq<XEdge>)
    ensures forall e :: e in r ==> e in edges && e.target == targetNodeId
    ensures forall e :: e in edges && e.target == targetNodeId ==> e in r
    ensures Subsequence(r, edges)
  {
    if edges == [] then []
    else
      var rest := EdgesTo(edges[1..], targetNodeId);
      if edges[0].target == targetNodeId then [edges[0]] + rest else rest
  }

  /** Each edge with the target occurs in the filter as often as in the edge list. */
  lemma {:induction false} EdgesToCounts(edges: seq<XEdge>, targetNodeId: string, e: XEdge)
    ensures multiset(EdgesTo(edges, targetNodeId))[e] == if e.target == targetNodeId then multiset(edges)[e] else 0
  {
    if edges != [] {
      EdgesToCounts(edges[1..], targetNodeId, e);
      assert edges == [edges[0]] + edges[1..];
    }
  }

  /** The edges leaving node `i` (the evident filter, without the empty-list check). */
  function OutEdges(nodes: seq<XNode>, edges: seq<XEdge>, i: nat): seq<XEdge>
    requires i < |nodes|
  {
    EdgesFrom(edges, nodes[i].id)
  }

  /** Every target named by the out-edges of node `i` is the id of some node. */
  ghost predicate TargetsKnown(nodes: seq<XNode>, edges: seq<XEdge>, i: nat)
    requires i < |nodes|
  {
    var out := OutEdges(nodes, edges, i);
    forall k :: 0 <= k < |out| ==> HasId(nodes, out[k].target)
  }

  /** Node `i` ends up a branch: it had children or gains one from an edge. */
  ghost predicate BecomesBranch(nodes: seq<XNode>, edges: seq<XEdge>, i: nat)
    requires i < |nodes|
  {
    |nodes[i].childNodes| + |OutEdges(nodes, edges, i)| > 0
  }

  /** Node `i`'s targets and, if it becomes a branch, its join id all name nodes. */
  ghost predicate NodeResolves(nodes: seq<XNode>, edges: seq<XEdge>, i: nat)
    requires i < |nodes|
  {
    TargetsKnown(nodes, edges, i) && (BecomesBranch(nodes, edges, i) ==> HasId(nodes, nodes[i].joinNodeId))
  }

  /** The conditions under which fillChildNodes runs to the end without throwing. */
  ghost predicate FillSucceeds(nodes: seq<XNode>, edges: seq<XEdge>) {
    |nodes| == 0 || (|edges| > 0 && forall i :: 0 <= i < |nodes| ==> NodeResolves(nodes, edges, i))
  }

  /** The index of the node a target id names (the first one with that id). */
  function IndexOf(nodes: seq<XNode>, id: string): nat
    requires HasId(nodes, id)
  {
    GetNodeById(nodes, id).value
  }

  /** The state fillChildNodes leaves node `i` in. */
  ghost predicate Filled(nodes: seq<XNode>, edges: seq<XEdge>, i: nat, n: XNode)
    requires i < |nodes|
  {
    var out := OutEdges(nodes, edges, i);
    && n.id == nodes[i].id && n.weight == nodes[i].weight
    && n.height == nodes[i].height && n.width == nodes[i].width
    && n.joinNodeId == nodes[i].joinNodeId
    && |n.childNodes| == |nodes[i].childNodes| + |out|
    && n.childNodes[..|nodes[i].childNodes|] == nodes[i].childNodes
    && (forall k :: 0 <= k < |out| ==>
          (HasId(nodes, out[k].target) &&
           n.childNodes[|nodes[i].childNodes| + k] == IndexOf(nodes, out[k].target)))
    && (n.isBranchNode <==> |n.childNodes| > 0)
    && (n.isBranchNode ==> HasId(nodes, nodes[i].joinNodeId) &&
                           n.joinNode == Some(IndexOf(nodes, nodes[i].joinNodeId)))
    && (!n.isBranchNode ==> n.joinNode == nodes[i].joinNode)
  }

  /** The node indices the targets of `out` name, resolved one by one with getNodeById. */
  method ResolveTargets(nodes: seq<XNode>, out: seq<XEdge>) returns (r: Result<seq<nat>>)
    ensures r.Ok? <==> forall k :: 0 <= k < |out| ==> HasId(nodes, out[k].target)
    ensures r.Err? ==> exists k :: 0 <= k < |out| && r == Err(NodeNotFound(out[k].target)) && !HasId(nodes, out[k].target)
    ensures r.Ok? ==> |r.value| == |out| &&
                      forall k :: 0 <= k < |out| ==> HasId(nodes, out[k].target) && r.value[k] == IndexOf(nodes, out[k].target)
  {
    var children: seq<nat> := [];
    for k := 0 to |out|
      invariant |children| == k
      invariant forall m :: 0 <= m < k ==> HasId(nodes, out[m].target) && children[m] == IndexOf(nodes, out[m].target)
    {
      var target := GetNodeById(nodes, out[k].target);
      if target.Err? {
        return Err(NodeNotFound(out[k].target));
      }
      children := children + [target.value];
    }
    r := Ok(children);
  }

  /** The work fillChildNodes does for node `i`: the body of its `forEach` callback. */
  method FillNode(nodes: seq<XNode>, edges: seq<XEdge>, i: nat) returns (r: Result<XNode>)
    requires i < |nodes|
    ensures r.Ok? <==> |edges| > 0 && NodeResolves(nodes, edges, i)
    ensures |edges| == 0 ==> r == Err(EdgesNull)
    ensures r.Err? ==> r == Err(EdgesNull) || exists id :: r == Err(NodeNotFound(id)) && !HasId(nodes, id)
    ensures r.Ok? ==> Filled(nodes, edges, i, r.value)
  {
    var node := nodes[i];
    var outEdges := GetEdgeBySourceNodeId(edges, node.id);
    if outEdges.Err? {
      return Err(outEdges.error);
    }
    var out := outEdges.value;
    var targets := ResolveTargets(nodes, out);
    if targets.Err? {
      return Err(targets.error);
    }
    var children := node.childNodes + targets.value;
    var isBranch := !(|children| == 0);
    var joinNode := node.joinNode;
    if isBranch {
      var join := GetNodeById(nodes, node.joinNodeId);
      if join.Err? {
        return Err(join.error);
      }
      joinNode := Some(join.value);
    }
    r := Ok(node.(childNodes := children, isBranchNode := isBranch, joinNode := joinNode));
    FilledNode(nodes, edges, i, targets.value, joinNode);
  }

  /** Appending the resolved targets and setting the branch flag and join node gives the filled node. */
  lemma FilledNode(nodes: seq<XNode>, edges: seq<XEdge>, i: nat, targets: seq<nat>, joinNode: Option<nat>)
    requires i < |nodes|
    requires var out := OutEdges(nodes, edges, i);
             |targets| == |out| &&
             forall k :: 0 <= k < |out| ==> HasId(nodes, out[k].target) && targets[k] == IndexOf(nodes, out[k].target)
    requires var children := nodes[i].childNodes + targets;
             (|children| > 0 ==> HasId(nodes, nodes[i].joinNodeId) && joinNode == Some(IndexOf(nodes, nodes[i].joinNodeId))) &&
             (|children| == 0 ==> joinNode == nodes[i].joinNode)
    ensures var children := nodes[i].childNodes + targets;
            Filled(nodes, edges, i, nodes[i].(childNodes := children, isBranchNode := !(|children| == 0), joinNode := joinNode))
  {
    var children := nodes[i].childNodes + targets;
    assert children[..|nodes[i].childNodes|] == nodes[i].childNodes;
    assert forall k :: 0 <= k < |targets| ==> children[|nodes[i].childNodes| + k] == targets[k];
  }

  /**
   * fillChildNodes: for every node, in list order, append the targets of its
   * out-edges (in edge-list order) to its children, flag it as a branch iff it
   * then has a child, and resolve its join node when it is a branch.
   *
   * As written the branch test reads `node.childNodes,length === 0`, a comma
   * expression whose value is the free identifier `length` compared with 0, not
   * the child count; this models the evident `node.childNodes.length === 0`.
   * That rule makes a node with a single child a branch too, although
   * getBranchMaximumHeight treats a one-child node as a plain chain node.
   */
  method FillChildNodes(nodes: seq<XNode>, edges: seq<XEdge>) returns (r: Result<seq<XNode>>)
    ensures r.Ok? <==> FillSucceeds(nodes, edges)
    ensures |nodes| > 0 && |edges| == 0 ==> r == Err(EdgesNull)
    ensures r.Err? ==> r == Err(EdgesNull) || exists id :: r == Err(NodeNotFound(id)) && !HasId(nodes, id)
    ensures r.Ok? ==> |r.value| == |nodes| && forall i :: 0 <= i < |nodes| ==> Filled(nodes, edges, i, r.value[i])
  {
    var result := nodes;
    for i := 0 to |nodes|
      invariant FilledUpTo(nodes, edges, i, result)
    {
      var filled := FillNode(nodes, edges, i);
      if filled.Err? {
        return Err(filled.error);
      }
      FillStep(nodes, edges, i, result, filled.value);
      result := result[i := filled.value];
    }
    r := Ok(result);
  }

  /** Writing the filled node `i` extends the filled prefix by one. */
  lemma FillStep(nodes: seq<XNode>, edges: seq<XEdge>, i: nat, result: seq<XNode>, n: XNode)
    requires FilledUpTo(nodes, edges, i, result) && i < |nodes|
    requires |edges| > 0 && NodeResolves(nodes, edges, i) && Filled(nodes, edges, i, n)
    ensures FilledUpTo(nodes, edges, i + 1, result[i := n])
  {
  }

  /** Nodes before `i` are filled and resolve; the others are as given. */
  ghost predicate FilledUpTo(nodes: seq<XNode>, edges: seq<XEdge>, i: nat, result: seq<XNode>) {
    && i <= |nodes| && |result| == |nodes|
    && (i > 0 ==> |edges| > 0)
    && (forall j :: 0 <= j < i ==> NodeResolves(nodes, edges, j) && Filled(nodes, edges, j, result[j]))
    && (forall j :: i <= j < |nodes| ==> result[j] == nodes[j])
  }
}
