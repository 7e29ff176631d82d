/**
 * The records of the layout: nodes, edges, points, spacing configuration and the
 * folded "big node" record (src/XNode.ts, src/BigXNode.ts, src/Type.ts), together
 * with the error values the layout throws.
 *
 * A node is referred to by its index in the node list. The fields that the layout
 * writes in place, x and y, are not part of the record: they live in one shared
 * array of points, indexed like the node list.
 */
module Types {

  datatype Option<+T> = None | Some(value: T)

  /** The exceptions thrown by the layout, one constructor per distinct message. */
  datatype LayoutError =
    | NodesNull                 // getNodeById on an empty node list
    | NodeNotFound(id: string)  // getNodeById finds no node with the id
    | EdgesNull                 // getEdgeBy...NodeId on an empty edge list
    | NoElementBetween          // isAtomicTree with a missing node or start id == end id
    | ChildUndefined            // layoutMinimumBranchTree: the start node has no child
    | ChainWithoutChild         // getBranchMaximumHeight: a chain node without a child
    | NestedBranch              // getBranchMaximumHeight: a chain node with several children
    | LayoutNotPerformed        // a guarded query while isLaidOut is false
    | DepthMapUndefined         // reading depthMap before layout() assigned it
    | NullReference             // reading a property of `null` (a TypeError)

  datatype Result<+T> = Ok(value: T) | Err(error: LayoutError)

  datatype Outcome = Pass | Fail(error: LayoutError)

  /** A directed edge, naming its end points by node id. */
  datatype XEdge = XEdge(source: string, target: string)

  /** A node reference as a caller may pass it: `undefined`, `null`, or a node. */
  datatype NodeRef = Undefined | Null | Node(index: nat)

  /** The reference is `undefined`, `null`, or a node below `n`. */
  predicate RefWithin(r: NodeRef, n: nat) {
    r.Node? ==> r.index < n
  }

  /** The value of a `joinNode` field: `None` is the `null` the XNode constructor sets. */
  function JoinRef(j: Option<nat>): (r: NodeRef)
    ensures r != Undefined
    ensures r.Null? <==> j.None?
    ensures r.Node? ==> j == Some(r.index)
  {
    match j
    case None => Null
    case Some(i) => Node(i)
  }

  /**
   * A node without its position. `childNodes` and `joinNode` hold node indices
   * where the source holds references to node objects; a `joinNode` of `None` is
   * `null`, the value it keeps until fillChildNodes resolves a branch node's join.
   */
  datatype XNode = XNode(
    id: string,
    weight: real,
    height: real,
    width: real,
    childNodes: seq<nat>,
    isBranchNode: bool,
    joinNodeId: string,
    joinNode: Option<nat>)

  datatype Point = Point(x: real, y: real)

  datatype LayoutConfig = LayoutConfig(horizontalSpacing: real, verticalSpacing: real)

  /** The record layoutMinimumBranchTree returns for a laid-out unit. */
  datatype BigXNode = BigXNode(height: real, width: real, nodes: seq<nat>, startNode: nat, endNode: nat)

  /** The index of the first node with the given id, if any. */
  function FirstWithId(nodes: seq<XNode>, id: string): (r: Option<nat>)
    ensures r.Some? ==> r.value < |nodes| && nodes[r.value].id == id
    ensures r.Some? ==> forall j :: 0 <= j < r.value ==> nodes[j].id != id
    ensures r.None? <==> forall j :: 0 <= j < |nodes| ==> nodes[j].id != id
  {
    if |nodes| == 0 then None
    else if nodes[0].id == id then Some(0)
    else match FirstWithId(nodes[1..], id)
      case None => None
      case Some(k) => Some(k + 1)
  }

  /** Some node carries the id. */
  predicate HasId(nodes: seq<XNode>, id: string) {
    FirstWithId(nodes, id).Some?
  }
}
