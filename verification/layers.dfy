/**
 * assignLayers of src/Layout.ts: longest-path ranking by relaxing every edge until
 * a whole pass changes nothing.
 *
 * Layers are keyed by node id. Every listed node and the start start at 0; an edge
 * whose source has no layer yet is skipped (its `layers.get(...)!` is `undefined`,
 * and `x <= undefined` is false); a target without a layer counts as 0 and gains
 * one when the edge fires. The source has no iteration cap: on a cycle the loop
 * never ends, so the model asks for a rank on ids that grows along every edge.
 */
module LayoutLayers {
  import opened Types

  /** A non-empty chain of ids in which every consecutive pair is an edge. */
  ghost predicate IsEdgePath(edges: seq<XEdge>, p: seq<string>) {
    |p| > 0 && forall i :: 0 <= i < |p| - 1 ==> XEdge(p[i], p[i + 1]) in edges
  }

  /** The edges go from lower to strictly higher rank: there is no cycle. */
  ghost predicate RankedEdges(edges: seq<XEdge>, rank: string -> nat) {
    forall e :: e in edges ==> rank(e.source) < rank(e.target)
  }

  /** The ids that get layer 0 before relaxation. */
  ghost function Seeds(nodes: seq<XNode>, startId: string): set<string> {
    (set i | 0 <= i < |nodes| :: nodes[i].id) + {startId}
  }

  /** An edge no relaxation would change. */
  ghost predicate Settled(e: XEdge, layers: map<string, nat>) {
    e.source in layers ==> e.target in layers && layers[e.source] < layers[e.target]
  }

  /**
   * `layers[v]` is the length of the longest edge path ending at `v`: no path from
   * a node with a layer is longer, and one path of exactly that length starts at
   * a listed node or the start.
   */
  ghost predicate LongestPathTo(edges: seq<XEdge>, seeds: set<string>, layers: map<string, nat>, v: string)
    requires v in layers
  {
    && (forall p :: IsEdgePath(edges, p) && p[0] in layers && p[|p| - 1] == v ==> |p| - 1 <= layers[v])
    && (exists p :: IsEdgePath(edges, p) && p[0] in seeds && p[|p| - 1] == v && |p| - 1 == layers[v])
  }

  ghost function Candidates(seeds: set<string>, edges: seq<XEdge>): set<string> {
    seeds + set e | e in edges :: e.target
  }

  /** The first `i` edges are settled. */
  ghost predicate SettledUpTo(edges: seq<XEdge>, layers: map<string, nat>, i: int)
    requires 0 <= i <= |edges|
  {
    forall j :: 0 <= j < i ==> Settled(edges[j], layers)
  }

  lemma SettledExtend(edges: seq<XEdge>, layers: map<string, nat>, i: int)
    requires 0 <= i < |edges| && SettledUpTo(edges, layers, i) && Settled(edges[i], layers)
    ensures SettledUpTo(edges, layers, i + 1)
  {
  }

  /** The pairs (v, k) with k up to the largest layer v can ever get. */
  ghost function Universe(cands: set<string>, rank: string -> nat): set<(string, int)> {
    set v, k | v in cands && 0 <= k <= rank(v) :: (v, k)
  }

  /** The pairs (v, k) with k up to v's current layer: grows with every relaxation. */
  ghost function Achieved(layers: map<string, nat>): set<(string, int)> {
    set v, k | v in layers && 0 <= k <= layers[v] :: (v, k)
  }

  /** No layer is lost or lowered from `a` to `b`. */
  ghost predicate Grows(a: map<string, nat>, b: map<string, nat>) {
    forall v :: v in a ==> v in b && a[v] <= b[v]
  }

  /** The invariant of the relaxation loop. */
  ghost predicate Relaxing(seeds: set<string>, edges: seq<XEdge>, rank: string -> nat, layers: map<string, nat>) {
    && seeds <= layers.Keys
    && layers.Keys <= Candidates(seeds, edges)
    && Bounded(rank, layers)
    && SeedsOrPositive(seeds, layers)
    && AllJustified(edges, layers)
  }

  /** No layer exceeds the rank of its id. */
  ghost predicate Bounded(rank: string -> nat, layers: map<string, nat>) {
    forall v :: v in layers ==> layers[v] <= rank(v)
  }

  /** Only the seeds may sit on layer 0. */
  ghost predicate SeedsOrPositive(seeds: set<string>, layers: map<string, nat>) {
    forall v :: v in layers ==> v in seeds || layers[v] > 0
  }

  ghost predicate AllJustified(edges: seq<XEdge>, layers: map<string, nat>) {
    forall v :: v in layers ==> Justified(edges, layers, v)
  }

  /** A positive layer is owed to an edge from a node at most one layer lower. */
  ghost predicate Justified(edges: seq<XEdge>, layers: map<string, nat>, v: string)
    requires v in layers
  {
    layers[v] > 0 ==> exists e :: e in edges && e.target == v && e.source in layers && layers[v] <= layers[e.source] + 1
  }

  lemma AchievedBounded(seeds: set<string>, edges: seq<XEdge>, rank: string -> nat, layers: map<string, nat>)
    requires Relaxing(seeds, edges, rank, layers)
    ensures Achieved(layers) <= Universe(Candidates(seeds, edges), rank)
  {
  }

  lemma AchievedStrict(a: map<string, nat>, b: map<string, nat>, w: string)
    requires Grows(a, b) && w in b && (w !in a || a[w] < b[w])
    ensures Achieved(a) < Achieved(b)
  {
    assert (w, b[w]) in Achieved(b);
    assert (w, b[w]) !in Achieved(a);
  }

  /** Raising an edge's target to one above its source keeps the loop invariant. */
  lemma RelaxKeeps(seeds: set<string>, edges: seq<XEdge>, rank: string -> nat, layers: map<string, nat>, e: XEdge)
    requires RankedEdges(edges, rank) && Relaxing(seeds, edges, rank, layers)
    requires e in edges && e.source in layers
    requires e.target in layers ==> layers[e.target] <= layers[e.source]
    ensures Relaxing(seeds, edges, rank, layers[e.target := layers[e.source] + 1])
    ensures Grows(layers, layers[e.target := layers[e.source] + 1])
  {
    var next := layers[e.target := layers[e.source] + 1];
    RelaxKeepsJustified(edges, layers, e, next);
    RelaxKeepsBounded(rank, layers, e, next);
    RelaxKeepsPositive(seeds, layers, e, next);
    assert next.Keys == layers.Keys + {e.target};
  }

  lemma RelaxKeepsBounded(rank: string -> nat, layers: map<string, nat>, e: XEdge, next: map<string, nat>)
    requires Bounded(rank, layers) && e.source in layers && rank(e.source) < rank(e.target)
    requires next == layers[e.target := layers[e.source] + 1]
    ensures Bounded(rank, next)
  {
  }

  lemma RelaxKeepsPositive(seeds: set<string>, layers: map<string, nat>, e: XEdge, next: map<string, nat>)
    requires SeedsOrPositive(seeds, layers) && e.source in layers
    requires next == layers[e.target := layers[e.source] + 1]
    ensures SeedsOrPositive(seeds, next)
  {
  }

  lemma RelaxKeepsJustified(edges: seq<XEdge>, layers: map<string, nat>, e: XEdge, next: map<string, nat>)
    requires AllJustified(edges, layers)
    requires e in edges && e.source in layers
    requires e.target in layers ==> layers[e.target] <= layers[e.source]
    requires next == layers[e.target := layers[e.source] + 1]
    ensures AllJustified(edges, next)
  {
    forall v | v in next ensures Justified(edges, next, v) {
      if v == e.target {
        assert e.source in next && next[v] <= next[e.source] + 1;
      } else if layers[v] > 0 {
        assert Justified(edges, layers, v);
        var d :| d in edges && d.target == v && d.source in layers && layers[v] <= layers[d.source] + 1;
        assert d.source in next && next[v] <= next[d.source] + 1;
      }
    }
  }

  /** A pass that changed something shrinks the pairs still to be achieved. */
  lemma PassProgress(seeds: set<string>, edges: seq<XEdge>, rank: string -> nat,
                     before: map<string, nat>, after: map<string, nat>, w: string)
    requires Relaxing(seeds, edges, rank, after)
    requires Grows(before, after) && w in after && (w !in before || before[w] < after[w])
    ensures Universe(Candidates(seeds, edges), rank) - Achieved(after)
          < Universe(Candidates(seeds, edges), rank) - Achieved(before)
  {
    AchievedStrict(before, after, w);
    AchievedBounded(seeds, edges, rank, after);
    var u := Universe(Candidates(seeds, edges), rank);
    assert (w, after[w]) in u - Achieved(before);
    assert (w, after[w]) !in u - Achieved(after);
  }

  lemma AllSettled(edges: seq<XEdge>, layers: map<string, nat>)
    requires SettledUpTo(edges, layers, |edges|)
    ensures forall e :: e in edges ==> Settled(e, layers)
  {
    forall e | e in edges ensures Settled(e, layers) {
      var j :| 0 <= j < |edges| && edges[j] == e;
    }
  }

  /**
   * One pass of the do-while body: relax every edge in order. `grown` names an id
   * whose layer rose when the pass changed something.
   */
  method RelaxPass(edges: seq<XEdge>, ghost seeds: set<string>, ghost rank: string -> nat, layers0: map<string, nat>)
      returns (layers: map<string, nat>, changed: bool, ghost grown: string)
    requires RankedEdges(edges, rank) && Relaxing(seeds, edges, rank, layers0)
    ensures Relaxing(seeds, edges, rank, layers)
    ensures Grows(layers0, layers)
    ensures changed ==> grown in layers && (grown !in layers0 || layers0[grown] < layers[grown])
    ensures !changed ==> layers == layers0 && SettledUpTo(edges, layers, |edges|)
  {
    layers := layers0;
    changed := false;
    grown := "";
    for i := 0 to |edges|
      invariant Relaxing(seeds, edges, rank, layers)
      invariant Grows(layers0, layers)
      invariant changed ==> grown in layers && (grown !in layers0 || layers0[grown] < layers[grown])
      invariant !changed ==> layers == layers0 && SettledUpTo(edges, layers, i)
    {
      var edge := edges[i];
      if edge.source in layers {
        var sourceLayer := layers[edge.source];
        var targetLayer := if edge.target in layers then layers[edge.target] else 0;
        if targetLayer <= sourceLayer {
          RelaxKeeps(seeds, edges, rank, layers, edge);
          layers := layers[edge.target := sourceLayer + 1];
          changed := true;
          grown := edge.target;
        }
      }
      if !changed {
        SettledExtend(edges, layers, i);
      }
    }
  }

  /** Layer 0 for every listed node, then for the start. */
  method InitialLayers(nodes: seq<XNode>, startId: string) returns (layers: map<string, nat>)
    ensures layers.Keys == Seeds(nodes, startId)
    ensures forall v :: v in layers ==> layers[v] == 0
  {
    layers := map[];
    for i := 0 to |nodes|
      invariant layers.Keys == set j | 0 <= j < i :: nodes[j].id
      invariant forall v :: v in layers ==> layers[v] == 0
    {
      layers := layers[nodes[i].id := 0];
    }
    layers := layers[startId := 0];
  }

  method AssignLayers(nodes: seq<XNode>, edges: seq<XEdge>, startNode: XNode, ghost rank: string -> nat)
    returns (layers: map<string, nat>)
    requires RankedEdges(edges, rank)
    ensures forall i :: 0 <= i < |nodes| ==> nodes[i].id in layers
    ensures startNode.id in layers
    ensures forall e :: e in edges ==> Settled(e, layers)
    ensures forall v :: v in layers ==> LongestPathTo(edges, Seeds(nodes, startNode.id), layers, v)
  {
    ghost var seeds := Seeds(nodes, startNode.id);
    layers := InitialLayers(nodes, startNode.id);
    var changed := true;
    while changed
      invariant Relaxing(seeds, edges, rank, layers)
      invariant !changed ==> forall e :: e in edges ==> Settled(e, layers)
      decreases Universe(Candidates(seeds, edges), rank) - Achieved(layers), if changed then 1 else 0
    {
      ghost var before := layers;
      ghost var grown;
      layers, changed, grown := RelaxPass(edges, seeds, rank, layers);
      if changed {
        PassProgress(seeds, edges, rank, before, layers, grown);
      } else {
        AllSettled(edges, layers);
      }
    }
    FixpointAllLongest(seeds, edges, rank, layers);
  }

  lemma FixpointAllLongest(seeds: set<string>, edges: seq<XEdge>, rank: string -> nat, layers: map<string, nat>)
    requires Relaxing(seeds, edges, rank, layers)
    requires forall e :: e in edges ==> Settled(e, layers)
    ensures forall v :: v in layers ==> LongestPathTo(edges, seeds, layers, v)
  {
    forall v | v in layers ensures LongestPathTo(edges, seeds, layers, v) {
      FixpointLongest(seeds, edges, rank, layers, v);
    }
  }

  /** At the fixpoint a path from a node with a layer climbs one layer per edge. */
  lemma {:induction false} FixpointClimbs(edges: seq<XEdge>, layers: map<string, nat>, p: seq<string>)
    requires forall e :: e in edges ==> Settled(e, layers)
    requires IsEdgePath(edges, p) && p[0] in layers
    ensures p[|p| - 1] in layers && layers[p[0]] + |p| - 1 <= layers[p[|p| - 1]]
    decreases |p|
  {
    if |p| > 1 {
      var q := p[..|p| - 1];
      assert IsEdgePath(edges, q) by {
        forall i | 0 <= i < |q| - 1 ensures XEdge(q[i], q[i + 1]) in edges {
          assert q[i] == p[i] && q[i + 1] == p[i + 1];
        }
      }
      FixpointClimbs(edges, layers, q);
      assert Settled(XEdge(p[|p| - 2], p[|p| - 1]), layers);
    }
  }

  /** At the fixpoint some path from a seed reaches `v` in exactly `layers[v]` edges. */
  lemma {:induction false} FixpointWitness(seeds: set<string>, edges: seq<XEdge>, rank: string -> nat,
                                          layers: map<string, nat>, v: string)
      returns (p: seq<string>)
    requires Relaxing(seeds, edges, rank, layers)
    requires forall e :: e in edges ==> Settled(e, layers)
    requires v in layers
    ensures IsEdgePath(edges, p) && p[0] in seeds && p[|p| - 1] == v && |p| - 1 == layers[v]
    decreases layers[v]
  {
    if layers[v] == 0 {
      p := [v];
    } else {
      assert Justified(edges, layers, v);
      var e :| e in edges && e.target == v && e.source in layers && layers[v] <= layers[e.source] + 1;
      assert Settled(e, layers);
      var q := FixpointWitness(seeds, edges, rank, layers, e.source);
      p := q + [v];
      forall i | 0 <= i < |p| - 1 ensures XEdge(p[i], p[i + 1]) in edges {
        if i < |q| - 1 {
          assert p[i] == q[i] && p[i + 1] == q[i + 1];
        } else {
          assert p[i] == e.source && p[i + 1] == v;
        }
      }
    }
  }

  lemma FixpointLongest(seeds: set<string>, edges: seq<XEdge>, rank: string -> nat,
                        layers: map<string, nat>, v: string)
    requires Relaxing(seeds, edges, rank, layers)
    requires forall e :: e in edges ==> Settled(e, layers)
    requires v in layers
    ensures LongestPathTo(edges, seeds, layers, v)
  {
    forall p | IsEdgePath(edges, p) && p[0] in layers && p[|p| - 1] == v
      ensures |p| - 1 <= layers[v]
    {
      FixpointClimbs(edges, layers, p);
    }
    var w := FixpointWitness(seeds, edges, rank, layers, v);
  }
}
