/**
 * The coordinates layoutLayers and applyPositionOffset of src/AtomicTreeLayout.ts
 * write, as functions of the positions before the call: a stable sort of each
 * layer by descending weight, the rows of a layer centred on y = 0, and the
 * translation of a node list. Positions are indexed like the node list.
 */
module Placement {
  import opened Types
  import opened Seqs

  // ---------------------------------------------------------------- sorting

  /** Weights do not increase from left to right. */
  ghost predicate SortedByWeight(g: seq<XNode>, s: seq<nat>)
    requires Within(s, |g|)
  {
    forall i, j :: 0 <= i < j < |s| ==> g[s[i]].weight >= g[s[j]].weight
  }

  /** The entries of `s` whose weight is `w`, in their order in `s`. */
  ghost function WithWeight(g: seq<XNode>, s: seq<nat>, w: real): seq<nat>
    requires Within(s, |g|)
  {
    if s == [] then [] else (if g[s[0]].weight == w then [s[0]] else []) + WithWeight(g, s[1..], w)
  }

  /** Put `x` in front of the first entry of the sorted `r` that it is at least as heavy as. */
  function Insert(g: seq<XNode>, x: nat, r: seq<nat>): (r': seq<nat>)
    requires x < |g| && Within(r, |g|)
    ensures Within(r', |g|) && |r'| == |r| + 1
    ensures forall y :: y in r' <==> y == x || y in r
  {
    if r == [] || g[x].weight >= g[r[0]].weight then [x] + r
    else
      assert r == [r[0]] + r[1..];
      [r[0]] + Insert(g, x, r[1..])
  }

  /**
   * `[...layer].sort((a, b) => b.weight - a.weight)`: the sort is stable, so this is
   * the one permutation that is sorted by descending weight and keeps equal weights
   * in their original order.
   */
  function SortByWeight(g: seq<XNode>, s: seq<nat>): (r: seq<nat>)
    requires Within(s, |g|)
    ensures Within(r, |g|) && |r| == |s|
  {
    if s == [] then [] else Insert(g, s[0], SortByWeight(g, s[1..]))
  }

  lemma {:induction false} InsertPermutes(g: seq<XNode>, x: nat, r: seq<nat>)
    requires x < |g| && Within(r, |g|)
    ensures multiset(Insert(g, x, r)) == multiset(r) + multiset{x}
    decreases |r|
  {
    if r != [] && g[x].weight < g[r[0]].weight {
      InsertPermutes(g, x, r[1..]);
      assert r == [r[0]] + r[1..];
    }
  }

  /** The sort is a permutation. */
  lemma {:induction false} SortPermutes(g: seq<XNode>, s: seq<nat>)
    requires Within(s, |g|)
    ensures multiset(SortByWeight(g, s)) == multiset(s)
    decreases |s|
  {
    if s != [] {
      SortPermutes(g, s[1..]);
      InsertPermutes(g, s[0], SortByWeight(g, s[1..]));
      assert s == [s[0]] + s[1..];
    }
  }

  lemma {:induction false} InsertSorted(g: seq<XNode>, x: nat, r: seq<nat>)
    requires x < |g| && Within(r, |g|) && SortedByWeight(g, r)
    ensures SortedByWeight(g, Insert(g, x, r))
    ensures Insert(g, x, r) != [] && (Insert(g, x, r)[0] == x || (r != [] && Insert(g, x, r)[0] == r[0]))
    decreases |r|
  {
    if r != [] && g[x].weight < g[r[0]].weight {
      InsertSorted(g, x, r[1..]);
      var t := Insert(g, x, r[1..]);
      var u := [r[0]] + t;
      assert g[r[0]].weight >= g[t[0]].weight by {
        if t[0] != x {
          assert |r| > 1 && t[0] == r[1];
        }
      }
      forall i, j | 0 <= i < j < |u| ensures g[u[i]].weight >= g[u[j]].weight {
        if i == 0 {
          assert u[j] == t[j - 1];
          assert g[t[0]].weight >= g[t[j - 1]].weight;
        } else {
          assert u[i] == t[i - 1] && u[j] == t[j - 1];
        }
      }
    }
  }

  /** The sort orders a layer by descending weight. */
  lemma {:induction false} SortIsSorted(g: seq<XNode>, s: seq<nat>)
    requires Within(s, |g|)
    ensures SortedByWeight(g, SortByWeight(g, s))
    decreases |s|
  {
    if s != [] {
      SortIsSorted(g, s[1..]);
      InsertSorted(g, s[0], SortByWeight(g, s[1..]));
    }
  }

  lemma {:induction false} InsertStable(g: seq<XNode>, x: nat, r: seq<nat>, w: real)
    requires x < |g| && Within(r, |g|) && SortedByWeight(g, r)
    ensures WithWeight(g, Insert(g, x, r), w) == WithWeight(g, [x] + r, w)
    decreases |r|
  {
    if r != [] && g[x].weight < g[r[0]].weight {
      InsertStable(g, x, r[1..], w);
      var t := Insert(g, x, r[1..]);
      assert ([r[0]] + t)[1..] == t;
      assert ([x] + r)[1..] == r;
      assert ([x] + r[1..])[1..] == r[1..];
      assert r == [r[0]] + r[1..];
      if g[r[0]].weight == w {
        assert g[x].weight != w;
      }
    }
  }

  /** The sort is stable: the nodes of any one weight keep their order. */
  lemma {:induction false} SortIsStable(g: seq<XNode>, s: seq<nat>, w: real)
    requires Within(s, |g|)
    ensures WithWeight(g, SortByWeight(g, s), w) == WithWeight(g, s, w)
    decreases |s|
  {
    if s != [] {
      SortIsStable(g, s[1..], w);
      SortIsSorted(g, s[1..]);
      var t := SortByWeight(g, s[1..]);
      InsertStable(g, s[0], t, w);
      assert ([s[0]] + t)[1..] == t;
    }
  }

  // ---------------------------------------------------------------- rows

  /** The y of the node at sorted index `i` of an `n`-node layer: `-(n - 1)·v/2 + i·v`. */
  function RowY(n: nat, i: nat, v: real): real {
    -((n as real) - 1.0) * v / 2.0 + (i as real) * v
  }

  /** The positions after the first `i` nodes of `row` got their coordinates. */
  function PlaceRow(ps: seq<Point>, row: seq<nat>, x: real, v: real, i: nat): (r: seq<Point>)
    requires i <= |row| && Within(row, |ps|)
    ensures |r| == |ps|
  {
    if i == 0 then ps
    else PlaceRow(ps, row, x, v, i - 1)[row[i - 1] := Point(x, RowY(|row|, i - 1, v))]
  }

  /** Every node of layers[..k] gets a coordinate; one layer `layers[k]` per depth `k`. */
  ghost predicate LayersWithin(layers: seq<seq<nat>>, n: int) {
    forall k :: 0 <= k < |layers| ==> Within(layers[k], n)
  }

  /** The positions after layoutLayers has placed layers 0..k-1. */
  function PlaceLayers(g: seq<XNode>, ps: seq<Point>, layers: seq<seq<nat>>, h: real, v: real, k: nat): (r: seq<Point>)
    requires |ps| == |g| && k <= |layers| && LayersWithin(layers, |g|)
    ensures |r| == |ps|
  {
    if k == 0 then ps
    else
      var sorted := SortByWeight(g, layers[k - 1]);
      PlaceRow(PlaceLayers(g, ps, layers, h, v, k - 1), sorted, (k - 1) as real * h, v, |sorted|)
  }

  lemma {:induction false} PlaceRowOutside(ps: seq<Point>, row: seq<nat>, x: real, v: real, i: nat, w: nat)
    requires i <= |row| && Within(row, |ps|) && w < |ps| && w !in row[..i]
    ensures PlaceRow(ps, row, x, v, i)[w] == ps[w]
  {
    if i > 0 {
      assert row[..i - 1] == row[..i][..i - 1];
      PlaceRowOutside(ps, row, x, v, i - 1, w);
      assert row[i - 1] in row[..i];
    }
  }

  /**
   * A later assignment to the same node overwrites an earlier one: the node at index j
   * of `row` ends at (x, RowY(|row|, j, v)) when it does not appear again among the
   * first `i` entries.
   */
  lemma {:induction false} PlaceRowAt(ps: seq<Point>, row: seq<nat>, x: real, v: real, i: nat, j: nat)
    requires i <= |row| && Within(row, |ps|) && j < i
    requires forall k :: j < k < i ==> row[k] != row[j]
    ensures PlaceRow(ps, row, x, v, i)[row[j]] == Point(x, RowY(|row|, j, v))
  {
    if j < i - 1 {
      PlaceRowAt(ps, row, x, v, i - 1, j);
    }
  }

  /** `j` is the index of the last occurrence of its entry in `s`. */
  ghost predicate LastAt(s: seq<nat>, j: nat) {
    j < |s| && forall k :: j < k < |s| ==> s[k] != s[j]
  }

  /** Every entry of a sequence has a last occurrence. */
  lemma {:induction false} LastOccurrence(s: seq<nat>, w: nat) returns (j: nat)
    requires w in s
    ensures LastAt(s, j) && s[j] == w
    decreases |s|
  {
    if s[|s| - 1] == w {
      j := |s| - 1;
    } else {
      var t := s[..|s| - 1];
      assert s == t + [s[|s| - 1]];
      j := LastOccurrence(t, w);
      forall k | j < k < |s| ensures s[k] != s[j] {
        if k < |t| { assert s[k] == t[k]; }
      }
    }
  }

  /** In a duplicate-free sequence every index is the last occurrence of its entry. */
  lemma DistinctLast(s: seq<nat>, j: nat)
    requires Distinct(s) && j < |s|
    ensures LastAt(s, j)
  {
  }

  /** No node is in two layers, and no layer holds a node twice. */
  ghost predicate DistinctLayers(layers: seq<seq<nat>>) {
    && (forall k :: 0 <= k < |layers| ==> Distinct(layers[k]))
    && LayersDisjoint(layers)
  }

  /** No node is in two different layers. */
  ghost predicate LayersDisjoint(layers: seq<seq<nat>>) {
    forall a, b :: 0 <= a < b < |layers| ==> Disjoint(layers[a], layers[b])
  }

  ghost predicate Disjoint(s: seq<nat>, t: seq<nat>) {
    forall x :: x in s ==> x !in t
  }

  lemma SortedSameNodes(g: seq<XNode>, s: seq<nat>)
    requires Within(s, |g|)
    ensures forall x :: x in SortByWeight(g, s) <==> x in s
    ensures Distinct(s) ==> Distinct(SortByWeight(g, s))
  {
    var r := SortByWeight(g, s);
    SortPermutes(g, s);
    forall x ensures x in r <==> x in s {
      assert x in r <==> x in multiset(r);
    }
    if Distinct(s) {
      forall i, j | 0 <= i < j < |r| ensures r[i] != r[j] {
        if r[i] == r[j] {
          TwiceCounted(r, i, j);
          DistinctCount(s, r[i]);
        }
      }
    }
  }

  lemma TwiceCounted(r: seq<nat>, i: nat, j: nat)
    requires i < j < |r| && r[i] == r[j]
    ensures multiset(r)[r[i]] >= 2
  {
    var a, b := r[..j], r[j..];
    assert r == a + b;
    assert a[i] == r[i] && b[0] == r[j];
    assert multiset(r) == multiset(a) + multiset(b);
    assert r[i] in multiset(a) && r[i] in multiset(b);
  }

  lemma {:induction false} DistinctCount(s: seq<nat>, x: nat)
    requires Distinct(s)
    ensures multiset(s)[x] <= 1
    decreases |s|
  {
    if s != [] {
      assert s == [s[0]] + s[1..];
      assert Distinct(s[1..]) by {
        forall i, j | 0 <= i < j < |s[1..]| ensures s[1..][i] != s[1..][j] {
          assert s[1..][i] == s[i + 1] && s[1..][j] == s[j + 1];
        }
      }
      DistinctCount(s[1..], x);
      if s[0] == x {
        forall k | 0 <= k < |s[1..]| ensures s[1..][k] != x {
          assert s[1..][k] == s[k + 1];
        }
      }
    }
  }

  /** Placing layer k-1 leaves a node outside it where it was. */
  lemma PlaceLayersStep(g: seq<XNode>, ps: seq<Point>, layers: seq<seq<nat>>, h: real, v: real, k: nat, w: nat)
    requires |ps| == |g| && 0 < k <= |layers| && LayersWithin(layers, |g|) && w < |g|
    requires w !in layers[k - 1]
    ensures PlaceLayers(g, ps, layers, h, v, k)[w] == PlaceLayers(g, ps, layers, h, v, k - 1)[w]
  {
    var sorted := SortByWeight(g, layers[k - 1]);
    SortedSameNodes(g, layers[k - 1]);
    assert sorted[..|sorted|] == sorted;
    PlaceRowOutside(PlaceLayers(g, ps, layers, h, v, k - 1), sorted, (k - 1) as real * h, v, |sorted|, w);
  }

  /** A node in no placed layer keeps its position. */
  lemma {:induction false} PlaceLayersOutside(g: seq<XNode>, ps: seq<Point>, layers: seq<seq<nat>>, h: real, v: real,
                                              k: nat, w: nat)
    requires |ps| == |g| && k <= |layers| && LayersWithin(layers, |g|) && w < |g|
    requires forall j :: 0 <= j < k ==> w !in layers[j]
    ensures PlaceLayers(g, ps, layers, h, v, k)[w] == ps[w]
  {
    if k > 0 {
      PlaceLayersOutside(g, ps, layers, h, v, k - 1, w);
      PlaceLayersStep(g, ps, layers, h, v, k, w);
    }
  }

  /**
   * With no node in two layers, the node at sorted index j of layer d, when j is the
   * last occurrence of that node in the sorted layer, ends at x = d·h,
   * y = RowY(size of the layer, j, v).
   */
  lemma {:induction false} PlaceLayersAt(g: seq<XNode>, ps: seq<Point>, layers: seq<seq<nat>>, h: real, v: real,
                                         k: nat, d: nat, j: nat)
    requires |ps| == |g| && k <= |layers| && LayersWithin(layers, |g|) && LayersDisjoint(layers)
    requires d < k && LastAt(SortByWeight(g, layers[d]), j)
    ensures PlaceLayers(g, ps, layers, h, v, k)[SortByWeight(g, layers[d])[j]] ==
            Point(d as real * h, RowY(|layers[d]|, j, v))
    decreases k
  {
    var w := SortByWeight(g, layers[d])[j];
    if d == k - 1 {
      PlaceTopLayer(g, ps, layers, h, v, k - 1, j);
    } else {
      PlaceLayersAt(g, ps, layers, h, v, k - 1, d, j);
      LaterLayerMissing(g, layers, d, k - 1, j);
      PlaceLayersStep(g, ps, layers, h, v, k, w);
    }
  }

  lemma LaterLayerMissing(g: seq<XNode>, layers: seq<seq<nat>>, d: nat, e: nat, j: nat)
    requires LayersWithin(layers, |g|) && LayersDisjoint(layers) && d < e < |layers| && j < |layers[d]|
    ensures SortByWeight(g, layers[d])[j] !in layers[e]
  {
    SortedSameNodes(g, layers[d]);
    assert SortByWeight(g, layers[d])[j] in layers[d];
    assert Disjoint(layers[d], layers[e]);
  }

  /** The layer placed last puts its node at sorted index j where PlaceRowAt says. */
  lemma PlaceTopLayer(g: seq<XNode>, ps: seq<Point>, layers: seq<seq<nat>>, h: real, v: real, d: nat, j: nat)
    requires |ps| == |g| && d < |layers| && LayersWithin(layers, |g|)
    requires LastAt(SortByWeight(g, layers[d]), j)
    ensures PlaceLayers(g, ps, layers, h, v, d + 1)[SortByWeight(g, layers[d])[j]] ==
            Point(d as real * h, RowY(|layers[d]|, j, v))
  {
    var sorted := SortByWeight(g, layers[d]);
    PlaceRowAt(PlaceLayers(g, ps, layers, h, v, d), sorted, d as real * h, v, |sorted|, j);
  }

  /** Rows are centred: the sorted indices i and n-1-i get opposite y. */
  lemma RowSymmetric(n: nat, i: nat, v: real)
    requires i < n
    ensures RowY(n, i, v) + RowY(n, n - 1 - i, v) == 0.0
  {
    var a, b := i as real, (n - 1 - i) as real;
    assert a * v + b * v == (a + b) * v;
    assert a + b == (n as real) - 1.0;
  }

  /** Consecutive sorted indices are one spacing apart. */
  lemma RowStep(n: nat, i: nat, v: real)
    ensures RowY(n, i + 1, v) - RowY(n, i, v) == v
  {
    assert ((i + 1) as real) * v == (i as real) * v + v;
  }

  /** Later sorted indices never get a smaller y when the spacing is not negative. */
  lemma RowMonotone(n: nat, i: nat, j: nat, v: real)
    requires i <= j && v >= 0.0
    ensures RowY(n, i, v) <= RowY(n, j, v)
  {
    var d := (j - i) as real;
    assert (j as real) * v == (i as real) * v + d * v;
    assert d * v >= 0.0;
  }

  /**
   * The layout of a duplicate-free layer after all layers are placed: every node of
   * layer d has x = d·h; in sorted order, the y values are symmetric about 0 and one
   * spacing apart, and a layer of one node sits at y = 0.
   */
  lemma LayerGeometry(g: seq<XNode>, ps: seq<Point>, layers: seq<seq<nat>>, h: real, v: real, d: nat, i: nat)
    requires |ps| == |g| && LayersWithin(layers, |g|) && LayersDisjoint(layers)
    requires d < |layers| && Distinct(layers[d]) && i < |layers[d]|
    ensures var pos, s, n := PlaceLayers(g, ps, layers, h, v, |layers|), SortByWeight(g, layers[d]), |layers[d]|;
            && pos[s[i]].x == d as real * h
            && pos[s[i]].y + pos[s[n - 1 - i]].y == 0.0
            && (i + 1 < n ==> pos[s[i + 1]].y - pos[s[i]].y == v)
            && (n == 1 ==> pos[s[i]].y == 0.0)
  {
    var n, s := |layers[d]|, SortByWeight(g, layers[d]);
    SortedSameNodes(g, layers[d]);
    DistinctLast(s, i);
    DistinctLast(s, n - 1 - i);
    PlaceLayersAt(g, ps, layers, h, v, |layers|, d, i);
    PlaceLayersAt(g, ps, layers, h, v, |layers|, d, n - 1 - i);
    RowSymmetric(n, i, v);
    if i + 1 < n {
      DistinctLast(s, i + 1);
      PlaceLayersAt(g, ps, layers, h, v, |layers|, d, i + 1);
      RowStep(n, i, v);
    }
  }

  /** Every node of layer d ends in column d, however often the layer lists it. */
  lemma ColumnOfLayer(g: seq<XNode>, ps: seq<Point>, layers: seq<seq<nat>>, h: real, v: real, d: nat, w: nat)
    requires |ps| == |g| && LayersWithin(layers, |g|) && LayersDisjoint(layers)
    requires d < |layers| && w in layers[d]
    ensures w < |g| && PlaceLayers(g, ps, layers, h, v, |layers|)[w].x == d as real * h
  {
    SortedSameNodes(g, layers[d]);
    var i := LastOccurrence(SortByWeight(g, layers[d]), w);
    PlaceLayersAt(g, ps, layers, h, v, |layers|, d, i);
  }

  /**
   * A node of layer d ends in column d·h, at the row position of its last index in
   * the sorted layer: a repeated node is written once per occurrence and the last
   * write stays.
   */
  lemma PlacedAtLast(g: seq<XNode>, ps: seq<Point>, layers: seq<seq<nat>>, h: real, v: real, d: nat, w: nat)
      returns (j: nat)
    requires |ps| == |g| && LayersWithin(layers, |g|) && LayersDisjoint(layers)
    requires d < |layers| && w in layers[d]
    ensures LastAt(SortByWeight(g, layers[d]), j) && SortByWeight(g, layers[d])[j] == w
    ensures PlaceLayers(g, ps, layers, h, v, |layers|)[w] == Point(d as real * h, RowY(|layers[d]|, j, v))
  {
    SortedSameNodes(g, layers[d]);
    j := LastOccurrence(SortByWeight(g, layers[d]), w);
    PlaceLayersAt(g, ps, layers, h, v, |layers|, d, j);
  }

  /** In a placed layer, a strictly heavier node is never above a lighter one. */
  lemma HeavierNotAbove(g: seq<XNode>, ps: seq<Point>, layers: seq<seq<nat>>, h: real, v: real, d: nat, a: nat, b: nat)
    requires |ps| == |g| && LayersWithin(layers, |g|) && LayersDisjoint(layers) && v >= 0.0
    requires d < |layers| && a in layers[d] && b in layers[d] && a < |g| && b < |g| && g[a].weight > g[b].weight
    ensures PlaceLayers(g, ps, layers, h, v, |layers|)[a].y <= PlaceLayers(g, ps, layers, h, v, |layers|)[b].y
  {
    var s := SortByWeight(g, layers[d]);
    SortedSameNodes(g, layers[d]);
    SortIsSorted(g, layers[d]);
    var ia := LastOccurrence(s, a);
    var ib := LastOccurrence(s, b);
    assert ia < ib;
    PlaceLayersAt(g, ps, layers, h, v, |layers|, d, ia);
    PlaceLayersAt(g, ps, layers, h, v, |layers|, d, ib);
    RowMonotone(|layers[d]|, ia, ib, v);
  }

  // ---------------------------------------------------------------- translation

  /** The positions after the first `i` nodes of `nodes` were moved by (dx, dy). */
  function Offset(ps: seq<Point>, nodes: seq<nat>, dx: real, dy: real, i: nat): (r: seq<Point>)
    requires i <= |nodes| && Within(nodes, |ps|)
    ensures |r| == |ps|
  {
    if i == 0 then ps
    else
      var prev := Offset(ps, nodes, dx, dy, i - 1);
      var w := nodes[i - 1];
      prev[w := Point(prev[w].x + dx, prev[w].y + dy)]
  }

  /** Over a duplicate-free list, every listed node moves by exactly (dx, dy) and no other node moves. */
  lemma {:induction false} OffsetExact(ps: seq<Point>, nodes: seq<nat>, dx: real, dy: real, i: nat, w: nat)
    requires i <= |nodes| && Within(nodes, |ps|) && Distinct(nodes) && w < |ps|
    ensures Offset(ps, nodes, dx, dy, i)[w] ==
            if w in nodes[..i] then Point(ps[w].x + dx, ps[w].y + dy) else ps[w]
  {
    if i > 0 {
      OffsetExact(ps, nodes, dx, dy, i - 1, w);
      assert nodes[..i] == nodes[..i - 1] + [nodes[i - 1]];
      if w == nodes[i - 1] {
        assert w !in nodes[..i - 1];
      }
    }
  }

  // ---------------------------------------------------------------- spans

  /** `Math.max` over the y of the listed nodes. */
  function MaxY(ps: seq<Point>, nodes: seq<nat>): (r: real)
    requires |nodes| > 0 && Within(nodes, |ps|)
    ensures forall i :: 0 <= i < |nodes| ==> ps[nodes[i]].y <= r
    ensures exists i :: 0 <= i < |nodes| && ps[nodes[i]].y == r
  {
    if |nodes| == 1 then ps[nodes[0]].y
    else
      var rest := MaxY(ps, nodes[1..]);
      assert forall i :: 1 <= i < |nodes| ==> nodes[i] == nodes[1..][i - 1];
      if ps[nodes[0]].y >= rest then ps[nodes[0]].y else rest
  }

  /** `Math.min` over the y of the listed nodes. */
  function MinY(ps: seq<Point>, nodes: seq<nat>): (r: real)
    requires |nodes| > 0 && Within(nodes, |ps|)
    ensures forall i :: 0 <= i < |nodes| ==> r <= ps[nodes[i]].y
    ensures exists i :: 0 <= i < |nodes| && ps[nodes[i]].y == r
  {
    if |nodes| == 1 then ps[nodes[0]].y
    else
      var rest := MinY(ps, nodes[1..]);
      assert forall i :: 1 <= i < |nodes| ==> nodes[i] == nodes[1..][i - 1];
      if ps[nodes[0]].y <= rest then ps[nodes[0]].y else rest
  }

  /** calculateVerticalSpan: the distance between the highest and the lowest listed node. */
  function VerticalSpan(ps: seq<Point>, nodes: seq<nat>): (r: real)
    requires |nodes| > 0 && Within(nodes, |ps|)
    ensures r >= 0.0
    ensures forall i, j :: 0 <= i < |nodes| && 0 <= j < |nodes| ==> ps[nodes[i]].y - ps[nodes[j]].y <= r
  {
    MaxY(ps, nodes) - MinY(ps, nodes)
  }

  /** Moving a duplicate-free list by (dx, dy) keeps the offset between any two listed nodes. */
  lemma OffsetKeepsShape(ps: seq<Point>, nodes: seq<nat>, dx: real, dy: real, a: nat, b: nat)
    requires Within(nodes, |ps|) && Distinct(nodes) && a in nodes && b in nodes
    ensures var qs := Offset(ps, nodes, dx, dy, |nodes|);
            && qs[a].x - qs[b].x == ps[a].x - ps[b].x
            && qs[a].y - qs[b].y == ps[a].y - ps[b].y
  {
    assert nodes[..|nodes|] == nodes;
    var i :| 0 <= i < |nodes| && nodes[i] == a;
    var j :| 0 <= j < |nodes| && nodes[j] == b;
    OffsetExact(ps, nodes, dx, dy, |nodes|, a);
    OffsetExact(ps, nodes, dx, dy, |nodes|, b);
  }

  /** Raising every listed y by `dy` raises the highest and the lowest of them by `dy`. */
  lemma ShiftedExtremes(ps: seq<Point>, qs: seq<Point>, nodes: seq<nat>, dy: real)
    requires |nodes| > 0 && Within(nodes, |ps|) && Within(nodes, |qs|)
    requires forall i :: 0 <= i < |nodes| ==> qs[nodes[i]].y == ps[nodes[i]].y + dy
    ensures MaxY(qs, nodes) == MaxY(ps, nodes) + dy && MinY(qs, nodes) == MinY(ps, nodes) + dy
  {
    var hi, hi' := MaxY(ps, nodes), MaxY(qs, nodes);
    var a :| 0 <= a < |nodes| && ps[nodes[a]].y == hi;
    var a' :| 0 <= a' < |nodes| && qs[nodes[a']].y == hi';
    assert ps[nodes[a']].y <= hi && qs[nodes[a]].y <= hi';
    var lo, lo' := MinY(ps, nodes), MinY(qs, nodes);
    var b :| 0 <= b < |nodes| && ps[nodes[b]].y == lo;
    var b' :| 0 <= b' < |nodes| && qs[nodes[b']].y == lo';
    assert lo <= ps[nodes[b']].y && lo' <= qs[nodes[b]].y;
  }

  /** Moving a duplicate-free list by (dx, dy) moves its highest and lowest y by dy and keeps its vertical span. */
  lemma OffsetKeepsSpan(ps: seq<Point>, nodes: seq<nat>, dx: real, dy: real)
    requires |nodes| > 0 && Within(nodes, |ps|) && Distinct(nodes)
    ensures MaxY(Offset(ps, nodes, dx, dy, |nodes|), nodes) == MaxY(ps, nodes) + dy
    ensures MinY(Offset(ps, nodes, dx, dy, |nodes|), nodes) == MinY(ps, nodes) + dy
    ensures VerticalSpan(Offset(ps, nodes, dx, dy, |nodes|), nodes) == VerticalSpan(ps, nodes)
  {
    var qs := Offset(ps, nodes, dx, dy, |nodes|);
    assert nodes[..|nodes|] == nodes;
    forall i | 0 <= i < |nodes| ensures qs[nodes[i]].y == ps[nodes[i]].y + dy {
      OffsetExact(ps, nodes, dx, dy, |nodes|, nodes[i]);
    }
    ShiftedExtremes(ps, qs, nodes, dy);
  }
}
