/** Day 9 (src/bin/09.rs), the polygon side of part two: the red tiles, read
    in order, are the corners of a closed rectilinear polygon. Its sides are
    split into vertical and horizontal edges sorted by position; a point is
    classified by casting a ray to the right, and a rectangle is rejected when
    an edge crosses its interior. */
module Day09Polygon {
  import opened Base
  import opened Sorting

  /** `Edge`: an axis-parallel side at coordinate `at`, spanning `[min, max]`
      in the other axis. */
  datatype Edge = Edge(at: int, min: int, max: int)

  /** `Edges`: the sides split by orientation, each list sorted by `at`. */
  datatype Edges = Edges(horizontal: seq<Edge>, vertical: seq<Edge>)

  function At(e: Edge): int { e.at }

  /** The side from corner `i` to the next corner, `(i + 1) % n`. */
  predicate IsVertical(xs: seq<int>, ys: seq<int>, n: nat, i: nat)
    requires i < n <= |xs| && n <= |ys|
  {
    xs[i] == xs[(i + 1) % n]
  }

  /** The edge of the side from corner `i`: at the shared `x` when the side
      is vertical, otherwise at the `y` of corner `i`. */
  function Side(xs: seq<int>, ys: seq<int>, n: nat, i: nat): (e: Edge)
    requires i < n <= |xs| && n <= |ys|
    ensures e.min <= e.max
  {
    var j := (i + 1) % n;
    if xs[i] == xs[j] then Edge(xs[i], Min(ys[i], ys[j]), Max(ys[i], ys[j]))
    else Edge(ys[i], Min(xs[i], xs[j]), Max(xs[i], xs[j]))
  }

  /** The vertical edges of the first `k` sides, in side order. */
  function Verticals(xs: seq<int>, ys: seq<int>, n: nat, k: nat): (r: seq<Edge>)
    requires k <= n <= |xs| && n <= |ys|
    ensures forall q :: 0 <= q < |r| ==> r[q].min <= r[q].max
  {
    if k == 0 then []
    else Verticals(xs, ys, n, k - 1) + (if IsVertical(xs, ys, n, k - 1) then [Side(xs, ys, n, k - 1)] else [])
  }

  /** The horizontal edges of the first `k` sides, in side order. */
  function Horizontals(xs: seq<int>, ys: seq<int>, n: nat, k: nat): (r: seq<Edge>)
    requires k <= n <= |xs| && n <= |ys|
    ensures forall q :: 0 <= q < |r| ==> r[q].min <= r[q].max
  {
    if k == 0 then []
    else Horizontals(xs, ys, n, k - 1) + (if IsVertical(xs, ys, n, k - 1) then [] else [Side(xs, ys, n, k - 1)])
  }

  /** `Edges::build`: both lists sorted by `at`. */
  function Build(xs: seq<int>, ys: seq<int>): Edges
  {
    var n := Min(|xs|, |ys|);
    Edges(SortBy(Horizontals(xs, ys, n, n), At), SortBy(Verticals(xs, ys, n, n), At))
  }

  /** `Edges::build`, with the two vectors filled by the loop over the sides. */
  method BuildEdges(xs: seq<int>, ys: seq<int>) returns (edges: Edges)
    ensures edges == Build(xs, ys)
  {
    var n := Min(|xs|, |ys|);
    var vertical: seq<Edge> := [];
    var horizontal: seq<Edge> := [];
    for i := 0 to n
      invariant vertical == Verticals(xs, ys, n, i)
      invariant horizontal == Horizontals(xs, ys, n, i)
    {
      var j := (i + 1) % n;
      var x1, y1 := xs[i], ys[i];
      var x2, y2 := xs[j], ys[j];
      if x1 == x2 {
        var lo, hi := if y1 < y2 then y1 else y2, if y1 < y2 then y2 else y1;
        vertical := vertical + [Edge(x1, lo, hi)];
      } else {
        var lo, hi := if x1 < x2 then x1 else x2, if x1 < x2 then x2 else x1;
        horizontal := horizontal + [Edge(y1, lo, hi)];
      }
    }
    edges := Edges(SortBy(horizontal, At), SortBy(vertical, At));
  }

  /** Every side gives exactly one edge: the two lists together are as long
      as the number of sides. */
  lemma {:induction false} OneEdgePerSide(xs: seq<int>, ys: seq<int>, n: nat, k: nat)
    requires k <= n <= |xs| && n <= |ys|
    ensures |Verticals(xs, ys, n, k)| + |Horizontals(xs, ys, n, k)| == k
  {
    if k > 0 {
      OneEdgePerSide(xs, ys, n, k - 1);
    }
  }

  /** The edge of side `i` is in the list of its orientation. */
  lemma {:induction false} SideListed(xs: seq<int>, ys: seq<int>, n: nat, k: nat, i: nat) returns (q: nat)
    requires i < k <= n <= |xs| && n <= |ys|
    ensures IsVertical(xs, ys, n, i) ==> q < |Verticals(xs, ys, n, k)| && Verticals(xs, ys, n, k)[q] == Side(xs, ys, n, i)
    ensures !IsVertical(xs, ys, n, i) ==>
      q < |Horizontals(xs, ys, n, k)| && Horizontals(xs, ys, n, k)[q] == Side(xs, ys, n, i)
  {
    if i == k - 1 {
      q := if IsVertical(xs, ys, n, i) then |Verticals(xs, ys, n, k - 1)| else |Horizontals(xs, ys, n, k - 1)|;
    } else {
      q := SideListed(xs, ys, n, k - 1, i);
    }
  }

  /** The built edges: sorted by `at`, one per side, each with `min <= max`. */
  lemma {:induction false} BuildFacts(xs: seq<int>, ys: seq<int>)
    ensures var e := Build(xs, ys);
      SortedBy(e.vertical, At) && SortedBy(e.horizontal, At) &&
      |e.vertical| + |e.horizontal| == Min(|xs|, |ys|) &&
      (forall q :: 0 <= q < |e.vertical| ==> e.vertical[q].min <= e.vertical[q].max) &&
      (forall q :: 0 <= q < |e.horizontal| ==> e.horizontal[q].min <= e.horizontal[q].max)
  {
    var n := Min(|xs|, |ys|);
    var v := Verticals(xs, ys, n, n);
    var h := Horizontals(xs, ys, n, n);
    OneEdgePerSide(xs, ys, n, n);
    ElementBounds(v, SortBy(v, At));
    ElementBounds(h, SortBy(h, At));
  }

  /** The edge of every side is among the built edges of its orientation. */
  lemma {:induction false} SideInBuild(xs: seq<int>, ys: seq<int>, i: nat) returns (q: nat)
    requires i < Min(|xs|, |ys|)
    ensures var n := Min(|xs|, |ys|);
      var list := if IsVertical(xs, ys, n, i) then Build(xs, ys).vertical else Build(xs, ys).horizontal;
      q < |list| && list[q] == Side(xs, ys, n, i)
  {
    var n := Min(|xs|, |ys|);
    var s := Side(xs, ys, n, i);
    var p := SideListed(xs, ys, n, n, i);
    var raw := if IsVertical(xs, ys, n, i) then Verticals(xs, ys, n, n) else Horizontals(xs, ys, n, n);
    q := Moved(raw, SortBy(raw, At), p);
  }

  /** A permutation keeps the `min <= max` of every edge. */
  lemma ElementBounds(s: seq<Edge>, t: seq<Edge>)
    requires multiset(s) == multiset(t)
    requires forall q :: 0 <= q < |s| ==> s[q].min <= s[q].max
    ensures forall q :: 0 <= q < |t| ==> t[q].min <= t[q].max
  {
    forall q | 0 <= q < |t|
      ensures t[q].min <= t[q].max
    {
      assert t[q] in multiset(s);
    }
  }

  /** Does the ray from the doubled point `(px2, py2)` to the right cross `e`?
      The edge must lie strictly to the right, and the point's `y` strictly
      inside its span. */
  predicate RayCrosses(px2: int, py2: int, e: Edge)
  {
    e.at * 2 > px2 && e.min * 2 < py2 < e.max * 2
  }

  /** The number of edges the ray crosses. */
  function Crossings(px2: int, py2: int, v: seq<Edge>): (c: nat)
    ensures c <= |v|
  {
    if v == [] then 0
    else Crossings(px2, py2, v[..|v| - 1]) + (if RayCrosses(px2, py2, v[|v| - 1]) then 1 else 0)
  }

  /** `is_point_in_polygon`: the loop toggles `inside` at every crossing. */
  method IsPointInPolygon(px2: int, py2: int, v: seq<Edge>) returns (inside: bool)
    ensures inside <==> Crossings(px2, py2, v) % 2 == 1
  {
    inside := false;
    for k := 0 to |v|
      invariant inside <==> Crossings(px2, py2, v[..k]) % 2 == 1
    {
      assert v[..k + 1][..k] == v[..k];
      var edge := v[k];
      var edge_x2 := edge.at * 2;
      if edge_x2 <= px2 {
        continue;
      }
      var edge_min_y2 := edge.min * 2;
      var edge_max_y2 := edge.max * 2;
      if py2 > edge_min_y2 && py2 < edge_max_y2 {
        inside := !inside;
      }
    }
    assert v[..|v|] == v;
  }

  /** The crossings of two lists of edges add up. */
  lemma {:induction false} CrossingsAppend(px2: int, py2: int, v: seq<Edge>, w: seq<Edge>)
    ensures Crossings(px2, py2, v + w) == Crossings(px2, py2, v) + Crossings(px2, py2, w)
    decreases |w|
  {
    if w == [] {
      assert v + w == v;
    } else {
      CrossingsAppend(px2, py2, v, w[..|w| - 1]);
      assert (v + w)[..|v + w| - 1] == v + w[..|w| - 1];
    }
  }

  /** A point whose ray crosses nothing, in particular one to the right of
      every edge, is classified as outside. */
  lemma {:induction false} RightOfAllOutside(px2: int, py2: int, v: seq<Edge>)
    requires forall k :: 0 <= k < |v| ==> v[k].at * 2 <= px2
    ensures Crossings(px2, py2, v) == 0
  {
    if v != [] {
      RightOfAllOutside(px2, py2, v[..|v| - 1]);
    }
  }

  /** `partition_point(|e| e.at < bound)`: the length of the leading run of
      edges before `bound`. On a list sorted by `at` that run is exactly the
      edges before `bound`; `partition_point(|e| e.at <= b)` is the run for
      `bound == b + 1`. */
  function Prefix(edges: seq<Edge>, bound: int): (r: nat)
    ensures r <= |edges|
    ensures forall k :: 0 <= k < r ==> edges[k].at < bound
    ensures r < |edges| ==> edges[r].at >= bound
  {
    if edges == [] || edges[0].at >= bound then 0 else 1 + Prefix(edges[1..], bound)
  }

  /** On sorted edges the run holds exactly the edges before `bound`. */
  lemma PrefixSorted(edges: seq<Edge>, bound: int, k: nat)
    requires SortedBy(edges, At) && k < |edges|
    ensures k < Prefix(edges, bound) <==> edges[k].at < bound
  {
    var r := Prefix(edges, bound);
    if k >= r {
      assert At(edges[r]) <= At(edges[k]);
    }
  }

  /** Does the edge meet the open interval `(lo, hi)` in a segment of
      positive length? */
  predicate Overlaps(e: Edge, lo: int, hi: int)
  {
    Max(e.min, lo) < Min(e.max, hi)
  }

  /** Some edge with index in `[from, to)` overlaps `(lo, hi)`. */
  predicate AnyOverlap(edges: seq<Edge>, from: nat, to: nat, lo: int, hi: int)
    requires to <= |edges|
  {
    exists k :: from <= k < to && Overlaps(edges[k], lo, hi)
  }

  /** The geometric statement: an edge strictly inside the rectangle's span
      in one axis overlaps its open span in the other. */
  predicate Crosses(x: (int, int), y: (int, int), edges: Edges)
  {
    (exists k :: 0 <= k < |edges.vertical| && x.0 < edges.vertical[k].at < x.1 &&
                 Overlaps(edges.vertical[k], y.0, y.1)) ||
    (exists k :: 0 <= k < |edges.horizontal| && y.0 < edges.horizontal[k].at < y.1 &&
                 Overlaps(edges.horizontal[k], x.0, x.1))
  }

  /** `edges_intersect_interior` read with an empty slice where the two
      bounds cross: the corrected reading of `InteriorHitAsWritten`. */
  predicate InteriorHit(x: (int, int), y: (int, int), edges: Edges)
  {
    var v, h := edges.vertical, edges.horizontal;
    AnyOverlap(v, Prefix(v, x.0 + 1), Prefix(v, x.1), y.0, y.1) ||
    AnyOverlap(h, Prefix(h, y.0 + 1), Prefix(h, y.1), x.0, x.1)
  }

  /** The range of edges selected by the two `partition_point` calls is
      exactly the edges strictly inside `(lo, hi)`. */
  lemma {:induction false} RangeSelects(edges: seq<Edge>, lo: int, hi: int, a: int, b: int)
    requires SortedBy(edges, At)
    ensures AnyOverlap(edges, Prefix(edges, lo + 1), Prefix(edges, hi), a, b) <==>
      exists k :: 0 <= k < |edges| && lo < edges[k].at < hi && Overlaps(edges[k], a, b)
  {
    var from, to := Prefix(edges, lo + 1), Prefix(edges, hi);
    forall k | 0 <= k < |edges|
      ensures from <= k < to <==> lo < edges[k].at < hi
    {
      PrefixSorted(edges, lo + 1, k);
      PrefixSorted(edges, hi, k);
    }
  }

  /** On sorted edges the selection by `partition_point` finds exactly the
      edges crossing the interior. */
  lemma {:induction false} InteriorHitExact(x: (int, int), y: (int, int), edges: Edges)
    requires SortedBy(edges.vertical, At) && SortedBy(edges.horizontal, At)
    ensures InteriorHit(x, y, edges) <==> Crosses(x, y, edges)
  {
    RangeSelects(edges.vertical, x.0, x.1, y.0, y.1);
    RangeSelects(edges.horizontal, y.0, y.1, x.0, x.1);
  }

  /** `edges_intersect_interior`: two scans over the edges selected by the
      `partition_point` bounds, each returning at the first overlap, and
      `None` where slicing a range whose start passes its end panics. */
  method EdgesIntersectInterior(x: (int, int), y: (int, int), edges: Edges) returns (hit: Option<bool>)
    ensures hit == InteriorHitAsWritten(x, y, edges)
  {
    var (min_x, max_x) := x;
    var (min_y, max_y) := y;
    var v := edges.vertical;
    var v_start := Prefix(v, min_x + 1);
    var v_end := Prefix(v, max_x);
    if v_start > v_end {
      return None;
    }
    for k := v_start to v_end
      invariant forall q :: v_start <= q < k ==> !Overlaps(v[q], min_y, max_y)
    {
      if Max(v[k].min, min_y) < Min(v[k].max, max_y) {
        return Some(true);
      }
    }
    var h := edges.horizontal;
    var h_start := Prefix(h, min_y + 1);
    var h_end := Prefix(h, max_y);
    if h_start > h_end {
      return None;
    }
    for k := h_start to h_end
      invariant forall q :: h_start <= q < k ==> !Overlaps(h[q], min_x, max_x)
    {
      if Max(h[k].min, min_x) < Min(h[k].max, max_x) {
        return Some(true);
      }
    }
    return Some(false);
  }

  /** `edges_intersect_interior` as written: slicing `[start..end]` panics
      (`None`) when `start > end`, which happens for a rectangle of zero
      width (or height) lying on an edge's coordinate. */
  function InteriorHitAsWritten(x: (int, int), y: (int, int), edges: Edges): Option<bool>
  {
    var v, h := edges.vertical, edges.horizontal;
    var v_start, v_end := Prefix(v, x.0 + 1), Prefix(v, x.1);
    var h_start, h_end := Prefix(h, y.0 + 1), Prefix(h, y.1);
    if v_start > v_end then None
    else if AnyOverlap(v, v_start, v_end, y.0, y.1) then Some(true)
    else if h_start > h_end then None
    else Some(AnyOverlap(h, h_start, h_end, x.0, x.1))
  }

  /** Where it does not panic, the code as written agrees with the
      corrected reading, and it panics only on a degenerate rectangle. */
  lemma {:induction false} AsWrittenAgrees(x: (int, int), y: (int, int), edges: Edges)
    requires SortedBy(edges.vertical, At) && SortedBy(edges.horizontal, At)
    ensures InteriorHitAsWritten(x, y, edges).Some? ==> InteriorHitAsWritten(x, y, edges) == Some(InteriorHit(x, y, edges))
    ensures InteriorHitAsWritten(x, y, edges).None? ==> x.0 >= x.1 || y.0 >= y.1
  {
    if x.0 < x.1 {
      PrefixBoundsOrdered(edges.vertical, x.0 + 1, x.1);
    }
    if y.0 < y.1 {
      PrefixBoundsOrdered(edges.horizontal, y.0 + 1, y.1);
    }
  }

  /** On sorted edges a smaller bound gives a shorter run. */
  lemma PrefixBoundsOrdered(edges: seq<Edge>, a: int, b: int)
    requires SortedBy(edges, At) && a <= b
    ensures Prefix(edges, a) <= Prefix(edges, b)
  {
    var r := Prefix(edges, a);
    if r > 0 {
      PrefixSorted(edges, b, r - 1);
    }
  }

  /** The zero-width rectangle at `x == 5` from `y == 0` to `y == 10`, on a
      polygon with a vertical edge at `x == 5` over the same span: no edge
      meets the (empty) interior, yet `v_start == 1 > 0 == v_end` and the
      slice panics. */
  lemma ZeroWidthPanics()
    ensures var edges := Edges([], [Edge(5, 0, 10)]);
      InteriorHitAsWritten((5, 5), (0, 10), edges).None? && !Crosses((5, 5), (0, 10), edges)
  {
    var edges := Edges([], [Edge(5, 0, 10)]);
    assert Prefix(edges.vertical, 6) == 1;
    assert Prefix(edges.vertical, 5) == 0;
  }
}
