/** The junction boxes of day 8 and what both day-8 solvers compute about them:
    squared distances, the candidate cables between every two boxes, and the
    bottleneck distance that connects all boxes into one circuit. */
module Junctions {

  /** A junction box at integer coordinates. */
  datatype Point = Point(x: int, y: int, z: int)

  /** A candidate cable between boxes `u` and `v` with squared length `dist`. */
  datatype Cable = Cable(dist: int, u: nat, v: nat)

  function SqDist(p: Point, q: Point): (d: int)
  {
    (p.x - q.x) * (p.x - q.x) + (p.y - q.y) * (p.y - q.y) + (p.z - q.z) * (p.z - q.z)
  }

  lemma SqDistFacts(p: Point, q: Point)
    ensures SqDist(p, q) >= 0 && SqDist(p, q) == SqDist(q, p)
    ensures SqDist(p, p) == 0
  {
    var a, b, c := p.x - q.x, p.y - q.y, p.z - q.z;
    assert a * a >= 0 && b * b >= 0 && c * c >= 0;
    assert (q.x - p.x) * (q.x - p.x) == a * a;
    assert (q.y - p.y) * (q.y - p.y) == b * b;
    assert (q.z - p.z) * (q.z - p.z) == c * c;
  }

  /** Squared distance between boxes `a` and `b` of `pts`. */
  function Dist(pts: seq<Point>, a: nat, b: nat): int
    requires a < |pts| && b < |pts|
  {
    SqDist(pts[a], pts[b])
  }

  /** The boxes of three parallel coordinate columns. */
  function Zip(xs: seq<int>, ys: seq<int>, zs: seq<int>): (pts: seq<Point>)
    requires |xs| == |ys| == |zs|
    ensures |pts| == |xs|
    ensures forall k :: 0 <= k < |xs| ==> pts[k] == Point(xs[k], ys[k], zs[k])
  {
    seq(|xs|, k requires 0 <= k < |xs| => Point(xs[k], ys[k], zs[k]))
  }

  /** The sort key of a cable: its squared length. */
  function CableDist(c: Cable): int { c.dist }

  /** `c` joins two distinct boxes, the lower index first, and carries their squared distance. */
  ghost predicate IsCableOf(pts: seq<Point>, c: Cable)
  {
    c.u < c.v < |pts| && c.dist == Dist(pts, c.u, c.v)
  }

  ghost predicate AllCablesOf(pts: seq<Point>, cs: seq<Cable>)
  {
    forall k :: 0 <= k < |cs| ==> IsCableOf(pts, cs[k])
  }

  /** Some cable of `cs` joins `a` and `b`. */
  ghost predicate Joins(cs: seq<Cable>, a: nat, b: nat)
  {
    exists k :: 0 <= k < |cs| && cs[k].u == a && cs[k].v == b
  }

  /** No two cables of `cs` join the same two boxes. */
  ghost predicate DistinctPairs(cs: seq<Cable>)
  {
    forall i, j :: 0 <= i < j < |cs| ==> !(cs[i].u == cs[j].u && cs[i].v == cs[j].v)
  }

  /** Number of pairs `(a, b)` with `a < i` and `a < b < n`: the pairs that come
      before row `i` in `tuple_combinations` order. */
  function PairsBefore(n: nat, i: nat): nat
    requires i <= n
  {
    if i == 0 then 0 else PairsBefore(n, i - 1) + (n - i)
  }

  lemma {:induction false} PairsBeforeAll(n: nat)
    ensures PairsBefore(n, n) == n * (n - 1) / 2
  {
    var i := 0;
    while i < n
      invariant 0 <= i <= n
      invariant 2 * PairsBefore(n, i) == i * (2 * n - i - 1)
    {
      i := i + 1;
    }
  }

  /** Row `a` of `tuple_combinations`: the cables `(a, b)` for `b` from `a + 1` up. */
  function Row(pts: seq<Point>, a: nat): (r: seq<Cable>)
    requires a < |pts|
    ensures |r| == |pts| - a - 1
    ensures forall k :: 0 <= k < |r| ==> r[k] == Cable(Dist(pts, a, a + 1 + k), a, a + 1 + k)
  {
    seq(|pts| - a - 1, k requires 0 <= k < |pts| - a - 1 => Cable(Dist(pts, a, a + 1 + k), a, a + 1 + k))
  }

  /** The cables of rows `a` onwards. */
  function RowsFrom(pts: seq<Point>, a: nat): (r: seq<Cable>)
    requires a <= |pts|
    decreases |pts| - a
  {
    if a == |pts| then [] else Row(pts, a) + RowsFrom(pts, a + 1)
  }

  /** Every unordered pair of boxes as a cable, in `tuple_combinations` order. */
  function AllPairs(pts: seq<Point>): seq<Cable>
  {
    RowsFrom(pts, 0)
  }

  lemma {:induction false} RowsFromFacts(pts: seq<Point>, a: nat)
    requires a <= |pts|
    ensures |RowsFrom(pts, a)| == PairsBefore(|pts|, |pts|) - PairsBefore(|pts|, a)
    ensures forall k :: 0 <= k < |RowsFrom(pts, a)| ==> IsCableOf(pts, RowsFrom(pts, a)[k]) && RowsFrom(pts, a)[k].u >= a
    ensures forall c, b :: a <= c < b < |pts| ==> Joins(RowsFrom(pts, a), c, b)
    ensures DistinctPairs(RowsFrom(pts, a))
    decreases |pts| - a
  {
    var n := |pts|;
    if a < n {
      RowsFromFacts(pts, a + 1);
      var row, rest := Row(pts, a), RowsFrom(pts, a + 1);
      var r := row + rest;
      assert PairsBefore(n, a + 1) == PairsBefore(n, a) + (n - a - 1);
      RowsJoin(pts, a, rest);
      RowsDistinct(pts, a, rest);
    }
  }

  lemma RowsJoin(pts: seq<Point>, a: nat, rest: seq<Cable>)
    requires a < |pts| && rest == RowsFrom(pts, a + 1)
    requires forall c, b :: a + 1 <= c < b < |pts| ==> Joins(rest, c, b)
    ensures forall c, b :: a <= c < b < |pts| ==> Joins(RowsFrom(pts, a), c, b)
  {
    var row := Row(pts, a);
    var r := row + rest;
    assert RowsFrom(pts, a) == r;
    forall c, b | a <= c < b < |pts| ensures Joins(r, c, b) {
      if c == a {
        assert r[b - a - 1].u == c && r[b - a - 1].v == b;
      } else {
        assert Joins(rest, c, b);
        var k :| 0 <= k < |rest| && rest[k].u == c && rest[k].v == b;
        assert r[|row| + k] == rest[k];
      }
    }
  }

  lemma RowsDistinct(pts: seq<Point>, a: nat, rest: seq<Cable>)
    requires a < |pts| && rest == RowsFrom(pts, a + 1)
    requires forall k :: 0 <= k < |rest| ==> rest[k].u >= a + 1
    requires DistinctPairs(rest)
    ensures DistinctPairs(RowsFrom(pts, a))
  {
    var row := Row(pts, a);
    var r := row + rest;
    assert RowsFrom(pts, a) == r;
    forall i, j | 0 <= i < j < |r| ensures !(r[i].u == r[j].u && r[i].v == r[j].v) {
      if j < |row| {
      } else if i >= |row| {
        assert r[i] == rest[i - |row|] && r[j] == rest[j - |row|];
      } else {
        assert r[j] == rest[j - |row|];
      }
    }
  }

  lemma AllPairsFacts(pts: seq<Point>)
    ensures |AllPairs(pts)| == |pts| * (|pts| - 1) / 2
    ensures forall k :: 0 <= k < |AllPairs(pts)| ==> IsCableOf(pts, AllPairs(pts)[k])
    ensures forall a, b :: 0 <= a < b < |pts| ==> Joins(AllPairs(pts), a, b)
    ensures DistinctPairs(AllPairs(pts))
  {
    RowsFromFacts(pts, 0);
    PairsBeforeAll(|pts|);
  }

  /* ---- Cuts and the bottleneck distance ---- */

  /** A cut of `n` boxes: a set that holds some of them but not all. */
  ghost predicate IsCut(n: nat, s: set<nat>)
  {
    (forall k :: k in s ==> k < n) && (exists k :: k in s) && (exists k :: 0 <= k < n && k !in s)
  }

  /** Some pair of boxes on opposite sides of `s` is at most `w` apart. */
  ghost predicate CrossedWithin(pts: seq<Point>, s: set<nat>, w: int)
  {
    exists a, b :: 0 <= a < |pts| && 0 <= b < |pts| && a in s && b !in s && Dist(pts, a, b) <= w
  }

  /** `w` is the bottleneck distance of `pts`: linking every two boxes at most
      `w` apart joins all boxes into one circuit (every cut is crossed), and no
      smaller threshold does (for `w > 0`, some cut has no crossing pair closer than `w`). */
  ghost predicate IsBottleneck(pts: seq<Point>, w: int)
  {
    w >= 0 &&
    (forall s :: IsCut(|pts|, s) ==> CrossedWithin(pts, s, w)) &&
    (w > 0 ==> exists s :: IsCut(|pts|, s) && !CrossedWithin(pts, s, w - 1))
  }

  /** The cable from `a` to `b`, of squared length `w`, is a lightest cable
      across some cut, and no cable across that cut is shorter than `w`: a
      heaviest edge of a minimum spanning tree. */
  ghost predicate IsBottleneckEdge(pts: seq<Point>, a: nat, b: nat, w: int)
  {
    a < |pts| && b < |pts| && Dist(pts, a, b) == w &&
    exists s :: IsCut(|pts|, s) && a in s && b !in s && !CrossedWithin(pts, s, w - 1)
  }

  /** A non-negative threshold that crosses every cut is at least the bottleneck distance. */
  lemma BottleneckLeast(pts: seq<Point>, w: int, v: int)
    requires IsBottleneck(pts, w) && v >= 0
    requires forall s :: IsCut(|pts|, s) ==> CrossedWithin(pts, s, v)
    ensures w <= v
  {
    if w > 0 {
      var s :| IsCut(|pts|, s) && !CrossedWithin(pts, s, w - 1);
      assert CrossedWithin(pts, s, v);
      var a, b :| 0 <= a < |pts| && 0 <= b < |pts| && a in s && b !in s && Dist(pts, a, b) <= v;
      assert Dist(pts, a, b) > w - 1;
    }
  }

  /** The bottleneck distance is unique: every minimum spanning tree, and every
      other construction that attains it, reports the same heaviest edge weight. */
  lemma BottleneckUnique(pts: seq<Point>, w1: int, w2: int)
    requires IsBottleneck(pts, w1) && IsBottleneck(pts, w2)
    ensures w1 == w2
  {
    BottleneckLeast(pts, w1, w2);
    BottleneckLeast(pts, w2, w1);
  }
}
