/** Day 8, first solver: parse the junction boxes, sort every pair of boxes by
    squared distance, and connect pairs in that order with a union-find that
    counts its sets. Part one connects a fixed number of the closest pairs and
    multiplies the three largest circuit sizes; part two connects pairs until a
    single circuit remains and multiplies the x coordinates of the last pair. */
module Day08 {
  import opened Base
  import opened Text
  import opened Sorting
  import opened Junctions
  import opened DisjointSets
  import opened Circuits

  /* ---- Parsing ---- */

  /** One `x,y,z` line: split at the first comma, then at the next, and parse
      each part as an `i64`; `None` where the program panics on an `unwrap`. */
  function ParseLine(line: String): (r: Option<Point>)
    ensures r.Some? ==> (I64_MIN <= r.value.x <= I64_MAX && I64_MIN <= r.value.y <= I64_MAX &&
      I64_MIN <= r.value.z <= I64_MAX)
  {
    match SplitOnce(line, ',')
    case None => None
    case Some((x, rest)) =>
      match SplitOnce(rest, ',')
      case None => None
      case Some((y, z)) =>
        var px, py, pz := ParseSigned(x, I64_MIN, I64_MAX), ParseSigned(y, I64_MIN, I64_MAX), ParseSigned(z, I64_MIN, I64_MAX);
        if px.Some? && py.Some? && pz.Some? then Some(Point(px.value, py.value, pz.value)) else None
  }

  /** The boxes of the input, one per line; `None` when any line fails. */
  function ParseInput(input: String): Option<seq<Point>>
  {
    MapAll(ParseLine, Lines(input))
  }

  /** The line the puzzle input uses for a box. */
  function FormatPoint(p: Point): (s: String)
    ensures '\n' !in s
  {
    ShowSigned(p.x) + [','] + ShowSigned(p.y) + [','] + ShowSigned(p.z)
  }

  lemma ParseLineRoundTrip(p: Point)
    requires I64_MIN <= p.x <= I64_MAX && I64_MIN <= p.y <= I64_MAX && I64_MIN <= p.z <= I64_MAX
    ensures ParseLine(FormatPoint(p)) == Some(p)
  {
    var x, y, z := ShowSigned(p.x), ShowSigned(p.y), ShowSigned(p.z);
    assert ',' !in x && ',' !in y;
    var rest := y + [','] + z;
    assert FormatPoint(p) == x + [','] + rest;
    SplitOnceAfter(x, ',', rest);
    SplitOnceAfter(y, ',', z);
    ParseSignedRoundTrip(p.x, I64_MIN, I64_MAX);
    ParseSignedRoundTrip(p.y, I64_MIN, I64_MAX);
    ParseSignedRoundTrip(p.z, I64_MIN, I64_MAX);
  }

  lemma ParseInputRoundTrip(pts: seq<Point>)
    requires forall k :: 0 <= k < |pts| ==>
      I64_MIN <= pts[k].x <= I64_MAX && I64_MIN <= pts[k].y <= I64_MAX && I64_MIN <= pts[k].z <= I64_MAX
    ensures ParseInput(Unlines(seq(|pts|, k requires 0 <= k < |pts| => FormatPoint(pts[k])))) == Some(pts)
  {
    var ls := seq(|pts|, k requires 0 <= k < |pts| => FormatPoint(pts[k]));
    LinesUnlines(ls);
    forall k | 0 <= k < |pts| ensures ParseLine(ls[k]) == Some(pts[k]) {
      ParseLineRoundTrip(pts[k]);
    }
    MapAllSome(ParseLine, ls, pts);
  }

  /* ---- Pairs ---- */

  /** Every pair of boxes `(a, b)` with `a < b`, with its squared distance,
      sorted by that distance. */
  function GeneratePairs(pts: seq<Point>): (r: seq<Cable>)
    ensures |r| == |pts| * (|pts| - 1) / 2
    ensures AllCablesOf(pts, r) && Complete(pts, r) && DistinctPairs(r)
    ensures SortedByDist(r) && ValidLinks(|pts|, Links(r))
  {
    var all := AllPairs(pts);
    AllPairsFacts(pts);
    var r := SortBy(all, CableDist);
    PermutedPairs(pts, all, r);
    r
  }

  lemma {:induction false} AtMostOnce(cs: seq<Cable>, c: Cable)
    requires DistinctPairs(cs)
    ensures multiset(cs)[c] <= 1
  {
    if cs != [] {
      var p := cs[..|cs| - 1];
      assert cs == p + [cs[|cs| - 1]];
      assert forall k :: 0 <= k < |p| ==> p[k] == cs[k];
      AtMostOnce(p, c);
      if c == cs[|cs| - 1] {
        assert forall k :: 0 <= k < |p| ==> p[k] != c;
        assert c !in p;
      }
    }
  }

  lemma NoRepeats(b: seq<Cable>, i: nat, j: nat)
    requires i < j < |b| && forall c :: multiset(b)[c] <= 1
    ensures b[i] != b[j]
  {
    assert b == b[..j] + b[j..];
    assert b[i] in multiset(b[..j]);
    assert b[j] in multiset(b[j..]);
    assert multiset(b)[b[j]] == multiset(b[..j])[b[j]] + multiset(b[j..])[b[j]];
  }

  /** A reordering of the cables of distinct pairs keeps every pair, once. */
  lemma PermutedPairs(pts: seq<Point>, a: seq<Cable>, b: seq<Cable>)
    requires multiset(a) == multiset(b) && AllCablesOf(pts, a) && DistinctPairs(a)
    requires Complete(pts, a)
    ensures AllCablesOf(pts, b) && DistinctPairs(b) && Complete(pts, b)
  {
    forall k | 0 <= k < |b| ensures IsCableOf(pts, b[k]) {
      assert b[k] in multiset(a);
    }
    forall c | true ensures multiset(b)[c] <= 1 {
      AtMostOnce(a, c);
    }
    forall i, j | 0 <= i < j < |b| ensures !(b[i].u == b[j].u && b[i].v == b[j].v) {
      NoRepeats(b, i, j);
    }
    forall x, y | 0 <= x < y < |pts| ensures Joins(b, x, y) {
      assert Joins(a, x, y);
      var k :| 0 <= k < |a| && a[k].u == x && a[k].v == y;
      assert a[k] in multiset(b);
    }
  }

  /* ---- Union-find with a set counter ---- */

  /** Two steps up from `x` on the walk from `i` is still on that walk,
      strictly closer to the root, and its own walk no longer meets `x`. */
  lemma Grandparent(p0: seq<nat>, roots: seq<nat>, depth: seq<nat>, i: nat, x: nat)
    requires IsForest(p0, roots, depth) && i < |p0| && x < |p0| && x in Path(p0, depth, i) && p0[x] != x
    ensures p0[x] in Path(p0, depth, x) && p0[p0[x]] in Path(p0, depth, x)
    ensures var y := p0[p0[x]];
      y in Path(p0, depth, i) && depth[y] < depth[x] && roots[y] == roots[x] && x !in Path(p0, depth, y)
  {
    PathFacts(p0, roots, depth, x);
    var px := p0[x];
    assert Path(p0, depth, x) == {x} + Path(p0, depth, px);
    PathFacts(p0, roots, depth, px);
    var y := p0[px];
    PathNested(p0, depth, x, px);
    PathNested(p0, depth, i, x);
    PathFacts(p0, roots, depth, y);
  }

  /** Pointing `x` at its grandparent and moving there keeps the invariant and
      gets closer to the root. */
  lemma HalvingStep(parents: seq<nat>, roots: seq<nat>, depth: seq<nat>, p0: seq<nat>, i: nat, x: nat)
    requires Rewiring(parents, roots, depth, p0, i, x) && parents[x] != x
    ensures parents[x] < |parents| && parents[parents[x]] < |parents|
    ensures var y := parents[parents[x]];
      depth[y] < depth[x] && Rewiring(parents[x := y], roots, depth, p0, i, y)
  {
    assert parents[x] == p0[x];
    Grandparent(p0, roots, depth, i, x);
    var px := p0[x];
    var y := p0[px];
    assert parents[px] == y;
    PathNested(p0, depth, x, y);
    Redirect(parents, roots, depth, x, y);
    var q := parents[x := y];
    forall k | 0 <= k < |q| && k in Path(p0, depth, y) ensures q[k] == p0[k] {
      assert k != x;
    }
    forall k | 0 <= k < |q| && k !in Path(p0, depth, i) ensures q[k] == p0[k] {
      assert k != x;
      assert q[k] == parents[k];
    }
  }

  /** Union-find over `parents`, with path halving in `Find` and a live count of
      the sets. The ghost `roots` is the labelling the forest represents and
      `depth` ranks it, so every walk up the forest ends. */
  class DisjointSetUnion {
    var numSets: nat
    var parents: seq<nat>
    ghost var roots: seq<nat>
    ghost var depth: seq<nat>

    ghost predicate Valid()
      reads this
    {
      IsForest(parents, roots, depth) && numSets == |Classes(roots)|
    }

    constructor (size: nat)
      ensures Valid() && parents == Identity(size) && roots == Identity(size) && numSets == size
    {
      InitialForest(size);
      IdentityCount(size);
      numSets := size;
      parents := Identity(size);
      roots := Identity(size);
      depth := seq(size, k => 0);
    }

    /** The root of the set of `i`. Every element on the walk from `i` may be
        pointed at its grandparent, and nothing else changes. */
    method Find(i: nat) returns (r: nat)
      requires Valid() && i < |parents|
      modifies this
      ensures Valid() && roots == old(roots) && depth == old(depth) && numSets == old(numSets)
      ensures r == roots[i] && |parents| == |old(parents)| && parents[r] == r
      ensures forall k {:trigger parents[k]} :: 0 <= k < |parents| && k !in Path(old(parents), depth, i) ==> parents[k] == old(parents[k])
    {
      var ps := parents;
      ghost var rs, ds := roots, depth;
      RewiringStart(ps, rs, ds, i);
      var x: nat := i;
      while x != ps[x]
        invariant Rewiring(ps, rs, ds, parents, i, x)
        invariant unchanged(this)
        decreases ds[x]
      {
        HalvingStep(ps, rs, ds, parents, i, x);
        ps := ps[x := ps[ps[x]]];
        x := ps[x];
      }
      RewiringEnd(ps, rs, ds, parents, i, x);
      parents := ps;
      r := x;
    }

    /** Unites the sets of `i` and `j`; reports whether they were separate. */
    method Union(i: nat, j: nat) returns (merged: bool)
      requires Valid() && i < |parents| && j < |parents|
      modifies this
      ensures Valid() && |parents| == |old(parents)|
      ensures merged <==> old(roots[i]) != old(roots[j])
      ensures roots == Merge(old(roots), i, j)
      ensures numSets == if merged then old(numSets) - 1 else old(numSets)
    {
      var ri := Find(i);
      var rj := Find(j);
      if ri != rj {
        LinkRoots(parents, roots, depth, i, j);
        parents := parents[ri := rj];
        depth := Raise(roots, depth, ri, depth[rj] + 1);
        roots := Merge(roots, i, j);
        numSets := numSets - 1;
        merged := true;
      } else {
        MergeSame(roots, i, j);
        merged := false;
      }
    }
  }

  /* ---- The two parts ---- */

  /** The values of `m` in increasing order of their keys below `bound`: the
      order in which a `BTreeMap` yields them. */
  function ValuesByKey(m: map<nat, nat>, bound: nat): seq<nat>
  {
    if bound == 0 then [] else ValuesByKey(m, bound - 1) + (if bound - 1 in m then [m[bound - 1]] else [])
  }

  lemma {:induction false} ValuesByKeyTally(m: map<nat, nat>, l: seq<nat>, b: nat)
    requires b <= |l|
    requires forall r: nat :: r in m <==> r < |l| && CountLabel(l, r) > 0
    requires forall r: nat :: r in m ==> m[r] == CountLabel(l, r)
    ensures ValuesByKey(m, b) == Positives(Tally(l)[..b])
  {
    if b > 0 {
      ValuesByKeyTally(m, l, b - 1);
      assert Tally(l)[..b][..b - 1] == Tally(l)[..b - 1];
    }
  }

  /** Connects the `connections` closest pairs (all of them when there are
      fewer) and multiplies the sizes of the three largest circuits; `None`
      when a line does not parse. */
  method PartOne(input: String, connections: nat) returns (r: Option<int>)
    ensures ParseInput(input).None? ==> r.None?
    ensures ParseInput(input).Some? ==>
      var pts := ParseInput(input).value;
      var pairs := GeneratePairs(pts);
      r == Some(LargestProduct(ComponentSizes(Joined(|pts|, pairs, Min(connections, |pairs|))), 3))
  {
    var parsed := ParseInput(input);
    if parsed.None? {
      return None;
    }
    var answer := LargestCircuits(parsed.value, connections);
    return Some(answer);
  }

  /** Part one on parsed boxes. */
  method LargestCircuits(pts: seq<Point>, connections: nat) returns (answer: int)
    ensures var pairs := GeneratePairs(pts);
      answer == LargestProduct(ComponentSizes(Joined(|pts|, pairs, Min(connections, |pairs|))), 3)
  {
    var n := |pts|;
    var pairs := GeneratePairs(pts);
    var dsu := new DisjointSetUnion(n);
    var m := Min(connections, |pairs|);
    ConnectClosest(dsu, pairs, m);
    var sizes := TallyRoots(dsu);
    answer := LargestProduct(sizes, 3);
  }

  /** Unites the ends of the first `m` pairs, in order. */
  method ConnectClosest(dsu: DisjointSetUnion, pairs: seq<Cable>, m: nat)
    requires dsu.Valid() && dsu.roots == Identity(|dsu.parents|)
    requires ValidLinks(|dsu.parents|, Links(pairs)) && m <= |pairs|
    modifies dsu
    ensures dsu.Valid() && |dsu.parents| == old(|dsu.parents|)
    ensures dsu.roots == Joined(|dsu.parents|, pairs, m)
  {
    var n := |dsu.parents|;
    var k := 0;
    while k < m
      invariant 0 <= k <= m
      invariant dsu.Valid() && |dsu.parents| == n && dsu.roots == Joined(n, pairs, k)
    {
      JoinedStep(n, pairs, k);
      var _ := dsu.Union(pairs[k].u, pairs[k].v);
      k := k + 1;
    }
  }

  /** The size of every set, found by counting the root each element leads
      to in a map and reading the map in increasing order of roots. */
  method TallyRoots(dsu: DisjointSetUnion) returns (sizes: seq<nat>)
    requires dsu.Valid()
    modifies dsu
    ensures dsu.Valid() && dsu.roots == old(dsu.roots) && |dsu.parents| == old(|dsu.parents|)
    ensures sizes == ComponentSizes(dsu.roots)
  {
    var n := |dsu.parents|;
    ghost var l := dsu.roots;
    var sizesMap: map<nat, nat> := map[];
    var i := 0;
    while i < n
      invariant 0 <= i <= n
      invariant dsu.Valid() && |dsu.parents| == n && dsu.roots == l
      invariant forall r: nat :: r in sizesMap <==> r < n && CountLabel(l[..i], r) > 0
      invariant forall r: nat :: r in sizesMap ==> sizesMap[r] == CountLabel(l[..i], r)
    {
      var root := dsu.Find(i);
      CountLabelStep(l, i);
      sizesMap := sizesMap[root := (if root in sizesMap then sizesMap[root] else 0) + 1];
      i := i + 1;
    }
    assert l[..n] == l;
    ValuesByKeyTally(sizesMap, l, n);
    assert Tally(l)[..n] == Tally(l);
    sizes := ValuesByKey(sizesMap, n);
  }

  /** Connects pairs in order until one circuit remains and multiplies the x
      coordinates of the pair that completed it; `None` when a line does not
      parse or no pair completes a single circuit. */
  method PartTwo(input: String) returns (r: Option<nat>)
    ensures ParseInput(input).None? ==> r.None?
    ensures ParseInput(input).Some? ==>
      var pts := ParseInput(input).value;
      var pairs := GeneratePairs(pts);
      (r.Some? <==> |pts| >= 2) &&
      forall t: nat :: FirstConnecting(|pts|, pairs, t) ==> r == Some(AsU64(pts[pairs[t].u].x * pts[pairs[t].v].x))
  {
    var parsed := ParseInput(input);
    if parsed.None? {
      return None;
    }
    r := LastConnection(parsed.value);
  }

  /** Part two on parsed boxes. */
  method LastConnection(pts: seq<Point>) returns (r: Option<nat>)
    ensures var pairs := GeneratePairs(pts);
      (r.Some? <==> |pts| >= 2) &&
      forall t: nat :: FirstConnecting(|pts|, pairs, t) ==> r == Some(AsU64(pts[pairs[t].u].x * pts[pairs[t].v].x))
  {
    var n := |pts|;
    var pairs := GeneratePairs(pts);
    var dsu := new DisjointSetUnion(n);
    var k := 0;
    while k < |pairs|
      invariant 0 <= k <= |pairs|
      invariant dsu.Valid() && |dsu.parents| == n && dsu.roots == Joined(n, pairs, k)
      invariant forall q: nat :: 0 < q <= k ==> !Connected(n, pairs, q)
    {
      JoinedStep(n, pairs, k);
      var _ := dsu.Union(pairs[k].u, pairs[k].v);
      ConnectedCount(n, pairs, k + 1, dsu.roots, dsu.numSets);
      if dsu.numSets == 1 {
        FirstConnectingFound(pts, pairs, k);
        return Some(AsU64(pts[pairs[k].u].x * pts[pairs[k].v].x));
      }
      StillApart(n, pairs, k);
      k := k + 1;
    }
    NeverConnected(pts, pairs);
    return None;
  }

  lemma StillApart(n: nat, pairs: seq<Cable>, k: nat)
    requires ValidLinks(n, Links(pairs)) && k < |pairs|
    requires forall q: nat :: 0 < q <= k ==> !Connected(n, pairs, q)
    requires !Connected(n, pairs, k + 1)
    ensures forall q: nat :: 0 < q <= k + 1 ==> !Connected(n, pairs, q)
  {
  }

  lemma ConnectedCount(n: nat, pairs: seq<Cable>, q: nat, roots: seq<nat>, numSets: nat)
    requires ValidLinks(n, Links(pairs)) && q <= |pairs|
    requires roots == Joined(n, pairs, q) && numSets == |Classes(roots)|
    ensures Connected(n, pairs, q) <==> numSets == 1
  {
  }

  /** The pair that completes the single circuit is a heaviest edge of a
      minimum spanning tree, and its squared length is the bottleneck distance. */
  lemma LastPairIsBottleneck(pts: seq<Point>, t: nat)
    requires FirstConnecting(|pts|, GeneratePairs(pts), t)
    ensures IsBottleneck(pts, GeneratePairs(pts)[t].dist)
    ensures IsBottleneckEdge(pts, GeneratePairs(pts)[t].u, GeneratePairs(pts)[t].v, GeneratePairs(pts)[t].dist)
  {
    KruskalBottleneck(pts, GeneratePairs(pts), t);
  }

  /** Part one's circuit sizes account for every box once. */
  lemma PartOneSizes(pts: seq<Point>, connections: nat)
    ensures Sum(ComponentSizes(Joined(|pts|, GeneratePairs(pts), Min(connections, |GeneratePairs(pts)|)))) == |pts|
  {
    var pairs := GeneratePairs(pts);
    JoinedFacts(|pts|, pairs, Min(connections, |pairs|));
    TallyFacts(Joined(|pts|, pairs, Min(connections, |pairs|)));
  }
}
