/** Day 8, second solver: the boxes are read as three coordinate columns by a
    byte scanner; part one keeps the closest pairs in a bounded max-heap and
    unites them with a path-compressing union-find; part two runs Prim's
    algorithm over the complete graph and reports the heaviest edge of the
    spanning tree it grows. */
module Day08Fast {
  import opened Base
  import opened Text
  import opened Junctions
  import opened DisjointSets
  import opened Circuits
  import Day08

  /* ---- Scanning the input ---- */

  /** Length of the run of digits at the front of `s`. */
  function LeadingDigits(s: String): (m: nat)
    ensures m <= |s| && AllDigits(s[..m]) && (m < |s| ==> !IsDigit(s[m]))
  {
    if s == [] || !IsDigit(s[0]) then 0
    else
      var m := LeadingDigits(s[1..]);
      assert s[..m + 1] == [s[0]] + s[1..][..m];
      m + 1
  }

  /** The values of the maximal runs of digits in `s`, left to right: the
      numbers the scanner finds, every other byte (a `-` sign included)
      being a separator. */
  function DigitRuns(s: String): seq<nat>
    decreases |s|
  {
    if s == [] then []
    else if !IsDigit(s[0]) then DigitRuns(s[1..])
    else
      var m := LeadingDigits(s);
      [DecimalValue(s[..m])] + DigitRuns(s[m..])
  }

  /** Run `j`, or 0 past the last run: the value the scanner stores when the
      input ends in the middle of a box. */
  function RunAt(runs: seq<nat>, j: nat): nat
  {
    if j < |runs| then runs[j] else 0
  }

  /** The three coordinate columns read from `runs`: box `k` takes runs
      `3k`, `3k + 1` and `3k + 2`. */
  function Columns(runs: seq<nat>): (c: (seq<int>, seq<int>, seq<int>))
    ensures |c.0| == |c.1| == |c.2| == (|runs| + 2) / 3
    ensures forall k :: 0 <= k < |c.0| ==>
      c.0[k] == RunAt(runs, 3 * k) && c.1[k] == RunAt(runs, 3 * k + 1) && c.2[k] == RunAt(runs, 3 * k + 2)
  {
    var m := (|runs| + 2) / 3;
    (seq(m, k requires 0 <= k < m => RunAt(runs, 3 * k) as int),
     seq(m, k requires 0 <= k < m => RunAt(runs, 3 * k + 1) as int),
     seq(m, k requires 0 <= k < m => RunAt(runs, 3 * k + 2) as int))
  }

  /** The boxes of the input as the scanner reads them. */
  function Boxes(input: String): (pts: seq<Point>)
  {
    var c := Columns(DigitRuns(input));
    Zip(c.0, c.1, c.2)
  }

  /** The run of digits starting at `start` ends at `start + LeadingDigits(bytes[start..])`. */
  lemma RunEnd(bytes: String, start: nat)
    requires start <= |bytes|
    ensures var j := start + LeadingDigits(bytes[start..]);
      j <= |bytes| && AllDigits(bytes[start..j]) && (j < |bytes| ==> !IsDigit(bytes[j]))
  {
    var m := LeadingDigits(bytes[start..]);
    assert bytes[start..][..m] == bytes[start..start + m];
  }

  /** Reads an optional `-` and the digits after it from position `i`,
      returning the value and the position after the last digit. */
  method ParseI64Fast(bytes: String, i: nat) returns (num: int, j: nat)
    requires i <= |bytes|
    ensures var neg := i < |bytes| && bytes[i] == '-';
      var start := if neg then i + 1 else i;
      start <= j <= |bytes| && AllDigits(bytes[start..j]) &&
      j == start + LeadingDigits(bytes[start..]) &&
      num == (if neg then -1 else 1) * DecimalValue(bytes[start..j])
  {
    var n := 0;
    var sign := 1;
    j := i;
    if j < |bytes| && bytes[j] == '-' {
      sign := -1;
      j := j + 1;
    }
    ghost var start := j;
    while j < |bytes| && IsDigit(bytes[j])
      invariant start <= j <= |bytes| && AllDigits(bytes[start..j])
      invariant n == DecimalValue(bytes[start..j])
    {
      DigitStep(bytes, start, j);
      n := n * 10 + DigitValue(bytes[j]);
      j := j + 1;
    }
    RunEndsAt(bytes, start, j);
    num := n * sign;
  }

  /** A run of digits from `start` that stops at `j` is the leading run. */
  lemma {:induction false} RunEndsAt(bytes: String, start: nat, j: nat)
    requires start <= j <= |bytes| && AllDigits(bytes[start..j]) && (j < |bytes| ==> !IsDigit(bytes[j]))
    ensures j == start + LeadingDigits(bytes[start..])
    decreases j - start
  {
    var s := bytes[start..];
    if start < j {
      assert bytes[start..j][0] == s[0];
      assert AllDigits(bytes[start + 1..j]) by {
        assert forall k :: start <= k < j ==> IsDigit(bytes[k]) by {
          forall k | start <= k < j
            ensures IsDigit(bytes[k])
          {
            assert bytes[k] == bytes[start..j][k - start];
          }
        }
      }
      RunEndsAt(bytes, start + 1, j);
      assert s[1..] == bytes[start + 1..];
    } else if start < |bytes| {
      assert s[0] == bytes[start];
    }
  }

  /** One more digit of a run: the value gains a decimal place. */
  lemma DigitStep(bytes: String, start: nat, j: nat)
    requires start <= j < |bytes| && IsDigit(bytes[j]) && AllDigits(bytes[start..j])
    ensures AllDigits(bytes[start..j + 1])
    ensures DecimalValue(bytes[start..j + 1]) == 10 * DecimalValue(bytes[start..j]) + DigitValue(bytes[j])
  {
    assert bytes[start..j + 1][..j - start] == bytes[start..j];
  }

  /** Skipping a byte that is not a digit finds the same runs. */
  lemma SkipOne(bytes: String, i: nat)
    requires i < |bytes| && !IsDigit(bytes[i])
    ensures DigitRuns(bytes[i..]) == DigitRuns(bytes[i + 1..])
  {
    assert bytes[i..][1..] == bytes[i + 1..];
  }

  /** Reading a number where a run starts consumes that run; at the end of
      the input it reads 0 and consumes nothing. */
  lemma ReadRun(bytes: String, i: nat, j: nat)
    requires i <= |bytes| && (i < |bytes| ==> IsDigit(bytes[i]))
    requires j == i + LeadingDigits(bytes[i..])
    ensures i <= j <= |bytes| && AllDigits(bytes[i..j])
    ensures i == |bytes| ==> j == i && DecimalValue(bytes[i..j]) == 0
    ensures i < |bytes| ==> DigitRuns(bytes[i..]) == [DecimalValue(bytes[i..j])] + DigitRuns(bytes[j..])
  {
    var s := bytes[i..];
    var m := LeadingDigits(s);
    assert s[..m] == bytes[i..j];
    assert s[m..] == bytes[j..];
  }

  /** Moves past every byte that is not a digit. */
  method SkipSeparators(bytes: String, i: nat) returns (j: nat)
    requires i <= |bytes|
    ensures i <= j <= |bytes| && (j < |bytes| ==> IsDigit(bytes[j]))
    ensures forall k :: i <= k < j ==> !IsDigit(bytes[k])
    ensures DigitRuns(bytes[j..]) == DigitRuns(bytes[i..])
  {
    j := i;
    while j < |bytes| && !IsDigit(bytes[j])
      invariant i <= j <= |bytes|
      invariant forall k :: i <= k < j ==> !IsDigit(bytes[k])
      invariant DigitRuns(bytes[j..]) == DigitRuns(bytes[i..])
    {
      SkipOne(bytes, j);
      j := j + 1;
    }
  }

  /** Reads the three coordinate columns: every run of digits is the next
      coordinate, in `x`, `y`, `z` order, and a box cut short by the end of
      the input is completed with zeros. */
  method ParseSoa(bytes: String) returns (xs: seq<int>, ys: seq<int>, zs: seq<int>)
    ensures (xs, ys, zs) == Columns(DigitRuns(bytes))
  {
    xs, ys, zs := [], [], [];
    ghost var done: seq<nat> := [];
    var i := 0;
    assert bytes[0..] == bytes;
    while i < |bytes|
      invariant i <= |bytes|
      invariant DigitRuns(bytes) == done + DigitRuns(bytes[i..])
      invariant ColumnsOf(done, xs, ys, zs)
      invariant |done| < 3 * |xs| ==> i == |bytes|
    {
      i := SkipSeparators(bytes, i);
      if i >= |bytes| {
        break;
      }
      var x, y, z;
      ghost var before := done;
      x, y, z, i, done := ReadBox(bytes, i, done);
      NextBox(before, done, xs, ys, zs, x, y, z);
      xs, ys, zs := xs + [x], ys + [y], zs + [z];
    }
    assert bytes[i..] == [] && DigitRuns(bytes) == done + [];
    assert done == DigitRuns(bytes);
    ColumnsComplete(done, xs, ys, zs);
  }

  /** `xs`, `ys` and `zs` hold the boxes read from `done`, the last one
      possibly completed with zeros. */
  ghost predicate ColumnsOf(done: seq<nat>, xs: seq<int>, ys: seq<int>, zs: seq<int>)
  {
    |xs| == |ys| == |zs| && 3 * |xs| - 2 <= |done| <= 3 * |xs| &&
    forall k :: 0 <= k < |xs| ==>
      xs[k] == RunAt(done, 3 * k) && ys[k] == RunAt(done, 3 * k + 1) && zs[k] == RunAt(done, 3 * k + 2)
  }

  lemma ColumnsComplete(done: seq<nat>, xs: seq<int>, ys: seq<int>, zs: seq<int>)
    requires ColumnsOf(done, xs, ys, zs)
    ensures (xs, ys, zs) == Columns(done)
  {
    assert (|done| + 2) / 3 == |xs|;
    var c := Columns(done);
    assert xs == c.0 && ys == c.1 && zs == c.2;
  }

  /** Reading one more box, from one to three further runs. */
  lemma NextBox(before: seq<nat>, done: seq<nat>, xs: seq<int>, ys: seq<int>, zs: seq<int>, x: int, y: int, z: int)
    requires ColumnsOf(before, xs, ys, zs) && |before| == 3 * |xs|
    requires |before| < |done| <= |before| + 3 && done[..|before|] == before
    requires x == RunAt(done, |before|) && y == RunAt(done, |before| + 1) && z == RunAt(done, |before| + 2)
    ensures ColumnsOf(done, xs + [x], ys + [y], zs + [z])
  {
    forall k | 0 <= k < |xs| + 1
      ensures (xs + [x])[k] == RunAt(done, 3 * k) && (ys + [y])[k] == RunAt(done, 3 * k + 1) && (zs + [z])[k] == RunAt(done, 3 * k + 2)
    {
      if k < |xs| {
        assert RunAt(done, 3 * k) == before[3 * k] && RunAt(done, 3 * k + 1) == before[3 * k + 1] && RunAt(done, 3 * k + 2) == before[3 * k + 2];
      }
    }
  }

  /** One call of the number reader where a run starts, or at the end of the
      input: the value read is the next run, or 0 when the runs are exhausted. */
  /** Reads the three coordinates of one box, the first run starting at `i`;
      the runs missing at the end of the input read as 0. */
  method ReadBox(bytes: String, i: nat, ghost done: seq<nat>) returns (x: int, y: int, z: int, j: nat, ghost done': seq<nat>)
    requires i < |bytes| && IsDigit(bytes[i])
    requires DigitRuns(bytes) == done + DigitRuns(bytes[i..])
    ensures i < j <= |bytes| && DigitRuns(bytes) == done' + DigitRuns(bytes[j..])
    ensures |done| < |done'| <= |done| + 3 && done'[..|done|] == done
    ensures x == RunAt(done', |done|) && y == RunAt(done', |done| + 1) && z == RunAt(done', |done| + 2)
    ensures |done'| < |done| + 3 ==> j == |bytes|
  {
    ghost var d1, d2;
    x, j, d1 := ReadNext(bytes, i, done);
    j := SkipSeparators(bytes, j);
    y, j, d2 := ReadNext(bytes, j, d1);
    j := SkipSeparators(bytes, j);
    z, j, done' := ReadNext(bytes, j, d2);
    assert done'[..|done|] == done;
  }

  method ReadNext(bytes: String, i: nat, ghost done: seq<nat>) returns (v: int, j: nat, ghost done': seq<nat>)
    requires i <= |bytes| && (i < |bytes| ==> IsDigit(bytes[i]))
    requires DigitRuns(bytes) == done + DigitRuns(bytes[i..])
    ensures i <= j <= |bytes| && DigitRuns(bytes) == done' + DigitRuns(bytes[j..])
    ensures i < |bytes| ==> i < j && v >= 0 && done' == done + [v as nat]
    ensures i == |bytes| ==> done' == done && v == 0 && j == |bytes|
  {
    v, j := ParseI64Fast(bytes, i);
    ReadRun(bytes, i, j);
    if i < |bytes| {
      done' := done + [v as nat];
    } else {
      done' := done;
    }
  }

  /* ---- Union-find with full path compression ---- */

  /** Invariant of the compressing walk from `i`, now at `x`: a rewiring walk
      whose every element already passed now points at `root`. */
  ghost predicate Compressing(parents: seq<nat>, roots: seq<nat>, depth: seq<nat>, p0: seq<nat>, i: nat, x: nat, root: nat)
  {
    Rewiring(parents, roots, depth, p0, i, x) && root == roots[i] &&
    forall k :: 0 <= k < |parents| && k in Path(p0, depth, i) && k !in Path(p0, depth, x) ==> parents[k] == root
  }

  /** Pointing `x` at the root and moving to its old parent keeps the invariant
      and gets closer to the root. */
  lemma CompressStep(parents: seq<nat>, roots: seq<nat>, depth: seq<nat>, p0: seq<nat>, i: nat, x: nat, root: nat)
    requires Compressing(parents, roots, depth, p0, i, x, root) && x != root
    ensures parents[x] == p0[x] && p0[x] < |p0| && depth[p0[x]] < depth[x]
    ensures Compressing(parents[x := root], roots, depth, p0, i, p0[x], root)
  {
    var y := p0[x];
    assert parents[x] == y;
    assert roots[x] == root && roots[root] == root;
    PathFacts(p0, roots, depth, x);
    assert Path(p0, depth, x) == {x} + Path(p0, depth, y);
    PathFacts(p0, roots, depth, y);
    PathNested(p0, depth, i, x);
    PathNested(p0, depth, x, y);
    assert x !in Path(p0, depth, y);
    Redirect(parents, roots, depth, x, root);
    var q := parents[x := root];
    forall k | 0 <= k < |q| && k in Path(p0, depth, y) ensures q[k] == p0[k] {
      assert k != x;
    }
    forall k | 0 <= k < |q| && k !in Path(p0, depth, i) ensures q[k] == p0[k] {
      assert k != x;
      assert q[k] == parents[k];
    }
    forall k | 0 <= k < |q| && k in Path(p0, depth, i) && k !in Path(p0, depth, y) ensures q[k] == root {
      if k != x {
        assert k !in Path(p0, depth, x);
      }
    }
  }

  /** Union-find over `parents` with full path compression and no ranks. The
      ghost `roots` is the labelling the forest represents and `depth` ranks it. */
  class DisjointSetUnion {
    var parents: seq<nat>
    ghost var roots: seq<nat>
    ghost var depth: seq<nat>

    ghost predicate Valid()
      reads this
    {
      IsForest(parents, roots, depth)
    }

    constructor (size: nat)
      ensures Valid() && parents == Identity(size) && roots == Identity(size)
    {
      InitialForest(size);
      parents := Identity(size);
      roots := Identity(size);
      depth := seq(size, k => 0);
    }

    /** The root of the set of `i`: a first walk finds it, a second walk
        points every element met on the way straight at it. */
    method Find(i: nat) returns (root: nat)
      requires Valid() && i < |parents|
      modifies this
      ensures Valid() && roots == old(roots) && depth == old(depth) && |parents| == |old(parents)|
      ensures root == roots[i] && parents[root] == root
      ensures forall k {:trigger parents[k]} :: 0 <= k < |parents| ==>
        parents[k] == if k in Path(old(parents), depth, i) then root else old(parents[k])
    {
      root := i;
      while root != parents[root]
        invariant root < |parents| && roots[root] == roots[i]
        decreases depth[root]
      {
        root := parents[root];
      }
      var ps: seq<nat> := parents;
      ghost var rs, ds := roots, depth;
      RewiringStart(ps, rs, ds, i);
      var curr: nat := i;
      while curr != root
        invariant Compressing(ps, rs, ds, parents, i, curr, root)
        invariant unchanged(this)
        decreases ds[curr]
      {
        CompressStep(ps, rs, ds, parents, i, curr, root);
        var next := ps[curr];
        ps := ps[curr := root];
        curr := next;
      }
      assert Path(parents, depth, root) == {root};
      parents := ps;
    }

    /** Unites the sets of `i` and `j` by pointing the root of `i` at the root of `j`. */
    method Union(i: nat, j: nat)
      requires Valid() && i < |parents| && j < |parents|
      modifies this
      ensures Valid() && |parents| == |old(parents)|
      ensures roots == Merge(old(roots), i, j)
    {
      var ri := Find(i);
      var rj := Find(j);
      if ri != rj {
        LinkRoots(parents, roots, depth, i, j);
        parents := parents[ri := rj];
        depth := Raise(roots, depth, ri, depth[rj] + 1);
        roots := Merge(roots, i, j);
      } else {
        MergeSame(roots, i, j);
      }
    }
  }

  /* ---- Part one: the closest pairs in a bounded heap ---- */

  /** Squared distance between boxes `a` and `b` of three coordinate columns. */
  lemma ColumnDist(xs: seq<int>, ys: seq<int>, zs: seq<int>, a: nat, b: nat)
    requires |xs| == |ys| == |zs| && a < |xs| && b < |xs|
    ensures Dist(Zip(xs, ys, zs), a, b) ==
      (xs[a] - xs[b]) * (xs[a] - xs[b]) + (ys[a] - ys[b]) * (ys[a] - ys[b]) + (zs[a] - zs[b]) * (zs[a] - zs[b])
  {
  }

  /** Position of a longest cable of a non-empty heap: what `peek` shows and
      `pop` removes. */
  function MaxIndex(hs: seq<Cable>): (m: nat)
    requires |hs| > 0
    ensures m < |hs| && forall k :: 0 <= k < |hs| ==> hs[k].dist <= hs[m].dist
  {
    if |hs| == 1 then 0
    else
      var m := MaxIndex(hs[..|hs| - 1]);
      assert forall k :: 0 <= k < |hs| - 1 ==> hs[..|hs| - 1][k] == hs[k];
      if hs[|hs| - 1].dist > hs[m].dist then |hs| - 1 else m
  }

  /** No cable of `hs` is longer than `w`. */
  ghost predicate AtMost(hs: seq<Cable>, w: int)
  {
    forall k :: 0 <= k < |hs| ==> hs[k].dist <= w
  }

  /** The pair `(a, b)` comes before the pair `(i, j)` in the order the
      nested loops visit them. */
  predicate Before(i: nat, j: nat, a: nat, b: nat)
  {
    a < i || (a == i && b < j)
  }

  /** `hs` is a choice of the `cap` closest pairs of boxes (all pairs when
      there are fewer): cables of distinct pairs, and every pair left out is
      at least as far apart as every pair chosen. */
  ghost predicate KSmallest(pts: seq<Point>, hs: seq<Cable>, cap: nat)
  {
    |hs| == Min(cap, |pts| * (|pts| - 1) / 2) && AllCablesOf(pts, hs) && DistinctPairs(hs) &&
    forall a, b :: 0 <= a < b < |pts| && !Joins(hs, a, b) ==> AtMost(hs, Dist(pts, a, b))
  }

  /** Invariant of the pair loops before pair `(i, j)`: the heap is a choice
      of the `cap` closest pairs among those visited. */
  ghost predicate HeapState(pts: seq<Point>, hs: seq<Cable>, cap: nat, i: nat, j: nat)
  {
    i <= |pts| && i < j <= Max(|pts|, i + 1) &&
    AllCablesOf(pts, hs) && DistinctPairs(hs) &&
    (forall k :: 0 <= k < |hs| ==> Before(i, j, hs[k].u, hs[k].v)) &&
    |hs| == Min(cap, PairsBefore(|pts|, i) + (j - i - 1)) &&
    (|hs| < cap ==> forall a, b :: 0 <= a < b < |pts| && Before(i, j, a, b) ==> Joins(hs, a, b)) &&
    (forall a, b :: 0 <= a < b < |pts| && Before(i, j, a, b) && !Joins(hs, a, b) ==> AtMost(hs, Dist(pts, a, b)))
  }

  lemma HeapStart(pts: seq<Point>, cap: nat)
    ensures HeapState(pts, [], cap, 0, 1)
  {
  }

  /** A heap with room takes the next pair. */
  lemma PushStep(pts: seq<Point>, hs: seq<Cable>, cap: nat, i: nat, j: nat, c: Cable)
    requires HeapState(pts, hs, cap, i, j) && j < |pts| && |hs| < cap
    requires c == Cable(Dist(pts, i, j), i, j)
    ensures HeapState(pts, hs + [c], cap, i, j + 1)
  {
    var h := hs + [c];
    forall a, b | 0 <= a < b < |pts| && Before(i, j + 1, a, b) ensures Joins(h, a, b) {
      if Before(i, j, a, b) {
        assert Joins(hs, a, b);
        var k :| 0 <= k < |hs| && hs[k].u == a && hs[k].v == b;
        assert h[k] == hs[k];
      } else {
        assert h[|hs|] == c;
      }
    }
  }

  /** A full heap whose longest cable is longer than the next pair gives up
      that cable for the pair. */
  lemma ReplaceStep(pts: seq<Point>, hs: seq<Cable>, cap: nat, i: nat, j: nat, c: Cable, m: nat)
    requires HeapState(pts, hs, cap, i, j) && j < |pts| && |hs| == cap > 0
    requires c == Cable(Dist(pts, i, j), i, j) && m == MaxIndex(hs) && c.dist < hs[m].dist
    ensures HeapState(pts, RemoveAt(hs, m) + [c], cap, i, j + 1)
  {
    var h := RemoveAt(hs, m) + [c];
    forall k | 0 <= k < |h| ensures IsCableOf(pts, h[k]) && Before(i, j + 1, h[k].u, h[k].v) {
      if k < |h| - 1 {
        assert h[k] == hs[if k < m then k else k + 1];
      }
    }
    ReplaceDistinct(hs, c, m, i, j);
    ReplaceExcluded(pts, hs, i, j, c, m);
  }

  lemma ReplaceDistinct(hs: seq<Cable>, c: Cable, m: nat, i: nat, j: nat)
    requires DistinctPairs(hs) && m < |hs| && c.u == i && c.v == j
    requires forall k :: 0 <= k < |hs| ==> Before(i, j, hs[k].u, hs[k].v)
    ensures DistinctPairs(RemoveAt(hs, m) + [c])
  {
    var h := RemoveAt(hs, m) + [c];
    forall x, y | 0 <= x < y < |h| ensures !(h[x].u == h[y].u && h[x].v == h[y].v) {
      var qx := if x < m then x else x + 1;
      assert h[x] == hs[qx];
      if y < |h| - 1 {
        var qy := if y < m then y else y + 1;
        assert h[y] == hs[qy];
      }
    }
  }

  lemma ReplaceExcluded(pts: seq<Point>, hs: seq<Cable>, i: nat, j: nat, c: Cable, m: nat)
    requires AllCablesOf(pts, hs) && m < |hs| && AtMost(hs, hs[m].dist)
    requires i < j < |pts| && c == Cable(Dist(pts, i, j), i, j) && c.dist < hs[m].dist
    requires forall a, b :: 0 <= a < b < |pts| && Before(i, j, a, b) && !Joins(hs, a, b) ==> AtMost(hs, Dist(pts, a, b))
    ensures var h := RemoveAt(hs, m) + [c];
      forall a, b :: 0 <= a < b < |pts| && Before(i, j + 1, a, b) && !Joins(h, a, b) ==> AtMost(h, Dist(pts, a, b))
  {
    var h := RemoveAt(hs, m) + [c];
    assert forall q :: 0 <= q < |hs| && q != m ==> h[if q < m then q else q - 1] == hs[q];
    forall a, b | 0 <= a < b < |pts| && Before(i, j + 1, a, b) && !Joins(h, a, b)
      ensures AtMost(h, Dist(pts, a, b))
    {
      assert h[|h| - 1] == c;
      if Joins(hs, a, b) {
        var q :| 0 <= q < |hs| && hs[q].u == a && hs[q].v == b;
        assert hs[q].dist == Dist(pts, a, b);
      }
      AtMostReplace(hs, m, c, Dist(pts, a, b));
    }
  }

  /** Replacing a longest cable by a shorter one keeps every bound both satisfy. */
  lemma AtMostReplace(hs: seq<Cable>, m: nat, c: Cable, w: int)
    requires m < |hs| && AtMost(hs, hs[m].dist) && hs[m].dist <= w && c.dist <= w
    ensures AtMost(RemoveAt(hs, m) + [c], w)
  {
    var h := RemoveAt(hs, m) + [c];
    forall k | 0 <= k < |h| ensures h[k].dist <= w {
      if k < |h| - 1 {
        assert h[k] == hs[if k < m then k else k + 1];
      }
    }
  }

  /** A full heap whose longest cable is no longer than the next pair skips it. */
  lemma KeepStep(pts: seq<Point>, hs: seq<Cable>, cap: nat, i: nat, j: nat, c: Cable, m: nat)
    requires HeapState(pts, hs, cap, i, j) && j < |pts| && |hs| == cap > 0
    requires c == Cable(Dist(pts, i, j), i, j) && m == MaxIndex(hs) && c.dist >= hs[m].dist
    ensures HeapState(pts, hs, cap, i, j + 1)
  {
  }

  /** The end of row `i` is the start of row `i + 1`. */
  lemma NextRow(pts: seq<Point>, hs: seq<Cable>, cap: nat, i: nat)
    requires i < |pts| && HeapState(pts, hs, cap, i, |pts|)
    ensures HeapState(pts, hs, cap, i + 1, i + 2)
  {
    assert forall a, b :: 0 <= a < b < |pts| ==> (Before(i, |pts|, a, b) <==> Before(i + 1, i + 2, a, b));
  }

  lemma HeapDone(pts: seq<Point>, hs: seq<Cable>, cap: nat)
    requires HeapState(pts, hs, cap, |pts|, |pts| + 1)
    ensures KSmallest(pts, hs, cap)
  {
    PairsBeforeAll(|pts|);
  }

  /** Visits every pair of boxes `(i, j)` with `i < j` and keeps the `cap`
      closest in a max-heap: while the heap has room every pair goes in, and
      afterwards a pair closer than the longest cable in the heap replaces it. */
  method ClosestCables(xs: seq<int>, ys: seq<int>, zs: seq<int>, cap: nat) returns (hs: seq<Cable>)
    requires |xs| == |ys| == |zs| && cap > 0
    ensures KSmallest(Zip(xs, ys, zs), hs, cap)
  {
    ghost var pts := Zip(xs, ys, zs);
    var n := |xs|;
    hs := [];
    HeapStart(pts, cap);
    var i := 0;
    while i < n
      invariant i <= n && HeapState(pts, hs, cap, i, i + 1)
    {
      var j := i + 1;
      while j < n
        invariant j <= n && HeapState(pts, hs, cap, i, j)
      {
        hs := OfferPair(xs, ys, zs, cap, hs, i, j);
        j := j + 1;
      }
      NextRow(pts, hs, cap, i);
      i := i + 1;
    }
    HeapDone(pts, hs, cap);
  }

  /** One turn of the inner loop: offer the pair `(i, j)` to the heap. */
  method OfferPair(xs: seq<int>, ys: seq<int>, zs: seq<int>, cap: nat, hs: seq<Cable>, i: nat, j: nat)
    returns (hs': seq<Cable>)
    requires |xs| == |ys| == |zs| && cap > 0 && i < j < |xs|
    requires HeapState(Zip(xs, ys, zs), hs, cap, i, j)
    ensures HeapState(Zip(xs, ys, zs), hs', cap, i, j + 1)
  {
    ghost var pts := Zip(xs, ys, zs);
    var dx := xs[i] - xs[j];
    var dy := ys[i] - ys[j];
    var dz := zs[i] - zs[j];
    var distSq := dx * dx + dy * dy + dz * dz;
    ColumnDist(xs, ys, zs, i, j);
    var c := Cable(distSq, i, j);
    assert c == Cable(Dist(pts, i, j), i, j);
    if |hs| < cap {
      PushStep(pts, hs, cap, i, j, c);
      hs' := hs + [c];
    } else {
      var m := MaxIndex(hs);
      if distSq < hs[m].dist {
        ReplaceStep(pts, hs, cap, i, j, c, m);
        hs' := RemoveAt(hs, m) + [c];
      } else {
        KeepStep(pts, hs, cap, i, j, c, m);
        hs' := hs;
      }
    }
  }

  /** The first `cap` pairs in order of distance are one choice of the `cap`
      closest pairs: the first solver connects one of the selections this
      heap may hold. */
  lemma SortedPrefixIsClosest(pts: seq<Point>, cap: nat)
    ensures var pairs := Day08.GeneratePairs(pts);
      KSmallest(pts, pairs[..Min(cap, |pairs|)], cap)
  {
    var pairs := Day08.GeneratePairs(pts);
    var q := Min(cap, |pairs|);
    var hs := pairs[..q];
    assert forall k :: 0 <= k < q ==> hs[k] == pairs[k];
    forall a, b | 0 <= a < b < |pts| && !Joins(hs, a, b) ensures AtMost(hs, Dist(pts, a, b)) {
      assert Joins(pairs, a, b);
      var t :| 0 <= t < |pairs| && pairs[t].u == a && pairs[t].v == b;
      assert pairs[t].dist == Dist(pts, a, b);
    }
  }

  lemma LinksValid(pts: seq<Point>, hs: seq<Cable>)
    requires AllCablesOf(pts, hs)
    ensures ValidLinks(|pts|, Links(hs))
  {
  }

  /** The part-one answer for a choice `hs` of closest pairs: the product of
      the three largest circuit sizes once every pair of `hs` is connected,
      or `None` where selecting the three largest panics because there are
      at most three circuits. */
  function CircuitProduct(pts: seq<Point>, hs: seq<Cable>): Option<int>
    requires AllCablesOf(pts, hs)
  {
    LinksValid(pts, hs);
    var active := ComponentSizes(Joined(|pts|, hs, |hs|));
    if |active| <= 3 then None else Some(LargestProduct(active, 3))
  }

  /** Keeps the `connections` closest pairs, connects them, and multiplies the
      sizes of the three largest circuits. */
  method PartOne(input: String, connections: nat) returns (r: Option<int>)
    requires connections > 0
    ensures exists hs :: KSmallest(Boxes(input), hs, connections) && r == CircuitProduct(Boxes(input), hs)
  {
    var xs, ys, zs := ParseSoa(input);
    ghost var pts := Zip(xs, ys, zs);
    assert pts == Boxes(input);
    var n := |xs|;
    var hs := ClosestCables(xs, ys, zs, connections);
    var dsu := new DisjointSetUnion(n);
    LinksValid(pts, hs);
    ConnectAll(dsu, hs);
    var sizes := TallySizes(dsu);
    var active := Positives(sizes);
    if |active| <= 3 {
      r := None;
    } else {
      r := Some(LargestProduct(active, 3));
    }
    assert r == CircuitProduct(pts, hs);
  }

  /** Unites the two ends of every pair of `hs`, in order. */
  method ConnectAll(dsu: DisjointSetUnion, hs: seq<Cable>)
    requires dsu.Valid() && dsu.roots == Identity(|dsu.parents|) && ValidLinks(|dsu.parents|, Links(hs))
    modifies dsu
    ensures dsu.Valid() && |dsu.parents| == old(|dsu.parents|)
    ensures dsu.roots == Joined(|dsu.parents|, hs, |hs|)
  {
    var n := |dsu.parents|;
    var k := 0;
    while k < |hs|
      invariant 0 <= k <= |hs|
      invariant dsu.Valid() && |dsu.parents| == n && dsu.roots == Joined(n, hs, k)
    {
      JoinedStep(n, hs, k);
      dsu.Union(hs[k].u, hs[k].v);
      k := k + 1;
    }
  }

  /** Counts, for every root, the elements whose `Find` reaches it. */
  method TallySizes(dsu: DisjointSetUnion) returns (sizes: seq<nat>)
    requires dsu.Valid()
    modifies dsu
    ensures dsu.Valid() && dsu.roots == old(dsu.roots) && |dsu.parents| == old(|dsu.parents|)
    ensures sizes == Tally(dsu.roots)
  {
    var n := |dsu.parents|;
    ghost var l := dsu.roots;
    sizes := seq(n, k => 0);
    var i := 0;
    while i < n
      invariant 0 <= i <= n && |sizes| == n
      invariant dsu.Valid() && |dsu.parents| == n && dsu.roots == l
      invariant forall r :: 0 <= r < n ==> sizes[r] == CountLabel(l[..i], r)
    {
      var root := dsu.Find(i);
      CountLabelStep(l, i);
      sizes := sizes[root := sizes[root] + 1];
      i := i + 1;
    }
    assert l[..n] == l;
  }

  /* ---- Part two: Prim's algorithm ---- */

  /** Every squared distance is below `i64::MAX`, the value that stands for
      "not reached yet". */
  ghost predicate Fits(pts: seq<Point>)
  {
    forall a, b :: 0 <= a < |pts| && 0 <= b < |pts| ==> Dist(pts, a, b) < I64_MAX
  }

  /** Number of entries of `s` that are false. */
  function CountFalse(s: seq<bool>): (c: nat)
    ensures c <= |s|
  {
    if s == [] then 0 else CountFalse(s[..|s| - 1]) + (if s[|s| - 1] then 0 else 1)
  }

  lemma {:induction false} CountFalseAll(n: nat)
    ensures CountFalse(seq(n, k => false)) == n
  {
    if n > 0 {
      CountFalseAll(n - 1);
      assert seq(n, k => false)[..n - 1] == seq(n - 1, k => false);
    }
  }

  lemma {:induction false} CountFalseSet(s: seq<bool>, u: nat)
    requires u < |s| && !s[u]
    ensures CountFalse(s[u := true]) == CountFalse(s) - 1
  {
    var t := s[u := true];
    if u < |s| - 1 {
      assert t[..|t| - 1] == s[..|s| - 1][u := true];
      CountFalseSet(s[..|s| - 1], u);
    } else {
      assert t[..|t| - 1] == s[..|s| - 1];
    }
  }

  /** Some entry is false exactly when the count of false entries is positive. */
  lemma {:induction false} CountFalsePositive(s: seq<bool>)
    ensures CountFalse(s) > 0 <==> exists v :: 0 <= v < |s| && !s[v]
  {
    if s != [] {
      var p := s[..|s| - 1];
      CountFalsePositive(p);
      if exists v :: 0 <= v < |s| && !s[v] {
        var v :| 0 <= v < |s| && !s[v];
        if v < |s| - 1 {
          assert !p[v];
        }
      }
    }
  }

  /** The tree grown so far: the nodes in the order they joined, starting from
      node 0; node `order[j]` joined through an edge of weight `wts[j]` to an
      earlier node `via[j]`, and that weight was the shortest distance across
      the cut between the first `j` nodes and the rest. */
  ghost predicate Tree(pts: seq<Point>, order: seq<nat>, via: seq<nat>, wts: seq<int>)
  {
    |order| == |via| == |wts| <= |pts| &&
    (forall p :: 0 <= p < |order| ==> order[p] < |pts|) &&
    (forall p, q :: 0 <= p < q < |order| ==> order[p] != order[q]) &&
    (|order| > 0 ==> order[0] == 0) &&
    (forall j :: 1 <= j < |order| ==> via[j] in order[..j] && via[j] < |pts| && wts[j] == Dist(pts, order[j], via[j])) &&
    (forall j, p, b :: 1 <= j < |order| && 0 <= p < j && 0 <= b < |pts| && b !in order[..j] ==>
      Dist(pts, order[p], b) >= wts[j])
  }

  /** What Prim's algorithm knows about a node `v` outside the tree: its
      recorded distance is at most the distance to every tree node and, unless
      it is still the sentinel, is the distance to its recorded parent, a tree node. */
  ghost predicate Frontier(pts: seq<Point>, minDists: seq<int>, parent: seq<nat>, visited: seq<bool>, order: seq<nat>, v: nat)
    requires v < |minDists| == |parent| && |visited| == |pts| && v < |pts|
  {
    minDists[v] <= I64_MAX &&
    (forall p :: 0 <= p < |order| && order[p] < |pts| ==> minDists[v] <= Dist(pts, order[p], v)) &&
    (minDists[v] < I64_MAX ==> parent[v] < |pts| && visited[parent[v]] && Dist(pts, parent[v], v) == minDists[v])
  }

  /** Invariant of the main loop of Prim's algorithm. */
  ghost predicate Growing(pts: seq<Point>, minDists: seq<int>, parent: seq<nat>, visited: seq<bool>,
                          order: seq<nat>, via: seq<nat>, wts: seq<int>)
  {
    Tree(pts, order, via, wts) && |minDists| == |parent| == |visited| == |pts| > 0 &&
    (forall v :: 0 <= v < |pts| ==> (visited[v] <==> v in order)) &&
    CountFalse(visited) == |pts| - |order| &&
    (|order| == 0 ==> minDists[0] == 0 && forall v :: 0 < v < |pts| ==> minDists[v] == I64_MAX) &&
    (|order| > 0 ==> forall v :: 0 <= v < |pts| && !visited[v] ==> Frontier(pts, minDists, parent, visited, order, v))
  }

  /** `minDists2` and `parent2` are `minDists` and `parent` after relaxing
      every node outside the tree through the new tree node `u`. */
  ghost predicate Relaxed(pts: seq<Point>, visited: seq<bool>, minDists: seq<int>, parent: seq<nat>, u: nat,
                          minDists2: seq<int>, parent2: seq<nat>)
    requires u < |pts| && |visited| == |minDists| == |parent| == |pts|
  {
    |minDists2| == |parent2| == |pts| &&
    forall v :: 0 <= v < |pts| ==>
      if !visited[v] && Dist(pts, u, v) < minDists[v] then minDists2[v] == Dist(pts, u, v) && parent2[v] == u
      else minDists2[v] == minDists[v] && parent2[v] == parent[v]
  }

  lemma GrowingStart(pts: seq<Point>)
    requires |pts| > 0
    ensures var n := |pts|;
      Growing(pts, [0] + seq(n - 1, k => I64_MAX), seq(n, k => 0), seq(n, k => false), [], [], [])
  {
    CountFalseAll(|pts|);
  }

  /** The node Prim's algorithm adds first is node 0, and no later node is. */
  lemma FirstPick(pts: seq<Point>, minDists: seq<int>, parent: seq<nat>, visited: seq<bool>,
                  order: seq<nat>, via: seq<nat>, wts: seq<int>, u: nat)
    requires Growing(pts, minDists, parent, visited, order, via, wts)
    requires u < |pts| && !visited[u] && minDists[u] < I64_MAX
    requires forall v :: 0 <= v < |pts| && !visited[v] ==> minDists[u] <= minDists[v]
    ensures |order| == 0 <==> u == 0
  {
    if |order| == 0 {
      assert !visited[0];
    } else {
      assert visited[order[0]];
    }
  }

  /** Adding the closest node outside the tree, through its recorded parent,
      keeps the tree facts: the new edge is a shortest edge across the cut. */
  lemma StepTree(pts: seq<Point>, minDists: seq<int>, parent: seq<nat>, visited: seq<bool>,
                 order: seq<nat>, via: seq<nat>, wts: seq<int>, u: nat)
    requires Growing(pts, minDists, parent, visited, order, via, wts) && |order| < |pts|
    requires u < |pts| && !visited[u] && minDists[u] < I64_MAX
    requires forall v :: 0 <= v < |pts| && !visited[v] ==> minDists[u] <= minDists[v]
    ensures Tree(pts, order + [u], via + [parent[u]], wts + [minDists[u]])
  {
    var k := |order|;
    FirstPick(pts, minDists, parent, visited, order, via, wts, u);
    if k > 0 {
      assert Frontier(pts, minDists, parent, visited, order, u);
      SqDistFacts(pts[u], pts[parent[u]]);
      forall q, b | 0 <= q < k && 0 <= b < |pts| && b !in order
        ensures Dist(pts, order[q], b) >= minDists[u]
      {
        assert !visited[b];
        assert Frontier(pts, minDists, parent, visited, order, b);
      }
    }
    TreeExtend(pts, order, via, wts, u, parent[u], minDists[u]);
  }

  /** A tree grows by a node `u` outside it, joined to a tree node `p` by an
      edge that is a shortest one across the cut between the tree and the rest. */
  lemma TreeExtend(pts: seq<Point>, order: seq<nat>, via: seq<nat>, wts: seq<int>, u: nat, p: nat, w: int)
    requires Tree(pts, order, via, wts) && |order| < |pts|
    requires u < |pts| && u !in order && (|order| == 0 ==> u == 0)
    requires |order| > 0 ==> p in order && p < |pts| && w == Dist(pts, u, p)
    requires |order| > 0 ==> forall q, b :: 0 <= q < |order| && 0 <= b < |pts| && b !in order ==> Dist(pts, order[q], b) >= w
    ensures Tree(pts, order + [u], via + [p], wts + [w])
  {
    var order' := order + [u];
    assert order'[..|order|] == order;
    forall j | 0 <= j < |order| ensures order'[..j] == order[..j] {
      assert order[..j] == order'[..|order|][..j];
    }
  }

  /** After relaxing through the new tree node `u`, every node outside the
      grown tree again records a shortest distance to it. */
  lemma StepFrontier(pts: seq<Point>, minDists: seq<int>, parent: seq<nat>, visited: seq<bool>,
                     order: seq<nat>, via: seq<nat>, wts: seq<int>, u: nat,
                     visited': seq<bool>, minDists2: seq<int>, parent2: seq<nat>)
    requires Growing(pts, minDists, parent, visited, order, via, wts)
    requires u < |pts| && !visited[u] && (|order| == 0 <==> u == 0) && visited' == visited[u := true]
    requires Relaxed(pts, visited', minDists, parent, u, minDists2, parent2)
    ensures forall v :: 0 <= v < |pts| && !visited'[v] ==> Frontier(pts, minDists2, parent2, visited', order + [u], v)
  {
    var order' := order + [u];
    forall v | 0 <= v < |pts| && !visited'[v]
      ensures Frontier(pts, minDists2, parent2, visited', order', v)
    {
      assert !visited[v] && v != u;
      if |order| > 0 {
        assert Frontier(pts, minDists, parent, visited, order, v);
      }
      forall p | 0 <= p < |order'| && order'[p] < |pts|
        ensures minDists2[v] <= Dist(pts, order'[p], v)
      {
        if p < |order| {
          assert order'[p] == order[p];
        }
      }
    }
  }

  /** One round of Prim's algorithm keeps its invariant. */
  lemma PrimStep(pts: seq<Point>, minDists: seq<int>, parent: seq<nat>, visited: seq<bool>,
                 order: seq<nat>, via: seq<nat>, wts: seq<int>, u: nat,
                 minDists2: seq<int>, parent2: seq<nat>)
    requires Growing(pts, minDists, parent, visited, order, via, wts) && |order| < |pts|
    requires u < |pts| && !visited[u] && minDists[u] < I64_MAX
    requires forall v :: 0 <= v < |pts| && !visited[v] ==> minDists[u] <= minDists[v]
    requires Relaxed(pts, visited[u := true], minDists, parent, u, minDists2, parent2)
    ensures Growing(pts, minDists2, parent2, visited[u := true], order + [u], via + [parent[u]], wts + [minDists[u]])
    ensures |order| == 0 <==> u == 0
  {
    FirstPick(pts, minDists, parent, visited, order, via, wts, u);
    StepTree(pts, minDists, parent, visited, order, via, wts, u);
    StepFrontier(pts, minDists, parent, visited, order, via, wts, u, visited[u := true], minDists2, parent2);
    CountFalseSet(visited, u);
    VisitedStep(pts, visited, order, u);
    GrowingIntro(pts, minDists2, parent2, visited[u := true], order + [u], via + [parent[u]], wts + [minDists[u]]);
  }

  /** Marking `u` visited matches appending it to the order. */
  lemma VisitedStep(pts: seq<Point>, visited: seq<bool>, order: seq<nat>, u: nat)
    requires |visited| == |pts| && u < |pts|
    requires forall v :: 0 <= v < |pts| ==> (visited[v] <==> v in order)
    ensures forall v :: 0 <= v < |pts| ==> (visited[u := true][v] <==> v in order + [u])
  {
    forall v | 0 <= v < |pts| ensures visited[u := true][v] <==> v in order + [u] {
      assert visited[v] <==> v in order;
    }
  }

  /** The invariant of Prim's algorithm once the tree is not empty, from its parts. */
  lemma GrowingIntro(pts: seq<Point>, minDists: seq<int>, parent: seq<nat>, visited: seq<bool>,
                     order: seq<nat>, via: seq<nat>, wts: seq<int>)
    requires Tree(pts, order, via, wts) && |minDists| == |parent| == |visited| == |pts| > 0 && |order| > 0
    requires forall v :: 0 <= v < |pts| ==> (visited[v] <==> v in order)
    requires CountFalse(visited) == |pts| - |order|
    requires forall v :: 0 <= v < |pts| && !visited[v] ==> Frontier(pts, minDists, parent, visited, order, v)
    ensures Growing(pts, minDists, parent, visited, order, via, wts)
  {
  }

  /** While nodes are left outside the tree and every distance fits below the
      sentinel, some node outside the tree has a recorded distance. */
  lemma FitsReaches(pts: seq<Point>, minDists: seq<int>, parent: seq<nat>, visited: seq<bool>,
                    order: seq<nat>, via: seq<nat>, wts: seq<int>)
    requires Growing(pts, minDists, parent, visited, order, via, wts) && |order| < |pts|
    ensures Fits(pts) ==> exists v :: 0 <= v < |pts| && !visited[v] && minDists[v] < I64_MAX
  {
    CountFalsePositive(visited);
    var v :| 0 <= v < |pts| && !visited[v];
    if |order| == 0 {
      assert !visited[0] && minDists[0] < I64_MAX;
    } else if Fits(pts) {
      assert Frontier(pts, minDists, parent, visited, order, v);
      assert minDists[v] <= Dist(pts, order[0], v);
    }
  }

  /** The scan for the node to add: the first node outside the tree whose
      recorded distance is the smallest, provided it is below the sentinel;
      `None` when every node outside the tree still holds the sentinel. */
  method PickClosest(visited: seq<bool>, minDists: seq<int>) returns (closest: Option<nat>, minVal: int)
    requires |visited| == |minDists|
    ensures closest.None? ==> minVal == I64_MAX && forall v :: 0 <= v < |visited| && !visited[v] ==> minDists[v] >= I64_MAX
    ensures closest.Some? ==>
      closest.value < |visited| && !visited[closest.value] && minVal == minDists[closest.value] < I64_MAX &&
      (forall v :: 0 <= v < |visited| && !visited[v] ==> minVal <= minDists[v]) &&
      (forall v :: 0 <= v < closest.value && !visited[v] ==> minVal < minDists[v])
  {
    closest, minVal := None, I64_MAX;
    for i := 0 to |visited|
      invariant closest.None? ==> minVal == I64_MAX && forall v :: 0 <= v < i && !visited[v] ==> minDists[v] >= I64_MAX
      invariant closest.Some? ==>
        closest.value < i && !visited[closest.value] && minVal == minDists[closest.value] < I64_MAX &&
        (forall v :: 0 <= v < i && !visited[v] ==> minVal <= minDists[v]) &&
        (forall v :: 0 <= v < closest.value && !visited[v] ==> minVal < minDists[v])
    {
      if !visited[i] && minDists[i] < minVal {
        closest, minVal := Some(i), minDists[i];
      }
    }
  }

  /** Lowers the recorded distance of every node outside the tree that is
      closer to the new tree node `u`, and records `u` as its parent. */
  method Relax(xs: seq<int>, ys: seq<int>, zs: seq<int>, visited: seq<bool>, minDists: seq<int>, parent: seq<nat>, u: nat)
    returns (minDists2: seq<int>, parent2: seq<nat>)
    requires |xs| == |ys| == |zs| == |visited| == |minDists| == |parent| && u < |xs|
    ensures Relaxed(Zip(xs, ys, zs), visited, minDists, parent, u, minDists2, parent2)
  {
    ghost var pts := Zip(xs, ys, zs);
    minDists2, parent2 := minDists, parent;
    for v := 0 to |xs|
      invariant |minDists2| == |parent2| == |xs|
      invariant forall w :: v <= w < |xs| ==> minDists2[w] == minDists[w] && parent2[w] == parent[w]
      invariant forall w :: 0 <= w < v ==>
        if !visited[w] && Dist(pts, u, w) < minDists[w] then minDists2[w] == Dist(pts, u, w) && parent2[w] == u
        else minDists2[w] == minDists[w] && parent2[w] == parent[w]
    {
      if !visited[v] {
        var dx, dy, dz := xs[u] - xs[v], ys[u] - ys[v], zs[u] - zs[v];
        var dist := dx * dx + dy * dy + dz * dz;
        ColumnDist(xs, ys, zs, u, v);
        if dist < minDists2[v] {
          minDists2, parent2 := minDists2[v := dist], parent2[v := u];
        }
      }
    }
  }

  /** Every cut of the boxes is crossed by an edge of a tree that spans them
      all, so by an edge no heavier than its heaviest one. */
  lemma {:induction false} TreeCrossesCut(pts: seq<Point>, order: seq<nat>, via: seq<nat>, wts: seq<int>, w: int, s: set<nat>)
    requires |order| == |via| == |wts| == |pts| && forall p :: 0 <= p < |order| ==> order[p] < |pts|
    requires forall j :: 1 <= j < |order| ==> via[j] in order[..j] && via[j] < |pts| && wts[j] == Dist(pts, order[j], via[j])
    requires forall v :: 0 <= v < |pts| ==> v in order
    requires forall j :: 1 <= j < |order| ==> wts[j] <= w
    requires IsCut(|pts|, s)
    ensures CrossedWithin(pts, s, w)
  {
    var k :| k in s;
    var m :| 0 <= m < |pts| && m !in s;
    assert k in order && m in order;
    var pk :| 0 <= pk < |order| && order[pk] == k;
    var pm :| 0 <= pm < |order| && order[pm] == m;
    var side := order[0] in s;
    var j := FirstOtherSide(order, s, if side then pm else pk);
    var a := via[j];
    assert a in order[..j];
    var p :| 0 <= p < j && order[..j][p] == a;
    assert (a in s) == side;
    SqDistFacts(pts[order[j]], pts[a]);
    if order[j] in s {
      assert Dist(pts, order[j], a) <= w;
    } else {
      assert Dist(pts, a, order[j]) <= w;
    }
  }

  /** The first node of `order` on the other side of the cut `s` from `order[0]`. */
  lemma FirstOtherSide(order: seq<nat>, s: set<nat>, t: nat) returns (j: nat)
    requires t < |order| && (order[t] in s) != (order[0] in s)
    ensures 1 <= j <= t && (order[j] in s) != (order[0] in s)
    ensures forall q :: 0 <= q < j ==> (order[q] in s) == (order[0] in s)
  {
    j := 0;
    while (order[j] in s) == (order[0] in s)
      invariant 0 <= j <= t
      invariant forall q :: 0 <= q < j ==> (order[q] in s) == (order[0] in s)
      decreases t - j
    {
      j := j + 1;
    }
  }

  /** The nodes that joined the tree before node `order[best]` form a cut that
      the edge which added `order[best]` crosses and no shorter pair crosses. */
  lemma TreeEdgeCut(pts: seq<Point>, order: seq<nat>, via: seq<nat>, wts: seq<int>, best: nat)
    requires Tree(pts, order, via, wts) && 1 <= best < |order|
    ensures var s := set p | 0 <= p < best :: order[p];
      IsCut(|pts|, s) && order[best] !in s && via[best] in s && !CrossedWithin(pts, s, wts[best] - 1)
  {
    var s := set p | 0 <= p < best :: order[p];
    assert order[0] in s;
    assert order[best] !in s;
    assert via[best] in order[..best];
    var q :| 0 <= q < best && order[..best][q] == via[best];
    assert order[q] in s;
    forall a, b | 0 <= a < |pts| && 0 <= b < |pts| && a in s && b !in s
      ensures Dist(pts, a, b) > wts[best] - 1
    {
      var p :| 0 <= p < best && order[p] == a;
      assert forall r :: 0 <= r < best ==> order[..best][r] in s;
      assert b !in order[..best];
    }
  }

  /** The tie rules of the two scans. Node `order[j]` is the lowest-numbered
      node outside the tree at the least distance from it (the pick keeps the
      first strict minimum), and it joins through the earliest tree node at
      that distance (a relaxation replaces a parent only when strictly closer). */
  ghost predicate Ties(pts: seq<Point>, order: seq<nat>, via: seq<nat>, wts: seq<int>)
  {
    forall j :: 1 <= j < |order| ==> TiesAt(pts, order, via, wts, j)
  }

  /** The tie rules at step `j`. */
  ghost predicate TiesAt(pts: seq<Point>, order: seq<nat>, via: seq<nat>, wts: seq<int>, j: nat)
  {
    j < |order| && j < |via| && j < |wts| && order[j] < |pts| &&
    (forall p, b :: 0 <= p < j && order[p] < |pts| && 0 <= b < order[j] && b !in order[..j] ==> Dist(pts, order[p], b) > wts[j]) &&
    (forall p, q :: 0 <= q < p < j && order[p] == via[j] && order[q] < |pts| ==> Dist(pts, order[q], order[j]) > wts[j])
  }

  /** The recorded parent of node `v` is the earliest tree node at its
      recorded distance. */
  ghost predicate EarliestParent(pts: seq<Point>, minDists: seq<int>, parent: seq<nat>, order: seq<nat>, v: nat)
    requires v < |pts| && |minDists| == |parent| == |pts|
    requires forall p :: 0 <= p < |order| ==> order[p] < |pts|
  {
    minDists[v] < I64_MAX ==>
      forall r, q :: 0 <= q < r < |order| && order[r] == parent[v] ==> Dist(pts, order[q], v) > minDists[v]
  }

  /** Every node outside the tree has its earliest parent recorded. */
  ghost predicate EarliestParents(pts: seq<Point>, minDists: seq<int>, parent: seq<nat>, visited: seq<bool>, order: seq<nat>)
    requires |minDists| == |parent| == |visited| == |pts|
    requires forall p :: 0 <= p < |order| ==> order[p] < |pts|
  {
    forall v :: 0 <= v < |pts| && !visited[v] ==> EarliestParent(pts, minDists, parent, order, v)
  }

  /** A run of Prim's algorithm from box 0 as the source's scans make it: a
      tree over every box, grown by the tie rules above. */
  ghost predicate PrimRun(pts: seq<Point>, order: seq<nat>, via: seq<nat>, wts: seq<int>)
  {
    Tree(pts, order, via, wts) && Ties(pts, order, via, wts) && |order| == |pts| &&
    forall v :: 0 <= v < |pts| ==> v in order
  }

  /** Relaxing node `v` through the new tree node `u` keeps its parent the
      earliest tree node at its distance: a parent is replaced only by a
      strictly closer node, which is then the only tree node that close. */
  lemma EarliestStepAt(pts: seq<Point>, minDists: seq<int>, parent: seq<nat>, order: seq<nat>, u: nat,
                       minDists2: seq<int>, parent2: seq<nat>, v: nat)
    requires |minDists| == |parent| == |minDists2| == |parent2| == |pts| && u < |pts| && v < |pts|
    requires forall p :: 0 <= p < |order| ==> order[p] < |pts| && order[p] != u
    requires EarliestParent(pts, minDists, parent, order, v)
    requires forall p :: 0 <= p < |order| ==> minDists[v] <= Dist(pts, order[p], v)
    requires minDists[v] < I64_MAX ==> parent[v] in order
    requires if Dist(pts, u, v) < minDists[v] then minDists2[v] == Dist(pts, u, v) && parent2[v] == u
             else minDists2[v] == minDists[v] && parent2[v] == parent[v]
    ensures EarliestParent(pts, minDists2, parent2, order + [u], v)
  {
    var order', k := order + [u], |order|;
    if minDists2[v] < I64_MAX {
      forall r, q | 0 <= q < r < |order'| && order'[r] == parent2[v]
        ensures Dist(pts, order'[q], v) > minDists2[v]
      {
        assert order'[q] == order[q];
      }
    }
  }

  /** Relaxing through the new tree node `u` keeps every recorded parent the
      earliest tree node at the recorded distance. */
  lemma EarliestStep(pts: seq<Point>, minDists: seq<int>, parent: seq<nat>, visited: seq<bool>,
                     order: seq<nat>, via: seq<nat>, wts: seq<int>, u: nat,
                     minDists2: seq<int>, parent2: seq<nat>)
    requires Growing(pts, minDists, parent, visited, order, via, wts)
    requires EarliestParents(pts, minDists, parent, visited, order)
    requires u < |pts| && !visited[u] && (|order| == 0 <==> u == 0)
    requires Relaxed(pts, visited[u := true], minDists, parent, u, minDists2, parent2)
    ensures EarliestParents(pts, minDists2, parent2, visited[u := true], order + [u])
  {
    forall v | 0 <= v < |pts| && !visited[u := true][v]
      ensures EarliestParent(pts, minDists2, parent2, order + [u], v)
    {
      assert !visited[v] && v != u;
      assert EarliestParent(pts, minDists, parent, order, v);
      if |order| > 0 {
        assert Frontier(pts, minDists, parent, visited, order, v);
      }
      EarliestStepAt(pts, minDists, parent, order, u, minDists2, parent2, v);
    }
  }

  /** The tie rules grow with a node `u` joined through `p` by an edge of
      weight `w`, when no lower-numbered node outside the tree is as close to
      it and no tree node before `p` is as close to `u`. */
  lemma TiesExtend(pts: seq<Point>, order: seq<nat>, via: seq<nat>, wts: seq<int>, u: nat, p: nat, w: int)
    requires Ties(pts, order, via, wts) && |order| == |via| == |wts| && u < |pts|
    requires forall q :: 0 <= q < |order| ==> order[q] < |pts|
    requires forall q, b :: 0 <= q < |order| && 0 <= b < u && b !in order ==> Dist(pts, order[q], b) > w
    requires forall r, q :: 0 <= q < r < |order| && order[r] == p ==> Dist(pts, order[q], u) > w
    ensures Ties(pts, order + [u], via + [p], wts + [w])
  {
    var order', via', wts', k := order + [u], via + [p], wts + [w], |order|;
    forall j | 1 <= j < |order'| ensures TiesAt(pts, order', via', wts', j) {
      assert order'[..k] == order;
      if j < k {
        assert TiesAt(pts, order, via, wts, j);
        assert order'[..j] == order[..j];
      }
    }
  }

  /** Adding the node the scan picks, through its recorded parent, keeps the tie rules. */
  lemma TiesGrow(pts: seq<Point>, minDists: seq<int>, parent: seq<nat>, visited: seq<bool>,
                 order: seq<nat>, via: seq<nat>, wts: seq<int>, u: nat)
    requires Growing(pts, minDists, parent, visited, order, via, wts)
    requires Ties(pts, order, via, wts) && EarliestParents(pts, minDists, parent, visited, order)
    requires u < |pts| && !visited[u] && minDists[u] < I64_MAX
    requires forall v :: 0 <= v < u && !visited[v] ==> minDists[u] < minDists[v]
    ensures Ties(pts, order + [u], via + [parent[u]], wts + [minDists[u]])
  {
    PickTies(pts, minDists, parent, visited, order, via, wts, u);
    assert EarliestParent(pts, minDists, parent, order, u);
    TiesExtend(pts, order, via, wts, u, parent[u], minDists[u]);
  }

  /** The node the scan picks is the lowest-numbered node at the least
      distance from the tree. */
  lemma PickTies(pts: seq<Point>, minDists: seq<int>, parent: seq<nat>, visited: seq<bool>,
                 order: seq<nat>, via: seq<nat>, wts: seq<int>, u: nat)
    requires Growing(pts, minDists, parent, visited, order, via, wts)
    requires u < |pts| && forall v :: 0 <= v < u && !visited[v] ==> minDists[u] < minDists[v]
    ensures forall q, b :: 0 <= q < |order| && 0 <= b < u && b !in order ==> Dist(pts, order[q], b) > minDists[u]
  {
    forall q, b | 0 <= q < |order| && 0 <= b < u && b !in order
      ensures Dist(pts, order[q], b) > minDists[u]
    {
      assert !visited[b];
      assert Frontier(pts, minDists, parent, visited, order, b);
    }
  }

  /** `best` is the first edge of the run, after the root, that no edge of
      the run outweighs. */
  ghost predicate FirstHeaviest(wts: seq<int>, best: nat)
  {
    1 <= best < |wts| && (forall j :: 1 <= j < |wts| ==> wts[j] <= wts[best]) &&
    (forall j :: 1 <= j < best ==> wts[j] < wts[best])
  }

  /** The x coordinates part two multiplies for a run: those of the node and
      the tree node it joins through on the run's first heaviest edge, or
      `(0, 0)` when no edge is longer than 0. */
  ghost predicate AnswerCoords(pts: seq<Point>, order: seq<nat>, via: seq<nat>, wts: seq<int>, coords: (int, int))
  {
    ((forall j :: 1 <= j < |wts| ==> wts[j] <= 0) ==> coords == (0, 0)) &&
    (forall best: nat ::
      FirstHeaviest(wts, best) && wts[best] > 0 && best < |order| && best < |via| && order[best] < |pts| && via[best] < |pts|
      ==> coords == (pts[order[best]].x, pts[via[best]].x))
  }

  /** Two runs that both follow the tie rules add the same nodes in the same
      order, through the same tree nodes: Prim's run, and so part two's
      answer, is fixed by the boxes. */
  lemma PrimRunUnique(pts: seq<Point>, order1: seq<nat>, via1: seq<nat>, wts1: seq<int>,
                      order2: seq<nat>, via2: seq<nat>, wts2: seq<int>)
    requires PrimRun(pts, order1, via1, wts1) && PrimRun(pts, order2, via2, wts2)
    ensures order1 == order2
    ensures forall j :: 1 <= j < |order1| ==> via1[j] == via2[j] && wts1[j] == wts2[j]
  {
    forall j | 1 <= j < |order1| ensures via1[j] == via2[j] && wts1[j] == wts2[j] {
      RunsAgreeUpTo(pts, order1, via1, wts1, order2, via2, wts2, j);
      RunStepAgrees(pts, order1, via1, wts1, order2, via2, wts2, j);
    }
    RunsAgreeUpTo(pts, order1, via1, wts1, order2, via2, wts2, |order1|);
    assert order1 == order1[..|order1|] && order2 == order2[..|order2|];
  }

  /** Two runs under the tie rules add the same first `k` nodes. */
  lemma {:induction false} RunsAgreeUpTo(pts: seq<Point>, order1: seq<nat>, via1: seq<nat>, wts1: seq<int>,
                                         order2: seq<nat>, via2: seq<nat>, wts2: seq<int>, k: nat)
    requires Tree(pts, order1, via1, wts1) && Ties(pts, order1, via1, wts1)
    requires Tree(pts, order2, via2, wts2) && Ties(pts, order2, via2, wts2)
    requires k <= |order1| == |order2|
    ensures order1[..k] == order2[..k]
  {
    if k > 0 {
      var j := k - 1;
      RunsAgreeUpTo(pts, order1, via1, wts1, order2, via2, wts2, j);
      if j > 0 {
        RunStepAgrees(pts, order1, via1, wts1, order2, via2, wts2, j);
      }
      PrefixSnoc(order1, order2, j);
    }
  }

  /** Prefixes that agree, followed by equal elements, agree one further. */
  lemma PrefixSnoc(a: seq<nat>, b: seq<nat>, j: nat)
    requires j < |a| && j < |b| && a[..j] == b[..j] && a[j] == b[j]
    ensures a[..j + 1] == b[..j + 1]
  {
    assert a[..j + 1] == a[..j] + [a[j]];
    assert b[..j + 1] == b[..j] + [b[j]];
  }

  /** Two runs under the tie rules that agree before step `j` take the same step `j`. */
  lemma RunStepAgrees(pts: seq<Point>, order1: seq<nat>, via1: seq<nat>, wts1: seq<int>,
                      order2: seq<nat>, via2: seq<nat>, wts2: seq<int>, j: nat)
    requires Tree(pts, order1, via1, wts1) && Ties(pts, order1, via1, wts1)
    requires Tree(pts, order2, via2, wts2) && Ties(pts, order2, via2, wts2)
    requires 1 <= j < |order1| == |order2| && order1[..j] == order2[..j]
    ensures order1[j] == order2[j] && via1[j] == via2[j] && wts1[j] == wts2[j]
  {
    StepWeightBound(pts, order1, via1, wts1, order2, via2, wts2, j);
    StepWeightBound(pts, order2, via2, wts2, order1, via1, wts1, j);
    StepNodeBound(pts, order1, via1, wts1, order2, via2, wts2, j);
    StepNodeBound(pts, order2, via2, wts2, order1, via1, wts1, j);
    StepViaAgrees(pts, order1, via1, wts1, order2, via2, wts2, j);
  }

  /** The node a tree adds at step `j` is outside its first `j` nodes, and the
      node it joins through is one of them. */
  lemma StepFresh(pts: seq<Point>, order: seq<nat>, via: seq<nat>, wts: seq<int>, j: nat) returns (p: nat)
    requires Tree(pts, order, via, wts) && 1 <= j < |order|
    ensures order[j] !in order[..j]
    ensures p < j && order[p] == via[j]
  {
    forall q | 0 <= q < j ensures order[..j][q] != order[j] {
      assert order[..j][q] == order[q];
    }
    assert via[j] in order[..j];
    p :| 0 <= p < j && order[..j][p] == via[j];
  }

  /** Under a common first `j` nodes, the edge the first tree adds at step `j`
      is no lighter than the one the second adds. */
  lemma StepWeightBound(pts: seq<Point>, order1: seq<nat>, via1: seq<nat>, wts1: seq<int>,
                        order2: seq<nat>, via2: seq<nat>, wts2: seq<int>, j: nat)
    requires Tree(pts, order1, via1, wts1) && Tree(pts, order2, via2, wts2)
    requires 1 <= j < |order1| && j < |order2| && order1[..j] == order2[..j]
    ensures wts1[j] >= wts2[j]
  {
    var p1 := StepFresh(pts, order1, via1, wts1, j);
    assert order2[p1] == order1[..j][p1];
    SqDistFacts(pts[order1[j]], pts[via1[j]]);
    assert Dist(pts, order2[p1], order1[j]) >= wts2[j];
  }

  /** Under a common first `j` nodes and equal weights at step `j`, the second
      tree does not add a lower-numbered node than the first. */
  lemma StepNodeBound(pts: seq<Point>, order1: seq<nat>, via1: seq<nat>, wts1: seq<int>,
                      order2: seq<nat>, via2: seq<nat>, wts2: seq<int>, j: nat)
    requires Tree(pts, order1, via1, wts1) && Tree(pts, order2, via2, wts2) && Ties(pts, order2, via2, wts2)
    requires 1 <= j < |order1| && j < |order2| && order1[..j] == order2[..j] && wts1[j] == wts2[j]
    ensures order2[j] <= order1[j]
  {
    var p1 := StepFresh(pts, order1, via1, wts1, j);
    assert order2[p1] == order1[..j][p1];
    SqDistFacts(pts[order1[j]], pts[via1[j]]);
    assert TiesAt(pts, order2, via2, wts2, j);
    var d, w := Dist(pts, order2[p1], order1[j]), wts2[j];
    assert order1[j] < order2[j] ==> d > w;
  }

  /** Under a common step `j`, both trees join through the same tree node:
      each joins through the earliest one at the edge's weight. */
  lemma StepViaAgrees(pts: seq<Point>, order1: seq<nat>, via1: seq<nat>, wts1: seq<int>,
                      order2: seq<nat>, via2: seq<nat>, wts2: seq<int>, j: nat)
    requires Tree(pts, order1, via1, wts1) && Tree(pts, order2, via2, wts2)
    requires Ties(pts, order1, via1, wts1) && Ties(pts, order2, via2, wts2)
    requires 1 <= j < |order1| && j < |order2| && order1[..j] == order2[..j]
    requires order1[j] == order2[j] && wts1[j] == wts2[j]
    ensures via1[j] == via2[j]
  {
    var p1 := StepFresh(pts, order1, via1, wts1, j);
    var p2 := StepFresh(pts, order2, via2, wts2, j);
    assert order2[p1] == order1[..j][p1] && order1[p2] == order2[..j][p2];
    SqDistFacts(pts[order1[j]], pts[via1[j]]);
    SqDistFacts(pts[order2[j]], pts[via2[j]]);
    assert TiesAt(pts, order1, via1, wts1, j) && TiesAt(pts, order2, via2, wts2, j);
    var d1, d2 := Dist(pts, order1[p2], order1[j]), Dist(pts, order2[p1], order2[j]);
    var w1, w2 := wts1[j], wts2[j];
    assert p2 < p1 ==> d1 > w1;
    assert p1 < p2 ==> d2 > w2;
  }

  /** The heaviest tree edge recorded so far: its weight, the x coordinates of
      its ends as `answer_coords` holds them, and its position in the order. */
  ghost predicate Heaviest(xs: seq<int>, order: seq<nat>, via: seq<nat>, wts: seq<int>, maxEdge: int, coords: (int, int), best: nat)
  {
    maxEdge >= 0 &&
    (forall j :: 1 <= j < |wts| ==> wts[j] <= maxEdge) &&
    (maxEdge == 0 ==> coords == (0, 0)) &&
    (maxEdge > 0 ==>
      1 <= best < |order| && best < |via| && best < |wts| && wts[best] == maxEdge &&
      (forall j :: 1 <= j < best ==> wts[j] < maxEdge) &&
      order[best] < |xs| && via[best] < |xs| && coords == (xs[order[best]], xs[via[best]]))
  }

  /** Recording the edge that adds node `u` through `p` keeps the first
      heaviest edge: it replaces the recorded one only when strictly heavier,
      and the first node, which joins without an edge, never does. */
  lemma HeaviestStep(xs: seq<int>, order: seq<nat>, via: seq<nat>, wts: seq<int>, maxEdge: int, coords: (int, int), best: nat,
                     u: nat, p: nat, w: int, maxEdge2: int, coords2: (int, int), best2: nat)
    requires Heaviest(xs, order, via, wts, maxEdge, coords, best) && |order| == |via| == |wts|
    requires u < |xs| && (u != 0 ==> p < |xs|) && (|order| == 0 <==> u == 0)
    requires if u != 0 && w > maxEdge then maxEdge2 == w && coords2 == (xs[u], xs[p]) && best2 == |order|
             else maxEdge2 == maxEdge && coords2 == coords && best2 == best
    ensures Heaviest(xs, order + [u], via + [p], wts + [w], maxEdge2, coords2, best2)
  {
  }

  /** Once every box has joined the tree, the heaviest tree edge has the
      bottleneck length and, when positive, is a bottleneck edge. */
  lemma PrimResult(pts: seq<Point>, xs: seq<int>, order: seq<nat>, via: seq<nat>, wts: seq<int>,
                   maxEdge: int, coords: (int, int), best: nat)
    requires Tree(pts, order, via, wts) && |order| == |pts| == |xs|
    requires forall v :: 0 <= v < |pts| ==> v in order
    requires Heaviest(xs, order, via, wts, maxEdge, coords, best)
    ensures IsBottleneck(pts, maxEdge)
    ensures maxEdge > 0 ==> IsBottleneckEdge(pts, via[best], order[best], maxEdge)
  {
    forall s | IsCut(|pts|, s) ensures CrossedWithin(pts, s, maxEdge) {
      TreeCrossesCut(pts, order, via, wts, maxEdge, s);
    }
    if maxEdge > 0 {
      TreeEdgeCut(pts, order, via, wts, best);
      SqDistFacts(pts[order[best]], pts[via[best]]);
    }
  }

  /** `coords` holds the x coordinates of the far and near ends of some
      bottleneck edge of length `w`. */
  ghost predicate EdgeCoords(pts: seq<Point>, w: int, coords: (int, int))
  {
    exists a: nat, b: nat :: IsBottleneckEdge(pts, a, b, w) && coords == (pts[b].x, pts[a].x)
  }

  /** The invariant of the main loop: Prim's tree so far, grown by the tie rules. */
  ghost predicate Prim(pts: seq<Point>, minDists: seq<int>, parent: seq<nat>, visited: seq<bool>,
                       order: seq<nat>, via: seq<nat>, wts: seq<int>)
  {
    Growing(pts, minDists, parent, visited, order, via, wts) &&
    Ties(pts, order, via, wts) && EarliestParents(pts, minDists, parent, visited, order)
  }

  /** One round of the main loop keeps its invariant. */
  lemma PrimRound(pts: seq<Point>, minDists: seq<int>, parent: seq<nat>, visited: seq<bool>,
                  order: seq<nat>, via: seq<nat>, wts: seq<int>, u: nat,
                  minDists2: seq<int>, parent2: seq<nat>)
    requires Prim(pts, minDists, parent, visited, order, via, wts) && |order| < |pts|
    requires u < |pts| && !visited[u] && minDists[u] < I64_MAX
    requires forall v :: 0 <= v < |pts| && !visited[v] ==> minDists[u] <= minDists[v]
    requires forall v :: 0 <= v < u && !visited[v] ==> minDists[u] < minDists[v]
    requires Relaxed(pts, visited[u := true], minDists, parent, u, minDists2, parent2)
    ensures Prim(pts, minDists2, parent2, visited[u := true], order + [u], via + [parent[u]], wts + [minDists[u]])
    ensures |order| == 0 <==> u == 0
  {
    PrimStep(pts, minDists, parent, visited, order, via, wts, u, minDists2, parent2);
    TiesGrow(pts, minDists, parent, visited, order, via, wts, u);
    EarliestStep(pts, minDists, parent, visited, order, via, wts, u, minDists2, parent2);
  }

  /** The recorded edge is the run's first heaviest edge, so its coordinates
      are the ones part two reads off the run. */
  lemma HeaviestAnswer(pts: seq<Point>, xs: seq<int>, order: seq<nat>, via: seq<nat>, wts: seq<int>,
                       maxEdge: int, coords: (int, int), best: nat)
    requires |xs| == |pts| && forall i :: 0 <= i < |pts| ==> pts[i].x == xs[i]
    requires Heaviest(xs, order, via, wts, maxEdge, coords, best)
    ensures AnswerCoords(pts, order, via, wts, coords)
  {
    forall b: nat | FirstHeaviest(wts, b) && wts[b] > 0 && b < |order| && b < |via| && order[b] < |pts| && via[b] < |pts|
      ensures coords == (pts[order[b]].x, pts[via[b]].x)
    {
      assert maxEdge > 0;
      assert !(b < best) && !(best < b);
    }
  }

  /** Prim's algorithm over the coordinate columns, from box 0: adds the
      closest box outside the tree `n` times and keeps the heaviest edge it
      adds, with the x coordinates of its ends. `found` is false when the scan
      finds no box below the sentinel, where the source indexes past its buffers.
      The run itself, with the tie rules of the scans, is returned as `order`,
      `via` and `wts`. */
  method SpanningTreeMax(xs: seq<int>, ys: seq<int>, zs: seq<int>)
    returns (found: bool, maxEdge: int, coords: (int, int), ghost order: seq<nat>, ghost via: seq<nat>, ghost wts: seq<int>)
    requires |xs| == |ys| == |zs| > 0
    ensures Fits(Zip(xs, ys, zs)) ==> found
    ensures found ==> IsBottleneck(Zip(xs, ys, zs), maxEdge)
    ensures found && maxEdge == 0 ==> coords == (0, 0)
    ensures found && maxEdge > 0 ==> EdgeCoords(Zip(xs, ys, zs), maxEdge, coords)
    ensures found ==> PrimRun(Zip(xs, ys, zs), order, via, wts) && AnswerCoords(Zip(xs, ys, zs), order, via, wts, coords)
  {
    ghost var pts := Zip(xs, ys, zs);
    var n := |xs|;
    var minDists := [0] + seq(n - 1, k => I64_MAX);
    var parent: seq<nat> := seq(n, k => 0);
    var visited := seq(n, k => false);
    maxEdge, coords := 0, (0, 0);
    ghost var best: nat := 0;
    order, via, wts := [], [], [];
    GrowingStart(pts);
    for k := 0 to n
      invariant |order| == k
      invariant Prim(pts, minDists, parent, visited, order, via, wts)
      invariant Heaviest(xs, order, via, wts, maxEdge, coords, best)
    {
      var stuck;
      stuck, minDists, parent, visited, maxEdge, coords, order, via, wts, best :=
        AddClosest(xs, ys, zs, minDists, parent, visited, maxEdge, coords, order, via, wts, best);
      if stuck {
        found := false;
        return;
      }
    }
    CountFalsePositive(visited);
    PrimResult(pts, xs, order, via, wts, maxEdge, coords, best);
    HeaviestAnswer(pts, xs, order, via, wts, maxEdge, coords, best);
    found := true;
    if maxEdge > 0 {
      assert IsBottleneckEdge(pts, via[best], order[best], maxEdge) && coords == (pts[order[best]].x, pts[via[best]].x);
    }
  }

  /** One round of the main loop: picks the closest box outside the tree,
      records the edge that adds it when strictly heavier than the heaviest so
      far, and relaxes the other boxes through it. `stuck` is true when no box
      outside the tree is below the sentinel, which needs a squared distance
      that does not fit. */
  method AddClosest(xs: seq<int>, ys: seq<int>, zs: seq<int>, minDists: seq<int>, parent: seq<nat>, visited: seq<bool>,
                    maxEdge: int, coords: (int, int), ghost order: seq<nat>, ghost via: seq<nat>, ghost wts: seq<int>, ghost best: nat)
    returns (stuck: bool, minDists2: seq<int>, parent2: seq<nat>, visited2: seq<bool>, maxEdge2: int, coords2: (int, int),
             ghost order2: seq<nat>, ghost via2: seq<nat>, ghost wts2: seq<int>, ghost best2: nat)
    requires |xs| == |ys| == |zs| && |order| < |xs|
    requires Prim(Zip(xs, ys, zs), minDists, parent, visited, order, via, wts)
    requires Heaviest(xs, order, via, wts, maxEdge, coords, best)
    ensures stuck ==> !Fits(Zip(xs, ys, zs))
    ensures !stuck ==> |order2| == |order| + 1 && Prim(Zip(xs, ys, zs), minDists2, parent2, visited2, order2, via2, wts2)
    ensures !stuck ==> Heaviest(xs, order2, via2, wts2, maxEdge2, coords2, best2)
  {
    ghost var pts := Zip(xs, ys, zs);
    FitsReaches(pts, minDists, parent, visited, order, via, wts);
    var closest, minVal := PickClosest(visited, minDists);
    minDists2, parent2, visited2, maxEdge2, coords2 := minDists, parent, visited, maxEdge, coords;
    order2, via2, wts2, best2 := order, via, wts, best;
    if closest.None? {
      return true, minDists2, parent2, visited2, maxEdge2, coords2, order2, via2, wts2, best2;
    }
    stuck := false;
    var u := closest.value;
    FirstPick(pts, minDists, parent, visited, order, via, wts, u);
    if u != 0 {
      assert Frontier(pts, minDists, parent, visited, order, u);
      if minVal > maxEdge {
        maxEdge2 := minVal;
        coords2 := (xs[u], xs[parent[u]]);
        best2 := |order|;
      }
    }
    visited2 := visited[u := true];
    minDists2, parent2 := Relax(xs, ys, zs, visited2, minDists, parent, u);
    PrimRound(pts, minDists, parent, visited, order, via, wts, u, minDists2, parent2);
    HeaviestStep(xs, order, via, wts, maxEdge, coords, best, u, parent[u], minVal, maxEdge2, coords2, best2);
    order2, via2, wts2 := order + [u], via + [parent[u]], wts + [minVal];
  }

  /** The first heaviest edge of a run with at least one edge exists. */
  lemma FindFirstHeaviest(wts: seq<int>) returns (b: nat)
    requires |wts| >= 2
    ensures FirstHeaviest(wts, b)
  {
    b := 1;
    for i := 2 to |wts|
      invariant 1 <= b < i
      invariant forall j :: 1 <= j < i ==> wts[j] <= wts[b]
      invariant forall j :: 1 <= j < b ==> wts[j] < wts[b]
    {
      if wts[i] > wts[b] {
        b := i;
      }
    }
  }

  /** `r` is the product, cast to `u64`, of the x coordinates part two reads
      off Prim's run over the boxes. */
  ghost predicate PrimAnswer(pts: seq<Point>, r: nat)
  {
    exists order: seq<nat>, via: seq<nat>, wts: seq<int>, coords: (int, int) :: RunAnswer(pts, order, via, wts, coords, r)
  }

  /** `r` is the answer read off the run `order`, `via`, `wts` through `coords`. */
  ghost predicate RunAnswer(pts: seq<Point>, order: seq<nat>, via: seq<nat>, wts: seq<int>, coords: (int, int), r: nat)
  {
    PrimRun(pts, order, via, wts) && AnswerCoords(pts, order, via, wts, coords) && r == AsU64(coords.0 * coords.1)
  }

  /** The boxes fix part two's answer, ties included: any two answers read
      off runs under the tie rules are equal. */
  lemma PrimAnswerUnique(pts: seq<Point>, r1: nat, r2: nat)
    requires PrimAnswer(pts, r1) && PrimAnswer(pts, r2)
    ensures r1 == r2
  {
    var order1: seq<nat>, via1: seq<nat>, wts1: seq<int>, coords1: (int, int) :| RunAnswer(pts, order1, via1, wts1, coords1, r1);
    var order2: seq<nat>, via2: seq<nat>, wts2: seq<int>, coords2: (int, int) :| RunAnswer(pts, order2, via2, wts2, coords2, r2);
    PrimRunUnique(pts, order1, via1, wts1, order2, via2, wts2);
    AnswerCoordsUnique(pts, order1, via1, wts1, via2, wts2, coords1, coords2);
  }

  /** Runs that agree on their nodes, joins and weights give the same coordinates. */
  lemma AnswerCoordsUnique(pts: seq<Point>, order: seq<nat>, via1: seq<nat>, wts1: seq<int>,
                           via2: seq<nat>, wts2: seq<int>, coords1: (int, int), coords2: (int, int))
    requires |order| == |via1| == |wts1| == |via2| == |wts2|
    requires forall j :: 1 <= j < |order| ==> via1[j] == via2[j] && wts1[j] == wts2[j]
    requires forall j :: 1 <= j < |order| ==> order[j] < |pts| && via1[j] < |pts|
    requires AnswerCoords(pts, order, via1, wts1, coords1) && AnswerCoords(pts, order, via2, wts2, coords2)
    ensures coords1 == coords2
  {
    if |wts1| >= 2 {
      var b := FindFirstHeaviest(wts1);
      assert FirstHeaviest(wts2, b);
      if wts1[b] <= 0 {
        assert forall j :: 1 <= j < |wts1| ==> wts1[j] <= 0;
        assert forall j :: 1 <= j < |wts2| ==> wts2[j] <= 0;
      }
    }
  }

  /** `r` is the product of the x coordinates of the ends of some bottleneck
      edge of length `w`, cast to `u64`. */
  ghost predicate ProductOfEdge(pts: seq<Point>, w: int, r: nat)
  {
    exists a: nat, b: nat :: IsBottleneckEdge(pts, a, b, w) && r == AsU64(pts[b].x * pts[a].x)
  }

  /** Part two: the product of the x coordinates of the ends of a heaviest
      edge of a minimum spanning tree, found with Prim's algorithm; `Some(0)`
      when that edge has length 0. No boxes, where the source writes past an
      empty buffer, gives `None`. */
  method PartTwo(input: String) returns (r: Option<nat>)
    ensures |Boxes(input)| == 0 ==> r.None?
    ensures |Boxes(input)| > 0 && Fits(Boxes(input)) ==> r.Some?
    ensures r.Some? ==>
      exists w :: IsBottleneck(Boxes(input), w) && (w == 0 ==> r == Some(0)) && (w > 0 ==> ProductOfEdge(Boxes(input), w, r.value))
    ensures r.Some? ==> PrimAnswer(Boxes(input), r.value)
  {
    var xs, ys, zs := ParseSoa(input);
    ghost var pts := Zip(xs, ys, zs);
    assert pts == Boxes(input);
    if |xs| == 0 {
      return None;
    }
    var found, maxEdge, coords, order, via, wts := SpanningTreeMax(xs, ys, zs);
    if !found {
      return None;
    }
    r := Some(AsU64(coords.0 * coords.1));
    assert RunAnswer(pts, order, via, wts, coords, r.value);
    if maxEdge > 0 {
      ghost var a: nat, b: nat :| IsBottleneckEdge(pts, a, b, maxEdge) && coords == (pts[b].x, pts[a].x);
      assert ProductOfEdge(pts, maxEdge, r.value);
    }
  }

  /** The two solvers agree on the bottleneck: the squared length of the
      pair at which the sorted-pairs solver first has a single circuit is the
      length of the heaviest edge Prim's algorithm keeps. */
  lemma SolversAgree(pts: seq<Point>, t: nat, w: int)
    requires FirstConnecting(|pts|, Day08.GeneratePairs(pts), t) && IsBottleneck(pts, w)
    ensures Day08.GeneratePairs(pts)[t].dist == w
  {
    Day08.LastPairIsBottleneck(pts, t);
    BottleneckUnique(pts, Day08.GeneratePairs(pts)[t].dist, w);
  }
}
