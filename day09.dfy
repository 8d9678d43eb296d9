/** Day 9 (src/bin/09.rs): red tiles on a grid, one `x,y` per line. Part one
    is the largest rectangle with two red tiles as opposite corners; part two
    keeps only rectangles inside the polygon the tiles outline, searching a
    bounded set of the largest candidates. */
module Day09 {
  import opened Base
  import opened Text
  import opened Sorting
  import opened Day09Polygon

  /** `MAX_CANDIDATES`: how many of the largest rectangles part two keeps. */
  const MAX_CANDIDATES: nat := 65536

  /** `Points`: the coordinates as two parallel arrays. */
  datatype Points = Points(x: seq<int>, y: seq<int>)

  /** `n` in the solvers: the number of complete points. */
  function NumPoints(p: Points): nat
  {
    Min(|p.x|, |p.y|)
  }

  /** One line `a,b`; `None` where an `unwrap` panics. */
  function ParsePoint(line: String): Option<(int, int)>
  {
    match SplitOnce(line, ',')
    case None => None
    case Some((a, b)) =>
      match (ParseSigned(a, I32_MIN, I32_MAX), ParseSigned(b, I32_MIN, I32_MAX))
      case (Some(x), Some(y)) => Some((x, y))
      case _ => None
  }

  /** `parse_input`: one point per line, or `None` when a line does not parse. */
  function ParseInput(input: String): Option<Points>
  {
    ParseAll(Lines(input))
  }

  /** The lines `lines` as points, or `None` when one does not parse. */
  function ParseAll(lines: seq<String>): Option<Points>
  {
    match MapAll(ParsePoint, lines)
    case None => None
    case Some(ps) => Some(Unzip(ps))
  }

  /** The points `ps` as two coordinate arrays. */
  function Unzip(ps: seq<(int, int)>): (p: Points)
    ensures |p.x| == |p.y| == |ps|
    ensures forall k :: 0 <= k < |ps| ==> ps[k] == (p.x[k], p.y[k])
  {
    Points(seq(|ps|, k requires 0 <= k < |ps| => ps[k].0), seq(|ps|, k requires 0 <= k < |ps| => ps[k].1))
  }

  /** `parse_input`, pushing to the two coordinate vectors line by line. */
  method ParsePoints(input: String) returns (r: Option<Points>)
    ensures r == ParseInput(input)
    ensures r.Some? ==> |r.value.x| == |r.value.y| == |Lines(input)|
  {
    r := CollectPoints(Lines(input));
  }

  /** The loop of `parse_input` over the lines. */
  method CollectPoints(lines: seq<String>) returns (r: Option<Points>)
    ensures r == ParseAll(lines)
    ensures r.Some? ==> |r.value.x| == |r.value.y| == |lines|
  {
    var x: seq<int> := [];
    var y: seq<int> := [];
    for k := 0 to |lines|
      invariant |x| == k && |y| == k
      invariant forall j :: 0 <= j < k ==> ParsePoint(lines[j]) == Some((x[j], y[j]))
    {
      var point := ParsePoint(lines[k]);
      if point.None? {
        MapAllNone(ParsePoint, lines, k);
        return None;
      }
      x := x + [point.value.0];
      y := y + [point.value.1];
    }
    ghost var ps := seq(|x|, j requires 0 <= j < |x| => (x[j], y[j]));
    MapAllSome(ParsePoint, lines, ps);
    assert Unzip(ps) == Points(x, y);
    r := Some(Points(x, y));
  }

  function ShowPoint(x: int, y: int): String
  {
    ShowSigned(x) + [','] + ShowSigned(y)
  }

  /** The puzzle text listing the points of `p`, one per line. */
  function ShowPoints(p: Points): seq<String>
    requires |p.x| == |p.y|
  {
    seq(|p.x|, k requires 0 <= k < |p.x| => ShowPoint(p.x[k], p.y[k]))
  }

  /** A point written as `x,y` reads back as itself. */
  lemma {:induction false} ParsePointRoundTrip(x: int, y: int)
    requires I32_MIN <= x <= I32_MAX && I32_MIN <= y <= I32_MAX
    ensures ParsePoint(ShowPoint(x, y)) == Some((x, y))
    ensures '\n' !in ShowPoint(x, y)
  {
    var a, b := ShowSigned(x), ShowSigned(y);
    var s := a + [','] + b;
    assert forall k :: 0 <= k < |a| ==> a[k] != ',';
    SplitOnceAfter(a, ',', b);
    ParseSignedRoundTrip(x, I32_MIN, I32_MAX);
    ParseSignedRoundTrip(y, I32_MIN, I32_MAX);
    assert forall k :: 0 <= k < |s| ==> s[k] != '\n' by {
      forall k | 0 <= k < |s|
        ensures s[k] != '\n'
      {
        if k < |a| {
          assert s[k] == a[k];
        } else if k > |a| {
          assert s[k] == b[k - |a| - 1];
        }
      }
    }
  }

  lemma {:induction false} ShownPoints(p: Points)
    requires |p.x| == |p.y|
    requires forall k :: 0 <= k < |p.x| ==> I32_MIN <= p.x[k] <= I32_MAX && I32_MIN <= p.y[k] <= I32_MAX
    ensures forall k :: 0 <= k < |p.x| ==> '\n' !in ShowPoints(p)[k]
    ensures forall k :: 0 <= k < |p.x| ==> ParsePoint(ShowPoints(p)[k]) == Some(Zip(p)[k])
  {
    forall k | 0 <= k < |p.x|
      ensures '\n' !in ShowPoints(p)[k] && ParsePoint(ShowPoints(p)[k]) == Some(Zip(p)[k])
    {
      ParsePointRoundTrip(p.x[k], p.y[k]);
    }
  }

  lemma {:induction false} ParseLines(ls: seq<String>, ps: seq<(int, int)>)
    requires |ls| == |ps|
    requires forall k :: 0 <= k < |ls| ==> '\n' !in ls[k] && ParsePoint(ls[k]) == Some(ps[k])
    ensures ParseInput(Unlines(ls)) == Some(Unzip(ps))
  {
    LinesUnlines(ls);
    MapAllSome(ParsePoint, ls, ps);
  }

  /** `parse_input` reads back the points written one per line. */
  lemma {:induction false} ParseInputRoundTrip(p: Points)
    requires |p.x| == |p.y|
    requires forall k :: 0 <= k < |p.x| ==> I32_MIN <= p.x[k] <= I32_MAX && I32_MIN <= p.y[k] <= I32_MAX
    ensures ParseInput(Unlines(ShowPoints(p))) == Some(p)
  {
    ShownPoints(p);
    ParseLines(ShowPoints(p), Zip(p));
    UnzipZip(p);
  }

  /** The points of `p` as pairs. */
  function Zip(p: Points): (ps: seq<(int, int)>)
    requires |p.x| == |p.y|
    ensures |ps| == |p.x| && forall k :: 0 <= k < |ps| ==> ps[k] == (p.x[k], p.y[k])
  {
    seq(|p.x|, k requires 0 <= k < |p.x| => (p.x[k], p.y[k]))
  }

  lemma UnzipZip(p: Points)
    requires |p.x| == |p.y|
    ensures Unzip(Zip(p)) == p
  {
    var q := Unzip(Zip(p));
    assert q.x == p.x && q.y == p.y;
  }

  /** The area of the rectangle with corners `i` and `j`, counting tiles:
      `(abs_diff(x) + 1) * (abs_diff(y) + 1)`. */
  function Area(p: Points, i: nat, j: nat): (a: nat)
    requires i < NumPoints(p) && j < NumPoints(p)
    ensures a >= 1
  {
    var dx: nat := if p.x[i] < p.x[j] then p.x[j] - p.x[i] else p.x[i] - p.x[j];
    var dy: nat := if p.y[i] < p.y[j] then p.y[j] - p.y[i] else p.y[i] - p.y[j];
    (dx + 1) * (dy + 1)
  }

  /** `a` is the largest area over all pairs of points, or 0 without a pair. */
  predicate IsLargestArea(p: Points, a: nat)
  {
    (forall i, j :: 0 <= i < j < NumPoints(p) ==> Area(p, i, j) <= a) &&
    (NumPoints(p) < 2 ==> a == 0) &&
    (NumPoints(p) >= 2 ==> exists i, j :: 0 <= i < j < NumPoints(p) && a == Area(p, i, j))
  }

  /** `solve_part_one`. */
  method SolvePartOne(p: Points) returns (answer: nat)
    ensures IsLargestArea(p, answer)
  {
    answer := 0;
    var n := NumPoints(p);
    ghost var bi, bj := 0, 1;
    for i := 0 to n
      invariant forall i', j' :: 0 <= i' < i && i' < j' < n ==> Area(p, i', j') <= answer
      invariant answer == 0 || (bi < bj < n && answer == Area(p, bi, bj))
      invariant n < 2 ==> answer == 0
    {
      for j := i + 1 to n
        invariant forall i', j' :: 0 <= i' < i && i' < j' < n ==> Area(p, i', j') <= answer
        invariant forall j' :: i < j' < j ==> Area(p, i, j') <= answer
        invariant answer == 0 || (bi < bj < n && answer == Area(p, bi, bj))
        invariant n < 2 ==> answer == 0
      {
        var area := Area(p, i, j);
        if area > answer {
          answer, bi, bj := area, i, j;
        }
      }
    }
    if n >= 2 {
      assert Area(p, 0, 1) <= answer;
    }
  }

  /** `(area, i, j)`, a rectangle offered to the heap of part two. */
  datatype Candidate = Candidate(area: nat, i: nat, j: nat)

  function Cand(p: Points, i: nat, j: nat): Candidate
    requires i < NumPoints(p) && j < NumPoints(p)
  {
    Candidate(Area(p, i, j), i, j)
  }

  /** The order of `Reverse<(u64, usize, usize)>`'s inner tuple: by area,
      then by the two indices. */
  predicate Before(a: Candidate, b: Candidate)
  {
    a.area < b.area || (a.area == b.area && (a.i < b.i || (a.i == b.i && a.j < b.j)))
  }

  /** Where `peek` and `pop` find the least candidate of the min-heap. */
  function MinIndex(h: seq<Candidate>): (m: nat)
    requires h != []
    ensures m < |h| && forall k :: 0 <= k < |h| ==> !Before(h[k], h[m])
  {
    if |h| == 1 then 0
    else
      var m := MinIndex(h[..|h| - 1]);
      if Before(h[|h| - 1], h[m]) then |h| - 1 else m
  }

  /** One offer to the bounded min-heap: push while it has room, otherwise
      replace the least candidate when the new area is strictly larger. */
  function Offer(h: seq<Candidate>, c: Candidate, cap: nat): seq<Candidate>
  {
    if |h| < cap then h + [c]
    else if h != [] && c.area > h[MinIndex(h)].area then RemoveAt(h, MinIndex(h)) + [c]
    else h
  }

  /** The heap after offering the candidates `cs` in order. */
  function OfferAll(cs: seq<Candidate>, cap: nat): seq<Candidate>
  {
    if cs == [] then [] else Offer(OfferAll(cs[..|cs| - 1], cap), cs[|cs| - 1], cap)
  }

  /** The heap never holds more than `cap` candidates, and holds `cap` once
      that many have been offered. */
  lemma {:induction false} HeapSize(cs: seq<Candidate>, cap: nat)
    ensures |OfferAll(cs, cap)| == Min(cap, |cs|)
  {
    if cs != [] {
      HeapSize(cs[..|cs| - 1], cap);
    }
  }

  /** Every candidate in the heap is one of those offered. */
  lemma {:induction false} HeapOrigin(cs: seq<Candidate>, cap: nat, k: nat) returns (t: nat)
    requires k < |OfferAll(cs, cap)|
    ensures t < |cs| && OfferAll(cs, cap)[k] == cs[t]
  {
    var n := |cs| - 1;
    var h := OfferAll(cs[..n], cap);
    var c := cs[n];
    if |h| < cap {
      if k == |h| {
        t := n;
      } else {
        assert OfferAll(cs, cap)[k] == h[k];
        t := HeapOrigin(cs[..n], cap, k);
      }
    } else if h != [] && c.area > h[MinIndex(h)].area {
      var m := MinIndex(h);
      if k == |h| - 1 {
        t := n;
      } else {
        var k' := if k < m then k else k + 1;
        assert OfferAll(cs, cap)[k] == h[k'];
        t := HeapOrigin(cs[..n], cap, k');
      }
    } else {
      t := HeapOrigin(cs[..n], cap, k);
    }
  }

  /** The offered candidate is pushed, or rejected by a full heap whose
      every candidate is at least as large. */
  lemma {:induction false} OfferNew(h: seq<Candidate>, c: Candidate, cap: nat) returns (kept: bool, k: nat)
    ensures kept ==> k < |Offer(h, c, cap)| && Offer(h, c, cap)[k] == c
    ensures !kept ==> |Offer(h, c, cap)| >= cap && forall q :: 0 <= q < |Offer(h, c, cap)| ==> c.area <= Offer(h, c, cap)[q].area
  {
    if |h| < cap {
      kept, k := true, |h|;
    } else if h != [] && c.area > h[MinIndex(h)].area {
      kept, k := true, |h| - 1;
    } else {
      kept, k := false, 0;
      if h != [] {
        var m := MinIndex(h);
        forall q | 0 <= q < |h|
          ensures c.area <= h[q].area
        {
          assert !Before(h[q], h[m]);
        }
      }
    }
  }

  /** A candidate already in the heap stays, possibly at a new position, or
      is the least one popped, and then no larger than any that remain. */
  lemma {:induction false} OfferOld(h: seq<Candidate>, c: Candidate, cap: nat, k: nat) returns (kept: bool, k': nat)
    requires k < |h|
    ensures kept ==> k' < |Offer(h, c, cap)| && Offer(h, c, cap)[k'] == h[k]
    ensures !kept ==> |Offer(h, c, cap)| >= cap && forall q :: 0 <= q < |Offer(h, c, cap)| ==> h[k].area <= Offer(h, c, cap)[q].area
  {
    var r := Offer(h, c, cap);
    if |h| < cap {
      kept, k' := true, k;
      assert r[k] == h[k];
    } else if c.area > h[MinIndex(h)].area {
      var m := MinIndex(h);
      if k != m {
        kept, k' := true, if k < m then k else k - 1;
        assert r[k'] == h[k];
      } else {
        kept, k' := false, 0;
        forall q | 0 <= q < |r|
          ensures h[k].area <= r[q].area
        {
          if q < |r| - 1 {
            var q' := if q < m then q else q + 1;
            assert r[q] == h[q'];
            assert !Before(h[q'], h[m]);
          }
        }
      }
    } else {
      kept, k' := true, k;
    }
  }

  /** A full heap whose every candidate is at least `a` stays so. */
  lemma {:induction false} OfferAbove(h: seq<Candidate>, c: Candidate, cap: nat, a: nat)
    requires |h| >= cap && forall q :: 0 <= q < |h| ==> a <= h[q].area
    ensures |Offer(h, c, cap)| >= cap && forall q :: 0 <= q < |Offer(h, c, cap)| ==> a <= Offer(h, c, cap)[q].area
  {
    var r := Offer(h, c, cap);
    if h != [] && c.area > h[MinIndex(h)].area {
      var m := MinIndex(h);
      forall q | 0 <= q < |r|
        ensures a <= r[q].area
      {
        if q < |r| - 1 {
          var q' := if q < m then q else q + 1;
          assert r[q] == h[q'];
        }
      }
    }
  }

  /** Each offered candidate is either still in the heap or no larger than
      any candidate in it: the heap holds the largest areas offered. */
  lemma {:induction false} Retention(cs: seq<Candidate>, cap: nat, t: nat) returns (kept: bool, k: nat)
    requires t < |cs|
    ensures kept ==> k < |OfferAll(cs, cap)| && OfferAll(cs, cap)[k] == cs[t]
    ensures !kept ==> (|OfferAll(cs, cap)| >= cap &&
      forall q :: 0 <= q < |OfferAll(cs, cap)| ==> cs[t].area <= OfferAll(cs, cap)[q].area)
  {
    var n := |cs| - 1;
    var h := OfferAll(cs[..n], cap);
    assert OfferAll(cs, cap) == Offer(h, cs[n], cap);
    if t == n {
      kept, k := OfferNew(h, cs[n], cap);
    } else {
      assert cs[..n][t] == cs[t];
      var kept', k' := Retention(cs[..n], cap, t);
      if kept' {
        kept, k := OfferOld(h, cs[n], cap, k');
      } else {
        OfferAbove(h, cs[n], cap, cs[t].area);
        kept, k := false, 0;
      }
    }
  }

  /** With room for every candidate nothing is ever dropped. */
  lemma {:induction false} SmallHeapKeepsAll(cs: seq<Candidate>, cap: nat)
    requires |cs| <= cap
    ensures OfferAll(cs, cap) == cs
  {
    if cs != [] {
      SmallHeapKeepsAll(cs[..|cs| - 1], cap);
      HeapSize(cs[..|cs| - 1], cap);
    }
  }

  /** The largest area among the candidates `ok` accepts, or 0. */
  function BestArea(s: seq<Candidate>, ok: Candidate -> bool): nat
  {
    if s == [] then 0
    else
      var b := BestArea(s[..|s| - 1], ok);
      if ok(s[|s| - 1]) && s[|s| - 1].area > b then s[|s| - 1].area else b
  }

  lemma {:induction false} BestAreaBound(s: seq<Candidate>, ok: Candidate -> bool, k: nat)
    requires k < |s| && ok(s[k])
    ensures s[k].area <= BestArea(s, ok)
  {
    if k < |s| - 1 {
      BestAreaBound(s[..|s| - 1], ok, k);
    }
  }

  lemma {:induction false} BestAreaAttained(s: seq<Candidate>, ok: Candidate -> bool) returns (k: nat)
    requires BestArea(s, ok) > 0
    ensures k < |s| && ok(s[k]) && s[k].area == BestArea(s, ok)
  {
    var n := |s| - 1;
    if ok(s[n]) && s[n].area > BestArea(s[..n], ok) {
      k := n;
    } else {
      k := BestAreaAttained(s[..n], ok);
    }
  }

  /** An accepted candidate at least as large as every accepted one gives
      the best area. */
  lemma {:induction false} BestAreaOf(s: seq<Candidate>, ok: Candidate -> bool, k: nat)
    requires k < |s| && ok(s[k])
    requires forall q :: 0 <= q < |s| && ok(s[q]) ==> s[q].area <= s[k].area
    ensures BestArea(s, ok) == s[k].area
  {
    BestAreaBound(s, ok, k);
    if BestArea(s, ok) > 0 {
      var b := BestAreaAttained(s, ok);
    }
  }

  lemma {:induction false} BestAreaNone(s: seq<Candidate>, ok: Candidate -> bool)
    requires forall q :: 0 <= q < |s| ==> !ok(s[q])
    ensures BestArea(s, ok) == 0
  {
    if BestArea(s, ok) > 0 {
      var b := BestAreaAttained(s, ok);
    }
  }

  /** Reordering the candidates does not change the best area. */
  lemma {:induction false} BestAreaPermutation(s: seq<Candidate>, t: seq<Candidate>, ok: Candidate -> bool)
    requires multiset(s) == multiset(t)
    ensures BestArea(s, ok) == BestArea(t, ok)
  {
    if BestArea(s, ok) > 0 {
      var k := BestAreaAttained(s, ok);
      var q := Moved(s, t, k);
      BestAreaBound(t, ok, q);
    }
    if BestArea(t, ok) > 0 {
      var k := BestAreaAttained(t, ok);
      var q := Moved(t, s, k);
      BestAreaBound(s, ok, q);
    }
  }

  /** The bounded heap loses nothing that matters: its best accepted area is
      either 0 (no accepted candidate survived) or the best accepted area of
      everything offered. */
  lemma {:induction false} HeapBest(cs: seq<Candidate>, cap: nat, ok: Candidate -> bool)
    ensures BestArea(OfferAll(cs, cap), ok) == 0 || BestArea(OfferAll(cs, cap), ok) == BestArea(cs, ok)
  {
    var h := OfferAll(cs, cap);
    if BestArea(h, ok) > 0 {
      var k := BestAreaAttained(h, ok);
      var t := HeapOrigin(cs, cap, k);
      BestAreaBound(cs, ok, t);
      var t' := BestAreaAttained(cs, ok);
      var kept, k' := Retention(cs, cap, t');
      if kept {
        BestAreaBound(h, ok, k');
      }
    }
  }

  /** The candidates `(area, i, j')` for `i < j' < j`, in loop order. */
  function Row(p: Points, i: nat, j: nat): (r: seq<Candidate>)
    requires i < j <= NumPoints(p)
    ensures |r| == j - i - 1
    ensures forall t :: 0 <= t < |r| ==> r[t] == Cand(p, i, i + 1 + t)
  {
    if j == i + 1 then [] else Row(p, i, j - 1) + [Cand(p, i, j - 1)]
  }

  /** The candidates of every pair whose first index is below `i`, in loop
      order. */
  function Pairs(p: Points, i: nat): (r: seq<Candidate>)
    requires i <= NumPoints(p)
    ensures forall t :: 0 <= t < |r| ==> r[t].i < r[t].j < NumPoints(p) && r[t] == Cand(p, r[t].i, r[t].j)
  {
    if i == 0 then [] else Pairs(p, i - 1) + Row(p, i - 1, NumPoints(p))
  }

  /** Every pair `i < j` is offered. */
  lemma {:induction false} PairListed(p: Points, k: nat, i: nat, j: nat) returns (t: nat)
    requires i < k <= NumPoints(p) && i < j < NumPoints(p)
    ensures t < |Pairs(p, k)| && Pairs(p, k)[t] == Cand(p, i, j)
  {
    if i == k - 1 {
      t := |Pairs(p, k - 1)| + (j - i - 1);
    } else {
      t := PairListed(p, k - 1, i, j);
    }
  }

  /** Offering candidates one at a time: the heap after `cs + [c]` is the
      heap after `cs` with `c` offered. */
  lemma {:induction false} OfferAllSnoc(cs: seq<Candidate>, c: Candidate, cap: nat)
    ensures OfferAll(cs + [c], cap) == Offer(OfferAll(cs, cap), c, cap)
  {
    assert (cs + [c])[..|cs|] == cs;
  }

  /** One step of the inner loop of `solve_part_two`: push while the heap
      has room, otherwise `peek` at the least candidate and replace it by a
      strictly larger one. */
  method OfferCandidate(heap: seq<Candidate>, c: Candidate, cap: nat) returns (h: seq<Candidate>)
    ensures h == Offer(heap, c, cap)
    ensures |heap| <= cap ==> |h| == Min(cap, |heap| + 1)
  {
    h := heap;
    if |heap| < cap {
      h := heap + [c];
    } else if heap != [] {
      var m := MinIndex(heap);
      if c.area > heap[m].area {
        h := RemoveAt(heap, m) + [c];
      }
    }
  }

  /** Extending the row by `j` appends the candidate `(i, j)`. */
  lemma {:induction false} RowSnoc(pre: seq<Candidate>, p: Points, i: nat, j: nat)
    requires i < j < NumPoints(p)
    ensures pre + Row(p, i, j + 1) == (pre + Row(p, i, j)) + [Cand(p, i, j)]
  {
  }

  /** The inner loop of `solve_part_two`: offer the pairs `(i, j)` for
      every `j > i` to a heap that has seen `pre`. */
  method OfferRow(p: Points, i: nat, heap: seq<Candidate>, cap: nat, ghost pre: seq<Candidate>) returns (h: seq<Candidate>)
    requires i < NumPoints(p) && heap == OfferAll(pre, cap)
    ensures h == OfferAll(pre + Row(p, i, NumPoints(p)), cap)
  {
    var n := NumPoints(p);
    h := heap;
    ghost var offered := pre;
    assert offered == pre + Row(p, i, i + 1);
    for j := i + 1 to n
      invariant offered == pre + Row(p, i, j)
      invariant h == OfferAll(offered, cap)
    {
      var c := Cand(p, i, j);
      RowSnoc(pre, p, i, j);
      OfferAllSnoc(offered, c, cap);
      h := OfferCandidate(h, c, cap);
      offered := offered + [c];
    }
  }

  /** The nested loops of `solve_part_two` offering every pair to the
      bounded min-heap (`BinaryHeap<Reverse<_>>`, here a sequence whose
      least element `peek` and `pop` find). */
  method CollectCandidates(p: Points, cap: nat) returns (heap: seq<Candidate>)
    ensures heap == OfferAll(Pairs(p, NumPoints(p)), cap)
  {
    heap := [];
    for i := 0 to NumPoints(p)
      invariant heap == OfferAll(Pairs(p, i), cap)
    {
      heap := OfferRow(p, i, heap, cap, Pairs(p, i));
    }
  }

  /** Every candidate of `s` is a pair `i < j` of points with its area. */
  ghost predicate Genuine(p: Points, s: seq<Candidate>)
  {
    forall k :: 0 <= k < |s| ==> s[k].i < s[k].j < NumPoints(p) && s[k] == Cand(p, s[k].i, s[k].j)
  }

  /** The heap, and any reordering of it, holds only genuine pairs. */
  lemma {:induction false} HeapGenuine(p: Points, cap: nat, s: seq<Candidate>)
    requires multiset(s) == multiset(OfferAll(Pairs(p, NumPoints(p)), cap))
    ensures Genuine(p, s)
  {
    var all := Pairs(p, NumPoints(p));
    forall k | 0 <= k < |s|
      ensures s[k].i < s[k].j < NumPoints(p) && s[k] == Cand(p, s[k].i, s[k].j)
    {
      var q := Moved(s, OfferAll(all, cap), k);
      var t := HeapOrigin(all, cap, q);
    }
  }

  /** Does the scan of part two accept candidate `c`? Its midpoint, in
      doubled coordinates, must be inside the polygon, and no edge may cross
      the rectangle's interior. */
  predicate Accepts(p: Points, edges: Edges, c: Candidate)
  {
    c.i < NumPoints(p) && c.j < NumPoints(p) &&
    var x1, x2, y1, y2 := p.x[c.i], p.x[c.j], p.y[c.i], p.y[c.j];
    Crossings(x1 + x2, y1 + y2, edges.vertical) % 2 == 1 &&
    !InteriorHit((Min(x1, x2), Max(x1, x2)), (Min(y1, y2), Max(y1, y2)), edges)
  }

  function ByAreaDescending(c: Candidate): int
  {
    -(c.area as int)
  }

  /** In candidates sorted by decreasing area, the first accepted one has the
      best accepted area. */
  lemma {:induction false} FirstAcceptedBest(s: seq<Candidate>, ok: Candidate -> bool, k: nat)
    requires SortedBy(s, ByAreaDescending)
    requires k < |s| && ok(s[k]) && forall q :: 0 <= q < k ==> !ok(s[q])
    ensures BestArea(s, ok) == s[k].area
  {
    forall q | 0 <= q < |s| && ok(s[q])
      ensures s[q].area <= s[k].area
    {
      if q > k {
        assert ByAreaDescending(s[k]) <= ByAreaDescending(s[q]);
      }
    }
    BestAreaOf(s, ok, k);
  }

  /** The verdict of the final loop of `solve_part_two` on a genuine
      candidate as written: accepted or not, or `None` where
      `edges_intersect_interior` panics on its rectangle. */
  function Verdict(p: Points, edges: Edges, c: Candidate): Option<bool>
    requires c.i < NumPoints(p) && c.j < NumPoints(p)
  {
    var x1, x2, y1, y2 := p.x[c.i], p.x[c.j], p.y[c.i], p.y[c.j];
    if Crossings(x1 + x2, y1 + y2, edges.vertical) % 2 != 1 then Some(false)
    else match InteriorHitAsWritten((Min(x1, x2), Max(x1, x2)), (Min(y1, y2), Max(y1, y2)), edges)
      case None => None
      case Some(hit) => Some(!hit)
  }

  /** On sorted edges a verdict that does not panic is the corrected one,
      and a panic needs a candidate of zero width or height whose midpoint
      is inside. */
  lemma VerdictAgrees(p: Points, edges: Edges, c: Candidate)
    requires c.i < NumPoints(p) && c.j < NumPoints(p)
    requires SortedBy(edges.vertical, At) && SortedBy(edges.horizontal, At)
    ensures Verdict(p, edges, c).Some? ==> Verdict(p, edges, c).value == Accepts(p, edges, c)
    ensures Verdict(p, edges, c).None? ==> ZeroSpan(p, edges, c)
  {
    var x1, x2, y1, y2 := p.x[c.i], p.x[c.j], p.y[c.i], p.y[c.j];
    AsWrittenAgrees((Min(x1, x2), Max(x1, x2)), (Min(y1, y2), Max(y1, y2)), edges);
  }

  /** Candidate `c` spans zero width or zero height and its midpoint is
      inside the polygon. */
  predicate ZeroSpan(p: Points, edges: Edges, c: Candidate)
    requires c.i < NumPoints(p) && c.j < NumPoints(p)
  {
    var x1, x2, y1, y2 := p.x[c.i], p.x[c.j], p.y[c.i], p.y[c.j];
    (x1 == x2 || y1 == y2) && Crossings(x1 + x2, y1 + y2, edges.vertical) % 2 == 1
  }

  /** The final loop of `solve_part_two` from candidate `k` on, as written:
      the area of the first accepted candidate, 0 past the last one, or
      `None` when a panic comes first. */
  function ScanFrom(p: Points, edges: Edges, s: seq<Candidate>, k: nat): Option<nat>
    requires Genuine(p, s) && k <= |s|
    decreases |s| - k
  {
    if k == |s| then Some(0)
    else match Verdict(p, edges, s[k])
      case None => None
      case Some(true) => Some(s[k].area)
      case Some(false) => ScanFrom(p, edges, s, k + 1)
  }

  /** A scan of sorted candidates that does not panic returns the best
      accepted area. */
  lemma {:induction false} ScanFromBest(p: Points, edges: Edges, s: seq<Candidate>, k: nat)
    requires Genuine(p, s) && SortedBy(s, ByAreaDescending)
    requires SortedBy(edges.vertical, At) && SortedBy(edges.horizontal, At)
    requires k <= |s| && forall q :: 0 <= q < k ==> !Accepts(p, edges, s[q])
    ensures ScanFrom(p, edges, s, k).Some? ==> ScanFrom(p, edges, s, k).value == BestArea(s, c => Accepts(p, edges, c))
    decreases |s| - k
  {
    if k == |s| {
      BestAreaNone(s, c => Accepts(p, edges, c));
    } else {
      VerdictAgrees(p, edges, s[k]);
      if Verdict(p, edges, s[k]) == Some(true) {
        FirstAcceptedBest(s, c => Accepts(p, edges, c), k);
      } else if Verdict(p, edges, s[k]) == Some(false) {
        ScanFromBest(p, edges, s, k + 1);
      }
    }
  }

  /** A scan that panics reaches a candidate whose interior test panics,
      after candidates the code as written rejects (by `VerdictAgrees`, the
      first is of zero width or height and none of the others is accepted). */
  lemma {:induction false} ScanFromPanics(p: Points, edges: Edges, s: seq<Candidate>, k: nat) returns (t: nat)
    requires Genuine(p, s) && k <= |s| && ScanFrom(p, edges, s, k).None?
    ensures k <= t < |s| && Verdict(p, edges, s[t]).None?
    ensures forall q :: k <= q < t ==> Verdict(p, edges, s[q]) == Some(false)
    decreases |s| - k
  {
    if Verdict(p, edges, s[k]).None? {
      t := k;
    } else {
      var v := Verdict(p, edges, s[k]);
      assert v == Some(false);
      t := ScanFromPanics(p, edges, s, k + 1);
      forall q | k <= q < t
        ensures Verdict(p, edges, s[q]) == Some(false)
      {
        if q == k {
          assert s[q] == s[k];
        }
      }
    }
  }

  /** The final loop of `solve_part_two`: the area of the first accepted
      candidate, 0 when none is, or `None` where the interior test panics
      first. Indices reach the points unchecked in the source, so the
      candidates must be genuine pairs. */
  method ScanCandidates(p: Points, edges: Edges, candidates: seq<Candidate>) returns (answer: Option<nat>)
    requires Genuine(p, candidates)
    ensures answer == ScanFrom(p, edges, candidates, 0)
  {
    for k := 0 to |candidates|
      invariant ScanFrom(p, edges, candidates, k) == ScanFrom(p, edges, candidates, 0)
    {
      var Candidate(area, i, j) := candidates[k];
      var x1, x2 := p.x[i], p.x[j];
      var y1, y2 := p.y[i], p.y[j];
      var inside := IsPointInPolygon(x1 + x2, y1 + y2, edges.vertical);
      if !inside {
        continue;
      }
      var x := (Min(x1, x2), Max(x1, x2));
      var y := (Min(y1, y2), Max(y1, y2));
      var hit := EdgesIntersectInterior(x, y, edges);
      if hit.None? {
        return None;
      }
      if !hit.value {
        return Some(area);
      }
    }
    return Some(0);
  }

  /** The heap drained into a vector and sorted by decreasing area; among
      equal areas the order is that of `SortBy`. */
  function Ranked(p: Points, cap: nat): (r: seq<Candidate>)
    ensures multiset(r) == multiset(OfferAll(Pairs(p, NumPoints(p)), cap))
    ensures SortedBy(r, ByAreaDescending) && Genuine(p, r)
  {
    var r := SortBy(OfferAll(Pairs(p, NumPoints(p)), cap), ByAreaDescending);
    HeapGenuine(p, cap, r);
    r
  }

  /** `solve_part_two` with `MAX_CANDIDATES` as `cap`: gather the largest
      candidates, sort them by decreasing area, and return the area of the
      first one accepted, 0 when none is, or `None` where a panic comes
      first. */
  method SolvePartTwo(p: Points, edges: Edges, cap: nat) returns (answer: Option<nat>)
    ensures answer == ScanFrom(p, edges, Ranked(p, cap), 0)
  {
    var heap := CollectCandidates(p, cap);
    var candidates := SortBy(heap, ByAreaDescending);
    assert candidates == Ranked(p, cap);
    answer := ScanCandidates(p, edges, candidates);
  }

  /** Without a panic, part two's scan returns the best accepted area among
      the kept candidates; a panic needs a candidate of zero width or height
      with its midpoint inside. */
  lemma PartTwoScan(p: Points, edges: Edges, cap: nat)
    requires SortedBy(edges.vertical, At) && SortedBy(edges.horizontal, At)
    ensures ScanFrom(p, edges, Ranked(p, cap), 0).Some? ==>
      ScanFrom(p, edges, Ranked(p, cap), 0).value == BestArea(OfferAll(Pairs(p, NumPoints(p)), cap), c => Accepts(p, edges, c))
    ensures ScanFrom(p, edges, Ranked(p, cap), 0).None? ==>
      exists t :: 0 <= t < |Ranked(p, cap)| && ZeroSpan(p, edges, Ranked(p, cap)[t])
  {
    var s := Ranked(p, cap);
    BestAreaPermutation(OfferAll(Pairs(p, NumPoints(p)), cap), s, c => Accepts(p, edges, c));
    ScanFromBest(p, edges, s, 0);
    if ScanFrom(p, edges, s, 0).None? {
      var t := ScanFromPanics(p, edges, s, 0);
      VerdictAgrees(p, edges, s[t]);
    }
  }

  /** Part two's answer is either 0 or the largest accepted rectangle over
      all pairs; with room for every pair it is always the latter. */
  lemma {:induction false} PartTwoBest(p: Points, edges: Edges, cap: nat)
    ensures var all := Pairs(p, NumPoints(p));
      var ok := c => Accepts(p, edges, c);
      var answer := BestArea(OfferAll(all, cap), ok);
      (answer == 0 || answer == BestArea(all, ok)) &&
      (|all| <= cap ==> answer == BestArea(all, ok))
  {
    var all := Pairs(p, NumPoints(p));
    HeapBest(all, cap, c => Accepts(p, edges, c));
    if |all| <= cap {
      SmallHeapKeepsAll(all, cap);
    }
  }

  /** The best accepted area over all pairs bounds every accepted pair and,
      when positive, is the area of an accepted pair. */
  lemma {:induction false} BestOverPairs(p: Points, edges: Edges, i: nat, j: nat)
    requires i < j < NumPoints(p) && Accepts(p, edges, Cand(p, i, j))
    ensures Area(p, i, j) <= BestArea(Pairs(p, NumPoints(p)), c => Accepts(p, edges, c))
  {
    var t := PairListed(p, NumPoints(p), i, j);
    BestAreaBound(Pairs(p, NumPoints(p)), c => Accepts(p, edges, c), t);
  }

  /** `part_one`: `None` where parsing panics. */
  method PartOne(input: String) returns (r: Option<nat>)
    ensures r.None? <==> ParseInput(input).None?
    ensures r.Some? ==> IsLargestArea(ParseInput(input).value, r.value)
  {
    var points := ParsePoints(input);
    if points.None? {
      return None;
    }
    var answer := SolvePartOne(points.value);
    return Some(answer);
  }

  /** `part_two`: `None` where parsing panics or where the scan panics. */
  method PartTwo(input: String) returns (r: Option<nat>)
    ensures ParseInput(input).None? ==> r.None?
    ensures ParseInput(input).Some? ==> var p := ParseInput(input).value;
      r == ScanFrom(p, Build(p.x, p.y), Ranked(p, MAX_CANDIDATES), 0)
    ensures r.Some? ==> var p := ParseInput(input).value;
      r.value == BestArea(OfferAll(Pairs(p, NumPoints(p)), MAX_CANDIDATES), c => Accepts(p, Build(p.x, p.y), c))
  {
    var points := ParsePoints(input);
    if points.None? {
      return None;
    }
    var p := points.value;
    var edges := BuildEdges(p.x, p.y);
    BuildFacts(p.x, p.y);
    PartTwoScan(p, edges, MAX_CANDIDATES);
    r := SolvePartTwo(p, edges, MAX_CANDIDATES);
  }
}
