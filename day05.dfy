/** Day 5 (src/bin/05.rs): inclusive ID ranges are merged into a list of
    pairwise disjoint ranges; part one counts the IDs that fall in some range,
    part two counts the IDs the ranges cover. */
module Day05 {
  import opened Base
  import opened Text

  /** Rust's `RangeInclusive<u64>`: `start..=end`, empty when `end < start`. */
  datatype Range = Range(start: nat, end: nat)

  predicate Contains(r: Range, n: int) { r.start <= n <= r.end }

  predicate NonEmpty(r: Range) { r.start <= r.end }

  predicate AllNonEmpty(rs: seq<Range>) { forall k :: 0 <= k < |rs| ==> NonEmpty(rs[k]) }

  /** `are_disjoint`: one range ends before the other starts. */
  predicate Disjoint(a: Range, b: Range) { a.end < b.start || b.end < a.start }

  /** For non-empty ranges, `are_disjoint` holds exactly when no integer lies
      in both; in particular two ranges sharing an endpoint overlap. */
  lemma {:induction false} DisjointIff(a: Range, b: Range)
    requires NonEmpty(a) && NonEmpty(b)
    ensures Disjoint(a, b) <==> forall n :: !(Contains(a, n) && Contains(b, n))
  {
    if !Disjoint(a, b) {
      var n := Max(a.start, b.start);
      assert Contains(a, n) && Contains(b, n);
    }
  }

  predicate Pairwise(rs: seq<Range>)
  {
    forall j, k :: 0 <= j < |rs| && 0 <= k < |rs| && j != k ==> Disjoint(rs[j], rs[k])
  }

  /** Some range of `rs` holds `n`. */
  predicate Covered(rs: seq<Range>, n: int)
  {
    exists k :: 0 <= k < |rs| && Contains(rs[k], n)
  }

  // ---------------------------------------------------------------------
  // One step of `create_disjoint_ranges`

  predicate Below(idxs: seq<int>, n: int) { forall t :: 0 <= t < |idxs| ==> 0 <= idxs[t] < n }

  /** Each index is larger than all before it. */
  predicate Increasing(idxs: seq<int>)
    decreases |idxs|
  {
    idxs == [] || (Increasing(idxs[..|idxs| - 1]) && Below(idxs[..|idxs| - 1], idxs[|idxs| - 1]))
  }

  /** `p` is one of the indices. */
  predicate Listed(idxs: seq<int>, p: int) { exists t :: 0 <= t < |idxs| && idxs[t] == p }

  /** Strictly increasing indices, all below `n`. */
  predicate Ascending(idxs: seq<int>, n: nat) { Below(idxs, n) && Increasing(idxs) }

  /** The indices, among the first `m`, of the ranges of `ds` that overlap
      `r`, in increasing order (the `overlapping_indices` the first inner
      loop collects). */
  function OverlapsIn(ds: seq<Range>, r: Range, m: nat): (ov: seq<int>)
    requires m <= |ds|
    ensures Ascending(ov, m)
    ensures forall t :: 0 <= t < |ov| ==> !Disjoint(r, ds[ov[t]])
  {
    if m == 0 then []
    else
      var prev := OverlapsIn(ds, r, m - 1);
      if Disjoint(r, ds[m - 1]) then prev
      else
        assert (prev + [m - 1])[..|prev|] == prev;
        prev + [m - 1]
  }

  function Overlaps(ds: seq<Range>, r: Range): seq<int> { OverlapsIn(ds, r, |ds|) }

  /** An index is collected exactly when its range overlaps `r`. */
  lemma {:induction false} OverlapsExact(ds: seq<Range>, r: Range, m: nat)
    requires m <= |ds|
    ensures forall p :: 0 <= p < m ==> (Listed(OverlapsIn(ds, r, m), p) <==> !Disjoint(r, ds[p]))
  {
    if m > 0 {
      OverlapsExact(ds, r, m - 1);
      var ov := OverlapsIn(ds, r, m - 1);
      var ov' := OverlapsIn(ds, r, m);
      assert !Listed(ov, m - 1);
      forall p | 0 <= p < m
        ensures Listed(ov', p) <==> !Disjoint(r, ds[p])
      {
        if !Disjoint(r, ds[m - 1]) {
          assert ov' == ov + [m - 1];
          ListedSnoc(ov, m - 1, p);
        } else {
          assert ov' == ov;
        }
      }
    }
  }

  /** An index is listed after a push exactly when it was listed before or
      is the one pushed. */
  lemma ListedSnoc(idxs: seq<int>, x: int, p: int)
    ensures Listed(idxs + [x], p) <==> Listed(idxs, p) || p == x
  {
    var ext := idxs + [x];
    if Listed(ext, p) && p != x {
      var t :| 0 <= t < |ext| && ext[t] == p;
      assert idxs[t] == p;
    }
    if Listed(idxs, p) {
      var t :| 0 <= t < |idxs| && idxs[t] == p;
      assert ext[t] == p;
    }
    if p == x {
      assert ext[|idxs|] == p;
    }
  }

  /** `Vec::swap_remove`: the last element takes the place of the removed one. */
  function SwapRemove(ds: seq<Range>, i: nat): (r: seq<Range>)
    requires i < |ds|
    ensures |r| == |ds| - 1
    ensures forall j :: 0 <= j < |r| ==> r[j] == ds[if j == i then |ds| - 1 else j]
  {
    ds[i := ds[|ds| - 1]][..|ds| - 1]
  }

  lemma {:induction false} SwapRemovePairwise(ds: seq<Range>, i: nat)
    requires i < |ds| && Pairwise(ds)
    ensures Pairwise(SwapRemove(ds, i))
  {
    var r := SwapRemove(ds, i);
    forall j, k | 0 <= j < |r| && 0 <= k < |r| && j != k
      ensures Disjoint(r[j], r[k])
    {
      var j' := if j == i then |ds| - 1 else j;
      var k' := if k == i then |ds| - 1 else k;
      assert r[j] == ds[j'] && r[k] == ds[k'];
    }
  }

  /** The third inner loop: `swap_remove` at each index of `idxs`, the
      largest first. */
  function RemoveDescending(ds: seq<Range>, idxs: seq<int>): (r: seq<Range>)
    requires Ascending(idxs, |ds|)
    ensures |r| == |ds| - |idxs|
    decreases |idxs|
  {
    if idxs == [] then ds
    else RemoveDescending(SwapRemove(ds, idxs[|idxs| - 1]), idxs[..|idxs| - 1])
  }

  /** Every range left after the removals stood, in `ds`, at an index that
      was not removed... */
  lemma {:induction false} RemovedOrigin(ds: seq<Range>, idxs: seq<int>, j: nat) returns (p: nat)
    requires Ascending(idxs, |ds|) && j < |RemoveDescending(ds, idxs)|
    ensures p < |ds| && !Listed(idxs, p) && ds[p] == RemoveDescending(ds, idxs)[j]
    decreases |idxs|
  {
    if idxs == [] {
      p := j;
    } else {
      var i := idxs[|idxs| - 1];
      var front := idxs[..|idxs| - 1];
      var p' := RemovedOrigin(SwapRemove(ds, i), front, j);
      p := if p' == i then |ds| - 1 else p';
      assert idxs == front + [i];
    }
  }

  /** ...and every range at an index that was not removed is still there:
      a `swap_remove` only moves in a range from beyond the current index,
      which is never one still to be removed. */
  lemma {:induction false} Survivor(ds: seq<Range>, idxs: seq<int>, p: nat) returns (j: nat)
    requires Ascending(idxs, |ds|) && p < |ds| && !Listed(idxs, p)
    ensures j < |RemoveDescending(ds, idxs)| && RemoveDescending(ds, idxs)[j] == ds[p]
    decreases |idxs|
  {
    if idxs == [] {
      j := p;
    } else {
      var i := idxs[|idxs| - 1];
      var front := idxs[..|idxs| - 1];
      assert idxs == front + [i];
      var p' := if p == |ds| - 1 then i else p;
      j := Survivor(SwapRemove(ds, i), front, p');
    }
  }

  lemma {:induction false} RemoveDescendingPairwise(ds: seq<Range>, idxs: seq<int>)
    requires Ascending(idxs, |ds|) && Pairwise(ds)
    ensures Pairwise(RemoveDescending(ds, idxs))
    decreases |idxs|
  {
    if idxs != [] {
      var i := idxs[|idxs| - 1];
      SwapRemovePairwise(ds, i);
      RemoveDescendingPairwise(SwapRemove(ds, i), idxs[..|idxs| - 1]);
    }
  }

  /** The second inner loop: `r` widened, index by index, to the smallest
      range holding it and each range at `idxs`. */
  function Hull(r: Range, ds: seq<Range>, idxs: seq<int>): (h: Range)
    requires Below(idxs, |ds|)
    ensures h.start <= r.start && r.end <= h.end
  {
    if idxs == [] then r
    else
      var h := Hull(r, ds, idxs[..|idxs| - 1]);
      var other := ds[idxs[|idxs| - 1]];
      Range(Min(h.start, other.start), Max(h.end, other.end))
  }

  /** Some range of `ds` at an index in `idxs` holds `n`. */
  predicate CoveredAt(ds: seq<Range>, idxs: seq<int>, n: int)
    requires Below(idxs, |ds|)
  {
    exists t :: 0 <= t < |idxs| && Contains(ds[idxs[t]], n)
  }

  /** The hull of `r` with ranges that each overlap `r` covers exactly what
      they and `r` cover. */
  lemma {:induction false} HullCovers(r: Range, ds: seq<Range>, idxs: seq<int>, n: int)
    requires NonEmpty(r) && AllNonEmpty(ds) && Below(idxs, |ds|)
    requires forall t :: 0 <= t < |idxs| ==> !Disjoint(r, ds[idxs[t]])
    ensures NonEmpty(Hull(r, ds, idxs))
    ensures Contains(Hull(r, ds, idxs), n) <==> Contains(r, n) || CoveredAt(ds, idxs, n)
    decreases |idxs|
  {
    if idxs != [] {
      var front := idxs[..|idxs| - 1];
      var last := |idxs| - 1;
      var other := ds[idxs[last]];
      HullCovers(r, ds, front, n);
      if CoveredAt(ds, idxs, n) && !CoveredAt(ds, front, n) {
        var t :| 0 <= t < |idxs| && Contains(ds[idxs[t]], n);
        assert t == last;
      }
      if CoveredAt(ds, front, n) {
        var t :| 0 <= t < |front| && Contains(ds[front[t]], n);
        assert idxs[t] == front[t];
      }
    }
  }

  /** One range of the input added to the disjoint list (the body of the
      outer loop): if nothing overlaps it is pushed, otherwise the overlapping
      ranges are removed and their hull with it is pushed. */
  function Absorb(ds: seq<Range>, r: Range): (next: seq<Range>)
    ensures |next| <= |ds| + 1
  {
    var ov := Overlaps(ds, r);
    if ov == [] then ds + [r] else RemoveDescending(ds, ov) + [Hull(r, ds, ov)]
  }

  lemma {:induction false} CoveredPush(ds: seq<Range>, r: Range, n: int)
    ensures Covered(ds + [r], n) <==> Covered(ds, n) || Contains(r, n)
  {
    var next := ds + [r];
    if Covered(next, n) && !Contains(r, n) {
      var k :| 0 <= k < |next| && Contains(next[k], n);
      assert Contains(ds[k], n);
    }
    if Covered(ds, n) {
      var k :| 0 <= k < |ds| && Contains(ds[k], n);
      assert next[k] == ds[k];
    }
    if Contains(r, n) {
      assert next[|ds|] == r;
    }
  }

  lemma {:induction false} PairwisePush(ds: seq<Range>, r: Range)
    requires Pairwise(ds)
    requires forall j :: 0 <= j < |ds| ==> Disjoint(ds[j], r) && Disjoint(r, ds[j])
    ensures Pairwise(ds + [r])
  {
    var next := ds + [r];
    forall j, k | 0 <= j < |next| && 0 <= k < |next| && j != k
      ensures Disjoint(next[j], next[k])
    {
      if j < |ds| && k < |ds| {
        assert next[j] == ds[j] && next[k] == ds[k];
      }
    }
  }

  /** A kept range is disjoint from `r` and from every overlapping range, so
      from their hull. */
  lemma {:induction false} KeptMissHull(ds: seq<Range>, r: Range, j: nat)
    requires Overlaps(ds, r) != [] && NonEmpty(r) && AllNonEmpty(ds) && Pairwise(ds)
    requires j < |RemoveDescending(ds, Overlaps(ds, r))|
    ensures var x := RemoveDescending(ds, Overlaps(ds, r))[j];
      var h := Hull(r, ds, Overlaps(ds, r));
      NonEmpty(h) && NonEmpty(x) && Disjoint(x, h) && Disjoint(h, x)
  {
    var ov := Overlaps(ds, r);
    var h := Hull(r, ds, ov);
    OverlapsExact(ds, r, |ds|);
    HullCovers(r, ds, ov, 0);
    var p := RemovedOrigin(ds, ov, j);
    var x := RemoveDescending(ds, ov)[j];
    DisjointIff(x, h);
    DisjointIff(x, r);
    forall n ensures !(Contains(x, n) && Contains(h, n)) {
      HullCovers(r, ds, ov, n);
    }
  }

  /** Absorbing `r` adds exactly its points to what the list covers. */
  lemma {:induction false} AbsorbCovers(ds: seq<Range>, r: Range, n: int)
    requires NonEmpty(r) && AllNonEmpty(ds)
    ensures Covered(Absorb(ds, r), n) <==> Covered(ds, n) || Contains(r, n)
  {
    var ov := Overlaps(ds, r);
    if ov == [] {
      CoveredPush(ds, r, n);
    } else {
      OverlapsExact(ds, r, |ds|);
      var rest := RemoveDescending(ds, ov);
      var h := Hull(r, ds, ov);
      CoveredPush(rest, h, n);
      HullCovers(r, ds, ov, n);
      if Covered(rest, n) {
        var j :| 0 <= j < |rest| && Contains(rest[j], n);
        var p := RemovedOrigin(ds, ov, j);
      }
      if CoveredAt(ds, ov, n) {
        var t :| 0 <= t < |ov| && Contains(ds[ov[t]], n);
      }
      if Covered(ds, n) && !CoveredAt(ds, ov, n) {
        var k :| 0 <= k < |ds| && Contains(ds[k], n);
        if !Listed(ov, k) {
          var j := Survivor(ds, ov, k);
        }
      }
    }
  }

  /** Absorbing a non-empty range into pairwise disjoint non-empty ranges keeps
      them pairwise disjoint and non-empty, and adds exactly the points of `r`
      to what they cover. */
  lemma {:induction false} AbsorbInvariant(ds: seq<Range>, r: Range)
    requires NonEmpty(r) && AllNonEmpty(ds) && Pairwise(ds)
    ensures AllNonEmpty(Absorb(ds, r)) && Pairwise(Absorb(ds, r))
    ensures forall n :: Covered(Absorb(ds, r), n) <==> Covered(ds, n) || Contains(r, n)
  {
    var ov := Overlaps(ds, r);
    if ov == [] {
      OverlapsExact(ds, r, |ds|);
      PairwisePush(ds, r);
    } else {
      var rest := RemoveDescending(ds, ov);
      var h := Hull(r, ds, ov);
      HullCovers(r, ds, ov, 0);
      forall j | 0 <= j < |rest| ensures NonEmpty(rest[j]) && Disjoint(rest[j], h) && Disjoint(h, rest[j]) {
        KeptMissHull(ds, r, j);
      }
      RemoveDescendingPairwise(ds, ov);
      PairwisePush(rest, h);
      assert Absorb(ds, r) == rest + [h];
    }
    forall n ensures Covered(Absorb(ds, r), n) <==> Covered(ds, n) || Contains(r, n) {
      AbsorbCovers(ds, r, n);
    }
  }

  /** `create_disjoint_ranges`: every range of the input absorbed in turn. */
  function DisjointRanges(ranges: seq<Range>): (ds: seq<Range>)
    ensures |ds| <= |ranges|
  {
    if ranges == [] then [] else Absorb(DisjointRanges(ranges[..|ranges| - 1]), ranges[|ranges| - 1])
  }

  /** For non-empty input ranges the result is pairwise disjoint, non-empty,
      and covers exactly the integers the input covers. */
  lemma {:induction false} DisjointRangesCorrect(ranges: seq<Range>)
    requires AllNonEmpty(ranges)
    ensures var ds := DisjointRanges(ranges);
      AllNonEmpty(ds) && Pairwise(ds) && forall n :: Covered(ds, n) <==> Covered(ranges, n)
  {
    if ranges != [] {
      var front := ranges[..|ranges| - 1];
      var last := ranges[|ranges| - 1];
      DisjointRangesCorrect(front);
      AbsorbInvariant(DisjointRanges(front), last);
      assert ranges == front + [last];
      forall n ensures Covered(ranges, n) <==> Covered(front, n) || Contains(last, n) {
        CoveredPush(front, last, n);
      }
    }
  }

  /** Empty input ranges can break disjointness: after `5-9` and `6-4` (which
      `are_disjoint` reports disjoint from `5-9`) the range `1-5` merges with
      `5-9` only, and the hull `1-9` overlaps `6-4`. */
  lemma {:induction false} EmptyRangeBreaksDisjointness(a: Range, b: Range, c: Range)
    requires a == Range(5, 9) && b == Range(6, 4) && c == Range(1, 5)
    ensures DisjointRanges([a, b, c]) == [b, Range(1, 9)]
    ensures !Pairwise(DisjointRanges([a, b, c]))
  {
    EmptyRangeKept(a, b);
    EmptyRangeAbsorb(a, b, c);
    assert [a, b, c][..2] == [a, b];
    var result := DisjointRanges([a, b, c]);
    assert result == Absorb([a, b], c);
    assert result[0] == b && result[1] == Range(1, 9);
  }

  /** `6-4` is kept next to `5-9`: it overlaps nothing. */
  lemma {:induction false} EmptyRangeKept(a: Range, b: Range)
    requires a == Range(5, 9) && b == Range(6, 4)
    ensures DisjointRanges([a, b]) == [a, b]
  {
    assert DisjointRanges([a]) == [a] by {
      assert [a][..0] == [];
    }
    assert [a, b][..1] == [a];
    assert OverlapsIn([a], b, 1) == [];
  }

  /** `1-5` overlaps `5-9` only and takes its place as the hull `1-9`. */
  lemma {:induction false} EmptyRangeAbsorb(a: Range, b: Range, c: Range)
    requires a == Range(5, 9) && b == Range(6, 4) && c == Range(1, 5)
    ensures Absorb([a, b], c) == [b, Range(1, 9)]
  {
    assert Overlaps([a, b], c) == [0] by {
      assert OverlapsIn([a, b], c, 1) == [0];
    }
    assert Hull(c, [a, b], [0]) == Range(1, 9) by {
      assert [0][..0] == [];
    }
    assert RemoveDescending([a, b], [0]) == [b] by {
      assert [0][..0] == [];
      assert SwapRemove([a, b], 0) == [b];
    }
  }

  /** One `swap_remove` of the descending loop. */
  lemma {:induction false} RemoveDescendingStep(ds: seq<Range>, idxs: seq<int>, t: nat)
    requires t < |idxs| && Ascending(idxs[..t + 1], |ds|)
    ensures idxs[t] < |ds| && Ascending(idxs[..t], |ds| - 1)
    ensures RemoveDescending(ds, idxs[..t + 1]) == RemoveDescending(SwapRemove(ds, idxs[t]), idxs[..t])
  {
    assert idxs[..t + 1][..t] == idxs[..t];
  }

  lemma {:induction false} DisjointRangesStep(ranges: seq<Range>, k: nat)
    requires k < |ranges|
    ensures DisjointRanges(ranges[..k + 1]) == Absorb(DisjointRanges(ranges[..k]), ranges[k])
  {
    assert ranges[..k + 1][..k] == ranges[..k];
  }

  /** The first inner loop of `create_disjoint_ranges`: indices of the ranges that meet `range`. */
  method CollectOverlapping(disjoint: seq<Range>, range: Range) returns (overlapping: seq<int>)
    ensures overlapping == Overlaps(disjoint, range)
    ensures Ascending(overlapping, |disjoint|)
    ensures forall p :: 0 <= p < |disjoint| ==> (Listed(overlapping, p) <==> !Disjoint(range, disjoint[p]))
  {
    overlapping := [];
    for i := 0 to |disjoint|
      invariant overlapping == OverlapsIn(disjoint, range, i)
    {
      if !Disjoint(range, disjoint[i]) {
        overlapping := overlapping + [i];
      }
    }
    OverlapsExact(disjoint, range, |disjoint|);
  }

  /** The second inner loop: widen `range` to the hull of itself and every overlapping range. */
  method WidenHull(disjoint: seq<Range>, range: Range, overlapping: seq<int>) returns (hull: Range)
    requires Below(overlapping, |disjoint|)
    ensures hull == Hull(range, disjoint, overlapping)
    ensures hull.start <= range.start && range.end <= hull.end
  {
    hull := range;
    for t := 0 to |overlapping|
      invariant hull == Hull(range, disjoint, overlapping[..t])
    {
      assert overlapping[..t + 1][..t] == overlapping[..t];
      var other := disjoint[overlapping[t]];
      hull := Range(Min(hull.start, other.start), Max(hull.end, other.end));
    }
    assert overlapping[..|overlapping|] == overlapping;
  }

  /** The third inner loop: `swap_remove` the overlapping indices, largest first. */
  method RemoveOverlapping(disjoint: seq<Range>, overlapping: seq<int>) returns (rest: seq<Range>)
    requires Ascending(overlapping, |disjoint|)
    ensures rest == RemoveDescending(disjoint, overlapping)
    ensures |rest| == |disjoint| - |overlapping|
  {
    rest := disjoint;
    var t := |overlapping|;
    assert overlapping[..t] == overlapping;
    while t > 0
      invariant 0 <= t <= |overlapping|
      invariant Ascending(overlapping[..t], |rest|)
      invariant RemoveDescending(rest, overlapping[..t]) == RemoveDescending(disjoint, overlapping)
    {
      t := t - 1;
      RemoveDescendingStep(rest, overlapping, t);
      rest := SwapRemove(rest, overlapping[t]);
    }
    assert overlapping[..0] == [];
  }

  /** The body of `create_disjoint_ranges`, with `Vec`s as sequences. */
  method CreateDisjointRanges(ranges: seq<Range>) returns (disjoint: seq<Range>)
    ensures disjoint == DisjointRanges(ranges)
    ensures AllNonEmpty(ranges) ==>
      AllNonEmpty(disjoint) && Pairwise(disjoint) && forall n :: Covered(disjoint, n) <==> Covered(ranges, n)
  {
    disjoint := [];
    for k := 0 to |ranges|
      invariant disjoint == DisjointRanges(ranges[..k])
    {
      DisjointRangesStep(ranges, k);
      var overlapping := CollectOverlapping(disjoint, ranges[k]);
      if overlapping == [] {
        disjoint := disjoint + [ranges[k]];
      } else {
        var range := WidenHull(disjoint, ranges[k], overlapping);
        disjoint := RemoveOverlapping(disjoint, overlapping);
        disjoint := disjoint + [range];
      }
    }
    assert ranges[..|ranges|] == ranges;
    if AllNonEmpty(ranges) {
      DisjointRangesCorrect(ranges);
    }
  }

  /* ---- Input ---- */

  /** One line `a-b` of the first section: split at the first `-` and both
      halves parsed as `u64`, untrimmed; otherwise an `unwrap` panics. */
  function ParseRange(line: String): (r: Option<Range>)
    ensures r.Some? ==> '-' in line && r.value.start <= U64_MAX && r.value.end <= U64_MAX
  {
    match SplitOnce(line, '-')
    case None => None
    case Some((a, b)) =>
      match (ParseUnsigned(a, U64_MAX), ParseUnsigned(b, U64_MAX))
      case (Some(x), Some(y)) => Some(Range(x, y))
      case _ => None
  }

  function ShowRange(r: Range): String
  {
    ToDecimal(r.start) + ['-'] + ToDecimal(r.end)
  }

  /** A range written `a-b` parses back to itself. */
  lemma ParseRangeRoundTrip(r: Range)
    requires r.start <= U64_MAX && r.end <= U64_MAX
    ensures ParseRange(ShowRange(r)) == Some(r)
  {
    var a := ToDecimal(r.start);
    assert '-' !in a by {
      assert forall k :: 0 <= k < |a| ==> IsDigit(a[k]);
    }
    SplitOnceAfter(a, '-', ToDecimal(r.end));
    ParseUnsignedRoundTrip(r.start, U64_MAX);
    ParseUnsignedRoundTrip(r.end, U64_MAX);
  }

  /** How many lines `take_while` hands to the range parser: exactly those
      before the first empty line. */
  function RangeCount(lines: seq<String>): (n: nat)
    ensures n <= |lines|
    ensures forall k :: 0 <= k < n ==> lines[k] != []
    ensures n < |lines| ==> lines[n] == []
  {
    if lines == [] || lines[0] == [] then 0 else 1 + RangeCount(lines[1..])
  }

  /** The lines left for `iter_ids`: `take_while` has also consumed the empty
      line it stopped at. */
  function IdLines(lines: seq<String>): seq<String>
  {
    var n := RangeCount(lines);
    if n < |lines| then lines[n + 1..] else []
  }

  function ParseId(line: String): Option<nat>
  {
    ParseUnsigned(line, U64_MAX)
  }

  /** The ranges section, `None` when a range line panics. */
  function ParseRanges(input: String): Option<seq<Range>>
  {
    var lines := Lines(input);
    MapAll(ParseRange, lines[..RangeCount(lines)])
  }

  /** Both sections, as part one consumes them; `None` when a line panics. */
  function ParseInventory(input: String): Option<(seq<Range>, seq<nat>)>
  {
    match (ParseRanges(input), MapAll(ParseId, IdLines(Lines(input))))
    case (Some(rs), Some(ids)) => Some((rs, ids))
    case _ => None
  }

  function ShowRanges(rs: seq<Range>): (r: seq<String>)
    ensures |r| == |rs| && forall k :: 0 <= k < |rs| ==> r[k] == ShowRange(rs[k])
  {
    if rs == [] then [] else [ShowRange(rs[0])] + ShowRanges(rs[1..])
  }

  function ShowIds(ids: seq<nat>): (r: seq<String>)
    ensures |r| == |ids| && forall k :: 0 <= k < |ids| ==> r[k] == ToDecimal(ids[k])
  {
    if ids == [] then [] else [ToDecimal(ids[0])] + ShowIds(ids[1..])
  }

  lemma ShownRangesPlain(rs: seq<Range>)
    ensures forall k :: 0 <= k < |rs| ==> ShowRanges(rs)[k] != [] && '\n' !in ShowRanges(rs)[k]
  {
    forall k | 0 <= k < |rs| ensures '\n' !in ShowRanges(rs)[k] {
      var a, b := ToDecimal(rs[k].start), ToDecimal(rs[k].end);
      assert forall t :: 0 <= t < |a| ==> IsDigit(a[t]);
      assert forall t :: 0 <= t < |b| ==> IsDigit(b[t]);
    }
  }

  lemma ShownIdsPlain(ids: seq<nat>)
    ensures forall k :: 0 <= k < |ids| ==> '\n' !in ShowIds(ids)[k]
  {
    forall k | 0 <= k < |ids| ensures '\n' !in ShowIds(ids)[k] {
      var a := ToDecimal(ids[k]);
      assert forall t :: 0 <= t < |a| ==> IsDigit(a[t]);
    }
  }

  lemma ParseShownRanges(rs: seq<Range>)
    requires forall k :: 0 <= k < |rs| ==> rs[k].start <= U64_MAX && rs[k].end <= U64_MAX
    ensures MapAll(ParseRange, ShowRanges(rs)) == Some(rs)
  {
    forall k | 0 <= k < |rs| ensures ParseRange(ShowRanges(rs)[k]) == Some(rs[k]) {
      ParseRangeRoundTrip(rs[k]);
    }
    MapAllSome(ParseRange, ShowRanges(rs), rs);
  }

  lemma ParseShownIds(ids: seq<nat>)
    requires forall k :: 0 <= k < |ids| ==> ids[k] <= U64_MAX
    ensures MapAll(ParseId, ShowIds(ids)) == Some(ids)
  {
    forall k | 0 <= k < |ids| ensures ParseId(ShowIds(ids)[k]) == Some(ids[k]) {
      ParseUnsignedRoundTrip(ids[k], U64_MAX);
    }
    MapAllSome(ParseId, ShowIds(ids), ids);
  }

  /** `take_while` stops at the empty line that follows the non-empty ones. */
  lemma {:induction false} RangeCountOf(head: seq<String>, tail: seq<String>)
    requires forall k :: 0 <= k < |head| ==> head[k] != []
    ensures RangeCount(head + [[]] + tail) == |head|
  {
    if head != [] {
      RangeCountOf(head[1..], tail);
      assert (head + [[]] + tail)[1..] == head[1..] + [[]] + tail;
    }
  }

  /** The two sections written one item per line, separated by an empty line,
      parse back to the same ranges and ids. */
  lemma ParseInventoryRoundTrip(rs: seq<Range>, ids: seq<nat>)
    requires forall k :: 0 <= k < |rs| ==> rs[k].start <= U64_MAX && rs[k].end <= U64_MAX
    requires forall k :: 0 <= k < |ids| ==> ids[k] <= U64_MAX
    ensures ParseInventory(Unlines(ShowRanges(rs) + [[]] + ShowIds(ids))) == Some((rs, ids))
  {
    var ls := ShowRanges(rs) + [[]] + ShowIds(ids);
    ShownLinesPlain(rs, ids);
    LinesUnlines(ls);
    ParseShownSections(rs, ids);
  }

  /** No shown line holds a line end. */
  lemma ShownLinesPlain(rs: seq<Range>, ids: seq<nat>)
    ensures var ls := ShowRanges(rs) + [[]] + ShowIds(ids);
      forall k :: 0 <= k < |ls| ==> '\n' !in ls[k]
  {
    var head, tail := ShowRanges(rs), ShowIds(ids);
    var ls := head + [[]] + tail;
    ShownRangesPlain(rs);
    ShownIdsPlain(ids);
    forall k | 0 <= k < |ls| ensures '\n' !in ls[k] {
      if k > |head| {
        assert ls[k] == tail[k - |head| - 1];
      }
    }
  }

  /** The shown lines split at the empty line into the two sections, which
      parse back to the ranges and the ids. */
  lemma ParseShownSections(rs: seq<Range>, ids: seq<nat>)
    requires forall k :: 0 <= k < |rs| ==> rs[k].start <= U64_MAX && rs[k].end <= U64_MAX
    requires forall k :: 0 <= k < |ids| ==> ids[k] <= U64_MAX
    ensures var ls := ShowRanges(rs) + [[]] + ShowIds(ids);
      MapAll(ParseRange, ls[..RangeCount(ls)]) == Some(rs) && MapAll(ParseId, IdLines(ls)) == Some(ids)
  {
    var head, tail := ShowRanges(rs), ShowIds(ids);
    var ls := head + [[]] + tail;
    ShownRangesPlain(rs);
    RangeCountOf(head, tail);
    assert ls[..|head|] == head;
    assert ls[|head| + 1..] == tail;
    ParseShownRanges(rs);
    ParseShownIds(ids);
  }

  /* ---- Part one ---- */

  /** `ids.filter(|n| ranges.iter().any(|r| r.contains(n))).count()`. */
  function CountCovered(rs: seq<Range>, ids: seq<nat>): (c: nat)
    ensures c <= |ids|
  {
    if ids == [] then 0
    else CountCovered(rs, ids[..|ids| - 1]) + (if Covered(rs, ids[|ids| - 1]) then 1 else 0)
  }

  /** The positions of the ids that lie in some range. */
  function CoveredPositions(rs: seq<Range>, ids: seq<nat>): set<nat>
  {
    set k: nat | k < |ids| && Covered(rs, ids[k])
  }

  /** The count is taken with multiplicity: one per position, not per distinct id. */
  lemma {:induction false} CountCoveredPositions(rs: seq<Range>, ids: seq<nat>)
    ensures CountCovered(rs, ids) == |CoveredPositions(rs, ids)|
  {
    if ids != [] {
      var m := |ids| - 1;
      CountCoveredPositions(rs, ids[..m]);
      CoveredPositionsSnoc(rs, ids);
    }
  }

  /** The last id adds its position exactly when it is covered. */
  lemma CoveredPositionsSnoc(rs: seq<Range>, ids: seq<nat>)
    requires ids != []
    ensures var m := |ids| - 1;
      m !in CoveredPositions(rs, ids[..m]) &&
      CoveredPositions(rs, ids) == CoveredPositions(rs, ids[..m]) + (if Covered(rs, ids[m]) then {m} else {})
  {
    var m := |ids| - 1;
    var front := CoveredPositions(rs, ids[..m]);
    forall k: nat ensures k in CoveredPositions(rs, ids) <==> k in front || (k == m && Covered(rs, ids[m])) {
      if k < m {
        assert ids[..m][k] == ids[k];
      }
    }
  }

  /** Two lists of ranges covering the same integers accept the same ids. */
  lemma {:induction false} CountCoveredSameCover(rs: seq<Range>, qs: seq<Range>, ids: seq<nat>)
    requires forall n :: Covered(rs, n) <==> Covered(qs, n)
    ensures CountCovered(rs, ids) == CountCovered(qs, ids)
  {
    if ids != [] {
      CountCoveredSameCover(rs, qs, ids[..|ids| - 1]);
    }
  }

  /** `part_one`: merge the ranges, then count the ids inside some merged range. */
  method PartOne(input: String) returns (answer: Option<nat>)
    ensures match ParseInventory(input)
      case None => answer == None
      case Some((rs, ids)) =>
        answer == Some(CountCovered(DisjointRanges(rs), ids)) &&
        (AllNonEmpty(rs) ==> answer == Some(|CoveredPositions(rs, ids)|))
  {
    var inventory := ParseInventory(input);
    if inventory.None? {
      return None;
    }
    var (ranges, ids) := inventory.value;
    var disjoint := CreateDisjointRanges(ranges);
    answer := Some(CountCovered(disjoint, ids));
    if AllNonEmpty(ranges) {
      CountCoveredSameCover(disjoint, ranges, ids);
      CountCoveredPositions(ranges, ids);
    }
  }

  /* ---- Part two ---- */

  /** The integers a range contains. */
  function Points(r: Range): set<int>
  {
    set n: int | r.start <= n <= r.end && Contains(r, n)
  }

  lemma {:induction false} PointsCount(r: Range)
    requires NonEmpty(r)
    decreases r.end - r.start
    ensures |Points(r)| == r.end - r.start + 1
  {
    if r.start == r.end {
      assert Points(r) == {r.start};
    } else {
      var shorter := Range(r.start, r.end - 1);
      PointsCount(shorter);
      assert Points(r) == Points(shorter) + {r.end};
    }
  }

  /** The integers some range of `rs` contains. */
  function CoveredSet(rs: seq<Range>): set<int>
  {
    if rs == [] then {} else CoveredSet(rs[..|rs| - 1]) + Points(rs[|rs| - 1])
  }

  lemma {:induction false} CoveredSetMembers(rs: seq<Range>, n: int)
    ensures n in CoveredSet(rs) <==> Covered(rs, n)
  {
    if rs != [] {
      var m := |rs| - 1;
      CoveredSetMembers(rs[..m], n);
      if Covered(rs, n) {
        var k :| 0 <= k < |rs| && Contains(rs[k], n);
        if k < m {
          assert Contains(rs[..m][k], n);
        }
      }
      if Covered(rs[..m], n) {
        var k :| 0 <= k < m && Contains(rs[..m][k], n);
        assert Contains(rs[k], n);
      }
    }
  }

  /** `r.end() - r.start() + 1` on `u64`: the subtraction panics when `end < start`. */
  function Width(r: Range): (w: Option<nat>)
    ensures w.Some? <==> NonEmpty(r)
  {
    if r.end < r.start then None else Some(r.end - r.start + 1)
  }

  /** The `sum` of the widths, `None` when one of them panics. */
  function TotalWidth(rs: seq<Range>): (t: Option<nat>)
    ensures t.Some? <==> AllNonEmpty(rs)
  {
    if rs == [] then Some(0)
    else
      match (TotalWidth(rs[..|rs| - 1]), Width(rs[|rs| - 1]))
      case (Some(a), Some(b)) => Some(a + b)
      case _ => None
  }

  /** Summing the widths counts each covered integer once, because the ranges
      are non-empty and pairwise disjoint. */
  lemma {:induction false} TotalWidthCounts(rs: seq<Range>)
    requires AllNonEmpty(rs) && Pairwise(rs)
    ensures TotalWidth(rs) == Some(|CoveredSet(rs)|)
  {
    if rs != [] {
      var m := |rs| - 1;
      var front, last := rs[..m], rs[m];
      PairwiseFront(rs);
      TotalWidthCounts(front);
      PointsCount(last);
      FrontMissesLast(rs);
      assert CoveredSet(rs) == CoveredSet(front) + Points(last);
    }
  }

  /** The ranges before the last are pairwise disjoint too. */
  lemma PairwiseFront(rs: seq<Range>)
    requires rs != [] && Pairwise(rs)
    ensures Pairwise(rs[..|rs| - 1])
  {
    var m := |rs| - 1;
    forall j, k | 0 <= j < m && 0 <= k < m && j != k ensures Disjoint(rs[..m][j], rs[..m][k]) {
      assert Disjoint(rs[j], rs[k]);
    }
  }

  /** No integer of the last range is covered by the ranges before it. */
  lemma FrontMissesLast(rs: seq<Range>)
    requires rs != [] && Pairwise(rs)
    ensures CoveredSet(rs[..|rs| - 1]) * Points(rs[|rs| - 1]) == {}
  {
    var m := |rs| - 1;
    var front := rs[..m];
    forall n | n in CoveredSet(front) ensures n !in Points(rs[m]) {
      CoveredSetMembers(front, n);
      var k :| 0 <= k < m && Contains(front[k], n);
      assert Disjoint(rs[k], rs[m]);
    }
  }

  /** `part_two`: merge the ranges, then add up the widths of the merged ones. */
  method PartTwo(input: String) returns (answer: Option<nat>)
    ensures match ParseRanges(input)
      case None => answer == None
      case Some(rs) =>
        answer == TotalWidth(DisjointRanges(rs)) &&
        (AllNonEmpty(rs) ==> answer == Some(|CoveredSet(rs)|))
  {
    var ranges := ParseRanges(input);
    if ranges.None? {
      return None;
    }
    var disjoint := CreateDisjointRanges(ranges.value);
    answer := TotalWidth(disjoint);
    if AllNonEmpty(ranges.value) {
      TotalWidthCounts(disjoint);
      forall n ensures n in CoveredSet(disjoint) <==> n in CoveredSet(ranges.value) {
        CoveredSetMembers(disjoint, n);
        CoveredSetMembers(ranges.value, n);
      }
      assert CoveredSet(disjoint) == CoveredSet(ranges.value);
    }
  }
}
