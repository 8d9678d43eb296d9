/** Day 12: presents under trees. The input lists shapes (a header `N:` and
    rows of `#`) and regions (`WxH: c0 c1 ...`, how many of each shape go in
    a `W` by `H` region). A region is taken to fit when its area is at least
    the total area of its shapes. All arithmetic is on `u32`, where an
    overflow panics. */
module Day12 {
  import opened Base
  import opened Text

  /** A region: its size and how many presents of each shape it must hold. */
  datatype Region = Region(width: nat, height: nat, counts: seq<nat>)

  // ---------------------------------------------------------------------
  // can_fit

  /** `count * area` summed over the first `n` pairs of the zip. */
  function ShapeArea(counts: seq<nat>, shapes: seq<nat>, n: nat): nat
    requires n <= |counts| && n <= |shapes|
  {
    if n == 0 then 0 else ShapeArea(counts, shapes, n - 1) + counts[n - 1] * shapes[n - 1]
  }

  /** The same sum as the iterator computes it on `u32`: `None` at the first
      product or partial sum beyond `u32::MAX`. */
  function CheckedArea(counts: seq<nat>, shapes: seq<nat>, n: nat): Option<nat>
    requires n <= |counts| && n <= |shapes|
  {
    if n == 0 then Some(0)
    else
      match CheckedArea(counts, shapes, n - 1)
      case None => None
      case Some(s) =>
        var p := counts[n - 1] * shapes[n - 1];
        if p > U32_MAX || s + p > U32_MAX then None else Some(s + p)
  }

  /** No product overflows among the first `n` pairs. */
  predicate ProductsFit(counts: seq<nat>, shapes: seq<nat>, n: nat)
    requires n <= |counts| && n <= |shapes|
  {
    forall k :: 0 <= k < n ==> counts[k] * shapes[k] <= U32_MAX
  }

  /** The checked sum succeeds exactly when no product and not the total
      exceeds `u32::MAX` (partial sums only grow), and then it is the sum. */
  lemma {:induction false} CheckedAreaMeaning(counts: seq<nat>, shapes: seq<nat>, n: nat)
    requires n <= |counts| && n <= |shapes|
    ensures CheckedArea(counts, shapes, n).Some? <==> ProductsFit(counts, shapes, n) && ShapeArea(counts, shapes, n) <= U32_MAX
    ensures CheckedArea(counts, shapes, n).Some? ==> CheckedArea(counts, shapes, n).value == ShapeArea(counts, shapes, n)
  {
    if n > 0 {
      CheckedAreaMeaning(counts, shapes, n - 1);
    }
  }

  /** `can_fit`: `None` where `width * height` or the shape area overflows. */
  function CanFit(shapes: seq<nat>, r: Region): Option<bool>
  {
    var area := r.width * r.height;
    if area > U32_MAX then None
    else
      match CheckedArea(r.counts, shapes, Min(|r.counts|, |shapes|))
      case None => None
      case Some(a) => Some(area >= a)
  }

  /** A region fits when its area covers the presents, counting only as many
      shapes as both lists have (`zip` stops at the shorter). */
  lemma CanFitMeaning(shapes: seq<nat>, r: Region)
    ensures var n := Min(|r.counts|, |shapes|);
      CanFit(shapes, r).Some? <==>
        r.width * r.height <= U32_MAX && ProductsFit(r.counts, shapes, n) && ShapeArea(r.counts, shapes, n) <= U32_MAX
    ensures var n := Min(|r.counts|, |shapes|);
      CanFit(shapes, r).Some? ==> (CanFit(shapes, r).value <==> r.width * r.height >= ShapeArea(r.counts, shapes, n))
  {
    CheckedAreaMeaning(r.counts, shapes, Min(|r.counts|, |shapes|));
  }

  // ---------------------------------------------------------------------
  // parse_input

  /** What the loop of `parse_input` carries: the shapes closed so far, the
      regions and the area of the shape being read. */
  datatype Reading = Reading(shapes: seq<nat>, regions: seq<Region>, current: nat)

  /** `s.parse::<u32>()`. */
  function ParseU32(s: String): Option<nat>
  {
    ParseUnsigned(s, U32_MAX)
  }

  /** A region line `WxH: c0 c1 ...`; `None` where an `unwrap` panics. */
  function ParseRegion(line: String): Option<Region>
  {
    match SplitOncePair(line, ':', ' ')
    case None => None
    case Some((dims, countsText)) =>
      match SplitOnce(dims, 'x')
      case None => None
      case Some((w, h)) =>
        match (MapAll(ParseU32, Words(countsText)), ParseU32(w), ParseU32(h))
        case (Some(counts), Some(width), Some(height)) => Some(Region(width, height, counts))
        case _ => None
  }

  predicate EndsWithColon(line: String)
  {
    |line| > 0 && line[|line| - 1] == ':'
  }

  /** A shape row: not blank, not a region, not a header. */
  predicate IsShapeRow(line: String)
  {
    line != [] && 'x' !in line && !EndsWithColon(line)
  }

  /** The shape being read, pushed only when its area is positive. */
  function Closed(shapes: seq<nat>, current: nat): seq<nat>
  {
    if current > 0 then shapes + [current] else shapes
  }

  /** One line of the loop. */
  function Step(st: Reading, line: String): Option<Reading>
  {
    if line == [] then Some(st)
    else if 'x' in line then
      match ParseRegion(line)
      case None => None
      case Some(r) => Some(st.(regions := st.regions + [r]))
    else if EndsWithColon(line) then Some(Reading(Closed(st.shapes, st.current), st.regions, 0))
    else if st.current + Count(line, '#') > U32_MAX then None
    else Some(st.(current := st.current + Count(line, '#')))
  }

  /** The loop over the lines, from nothing read. */
  function Run(lines: seq<String>): Option<Reading>
  {
    if lines == [] then Some(Reading([], [], 0))
    else
      match Run(lines[..|lines| - 1])
      case None => None
      case Some(st) => Step(st, lines[|lines| - 1])
  }

  /** `parse_input`: the shape areas and the regions, or `None` on a panic. */
  function ParseInput(input: String): Option<(seq<nat>, seq<Region>)>
  {
    Finish(Run(Lines(input)))
  }

  /** After the loop the last shape is pushed if its area is positive. */
  function Finish(run: Option<Reading>): Option<(seq<nat>, seq<Region>)>
  {
    match run
    case None => None
    case Some(st) => Some((Closed(st.shapes, st.current), st.regions))
  }

  /** The loop of `parse_input`. */
  method ParseLines(lines: seq<String>) returns (r: Option<(seq<nat>, seq<Region>)>)
    ensures r == Finish(Run(lines))
  {
    var shapes: seq<nat> := [];
    var regions: seq<Region> := [];
    var current: nat := 0;
    for k := 0 to |lines|
      invariant Run(lines[..k]) == Some(Reading(shapes, regions, current))
    {
      var line := lines[k];
      assert lines[..k + 1][..k] == lines[..k];
      if line == [] {
        continue;
      }
      if 'x' in line {
        var region := ParseRegion(line);
        if region.None? {
          RunPrefixFails(lines, k + 1);
          return None;
        }
        regions := regions + [region.value];
      } else if EndsWithColon(line) {
        if current > 0 {
          shapes := shapes + [current];
        }
        current := 0;
      } else {
        var hashes := Count(line, '#');
        if current + hashes > U32_MAX {
          RunPrefixFails(lines, k + 1);
          return None;
        }
        current := current + hashes;
      }
    }
    assert lines[..|lines|] == lines;
    if current > 0 {
      shapes := shapes + [current];
    }
    return Some((shapes, regions));
  }

  /** A panic on a line ends the whole parse. */
  lemma {:induction false} RunPrefixFails(lines: seq<String>, k: nat)
    requires k <= |lines| && Run(lines[..k]).None?
    ensures Run(lines).None?
    decreases |lines| - k
  {
    if k < |lines| {
      assert lines[..k + 1][..k] == lines[..k];
      RunPrefixFails(lines, k + 1);
    } else {
      assert lines[..k] == lines;
    }
  }

  /** Every stored shape area is positive. */
  predicate AllPositive(s: seq<nat>)
  {
    forall k :: 0 <= k < |s| ==> s[k] > 0
  }

  lemma {:induction false} RunShapesPositive(lines: seq<String>)
    ensures Run(lines).Some? ==> AllPositive(Run(lines).value.shapes)
  {
    if lines != [] {
      RunShapesPositive(lines[..|lines| - 1]);
    }
  }

  /** The parsed shapes are all positive: an empty shape is never pushed. */
  lemma ShapesPositive(input: String)
    ensures ParseInput(input).Some? ==> AllPositive(ParseInput(input).value.0)
  {
    RunShapesPositive(Lines(input));
  }

  /** The regions of the region lines, in order. */
  function RegionLines(lines: seq<String>): seq<Region>
  {
    if lines == [] then []
    else
      var line := lines[|lines| - 1];
      RegionLines(lines[..|lines| - 1]) +
        (if line != [] && 'x' in line && ParseRegion(line).Some? then [ParseRegion(line).value] else [])
  }

  /** The regions are exactly those of the lines that contain an `x`, in
      order of appearance. */
  lemma {:induction false} RunRegions(lines: seq<String>)
    ensures Run(lines).Some? ==> Run(lines).value.regions == RegionLines(lines)
  {
    if lines != [] {
      RunRegions(lines[..|lines| - 1]);
    }
  }

  /** The `#`s of the shape rows among `lines`. */
  function ShapeHashes(lines: seq<String>): nat
  {
    if lines == [] then 0
    else
      var line := lines[|lines| - 1];
      ShapeHashes(lines[..|lines| - 1]) + (if IsShapeRow(line) then Count(line, '#') else 0)
  }

  /** No `#` of a shape row is lost: the closed shapes and the open one
      together hold all of them. */
  lemma {:induction false} RunHashes(lines: seq<String>)
    ensures Run(lines).Some? ==> SumNat(Run(lines).value.shapes) + Run(lines).value.current == ShapeHashes(lines)
  {
    if lines != [] {
      var front := lines[..|lines| - 1];
      RunHashes(front);
      if Run(front).Some? {
        var st := Run(front).value;
        if st.current > 0 {
          assert (st.shapes + [st.current])[..|st.shapes|] == st.shapes;
        }
      }
    }
  }

  /** The parsed shape areas add up to the `#`s of all shape rows. */
  lemma ShapeAreasTotal(input: String)
    ensures ParseInput(input).Some? ==> SumNat(ParseInput(input).value.0) == ShapeHashes(Lines(input))
  {
    var lines := Lines(input);
    RunHashes(lines);
    if Run(lines).Some? {
      var st := Run(lines).value;
      if st.current > 0 {
        assert (st.shapes + [st.current])[..|st.shapes|] == st.shapes;
      }
    }
  }

  // ---------------------------------------------------------------------
  // part_one

  /** The number of fitting regions among the first `n`, or `None` where
      `can_fit` panics on one of them. */
  function CountFitting(shapes: seq<nat>, regions: seq<Region>, n: nat): Option<nat>
    requires n <= |regions|
  {
    if n == 0 then Some(0)
    else
      match (CountFitting(shapes, regions, n - 1), CanFit(shapes, regions[n - 1]))
      case (Some(c), Some(fits)) => Some(if fits then c + 1 else c)
      case _ => None
  }

  /** The fitting regions among the first `n`. */
  ghost function Fitting(shapes: seq<nat>, regions: seq<Region>, n: nat): set<nat>
    requires n <= |regions|
  {
    set i: nat | i < n && CanFit(shapes, regions[i]) == Some(true)
  }

  /** The count is the number of fitting regions. */
  lemma {:induction false} CountFittingMeaning(shapes: seq<nat>, regions: seq<Region>, n: nat)
    requires n <= |regions|
    ensures CountFitting(shapes, regions, n).Some? <==> forall i :: 0 <= i < n ==> CanFit(shapes, regions[i]).Some?
    ensures CountFitting(shapes, regions, n).Some? ==> CountFitting(shapes, regions, n).value == |Fitting(shapes, regions, n)|
  {
    if n > 0 {
      CountFittingMeaning(shapes, regions, n - 1);
      FittingStep(shapes, regions, n);
    }
  }

  /** Region `n - 1` joins the fitting set exactly when it fits. */
  lemma FittingStep(shapes: seq<nat>, regions: seq<Region>, n: nat)
    requires 0 < n <= |regions|
    ensures n - 1 !in Fitting(shapes, regions, n - 1)
    ensures Fitting(shapes, regions, n) ==
      Fitting(shapes, regions, n - 1) + (if CanFit(shapes, regions[n - 1]) == Some(true) then {n - 1} else {})
  {
  }

  /** `part_one`. */
  function PartOne(input: String): Option<nat>
  {
    match ParseInput(input)
    case None => None
    case Some((shapes, regions)) => CountFitting(shapes, regions, |regions|)
  }

  /** `part_one` counts at most every region once. */
  lemma PartOneBound(input: String)
    ensures PartOne(input).Some? ==> PartOne(input).value <= |ParseInput(input).value.1|
  {
    if ParseInput(input).Some? {
      var (shapes, regions) := ParseInput(input).value;
      CountFittingMeaning(shapes, regions, |regions|);
      FittingBound(shapes, regions, |regions|);
    }
  }

  lemma {:induction false} FittingBound(shapes: seq<nat>, regions: seq<Region>, n: nat)
    requires n <= |regions|
    ensures |Fitting(shapes, regions, n)| <= n
  {
    if n > 0 {
      FittingBound(shapes, regions, n - 1);
      FittingStep(shapes, regions, n);
    }
  }

  /** `part_two` has no answer. */
  function PartTwo(input: String): (r: Option<nat>)
    ensures r.None?
  {
    None
  }
}
