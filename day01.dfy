/** Day 1: a dial with positions 0 to 99 starts at 50 and is turned by the
    moves of the input, one per line (`L` turns down, anything else up). Part
    one counts the moves that leave the dial on 0; part two counts every click
    that passes 0, including those in the middle of a move. */
module Day01 {
  import opened Base
  import opened Text

  const POSITIONS: int := 100
  const START_POSITION: int := 50

  /** Rust's `%` on integers: the remainder takes the sign of the dividend. */
  function TruncRem(a: int, m: int): (r: int)
    requires m > 0
    ensures a >= 0 ==> r == a % m
    ensures a < 0 ==> r == -((-a) % m)
  {
    if a >= 0 then a % m else -((-a) % m)
  }

  function Sign(v: int): int { if v > 0 then 1 else if v < 0 then -1 else 0 }

  function Abs(v: int): nat { if v < 0 then -v else v }

  /** The dial position after turning `delta` clicks from `state` (`rem_euclid`). */
  function Advance(state: int, delta: int): (r: int)
    ensures 0 <= r < POSITIONS
    ensures (state + delta - r) % POSITIONS == 0
  {
    (state + delta) % POSITIONS
  }

  /** The closed form for the clicks that pass 0 while turning `steps` clicks
      from `state`: the distance to the first 0 in the direction of the turn
      (a full lap when starting on 0), then one more for every full lap. */
  function ZeroHits(state: int, steps: int): (r: nat)
    ensures steps == 0 && 0 <= state < POSITIONS ==> r == 0
    ensures state == 0 ==> r == Abs(steps) / POSITIONS
  {
    var dir := Sign(steps);
    var count := Abs(steps);
    var d0 := if dir > 0 then TruncRem(POSITIONS - state, POSITIONS) else TruncRem(state, POSITIONS);
    var dist := if d0 == 0 then POSITIONS else d0;
    if dist > count then 0 else 1 + (count - dist) / POSITIONS
  }

  /** Reference count: the `k` in `1..=n` for which `k` clicks in direction
      `dir` from `state` reach position 0. */
  function HitsWithin(state: int, dir: int, n: nat): nat
  {
    if n == 0 then 0 else HitsWithin(state, dir, n - 1) + (if (state + dir * n) % POSITIONS == 0 then 1 else 0)
  }

  lemma ShiftMod(x: int, c: int)
    ensures (x + POSITIONS * c) % POSITIONS == x % POSITIONS
  {
  }

  lemma NegMod(x: int)
    ensures (-x) % POSITIONS == 0 <==> x % POSITIONS == 0
  {
    if x % POSITIONS == 0 {
      assert -x == POSITIONS * (-(x / POSITIONS));
      ShiftMod(0, -(x / POSITIONS));
    }
    if (-x) % POSITIONS == 0 {
      assert x == POSITIONS * ((-x) / POSITIONS) * -1;
      ShiftMod(0, -((-x) / POSITIONS));
    }
  }

  /** Turning `n` clicks reaches 0 exactly when `n` is the distance to the
      first 0 plus a whole number of laps. */
  lemma HitIff(state: int, dir: int, dist: int, n: int)
    requires 0 <= state < POSITIONS && (dir == 1 || dir == -1)
    requires dist == (if dir == 1 then (if state == 0 then POSITIONS else POSITIONS - state)
                      else (if state == 0 then POSITIONS else state))
    ensures (state + dir * n) % POSITIONS == 0 <==> (n - dist) % POSITIONS == 0
  {
    if dir == 1 {
      assert n - dist == state + n + POSITIONS * (-1);
      ShiftMod(state + n, -1);
    } else if state == 0 {
      NegMod(n);
      ShiftMod(n, -1);
    } else {
      assert n - dist == -(state + dir * n);
      NegMod(state + dir * n);
    }
  }

  /** One more click raises the lap count exactly when it completes a lap. */
  lemma LapStep(x: int)
    requires x >= 1
    ensures x / POSITIONS - (x - 1) / POSITIONS == (if x % POSITIONS == 0 then 1 else 0)
  {
    var q, r := x / POSITIONS, x % POSITIONS;
    assert x == POSITIONS * q + r;
    if r == 0 {
      assert x - 1 == POSITIONS * (q - 1) + (POSITIONS - 1);
    } else {
      assert x - 1 == POSITIONS * q + (r - 1);
    }
  }

  lemma {:induction false} HitsClosedForm(state: int, dir: int, dist: int, n: nat)
    requires 0 <= state < POSITIONS && (dir == 1 || dir == -1)
    requires dist == (if dir == 1 then (if state == 0 then POSITIONS else POSITIONS - state)
                      else (if state == 0 then POSITIONS else state))
    ensures HitsWithin(state, dir, n) == if n < dist then 0 else 1 + (n - dist) / POSITIONS
  {
    if n > 0 {
      HitsClosedForm(state, dir, dist, n - 1);
      HitIff(state, dir, dist, n);
      if n > dist {
        LapStep(n - dist);
      } else if n < dist {
        assert (n - dist) % POSITIONS != 0 by {
          assert n - dist == POSITIONS * (-1) + (POSITIONS + n - dist);
          ShiftMod(POSITIONS + n - dist, -1);
        }
      }
    }
  }

  /** `zero_hits` counts exactly the clicks of a turn that reach 0. */
  lemma ZeroHitsCounts(state: int, steps: int)
    requires 0 <= state < POSITIONS
    ensures ZeroHits(state, steps) == HitsWithin(state, Sign(steps), Abs(steps))
  {
    if steps != 0 {
      var dir := Sign(steps);
      var dist := if dir == 1 then (if state == 0 then POSITIONS else POSITIONS - state)
                  else (if state == 0 then POSITIONS else state);
      HitsClosedForm(state, dir, dist, Abs(steps));
    }
  }

  /** A move that is not empty and ends on 0 passes 0 at least once. */
  lemma LandingIsHit(state: int, steps: int)
    requires 0 <= state < POSITIONS && steps != 0 && Advance(state, steps) == 0
    ensures ZeroHits(state, steps) >= 1
  {
    ZeroHitsCounts(state, steps);
    var n := Abs(steps);
    assert state + Sign(steps) * n == state + steps;
    assert HitsWithin(state, Sign(steps), n) >= 1;
  }

  /** `parse_line`: the direction letter and the click count after it; a count
      that does not parse is 0. An empty line makes the slice `line[1..]` panic. */
  function ParseLine(line: String): (r: Option<int>)
    ensures r.None? <==> line == []
    ensures r.Some? && ParseSigned(line[1..], I64_MIN, I64_MAX).None? ==> r.value == 0
  {
    if line == [] then None
    else
      var count := match ParseSigned(line[1..], I64_MIN, I64_MAX) case Some(v) => v case None => 0;
      Some(if line[0] == 'L' then -count else count)
  }

  /** A move written as its letter and its count reads back as the signed count. */
  lemma ParseLineRoundTrip(count: nat)
    requires count <= I64_MAX
    ensures ParseLine(['L'] + ToDecimal(count)) == Some(-(count as int))
    ensures ParseLine(['R'] + ToDecimal(count)) == Some(count)
  {
    assert (['L'] + ToDecimal(count))[1..] == ToDecimal(count);
    assert (['R'] + ToDecimal(count))[1..] == ToDecimal(count);
    ParseSignedRoundTrip(count, I64_MIN, I64_MAX);
    assert ShowSigned(count) == ToDecimal(count);
  }

  /** The moves of the input, or `None` when some line panics. */
  function Moves(input: String): Option<seq<int>>
  {
    MapAll(ParseLine, Lines(input))
  }

  /** The dial position after the moves `ms`. */
  function Dial(ms: seq<int>): (r: int)
    ensures 0 <= r < POSITIONS
  {
    if ms == [] then START_POSITION else Advance(Dial(ms[..|ms| - 1]), ms[|ms| - 1])
  }

  /** Number of moves of `ms` that leave the dial on 0. */
  function Landings(ms: seq<int>): (r: nat)
  {
    if ms == [] then 0 else Landings(ms[..|ms| - 1]) + (if Dial(ms) == 0 then 1 else 0)
  }

  /** Number of clicks that pass 0 over all the moves of `ms`. */
  function Passes(ms: seq<int>): (r: nat)
  {
    if ms == [] then 0 else Passes(ms[..|ms| - 1]) + ZeroHits(Dial(ms[..|ms| - 1]), ms[|ms| - 1])
  }

  /** The dial ends at the start position plus the sum of the moves, modulo 100. */
  lemma {:induction false} DialIsSum(ms: seq<int>)
    ensures Dial(ms) == (START_POSITION + Sum(ms)) % POSITIONS
  {
    if ms != [] {
      var p := ms[..|ms| - 1];
      DialIsSum(p);
      var a := START_POSITION + Sum(p);
      assert a == POSITIONS * (a / POSITIONS) + a % POSITIONS;
      ShiftMod(a % POSITIONS + ms[|ms| - 1], a / POSITIONS);
    }
  }

  /** Without empty moves, every move that ends on 0 also passes 0, so part
      two's count is at least part one's. */
  lemma {:induction false} LandingsAtMostPasses(ms: seq<int>)
    requires forall k :: 0 <= k < |ms| ==> ms[k] != 0
    ensures Landings(ms) <= Passes(ms)
  {
    if ms != [] {
      var p := ms[..|ms| - 1];
      LandingsAtMostPasses(p);
      if Dial(ms) == 0 {
        LandingIsHit(Dial(p), ms[|ms| - 1]);
      }
    }
  }

  /** Part one: the moves that leave the dial on 0. */
  method PartOne(input: String) returns (r: Option<nat>)
    ensures Moves(input).None? ==> r.None?
    ensures Moves(input).Some? ==> r == Some(Landings(Moves(input).value))
  {
    r := PartOneLines(Lines(input));
  }

  /** The loop of `part_one` over the lines. */
  method PartOneLines(lines: seq<String>) returns (r: Option<nat>)
    ensures MapAll(ParseLine, lines).None? ==> r.None?
    ensures MapAll(ParseLine, lines).Some? ==> r == Some(Landings(MapAll(ParseLine, lines).value))
  {
    var clicks := 0;
    var state := START_POSITION;
    ghost var ms: seq<int> := [];
    for k := 0 to |lines|
      invariant |ms| == k && forall j :: 0 <= j < k ==> ParseLine(lines[j]) == Some(ms[j])
      invariant state == Dial(ms) && clicks == Landings(ms)
    {
      var steps := ParseLine(lines[k]);
      if steps.None? {
        MapAllNone(ParseLine, lines, k);
        return None;
      }
      assert ms == (ms + [steps.value])[..k];
      ms := ms + [steps.value];
      state := Advance(state, steps.value);
      if state == 0 {
        clicks := clicks + 1;
      }
    }
    MapAllSome(ParseLine, lines, ms);
    return Some(clicks);
  }

  /** One more move adds its clicks past 0, counted from where the dial stood. */
  lemma PassesStep(ms: seq<int>, m: int)
    ensures (ms + [m])[..|ms|] == ms
    ensures Dial(ms + [m]) == Advance(Dial(ms), m)
    ensures Passes(ms + [m]) == Passes(ms) + ZeroHits(Dial(ms), m)
  {
    assert (ms + [m])[..|ms|] == ms;
  }

  /** Part two: every click that passes 0. */
  method PartTwo(input: String) returns (r: Option<nat>)
    ensures Moves(input).None? ==> r.None?
    ensures Moves(input).Some? ==> r == Some(Passes(Moves(input).value))
  {
    r := PartTwoLines(Lines(input));
  }

  /** The loop of `part_two` over the lines. */
  method PartTwoLines(lines: seq<String>) returns (r: Option<nat>)
    ensures MapAll(ParseLine, lines).None? ==> r.None?
    ensures MapAll(ParseLine, lines).Some? ==> r == Some(Passes(MapAll(ParseLine, lines).value))
  {
    var clicks := 0;
    var state := START_POSITION;
    ghost var ms: seq<int> := [];
    for k := 0 to |lines|
      invariant |ms| == k && forall j :: 0 <= j < k ==> ParseLine(lines[j]) == Some(ms[j])
      invariant state == Dial(ms) && clicks == Passes(ms)
    {
      var steps := ParseLine(lines[k]);
      if steps.None? {
        MapAllNone(ParseLine, lines, k);
        return None;
      }
      PassesStep(ms, steps.value);
      ms := ms + [steps.value];
      clicks := clicks + ZeroHits(state, steps.value);
      state := Advance(state, steps.value);
    }
    MapAllSome(ParseLine, lines, ms);
    return Some(clicks);
  }
}
