/** Day 7 (src/bin/07.rs): a tachyon beam enters a manifold at `S` and falls
    one row per text line; every splitter `^` that a beam reaches sends it on
    to both neighbouring columns. Part one counts the splits, part two the
    timelines, which is the total of the beam counters at the end. */
module Day07 {
  import opened Base
  import opened Text

  /** The state of `simulate_tachyon_manifold` between two bytes: the beam
      counter of every column, the column of the next byte, and the number
      of splits so far. */
  datatype Manifold = Manifold(beams: seq<nat>, cursor: nat, splits: nat)

  /** `vec![0; width]` with a single 1 at column `start`. */
  function Initial(width: nat, start: nat): (beams: seq<nat>)
    requires start < width
    ensures |beams| == width && beams[start] == 1
    ensures SumNat(beams) == 1
  {
    var zeros := seq(width, _ => 0);
    SumNatZeros(zeros);
    SumNatUpdate(zeros, start, 1);
    zeros[start := 1]
  }

  /** The column of the byte after `c`: the next one, or 0 on a new line. */
  function NextCursor(cursor: nat, c: char): nat
  {
    if c == '\n' then 0 else cursor + 1
  }

  /** The `t` timelines at column `k` move on to both neighbours. */
  function SplitBeam(beams: seq<nat>, k: nat): (r: seq<nat>)
    requires 0 < k < |beams| - 1
    ensures |r| == |beams|
    ensures r[k] == 0 && r[k - 1] == beams[k - 1] + beams[k] && r[k + 1] == beams[k + 1] + beams[k]
    ensures forall q :: 0 <= q < |beams| && q != k - 1 && q != k && q != k + 1 ==> r[q] == beams[q]
    ensures SumNat(r) == SumNat(beams) + beams[k]
  {
    var t := beams[k];
    var a := beams[k - 1 := beams[k - 1] + t];
    var b := a[k := 0];
    var c := b[k + 1 := b[k + 1] + t];
    SumNatUpdate(beams, k - 1, beams[k - 1] + t);
    SumNatUpdate(a, k, 0);
    SumNatUpdate(b, k + 1, b[k + 1] + t);
    c
  }

  /** One byte of the loop of `simulate_tachyon_manifold`. `None` stands for
      the unchecked accesses going out of bounds: a splitter past the end of
      the first line, or a splitter holding beams in the first or last column. */
  function Step(m: Manifold, c: char): (r: Option<Manifold>)
    ensures r.None? <==> (c == '^' && (m.cursor >= |m.beams| ||
                                       (m.beams[m.cursor] > 0 && (m.cursor == 0 || m.cursor + 1 >= |m.beams|))))
    ensures r.Some? ==> |r.value.beams| == |m.beams| && r.value.cursor == NextCursor(m.cursor, c)
    ensures r.Some? && r.value.splits != m.splits ==>
      r.value.splits == m.splits + 1 && c == '^' && 0 < m.cursor < |m.beams| - 1 && m.beams[m.cursor] > 0 &&
      SumNat(r.value.beams) == SumNat(m.beams) + m.beams[m.cursor]
    ensures r.Some? && r.value.splits == m.splits ==> r.value.beams == m.beams
    ensures r.Some? && c == '^' && m.beams[m.cursor] > 0 ==> r.value.splits == m.splits + 1
  {
    if c == '^' && m.cursor >= |m.beams| then None
    else if c == '^' && m.beams[m.cursor] > 0 then
      if m.cursor == 0 || m.cursor + 1 >= |m.beams| then None
      else Some(Manifold(SplitBeam(m.beams, m.cursor), NextCursor(m.cursor, c), m.splits + 1))
    else Some(Manifold(m.beams, NextCursor(m.cursor, c), m.splits))
  }

  lemma {:induction false} StepSplits(m: Manifold, c: char)
    requires c == '^' && 0 < m.cursor < |m.beams| - 1 && m.beams[m.cursor] > 0
    ensures Step(m, c) == Some(Manifold(SplitBeam(m.beams, m.cursor), m.cursor + 1, m.splits + 1))
  {
  }

  lemma {:induction false} StepPasses(m: Manifold, c: char)
    requires !(c == '^' && (m.cursor >= |m.beams| || m.beams[m.cursor] > 0))
    ensures Step(m, c) == Some(Manifold(m.beams, NextCursor(m.cursor, c), m.splits))
  {
  }

  /** The loop over the remaining bytes `s`. */
  function Run(m: Manifold, s: String): Option<Manifold>
    decreases |s|
  {
    if s == [] then Some(m)
    else match Step(m, s[0])
      case None => None
      case Some(next) => Run(next, s[1..])
  }

  /** `simulate_tachyon_manifold`: `None` without an `S` or without a line
      end after it; otherwise the splits and the sum of the beam counters.
      The beam counters are as wide as the text before the first line end
      after `S`, and the loop starts on the byte after that line end. */
  function Simulate(input: String): Option<(nat, nat)>
  {
    var start := IndexFrom(input, 'S', 0);
    if start == |input| then None
    else
      var width := IndexFrom(input, '\n', start + 1);
      if width == |input| then None
      else Outcome(Run(Manifold(Initial(width, start), 0, 0), input[width + 1..]))
  }

  /** The pair returned at the end of the loop: the splits and the sum of the
      beam counters. */
  function Outcome(end: Option<Manifold>): Option<(nat, nat)>
  {
    match end
    case None => None
    case Some(m) => Some((m.splits, SumNat(m.beams)))
  }

  /** `part_one`. */
  function PartOne(input: String): Option<nat>
  {
    match Simulate(input)
    case None => None
    case Some(r) => Some(r.0)
  }

  /** `part_two`. */
  function PartTwo(input: String): Option<nat>
  {
    match Simulate(input)
    case None => None
    case Some(r) => Some(r.1)
  }

  /** The three unchecked writes of a split. */
  method SplitAt(beams: array<nat>, k: nat)
    requires 0 < k < beams.Length - 1
    modifies beams
    ensures beams[..] == SplitBeam(old(beams[..]), k)
  {
    var t := beams[k];
    beams[k - 1] := beams[k - 1] + t;
    beams[k] := 0;
    beams[k + 1] := beams[k + 1] + t;
  }

  /** The `for` loop of `simulate_tachyon_manifold` over the bytes `rest`
      after the first line, updating the beam counters in place. */
  method RunBeams(beams: array<nat>, rest: String) returns (r: Option<(nat, nat)>)
    modifies beams
    ensures r == Outcome(Run(Manifold(old(beams[..]), 0, 0), rest))
  {
    var cursor, splits := 0, 0;
    ghost var goal := Run(Manifold(beams[..], 0, 0), rest);
    var i := 0;
    while i < |rest|
      invariant i <= |rest|
      invariant Run(Manifold(beams[..], cursor, splits), rest[i..]) == goal
    {
      var c := rest[i];
      ghost var m := Manifold(beams[..], cursor, splits);
      assert rest[i..][1..] == rest[i + 1..];
      if c == '^' && cursor >= beams.Length {
        return None;
      }
      if c == '^' && beams[cursor] > 0 {
        var t := beams[cursor];
        if cursor == 0 || cursor + 1 >= beams.Length {
          return None;
        }
        splits := splits + 1;
        SplitAt(beams, cursor);
        StepSplits(m, c);
      } else {
        StepPasses(m, c);
      }
      cursor := cursor + 1;
      if c == '\n' {
        cursor := 0;
      }
      i := i + 1;
    }
    r := Some((splits, SumNat(beams[..])));
  }

  /** `simulate_tachyon_manifold`. */
  method SimulateTachyonManifold(input: String) returns (r: Option<(nat, nat)>)
    ensures r == Simulate(input)
  {
    var start := IndexFrom(input, 'S', 0);
    if start == |input| {
      return None;
    }
    var width := IndexFrom(input, '\n', start + 1);
    if width == |input| {
      return None;
    }
    var beams := new nat[width](_ => 0);
    beams[start] := 1;
    assert beams[..] == Initial(width, start);
    var rest := input[width + 1..];
    SimulateRuns(input, start, width);
    r := RunBeams(beams, rest);
  }

  /** Once `S` and the line end after it are found, the answer is the
      outcome of the loop over the bytes after that line end. */
  lemma SimulateRuns(input: String, start: nat, width: nat)
    requires start == IndexFrom(input, 'S', 0) < |input|
    requires width == IndexFrom(input, '\n', start + 1) < |input|
    ensures start < width
    ensures Simulate(input) == Outcome(Run(Manifold(Initial(width, start), 0, 0), input[width + 1..]))
  {
  }

  /** Both parts need an `S` with a line end somewhere after it. */
  lemma {:induction false} SimulateNeedsStart(input: String)
    requires Simulate(input).Some?
    ensures exists s, n :: 0 <= s < n < |input| && input[s] == 'S' && input[n] == '\n'
  {
    var start := IndexFrom(input, 'S', 0);
    var width := IndexFrom(input, '\n', start + 1);
    assert input[start] == 'S' && input[width] == '\n';
  }

  /** The column reached after reading `s` from column `c0`. */
  function CursorAfter(c0: nat, s: String): nat
    decreases |s|
  {
    if s == [] then c0 else CursorAfter(NextCursor(c0, s[0]), s[1..])
  }

  lemma {:induction false} CursorAfterAppend(c0: nat, a: String, b: String)
    ensures CursorAfter(c0, a + b) == CursorAfter(CursorAfter(c0, a), b)
    decreases |a|
  {
    if a == [] {
      assert a + b == b;
    } else {
      assert (a + b)[1..] == a[1..] + b;
      CursorAfterAppend(NextCursor(c0, a[0]), a[1..], b);
    }
  }

  /** Without a line end the cursor moves one column per byte. */
  lemma {:induction false} CursorWithinLine(c0: nat, s: String)
    requires forall k :: 0 <= k < |s| ==> s[k] != '\n'
    ensures CursorAfter(c0, s) == c0 + |s|
    decreases |s|
  {
    if s != [] {
      CursorWithinLine(c0 + 1, s[1..]);
    }
  }

  /** After a line end the cursor is the number of bytes read since it:
      the column within the current line. */
  lemma {:induction false} CursorIsColumn(c0: nat, a: String, b: String)
    requires forall k :: 0 <= k < |b| ==> b[k] != '\n'
    ensures CursorAfter(c0, a + ['\n'] + b) == |b|
  {
    CursorAfterAppend(c0, a + ['\n'], b);
    CursorAfterAppend(c0, a, ['\n']);
    assert ['\n'][1..] == [];
    CursorWithinLine(0, b);
  }

  /** The loop's `cursor` follows `CursorAfter`. */
  lemma {:induction false} RunCursor(m: Manifold, s: String)
    requires Run(m, s).Some?
    ensures Run(m, s).value.cursor == CursorAfter(m.cursor, s)
    ensures |Run(m, s).value.beams| == |m.beams|
    decreases |s|
  {
    if s != [] {
      RunCursor(Step(m, s[0]).value, s[1..]);
    }
  }

  /** The timelines each split adds, in the order of the splits. */
  function Gains(m: Manifold, s: String): seq<nat>
    decreases |s|
  {
    if s == [] then []
    else match Step(m, s[0])
      case None => []
      case Some(next) =>
        (if next.splits != m.splits then [m.beams[m.cursor]] else []) + Gains(next, s[1..])
  }

  /** Over a run, every split reaches a splitter holding `t > 0` beams and
      raises the total by exactly `t`, so the final total is the initial one
      plus the gains; there are at most as many splits as splitters. */
  lemma {:induction false} RunLedger(m: Manifold, s: String)
    requires Run(m, s).Some?
    ensures var r := Run(m, s).value;
      r.splits == m.splits + |Gains(m, s)| &&
      SumNat(r.beams) == SumNat(m.beams) + SumNat(Gains(m, s)) &&
      (forall k :: 0 <= k < |Gains(m, s)| ==> Gains(m, s)[k] > 0) &&
      |Gains(m, s)| <= Count(s, '^')
    decreases |s|
  {
    if s != [] {
      var next := Step(m, s[0]).value;
      RunLedger(next, s[1..]);
      var g := if next.splits != m.splits then [m.beams[m.cursor]] else [];
      SumNatAppend(g, Gains(next, s[1..]));
      assert SumNat(g) == if next.splits != m.splits then m.beams[m.cursor] else 0 by {
        if next.splits != m.splits {
          assert g[..0] == [];
        }
      }
      CountCons(s[0], s[1..], '^');
      assert [s[0]] + s[1..] == s;
    }
  }

  /** Every split adds at least one timeline to the single one the beam
      starts with, and no more splits happen than there are splitters. */
  lemma {:induction false} TimelinesAtLeastSplits(input: String)
    requires Simulate(input).Some?
    ensures Simulate(input).value.1 >= Simulate(input).value.0 + 1
    ensures Simulate(input).value.0 <= Count(input, '^')
  {
    var start := IndexFrom(input, 'S', 0);
    var width := IndexFrom(input, '\n', start + 1);
    SimulateRuns(input, start, width);
    var m := Manifold(Initial(width, start), 0, 0);
    var rest := input[width + 1..];
    RunLedger(m, rest);
    var g := Gains(m, rest);
    SumAtLeastLength(g);
    CountSuffix(input, width + 1, '^');
  }

  lemma {:induction false} SumAtLeastLength(g: seq<nat>)
    requires forall k :: 0 <= k < |g| ==> g[k] > 0
    ensures SumNat(g) >= |g|
    decreases |g|
  {
    if g != [] {
      SumAtLeastLength(g[..|g| - 1]);
    }
  }

  lemma {:induction false} CountSuffix(s: String, i: nat, c: char)
    requires i <= |s|
    ensures Count(s[i..], c) <= Count(s, c)
    decreases i
  {
    if i > 0 {
      CountSuffix(s, i - 1, c);
      CountCons(s[i - 1], s[i..], c);
      assert s[i - 1..] == [s[i - 1]] + s[i..];
    }
  }

  /** The wall padding the source relies on: every splitter in `s` is read
      at a column strictly between the first and the last one. */
  ghost predicate Walled(s: String, c0: nat, width: nat)
  {
    forall i :: 0 <= i < |s| && s[i] == '^' ==> 0 < CursorAfter(c0, s[..i]) < width - 1
  }

  /** On walled text the unchecked accesses stay in bounds. */
  lemma {:induction false} WalledRuns(m: Manifold, s: String)
    requires Walled(s, m.cursor, |m.beams|)
    ensures Run(m, s).Some?
    decreases |s|
  {
    if s != [] {
      assert s[..0] == [];
      var next := Step(m, s[0]).value;
      forall i | 0 <= i < |s[1..]| && s[1..][i] == '^'
        ensures 0 < CursorAfter(next.cursor, s[1..][..i]) < |next.beams| - 1
      {
        assert s[..i + 1][1..] == s[1..][..i];
        assert s[i + 1] == '^';
      }
      WalledRuns(next, s[1..]);
    }
  }

  /** With an `S` followed by a line end and walls round every splitter
      below it, both parts have an answer. */
  lemma {:induction false} WalledSimulates(input: String, start: nat, n: nat)
    requires start < n < |input| && input[start] == 'S' && input[n] == '\n'
    requires forall k :: 0 <= k < start ==> input[k] != 'S'
    requires forall k :: start < k < n ==> input[k] != '\n'
    requires Walled(input[n + 1..], 0, n)
    ensures Simulate(input).Some?
  {
    IndexFromIs(input, '\n', start + 1, n);
    WalledRuns(Manifold(Initial(n, start), 0, 0), input[n + 1..]);
  }
}
