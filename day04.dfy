/** Day 4: a grid of paper rolls (`@`) and empty cells (`.`), one row per
    line. A roll is accessible when fewer than four of its eight neighbours
    are rolls. Part one counts the accessible rolls in one sweep over the
    text; part two removes accessible rolls in passes over a padded copy of
    the grid until a pass removes nothing, and counts the removals. */
module Day04 {
  import opened Base
  import opened Text

  /* ---- Part one: three sliding windows over the text ---- */

  /** A byte of the text, or `'\n'` before its start and after its end: the
      padding the three windows are built with. */
  function At(b: String, x: int): char
  {
    if 0 <= x < |b| then b[x] else '\n'
  }

  function Roll(c: char): nat
  {
    if c == '@' then 1 else 0
  }

  /** The rolls among the 3x3 block of bytes around `k`, rows being `w`
      bytes apart (the line length plus its `'\n'`). */
  function BlockRolls(b: String, w: nat, k: int): nat
  {
    Roll(At(b, k - w - 1)) + Roll(At(b, k - w)) + Roll(At(b, k - w + 1)) +
    Roll(At(b, k - 1)) + Roll(At(b, k)) + Roll(At(b, k + 1)) +
    Roll(At(b, k + w - 1)) + Roll(At(b, k + w)) + Roll(At(b, k + w + 1))
  }

  /** The window centred on `k` holds a roll with fewer than 4 rolls among
      the other eight bytes. */
  predicate Accessible(b: String, w: nat, k: int)
  {
    At(b, k) == '@' && BlockRolls(b, w, k) - 1 < 4
  }

  /** The accessible centres below `m`. */
  function CountAccessible(b: String, w: nat, m: nat): nat
  {
    if m == 0 then 0 else CountAccessible(b, w, m - 1) + (if Accessible(b, w, m - 1) then 1 else 0)
  }

  /** `part_one`: `None` without a `'\n'`; otherwise, for each window of the
      text padded with one `'\n'` in front, the window one row above and the
      one a row below, a centre roll with fewer than 4 rolls around it is
      counted. The padded text yields one window fewer than it has bytes
      after the pad, so the last byte is never a centre. */
  method PartOne(input: String) returns (r: Option<nat>)
    ensures IndexFrom(input, '\n', 0) == |input| ==> r == None
    ensures IndexFrom(input, '\n', 0) < |input| ==>
      r == Some(CountAccessible(input, IndexFrom(input, '\n', 0) + 1, |input| - 1))
  {
    var lineLength := IndexFrom(input, '\n', 0);
    if lineLength == |input| {
      return None;
    }
    var w := lineLength + 1;
    var answer := 0;
    for k := 0 to |input| - 1
      invariant answer == CountAccessible(input, w, k)
    {
      var a, b, c := At(input, k - lineLength - 2), At(input, k - lineLength - 1), At(input, k - lineLength);
      var d, e, f := At(input, k - 1), input[k], input[k + 1];
      var g, h, i := At(input, k + lineLength), At(input, k + lineLength + 1), At(input, k + lineLength + 2);
      if e != '@' {
        continue;
      }
      var count := Roll(a) + Roll(b) + Roll(c) + Roll(d) + Roll(e) + Roll(f) + Roll(g) + Roll(h) + Roll(i) - 1;
      if count < 4 {
        answer := answer + 1;
      }
    }
    return Some(answer);
  }

  /** Every accessible roll of the text, the last byte included. */
  function AccessibleRolls(input: String): (r: Option<nat>)
    ensures r.None? <==> IndexFrom(input, '\n', 0) == |input|
  {
    var lineLength := IndexFrom(input, '\n', 0);
    if lineLength == |input| then None else Some(CountAccessible(input, lineLength + 1, |input|))
  }

  /** The last byte matters only when it is a roll: a text ending in `'\n'`
      (or in `'.'`) gets the same count from `part_one` as from
      `AccessibleRolls`. */
  lemma {:induction false} PartOneMissesOnlyLastByte(input: String)
    requires IndexFrom(input, '\n', 0) < |input|
    ensures input[|input| - 1] != '@' ==>
      AccessibleRolls(input) == Some(CountAccessible(input, IndexFrom(input, '\n', 0) + 1, |input| - 1))
    ensures input[|input| - 1] == '@' && Accessible(input, IndexFrom(input, '\n', 0) + 1, |input| - 1) ==>
      AccessibleRolls(input) == Some(CountAccessible(input, IndexFrom(input, '\n', 0) + 1, |input| - 1) + 1)
  {
  }

  /** The text `"@\n@"`: two rolls, each with one roll next to it, but the
      sweep of `part_one` stops before the second. */
  lemma {:induction false} LastRollMissed(s: String)
    requires |s| == 3 && s[0] == '@' && s[1] == '\n' && s[2] == '@'
    ensures IndexFrom(s, '\n', 0) == 1
    ensures CountAccessible(s, 2, |s| - 1) == 1
    ensures AccessibleRolls(s) == Some(2)
  {
    assert IndexFrom(s, '\n', 0) == 1 by {
      assert s[1..][0] == '\n';
    }
    assert At(s, 0) == At(s, 2) == '@';
    assert At(s, -3) == At(s, -2) == At(s, -1) == At(s, 1) == At(s, 3) == At(s, 4) == At(s, 5) == '\n';
    assert Accessible(s, 2, 0) && !Accessible(s, 2, 1) && Accessible(s, 2, 2);
    assert CountAccessible(s, 2, 1) == 1;
    assert CountAccessible(s, 2, 2) == 1;
  }

  /* ---- The grid the text describes ---- */

  /** Rows of `lineLength` bytes, each followed by a `'\n'` (the last one
      possibly not): the `'\n'` bytes sit exactly at the ends of the rows. */
  predicate Shaped(b: String, lineLength: nat)
  {
    forall x :: 0 <= x < |b| ==> (b[x] == '\n' <==> x % (lineLength + 1) == lineLength)
  }

  /** Row `row`, column `col` of the grid; `'.'` off the grid. */
  function Cell(b: String, lineLength: nat, row: int, col: int): char
  {
    if 0 <= row && 0 <= col < lineLength && row * (lineLength + 1) + col < |b|
    then b[row * (lineLength + 1) + col] else '.'
  }

  /** The rolls among the cell at `row`, `col` and its eight neighbours. */
  function GridBlock(b: String, lineLength: nat, row: int, col: int): nat
  {
    Roll(Cell(b, lineLength, row - 1, col - 1)) + Roll(Cell(b, lineLength, row - 1, col)) +
    Roll(Cell(b, lineLength, row - 1, col + 1)) + Roll(Cell(b, lineLength, row, col - 1)) +
    Roll(Cell(b, lineLength, row, col)) + Roll(Cell(b, lineLength, row, col + 1)) +
    Roll(Cell(b, lineLength, row + 1, col - 1)) + Roll(Cell(b, lineLength, row + 1, col)) +
    Roll(Cell(b, lineLength, row + 1, col + 1))
  }

  /** The byte `col` steps into row `row`, for `col` from one before the row
      to its `'\n'`, is a roll exactly when that grid cell is: the bytes
      before the text, after it and at a row end are never rolls. */
  lemma {:induction false} NeighbourByte(b: String, lineLength: nat, row: int, col: int)
    requires Shaped(b, lineLength) && row >= -1 && -1 <= col <= lineLength
    ensures Roll(At(b, row * (lineLength + 1) + col)) == Roll(Cell(b, lineLength, row, col))
  {
    var w := lineLength + 1;
    var m := row * w + col;
    if row < 0 {
      assert m == -w + col;
    } else if 0 <= m < |b| && (col == -1 || col == lineLength) {
      if col == -1 {
        assert m == w * (row - 1) + lineLength;
        DivUnique(m, w, row - 1, lineLength);
      } else {
        DivUnique(m, w, row, lineLength);
      }
      assert b[m] == '\n';
    }
  }

  /** In a shaped text, the window of `part_one` around a byte of a row sees
      exactly the rolls of that grid cell and its eight neighbours. */
  lemma {:induction false} WindowIsNeighbourhood(b: String, lineLength: nat, k: nat)
    requires Shaped(b, lineLength) && k < |b| && k % (lineLength + 1) < lineLength
    ensures Cell(b, lineLength, k / (lineLength + 1), k % (lineLength + 1)) == b[k]
    ensures BlockRolls(b, lineLength + 1, k) ==
      GridBlock(b, lineLength, k / (lineLength + 1), k % (lineLength + 1))
  {
    var w := lineLength + 1;
    var row, col := k / w, k % w;
    assert k == row * w + col;
    assert (row - 1) * w == row * w - w;
    assert (row + 1) * w == row * w + w;
    NeighbourByte(b, lineLength, row - 1, col - 1);
    NeighbourByte(b, lineLength, row - 1, col);
    NeighbourByte(b, lineLength, row - 1, col + 1);
    NeighbourByte(b, lineLength, row, col - 1);
    NeighbourByte(b, lineLength, row, col);
    NeighbourByte(b, lineLength, row, col + 1);
    NeighbourByte(b, lineLength, row + 1, col - 1);
    NeighbourByte(b, lineLength, row + 1, col);
    NeighbourByte(b, lineLength, row + 1, col + 1);
  }

  /** A roll of the grid with fewer than 4 rolls among its eight neighbours. */
  predicate GridAccessible(b: String, lineLength: nat, row: int, col: int)
  {
    Cell(b, lineLength, row, col) == '@' && GridBlock(b, lineLength, row, col) - 1 < 4
  }

  /** The grid cells accessible in the grid sense among the bytes below `m`
      (a `'\n'` byte is no cell). */
  function CountGridAccessible(b: String, lineLength: nat, m: nat): nat
  {
    if m == 0 then 0
    else
      var k := m - 1;
      var row, col := k / (lineLength + 1), k % (lineLength + 1);
      CountGridAccessible(b, lineLength, k) + (if col < lineLength && GridAccessible(b, lineLength, row, col) then 1 else 0)
  }

  /** On a shaped text, a byte is an accessible centre exactly when it is
      an accessible cell of the grid. */
  lemma {:induction false} CentreIsCell(b: String, lineLength: nat, k: nat)
    requires Shaped(b, lineLength) && k < |b|
    ensures Accessible(b, lineLength + 1, k) <==>
      k % (lineLength + 1) < lineLength && GridAccessible(b, lineLength, k / (lineLength + 1), k % (lineLength + 1))
  {
    if k % (lineLength + 1) < lineLength {
      WindowIsNeighbourhood(b, lineLength, k);
    } else {
      assert b[k] == '\n';
    }
  }

  /** On a shaped text, the count over all bytes is the number of accessible
      rolls of the grid. */
  lemma {:induction false} CountIsGridCount(b: String, lineLength: nat, m: nat)
    requires Shaped(b, lineLength) && m <= |b|
    ensures CountAccessible(b, lineLength + 1, m) == CountGridAccessible(b, lineLength, m)
  {
    if m > 0 {
      CountIsGridCount(b, lineLength, m - 1);
      CentreIsCell(b, lineLength, m - 1);
    }
  }

  /** The corrected count is the number of accessible rolls of the grid. */
  lemma {:induction false} AccessibleRollsCountsGrid(input: String)
    requires IndexFrom(input, '\n', 0) < |input| && Shaped(input, IndexFrom(input, '\n', 0))
    ensures AccessibleRolls(input) == Some(CountGridAccessible(input, IndexFrom(input, '\n', 0), |input|))
  {
    CountIsGridCount(input, IndexFrom(input, '\n', 0), |input|);
  }

  /* ---- Part two: erosion of a padded grid ---- */

  function Falses(n: nat): (r: seq<bool>)
    ensures |r| == n && forall t :: 0 <= t < n ==> !r[t]
  {
    if n == 0 then [] else Falses(n - 1) + [false]
  }

  /** The cells `create_padded_grid` pushes for one character: a roll, an
      empty cell, the right border of a row and the left border of the next
      for a `'\n'`, nothing for any other character. */
  function Cells(c: char): seq<bool>
  {
    if c == '@' then [true] else if c == '.' then [false] else if c == '\n' then [false, false] else []
  }

  /** The cells pushed for the characters of `s`. */
  function Body(s: String): seq<bool>
  {
    if s == [] then [] else Body(s[..|s| - 1]) + Cells(s[|s| - 1])
  }

  predicate EndsWithNewline(s: String)
  {
    |s| > 0 && s[|s| - 1] == '\n'
  }

  /** The padded grid: a top border row and the left border of the first
      row (`line_length + 3` cells), the cells of the text, the borders a
      missing final `'\n'` would have pushed, and a bottom border row. */
  function PaddedGrid(input: String, lineLength: nat): seq<bool>
  {
    Falses(lineLength + 3) + Body(input) + (if EndsWithNewline(input) then [] else [false, false]) + Falses(lineLength + 2)
  }

  /** The indices of the rolls of `roles`, in the order of a scan. */
  function Rolls(roles: seq<bool>): seq<nat>
  {
    if roles == [] then [] else Rolls(roles[..|roles| - 1]) + (if roles[|roles| - 1] then [|roles| - 1] else [])
  }

  /** `ps` holds, in increasing order, exactly the indices of the rolls. */
  predicate Exact(roles: seq<bool>, ps: seq<nat>)
  {
    (forall a, b :: 0 <= a < b < |ps| ==> ps[a] < ps[b]) &&
    (forall t :: 0 <= t < |ps| ==> ps[t] < |roles| && roles[ps[t]]) &&
    (forall x :: 0 <= x < |roles| && roles[x] ==> x in ps)
  }

  lemma {:induction false} RollsExact(roles: seq<bool>)
    ensures Exact(roles, Rolls(roles))
  {
    if roles != [] {
      var m := roles[..|roles| - 1];
      RollsExact(m);
      forall x | 0 <= x < |roles| - 1 && roles[x]
        ensures x in Rolls(roles)
      {
        assert m[x];
      }
    }
  }

  lemma {:induction false} RollsPush(roles: seq<bool>, b: bool)
    ensures Rolls(roles + [b]) == Rolls(roles) + (if b then [|roles|] else [])
  {
    assert (roles + [b])[..|roles|] == roles;
  }

  lemma {:induction false} RollsFalses(roles: seq<bool>, n: nat)
    ensures Rolls(roles + Falses(n)) == Rolls(roles)
  {
    if n > 0 {
      RollsFalses(roles, n - 1);
      assert roles + Falses(n) == (roles + Falses(n - 1)) + [false];
      RollsPush(roles + Falses(n - 1), false);
    } else {
      assert roles + Falses(n) == roles;
    }
  }

  lemma {:induction false} BodyStep(s: String, k: nat)
    requires k < |s|
    ensures Body(s[..k + 1]) == Body(s[..k]) + Cells(s[k])
    ensures Count(s[..k + 1], '@') == Count(s[..k], '@') + (if s[k] == '@' then 1 else 0)
  {
    assert s[..k + 1][..k] == s[..k];
  }

  lemma {:induction false} AppendAssoc<T>(a: seq<T>, b: seq<T>, c: seq<T>)
    ensures (a + b) + c == a + (b + c)
  {
  }

  /** `create_padded_grid`: pushes the top border, then the cells of each
      character with the index of every roll, then the missing borders and
      the bottom row. */
  method CreatePaddedGrid(input: String, lineLength: nat) returns (roles: seq<bool>, positions: seq<nat>)
    ensures roles == PaddedGrid(input, lineLength)
    ensures positions == Rolls(roles) && |positions| == Count(input, '@')
  {
    roles := Falses(lineLength + 2);
    roles := roles + [false];
    assert roles == [] + Falses(lineLength + 3);
    RollsFalses([], lineLength + 3);
    roles, positions := PushText(roles, [], input);
    if !EndsWithNewline(input) {
      RollsFalses(roles, 2);
      assert Falses(2) == [false, false];
      roles := roles + [false, false];
    }
    RollsFalses(roles, lineLength + 2);
    roles := roles + Falses(lineLength + 2);
  }

  /** The loop of `create_padded_grid` over the characters of the text. */
  method PushText(roles0: seq<bool>, positions0: seq<nat>, input: String) returns (roles: seq<bool>, positions: seq<nat>)
    requires positions0 == Rolls(roles0)
    ensures roles == roles0 + Body(input)
    ensures positions == Rolls(roles) && |positions| == |positions0| + Count(input, '@')
  {
    roles, positions := roles0, positions0;
    for k := 0 to |input|
      invariant roles == roles0 + Body(input[..k])
      invariant positions == Rolls(roles) && |positions| == |positions0| + Count(input[..k], '@')
    {
      var c := input[k];
      roles, positions := PushCell(roles, positions, c);
      BodyStep(input, k);
      AppendAssoc(roles0, Body(input[..k]), Cells(c));
    }
    assert input[..|input|] == input;
  }

  /** One character of the loop of `create_padded_grid`: its cells, with
      the index of a roll pushed onto the positions. */
  method PushCell(roles0: seq<bool>, positions0: seq<nat>, c: char) returns (roles: seq<bool>, positions: seq<nat>)
    requires positions0 == Rolls(roles0)
    ensures roles == roles0 + Cells(c)
    ensures positions == Rolls(roles) && |positions| == |positions0| + (if c == '@' then 1 else 0)
  {
    roles, positions := roles0, positions0;
    if c == '@' {
      RollsPush(roles, true);
      positions := positions + [|roles|];
      roles := roles + [true];
    } else if c == '.' {
      RollsPush(roles, false);
      roles := roles + [false];
    } else if c == '\n' {
      RollsFalses(roles, 2);
      assert Falses(2) == [false, false];
      roles := roles + [false, false];
    }
  }

  lemma {:induction false} BodyEnd(s: String)
    requires EndsWithNewline(s)
    ensures |Body(s)| >= 2 && !Body(s)[|Body(s)| - 1] && !Body(s)[|Body(s)| - 2]
  {
  }

  /** A cell `w + 1` away from both ends of a grid of `n` cells: every
      index `is_removable` reads around it, `i ± w ± 1`, is in the grid. */
  predicate Inside(n: nat, i: int, w: nat)
  {
    w + 1 <= i && i + w + 1 < n
  }

  predicate AllInside(n: nat, ps: seq<nat>, w: nat)
  {
    forall t :: 0 <= t < |ps| ==> Inside(n, ps[t], w)
  }

  /** The padding keeps every roll of the padded grid a row and a column
      away from its ends, so the rolls are inside for the stride
      `line_length + 2`. */
  lemma {:induction false} PaddedRollsInside(input: String, lineLength: nat)
    ensures AllInside(|PaddedGrid(input, lineLength)|, Rolls(PaddedGrid(input, lineLength)), lineLength + 2)
  {
    var g := PaddedGrid(input, lineLength);
    var a, body := Falses(lineLength + 3), Body(input);
    var tail := (if EndsWithNewline(input) then [] else [false, false]) + Falses(lineLength + 2);
    assert g == a + body + tail;
    RollsExact(g);
    forall t | 0 <= t < |Rolls(g)|
      ensures Inside(|g|, Rolls(g)[t], lineLength + 2)
    {
      var x := Rolls(g)[t];
      assert g[x];
      if EndsWithNewline(input) {
        BodyEnd(input);
      }
    }
  }

  function Occupied(roles: seq<bool>, x: int): nat
    requires 0 <= x < |roles|
  {
    if roles[x] then 1 else 0
  }

  /** The rolls among the three cells centred on `c`. */
  function Row(roles: seq<bool>, c: int): nat
    requires 1 <= c && c + 1 < |roles|
  {
    Occupied(roles, c - 1) + Occupied(roles, c) + Occupied(roles, c + 1)
  }

  /** The rolls among the 3x3 block centred on `i`, its centre included. */
  function Block(roles: seq<bool>, i: int, w: nat): nat
    requires Inside(|roles|, i, w)
  {
    Row(roles, i - w) + Row(roles, i) + Row(roles, i + w)
  }

  /** `is_removable`: sums the cells at `i + s + o` for `s` in `-w, 0, w`
      and `o` in `-1, 0, 1`, the centre included, and compares with 5. */
  method IsRemovable(roles: array<bool>, i: nat, stride: nat) returns (r: bool)
    requires Inside(roles.Length, i, stride)
    ensures r <==> Block(roles[..], i, stride) < 5
  {
    var count := 0;
    var strides := [-(stride as int), 0, stride as int];
    var offsets := [-1, 0, 1];
    for a := 0 to 3
      invariant count == (if a >= 1 then Row(roles[..], i - stride) else 0) +
        (if a >= 2 then Row(roles[..], i) else 0) + (if a >= 3 then Row(roles[..], i + stride) else 0)
    {
      var s := strides[a];
      ghost var before := count;
      for b := 0 to 3
        invariant count == before + (if b >= 1 then Occupied(roles[..], i + s - 1) else 0) +
          (if b >= 2 then Occupied(roles[..], i + s) else 0) + (if b >= 3 then Occupied(roles[..], i + s + 1) else 0)
      {
        var idx := i + s + offsets[b];
        count := count + (if roles[idx] then 1 else 0);
      }
    }
    r := count < 5;
  }

  /** With the centre a roll, `is_removable` holds exactly when fewer than
      four of the eight neighbours are rolls. */
  lemma {:induction false} RemovableIffFewNeighbours(roles: seq<bool>, i: int, w: nat)
    requires Inside(|roles|, i, w) && roles[i] && w >= 2
    ensures Block(roles, i, w) < 5 <==>
      Occupied(roles, i - w - 1) + Occupied(roles, i - w) + Occupied(roles, i - w + 1) +
      Occupied(roles, i - 1) + Occupied(roles, i + 1) +
      Occupied(roles, i + w - 1) + Occupied(roles, i + w) + Occupied(roles, i + w + 1) < 4
  {
  }

  /** The grid and the kept positions after a pass. */
  datatype Sweep = Sweep(roles: seq<bool>, kept: seq<nat>)

  /** One pass of the loop of `part_two` over `ps`, in order: a removable
      roll is cleared at once, so later checks see it gone; the others are
      kept, in order. */
  function Pass(roles: seq<bool>, ps: seq<nat>, w: nat): (r: Sweep)
    requires AllInside(|roles|, ps, w)
    ensures |r.roles| == |roles| && |r.kept| <= |ps|
    decreases |ps|
  {
    if ps == [] then Sweep(roles, [])
    else
      var before := Pass(roles, ps[..|ps| - 1], w);
      var p := ps[|ps| - 1];
      if Block(before.roles, p, w) < 5 then Sweep(before.roles[p := false], before.kept)
      else Sweep(before.roles, before.kept + [p])
  }

  /** A pass keeps only positions it was given. */
  lemma {:induction false} PassKeepsSome(roles: seq<bool>, ps: seq<nat>, w: nat)
    requires AllInside(|roles|, ps, w)
    ensures forall t :: 0 <= t < |Pass(roles, ps, w).kept| ==> Pass(roles, ps, w).kept[t] in ps
    ensures AllInside(|roles|, Pass(roles, ps, w).kept, w)
    decreases |ps|
  {
    if ps != [] {
      var m := ps[..|ps| - 1];
      PassKeepsSome(roles, m, w);
      var before := Pass(roles, m, w);
      forall t | 0 <= t < |before.kept|
        ensures before.kept[t] in ps
      {
        assert before.kept[t] in m;
      }
    }
  }

  /** A pass over the rolls, in increasing order, leaves exactly the kept
      positions as rolls, still in increasing order. */
  lemma {:induction false} PassExact(roles: seq<bool>, ps: seq<nat>, w: nat)
    requires AllInside(|roles|, ps, w) && Exact(roles, ps)
    ensures Exact(Pass(roles, ps, w).roles, Pass(roles, ps, w).kept)
  {
    PassTrack(roles, ps, w);
    PassKeepsSome(roles, ps, w);
  }

  /** After a pass, a cell is a roll when it was one and, if the pass
      visited it, the pass kept it. */
  lemma {:induction false} PassTrack(roles: seq<bool>, ps: seq<nat>, w: nat)
    requires AllInside(|roles|, ps, w)
    requires forall a, b :: 0 <= a < b < |ps| ==> ps[a] < ps[b]
    ensures forall a, b :: 0 <= a < b < |Pass(roles, ps, w).kept| ==> Pass(roles, ps, w).kept[a] < Pass(roles, ps, w).kept[b]
    ensures forall x :: 0 <= x < |roles| ==>
      (Pass(roles, ps, w).roles[x] <==> roles[x] && (x in ps ==> x in Pass(roles, ps, w).kept))
    decreases |ps|
  {
    if ps != [] {
      var m := ps[..|ps| - 1];
      var p := ps[|ps| - 1];
      PassTrack(roles, m, w);
      PassKeepsSome(roles, m, w);
      var before := Pass(roles, m, w);
      assert forall t :: 0 <= t < |before.kept| ==> before.kept[t] < p by {
        forall t | 0 <= t < |before.kept|
          ensures before.kept[t] < p
        {
          var y := before.kept[t];
          assert y in m;
          var u :| 0 <= u < |m| && m[u] == y;
          assert ps[u] == y;
        }
      }
      assert p !in m by {
        forall u | 0 <= u < |m|
          ensures m[u] != p
        {
          assert ps[u] < ps[|ps| - 1];
        }
      }
      assert p !in before.kept;
      forall x | 0 <= x < |roles|
        ensures Pass(roles, ps, w).roles[x] <==> roles[x] && (x in ps ==> x in Pass(roles, ps, w).kept)
      {
        assert x in ps <==> x in m || x == p;
      }
    }
  }

  /** A pass that keeps every position changes nothing, and then no visited
      roll is removable. */
  lemma {:induction false} PassStable(roles: seq<bool>, ps: seq<nat>, w: nat)
    requires AllInside(|roles|, ps, w)
    requires |Pass(roles, ps, w).kept| == |ps|
    ensures Pass(roles, ps, w) == Sweep(roles, ps)
    ensures forall t :: 0 <= t < |ps| ==> Block(roles, ps[t], w) >= 5
    decreases |ps|
  {
    if ps != [] {
      var m := ps[..|ps| - 1];
      PassStable(roles, m, w);
      assert ps == m + [ps[|ps| - 1]];
    }
  }

  /** Passes until one removes nothing: the grid and the positions the loop
      of `part_two` ends with. */
  function Erode(roles: seq<bool>, ps: seq<nat>, w: nat): (r: Sweep)
    requires AllInside(|roles|, ps, w)
    ensures |r.roles| == |roles| && |r.kept| <= |ps|
    decreases |ps|
  {
    var next := Pass(roles, ps, w);
    if |next.kept| == |ps| then Sweep(roles, ps)
    else
      PassKeepsSome(roles, ps, w);
      Erode(next.roles, next.kept, w)
  }

  /** What the passes leave of `roles`: the rolls left are exactly the kept
      positions, in increasing order, each inside the grid with at least
      four rolls among its neighbours, and every roll left was a roll of
      `roles`. */
  predicate Settled(roles: seq<bool>, w: nat, f: Sweep)
  {
    |f.roles| == |roles| && AllInside(|roles|, f.kept, w) && Exact(f.roles, f.kept) &&
    (forall t :: 0 <= t < |f.kept| ==> Block(f.roles, f.kept[t], w) >= 5) &&
    (forall x :: 0 <= x < |roles| && f.roles[x] ==> roles[x])
  }

  /** Passes repeated until one removes nothing settle the grid. */
  lemma {:induction false} ErodeFinal(roles: seq<bool>, ps: seq<nat>, w: nat)
    requires AllInside(|roles|, ps, w) && Exact(roles, ps)
    ensures Settled(roles, w, Erode(roles, ps, w))
    decreases |ps|
  {
    var next := Pass(roles, ps, w);
    if |next.kept| == |ps| {
      PassStable(roles, ps, w);
    } else {
      PassKeepsSome(roles, ps, w);
      PassExact(roles, ps, w);
      PassTrack(roles, ps, w);
      ErodeFinal(next.roles, next.kept, w);
    }
  }

  /** The answer of `part_two`: `None` without a `'\n'`, else the rolls of
      the padded grid less the rolls left when a pass removes nothing. */
  function Removals(input: String): (r: Option<nat>)
    ensures r.None? <==> IndexFrom(input, '\n', 0) == |input|
  {
    var lineLength := IndexFrom(input, '\n', 0);
    if lineLength == |input| then None
    else
      var g := PaddedGrid(input, lineLength);
      PaddedRollsInside(input, lineLength);
      Some(|Rolls(g)| - |Erode(g, Rolls(g), lineLength + 2).kept|)
  }

  lemma {:induction false} RemovalsAre(input: String, lineLength: nat, g: seq<bool>, ps: seq<nat>, kept: seq<nat>, total: nat)
    requires lineLength == IndexFrom(input, '\n', 0) < |input|
    requires g == PaddedGrid(input, lineLength) && ps == Rolls(g) && AllInside(|g|, ps, lineLength + 2)
    requires Erode(g, ps, lineLength + 2).kept == kept && total + |kept| == |ps|
    ensures Removals(input) == Some(total)
  {
  }

  lemma {:induction false} RollsBody(prefix: seq<bool>, s: String)
    ensures |Rolls(prefix + Body(s))| == |Rolls(prefix)| + Count(s, '@')
    decreases |s|
  {
    if s == [] {
      assert prefix + Body(s) == prefix;
    } else {
      var m, c := s[..|s| - 1], s[|s| - 1];
      RollsBody(prefix, m);
      AppendAssoc(prefix, Body(m), Cells(c));
      if c == '@' {
        RollsPush(prefix + Body(m), true);
      } else if c == '.' {
        RollsPush(prefix + Body(m), false);
      } else if c == '\n' {
        RollsFalses(prefix + Body(m), 2);
        assert Falses(2) == [false, false];
      } else {
        assert prefix + Body(m) + Cells(c) == prefix + Body(m);
      }
    }
  }

  /** The padded grid holds one roll per `'@'` of the text. */
  lemma {:induction false} PaddedRollsCount(input: String, lineLength: nat)
    ensures |Rolls(PaddedGrid(input, lineLength))| == Count(input, '@')
  {
    var a := Falses(lineLength + 3);
    RollsFalses([], lineLength + 3);
    assert [] + a == a;
    RollsBody(a, input);
    var t: seq<bool> := if EndsWithNewline(input) then [] else [false, false];
    assert t == Falses(|t|);
    RollsFalses(a + Body(input), |t|);
    RollsFalses(a + Body(input) + t, lineLength + 2);
  }

  /** What `part_two` answers: the number of `'@'` less the rolls left when
      a pass removes nothing, and those left rolls are exactly the final
      positions, each with at least four rolls among its eight neighbours,
      and rolls from the start. */
  lemma {:induction false} RemovalsMeaning(input: String)
    requires IndexFrom(input, '\n', 0) < |input|
    ensures var lineLength := IndexFrom(input, '\n', 0);
      var g := PaddedGrid(input, lineLength);
      AllInside(|g|, Rolls(g), lineLength + 2) &&
      var f := Erode(g, Rolls(g), lineLength + 2);
      Removals(input) == Some(Count(input, '@') - |f.kept|) && Settled(g, lineLength + 2, f)
  {
    var lineLength := IndexFrom(input, '\n', 0);
    var g := PaddedGrid(input, lineLength);
    PaddedRollsInside(input, lineLength);
    PaddedRollsCount(input, lineLength);
    var kept := Erode(g, Rolls(g), lineLength + 2).kept;
    RemovalsAre(input, lineLength, g, Rolls(g), kept, |Rolls(g)| - |kept|);
    SettledGrid(g, lineLength + 2);
  }

  /** Eroding from all the rolls of a grid settles it. */
  lemma SettledGrid(g: seq<bool>, w: nat)
    requires AllInside(|g|, Rolls(g), w)
    ensures Settled(g, w, Erode(g, Rolls(g), w))
  {
    RollsExact(g);
    ErodeFinal(g, Rolls(g), w);
  }

  /** One pass of the loop of `part_two` (its `for &i in &positions`): the
      removable rolls are cleared in place, in the order of `positions`,
      and the others are pushed onto `newPositions`. */
  method RemovalPass(roles: array<bool>, positions: seq<nat>, stride: nat) returns (newPositions: seq<nat>, removed: nat)
    requires AllInside(roles.Length, positions, stride)
    modifies roles
    ensures Sweep(roles[..], newPositions) == Pass(old(roles[..]), positions, stride)
    ensures removed == |positions| - |newPositions|
  {
    removed := 0;
    newPositions := [];
    ghost var before := roles[..];
    for k := 0 to |positions|
      invariant Sweep(roles[..], newPositions) == Pass(before, positions[..k], stride)
      invariant removed + |newPositions| == k
    {
      var i := positions[k];
      assert positions[..k + 1][..k] == positions[..k];
      var removable := IsRemovable(roles, i, stride);
      if removable {
        roles[i] := false;
        removed := removed + 1;
      } else {
        newPositions := newPositions + [i];
      }
    }
    assert positions[..|positions|] == positions;
  }

  /** `part_two`: removes, pass after pass, the removable rolls of the
      padded grid in place, visiting them in increasing order and keeping
      the survivors for the next pass, until a pass removes nothing. */
  method PartTwo(input: String) returns (r: Option<nat>)
    ensures r == Removals(input)
  {
    var lineLength := IndexFrom(input, '\n', 0);
    if lineLength == |input| {
      return None;
    }
    var grid, positions := CreatePaddedGrid(input, lineLength);
    var roles := new bool[|grid|](t requires 0 <= t < |grid| => grid[t]);
    assert roles[..] == grid;
    var stride := lineLength + 2;
    PaddedRollsInside(input, lineLength);
    var totalRemoved := RemoveUntilStable(roles, positions, stride);
    RemovalsAre(input, lineLength, grid, positions, Erode(grid, positions, stride).kept, totalRemoved);
    return Some(totalRemoved);
  }

  /** The loop of `part_two`: passes over the surviving positions until a
      pass removes nothing; the rolls removed are those `Erode` drops. */
  method RemoveUntilStable(roles: array<bool>, positions0: seq<nat>, stride: nat) returns (totalRemoved: nat)
    requires AllInside(roles.Length, positions0, stride)
    modifies roles
    ensures totalRemoved + |Erode(old(roles[..]), positions0, stride).kept| == |positions0|
  {
    ghost var grid := roles[..];
    var positions := positions0;
    totalRemoved := 0;
    while true
      invariant AllInside(roles.Length, positions, stride)
      invariant Erode(roles[..], positions, stride) == Erode(grid, positions0, stride)
      invariant totalRemoved + |positions| == |positions0|
      decreases |positions|
    {
      ghost var before := roles[..];
      var newPositions, removed := RemovalPass(roles, positions, stride);
      if removed == 0 {
        assert Erode(before, positions, stride) == Sweep(before, positions);
        return;
      }
      totalRemoved := totalRemoved + removed;
      PassKeepsSome(before, positions, stride);
      positions := newPositions;
    }
  }
}
