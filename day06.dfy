/** Day 6 (src/bin/06.rs): a worksheet of arithmetic problems. Part one reads
    the numbers row by row and folds each column with the operator written
    under it; part two reads every character column top to bottom as one
    number and closes a problem at a column that reads as zero. */
module Day06 {
  import opened Base
  import opened Text

  /** `Operation`. */
  datatype Op = Add | Multiply

  /** `Operation::apply`. */
  function Apply(op: Op, a: nat, b: nat): nat
  {
    match op
    case Add => a + b
    case Multiply => a * b
  }

  /** `op` folded over `xs` from the left, starting from `acc`. */
  function Fold(op: Op, acc: nat, xs: seq<nat>): nat
    decreases |xs|
  {
    if xs == [] then acc else Fold(op, Apply(op, acc, xs[0]), xs[1..])
  }

  /** Folding one more element applies `op` once more at the end. */
  lemma {:induction false} FoldSnoc(op: Op, acc: nat, xs: seq<nat>, y: nat)
    ensures Fold(op, acc, xs + [y]) == Apply(op, Fold(op, acc, xs), y)
    decreases |xs|
  {
    if xs == [] {
      assert ([] + [y])[1..] == [];
    } else {
      FoldSnoc(op, Apply(op, acc, xs[0]), xs[1..], y);
      assert (xs + [y])[1..] == xs[1..] + [y];
    }
  }

  /** Folding with `Add` adds the elements to the start value. */
  lemma {:induction false} FoldAdd(acc: nat, xs: seq<nat>)
    ensures Fold(Add, acc, xs) == acc + SumNat(xs)
    decreases |xs|
  {
    if xs != [] {
      var m := |xs| - 1;
      FoldAdd(acc, xs[..m]);
      FoldSnoc(Add, acc, xs[..m], xs[m]);
      assert xs[..m] + [xs[m]] == xs;
    }
  }

  /** Folding with `Multiply` multiplies the start value by the elements. */
  lemma {:induction false} FoldMultiply(acc: nat, xs: seq<nat>)
    ensures Fold(Multiply, acc, xs) == acc * Product(xs)
    decreases |xs|
  {
    if xs != [] {
      var m := |xs| - 1;
      FoldMultiply(acc, xs[..m]);
      FoldSnoc(Multiply, acc, xs[..m], xs[m]);
      assert xs[..m] + [xs[m]] == xs;
      assert acc * Product(xs[..m]) * xs[m] == acc * (Product(xs[..m]) * xs[m]);
    }
  }

  /* ---- Part one ---- */

  /** A line starting with `*` or `+` is the operator line. */
  predicate IsOpLine(line: String)
  {
    |line| > 0 && (line[0] == '*' || line[0] == '+')
  }

  /** The operator a byte names, if any. */
  function OpChar(c: char): seq<Op>
  {
    if c == '+' then [Add] else if c == '*' then [Multiply] else []
  }

  /** The operator a word names, if any: a word of part one is an operator
      only when it is exactly `+` or `*`. */
  function OpWord(word: String): seq<Op>
  {
    if |word| == 1 then OpChar(word[0]) else []
  }

  /** The operators among the words of the operator line, in order; other words are skipped. */
  function OpsIn(words: seq<String>): seq<Op>
  {
    FlatMap(OpWord, words)
  }

  /** The numbers of a line appended to `data`; `None` when a word does not
      parse as `u64` and `unwrap` panics. */
  function NumbersFrom(words: seq<String>, data: seq<nat>): Option<seq<nat>>
    decreases |words|
  {
    if words == [] then Some(data)
    else
      match ParseUnsigned(words[0], U64_MAX)
      case None => None
      case Some(v) => NumbersFrom(words[1..], data + [v])
  }

  /** `parse_input_1` on the lines still to read, with what has been collected so far. */
  function ParseLines(lines: seq<String>, data: seq<nat>, ops: seq<Op>): Option<(seq<nat>, seq<Op>)>
    decreases |lines|
  {
    if lines == [] then Some((data, ops))
    else if IsOpLine(lines[0]) then ParseLines(lines[1..], data, ops + OpsIn(Words(lines[0])))
    else
      match NumbersFrom(Words(lines[0]), data)
      case None => None
      case Some(more) => ParseLines(lines[1..], more, ops)
  }

  /** `parse_input_1`: the numbers of every other line in row-major order, and
      the operators of the operator lines. */
  method ParseInput1(input: String) returns (parsed: Option<(seq<nat>, seq<Op>)>)
    ensures parsed == ParseLines(Lines(input), [], [])
  {
    var lines := Lines(input);
    var data: seq<nat> := [];
    var ops: seq<Op> := [];
    for i := 0 to |lines|
      invariant ParseLines(lines[i..], data, ops) == ParseLines(lines, [], [])
    {
      ParseLinesStep(lines, i, data, ops);
      var words := Words(lines[i]);
      if IsOpLine(lines[i]) {
        ops := ReadOps(words, ops);
      } else {
        var more := ReadNumbers(words, data);
        if more.None? {
          return None;
        }
        data := more.value;
      }
    }
    parsed := Some((data, ops));
  }

  /** One line of `parse_input_1`: the rest of the lines after line `i`. */
  lemma ParseLinesStep(lines: seq<String>, i: nat, data: seq<nat>, ops: seq<Op>)
    requires i < |lines|
    ensures ParseLines(lines[i..], data, ops) ==
      if IsOpLine(lines[i]) then ParseLines(lines[i + 1..], data, ops + OpsIn(Words(lines[i])))
      else match NumbersFrom(Words(lines[i]), data)
        case None => None
        case Some(more) => ParseLines(lines[i + 1..], more, ops)
  {
    assert lines[i..][1..] == lines[i + 1..];
  }

  /** The inner loop over an operator line: keep the words that are `+` or `*`. */
  method ReadOps(words: seq<String>, ops0: seq<Op>) returns (ops: seq<Op>)
    ensures ops == ops0 + OpsIn(words)
  {
    ops := ops0;
    for j := 0 to |words|
      invariant ops == ops0 + OpsIn(words[..j])
    {
      assert words[..j + 1][..j] == words[..j];
      if |words[j]| == 1 && words[j][0] == '+' {
        ops := ops + [Add];
      } else if |words[j]| == 1 && words[j][0] == '*' {
        ops := ops + [Multiply];
      }
    }
    assert words[..|words|] == words;
  }

  /** The inner loop over a number line: parse every word as `u64`. */
  method ReadNumbers(words: seq<String>, data0: seq<nat>) returns (data: Option<seq<nat>>)
    ensures data == NumbersFrom(words, data0)
  {
    var acc := data0;
    for j := 0 to |words|
      invariant NumbersFrom(words[j..], acc) == NumbersFrom(words, data0)
    {
      assert words[j..][1..] == words[j + 1..];
      var value := ParseUnsigned(words[j], U64_MAX);
      if value.None? {
        return None;
      }
      acc := acc + [value.value];
    }
    return Some(acc);
  }

  function Symbol(op: Op): char
  {
    match op
    case Add => '+'
    case Multiply => '*'
  }

  function ShowOp(op: Op): String
  {
    [Symbol(op)]
  }

  function ShowOps(ops: seq<Op>): (r: seq<String>)
    ensures |r| == |ops| && forall k :: 0 <= k < |ops| ==> r[k] == ShowOp(ops[k])
  {
    if ops == [] then [] else [ShowOp(ops[0])] + ShowOps(ops[1..])
  }

  function ShowNumbers(row: seq<nat>): (r: seq<String>)
    ensures |r| == |row| && forall k :: 0 <= k < |row| ==> r[k] == ToDecimal(row[k])
  {
    if row == [] then [] else [ToDecimal(row[0])] + ShowNumbers(row[1..])
  }

  /** A row of numbers written on one line, separated by single spaces. */
  function ShowRow(row: seq<nat>): String
  {
    Join(ShowNumbers(row), ' ')
  }

  function ShowRows(rows: seq<seq<nat>>): (r: seq<String>)
    ensures |r| == |rows| && forall k :: 0 <= k < |rows| ==> r[k] == ShowRow(rows[k])
  {
    if rows == [] then [] else [ShowRow(rows[0])] + ShowRows(rows[1..])
  }

  /** The rows one after another. */
  function Flatten(rows: seq<seq<nat>>): seq<nat>
  {
    if rows == [] then [] else rows[0] + Flatten(rows[1..])
  }

  lemma DecimalWord(v: nat)
    ensures ToDecimal(v) != [] && forall j :: 0 <= j < |ToDecimal(v)| ==> !IsSpace(ToDecimal(v)[j]) && IsDigit(ToDecimal(v)[j])
  {
  }

  lemma {:induction false} OpsInShown(ops: seq<Op>)
    ensures OpsIn(ShowOps(ops)) == ops
    decreases |ops|
  {
    if ops != [] {
      var m := |ops| - 1;
      OpsInShown(ops[..m]);
      assert ShowOps(ops)[..m] == ShowOps(ops[..m]);
      assert OpWord(ShowOp(ops[m])) == [ops[m]];
      assert ops[..m] + [ops[m]] == ops;
    }
  }

  lemma {:induction false} NumbersFromShown(row: seq<nat>, data: seq<nat>)
    requires forall k :: 0 <= k < |row| ==> row[k] <= U64_MAX
    ensures NumbersFrom(ShowNumbers(row), data) == Some(data + row)
    decreases |row|
  {
    if row == [] {
      assert data + row == data;
    } else {
      ParseUnsignedRoundTrip(row[0], U64_MAX);
      NumbersFromShown(row[1..], data + [row[0]]);
      assert data + [row[0]] + row[1..] == data + row;
    }
  }

  /** One written row: its words are its numbers, and it is not the operator line. */
  lemma ShownRow(row: seq<nat>)
    ensures Words(ShowRow(row)) == ShowNumbers(row)
    ensures !IsOpLine(ShowRow(row)) && '\n' !in ShowRow(row)
  {
    var parts := ShowNumbers(row);
    forall k | 0 <= k < |parts|
      ensures parts[k] != [] && forall j :: 0 <= j < |parts[k]| ==> !IsSpace(parts[k][j])
    {
      DecimalWord(row[k]);
    }
    WordsJoin(parts);
    if row != [] {
      DecimalWord(row[0]);
      assert ShowRow(row)[0] == ToDecimal(row[0])[0];
    }
    NoNewline(parts);
  }

  lemma {:induction false} NoNewline(parts: seq<String>)
    requires forall k :: 0 <= k < |parts| ==> forall j :: 0 <= j < |parts[k]| ==> !IsSpace(parts[k][j])
    ensures '\n' !in Join(parts, ' ')
    decreases |parts|
  {
    if |parts| > 1 {
      NoNewline(parts[1..]);
    }
  }

  /** The operator line: its words are the operators, and it starts with one. */
  lemma ShownOps(ops: seq<Op>)
    requires ops != []
    ensures Words(Join(ShowOps(ops), ' ')) == ShowOps(ops)
    ensures IsOpLine(Join(ShowOps(ops), ' ')) && '\n' !in Join(ShowOps(ops), ' ')
  {
    var parts := ShowOps(ops);
    WordsJoin(parts);
    NoNewline(parts);
    assert Join(parts, ' ')[0] == parts[0][0];
  }

  /** `line` is a number line that holds exactly the numbers `row`. */
  ghost predicate RowLine(line: String, row: seq<nat>)
  {
    !IsOpLine(line) && forall data :: NumbersFrom(Words(line), data) == Some(data + row)
  }

  lemma ShownRowLine(row: seq<nat>)
    requires forall k :: 0 <= k < |row| ==> row[k] <= U64_MAX
    ensures RowLine(ShowRow(row), row)
  {
    ShownRow(row);
    forall data ensures NumbersFrom(Words(ShowRow(row)), data) == Some(data + row) {
      NumbersFromShown(row, data);
    }
  }

  /** Reading one number line appends its numbers. */
  lemma ParseNumberLine(line: String, rest: seq<String>, row: seq<nat>, data: seq<nat>, ops: seq<Op>)
    requires RowLine(line, row)
    ensures ParseLines([line] + rest, data, ops) == ParseLines(rest, data + row, ops)
  {
    assert NumbersFrom(Words(line), data) == Some(data + row);
    assert ([line] + rest)[1..] == rest;
  }

  /** Reading the operator line appends its operators. */
  lemma ParseOpLine(line: String, data: seq<nat>, ops: seq<Op>)
    requires IsOpLine(line)
    ensures ParseLines([line], data, ops) == Some((data, ops + OpsIn(Words(line))))
  {
    assert [line][1..] == [];
  }

  lemma {:induction false} ParseRowLines(lines: seq<String>, rows: seq<seq<nat>>, last: String, data: seq<nat>, ops: seq<Op>)
    requires |lines| == |rows| && forall r :: 0 <= r < |rows| ==> RowLine(lines[r], rows[r])
    ensures ParseLines(lines + [last], data, ops) == ParseLines([last], data + Flatten(rows), ops)
    decreases |rows|
  {
    if rows == [] {
      assert data + Flatten(rows) == data;
      assert lines + [last] == [last];
    } else {
      var rest := lines[1..] + [last];
      FirstThenRest(lines, last);
      ParseNumberLine(lines[0], rest, rows[0], data, ops);
      ParseRowLines(lines[1..], rows[1..], last, data + rows[0], ops);
      FlattenFirst(data, rows);
    }
  }

  lemma FirstThenRest(lines: seq<String>, last: String)
    requires lines != []
    ensures lines + [last] == [lines[0]] + (lines[1..] + [last])
  {
  }

  lemma FlattenFirst(data: seq<nat>, rows: seq<seq<nat>>)
    requires rows != []
    ensures data + rows[0] + Flatten(rows[1..]) == data + Flatten(rows)
  {
  }

  /** A worksheet written as rows of numbers over an operator line parses back
      to the numbers in row-major order and the operators. */
  lemma ParseInput1RoundTrip(rows: seq<seq<nat>>, ops: seq<Op>)
    requires ops != []
    requires forall r :: 0 <= r < |rows| ==> forall k :: 0 <= k < |rows[r]| ==> rows[r][k] <= U64_MAX
    ensures ParseLines(Lines(Unlines(ShowRows(rows) + [Join(ShowOps(ops), ' ')])), [], []) == Some((Flatten(rows), ops))
  {
    var last := Join(ShowOps(ops), ' ');
    var shown := ShowRows(rows);
    var lines := shown + [last];
    ShownOps(ops);
    forall k | 0 <= k < |lines| ensures '\n' !in lines[k] {
      if k < |rows| {
        ShownRow(rows[k]);
      }
    }
    LinesUnlines(lines);
    forall r | 0 <= r < |rows| ensures RowLine(shown[r], rows[r]) {
      ShownRowLine(rows[r]);
    }
    ParseRowLines(shown, rows, last, [], []);
    ParseOpLine(last, Flatten(rows), []);
    OpsInShown(ops);
    assert [] + ops == ops;
    assert [] + Flatten(rows) == Flatten(rows);
  }

  /** The entries of a row-major table with `stride` columns at positions
      `p`, `p + stride`, `p + 2 * stride`, ... below `|d|`: a column read downwards. */
  function Column(d: seq<nat>, stride: nat, p: nat): seq<nat>
    requires stride > 0
    decreases |d| - p
  {
    if p >= |d| then [] else [d[p]] + Column(d, stride, p + stride)
  }

  /** Entry `k` of a column lies `k` rows below its top. */
  lemma {:induction false} ColumnEntry(d: seq<nat>, stride: nat, p: nat, k: nat)
    requires stride > 0 && k < |Column(d, stride, p)|
    ensures p + k * stride < |d| && Column(d, stride, p)[k] == d[p + k * stride]
    decreases k
  {
    if k > 0 {
      ColumnEntry(d, stride, p + stride, k - 1);
      assert p + stride + (k - 1) * stride == p + k * stride;
    }
  }

  /** A column runs down to the last row of the table. */
  lemma {:induction false} ColumnLength(d: seq<nat>, stride: nat, p: nat)
    requires stride > 0
    ensures p + |Column(d, stride, p)| * stride >= |d|
    decreases |d| - p
  {
    if p < |d| {
      var n := |Column(d, stride, p + stride)|;
      ColumnLength(d, stride, p + stride);
      assert p + (n + 1) * stride == p + stride + n * stride;
    }
  }

  /** `acc` folded with `op` over the entries `d[q]`, `d[q + stride]`, ...
      below `|d|`: what the rows from position `q` on still add to a column. */
  function FoldColumn(op: Op, acc: nat, d: seq<nat>, stride: nat, q: nat): nat
    requires stride > 0
    decreases |d| - q
  {
    if q >= |d| then acc else FoldColumn(op, Apply(op, acc, d[q]), d, stride, q + stride)
  }

  /** Folding row by row is folding over the column. */
  lemma {:induction false} FoldColumnIsFold(op: Op, acc: nat, d: seq<nat>, stride: nat, q: nat)
    requires stride > 0
    ensures FoldColumn(op, acc, d, stride, q) == Fold(op, acc, Column(d, stride, q))
    decreases |d| - q
  {
    if q < |d| {
      FoldColumnIsFold(op, Apply(op, acc, d[q]), d, stride, q + stride);
      assert Column(d, stride, q)[1..] == Column(d, stride, q + stride);
    }
  }

  /** What `do_homework_1` leaves in entry `c` of the first row: the first
      entry of column `c` folded with `op_c` over the entries below it. */
  function ColumnResult(d: seq<nat>, ops: seq<Op>, c: nat): nat
    requires c < |ops| <= |d|
  {
    FoldColumn(ops[c], d[c], d, |ops|, c + |ops|)
  }

  /** The answer of part one for a table and its operators; `None` where
      `chunks(0)` (no operators) or `split_at_mut` (a table shorter than one
      row) panics. */
  function Homework1(d: seq<nat>, ops: seq<Op>): Option<nat>
  {
    if |ops| == 0 || |d| < |ops| then None
    else Some(SumNat(seq(|ops|, c requires 0 <= c < |ops| => ColumnResult(d, ops, c))))
  }

  /** With `Add` a column's result is the sum of the column, with `Multiply` its product. */
  lemma {:induction false} ColumnResultMeaning(d: seq<nat>, ops: seq<Op>, c: nat)
    requires c < |ops| <= |d|
    ensures ops[c] == Add ==> ColumnResult(d, ops, c) == SumNat(Column(d, |ops|, c))
    ensures ops[c] == Multiply ==> ColumnResult(d, ops, c) == Product(Column(d, |ops|, c))
  {
    var col := Column(d, |ops|, c);
    assert col == [d[c]] + Column(d, |ops|, c + |ops|);
    FoldColumnIsFold(ops[c], d[c], d, |ops|, c + |ops|);
    FoldAdd(d[c], col[1..]);
    FoldMultiply(d[c], col[1..]);
    FoldAdd(0, col);
    FoldMultiply(1, col);
    assert Fold(Add, 0, col) == Fold(Add, d[c], col[1..]);
    assert Fold(Multiply, 1, col) == Fold(Multiply, d[c], col[1..]);
  }

  /** The inner loop of `do_homework_1`: the row starting at `b` is folded
      into the first row, column by column; a short last row stops early. */
  method FoldRow(data: array<nat>, ops: seq<Op>, b: nat)
    requires |ops| <= b < data.Length
    modifies data
    ensures forall e :: 0 <= e < |ops| ==>
      data[e] == if b + e < data.Length then Apply(ops[e], old(data[e]), old(data[b + e])) else old(data[e])
    ensures forall q :: |ops| <= q < data.Length ==> data[q] == old(data[q])
  {
    var c := 0;
    while c < |ops| && b + c < data.Length
      invariant 0 <= c <= |ops| && b + c <= data.Length
      invariant forall e :: 0 <= e < c ==> data[e] == Apply(ops[e], old(data[e]), old(data[b + e]))
      invariant forall e :: c <= e < data.Length ==> data[e] == old(data[e])
    {
      data[c] := Apply(ops[c], data[c], data[b + c]);
      c := c + 1;
    }
  }

  /** `do_homework_1`: the rows after the first are folded into the first row
      in place, then the first row is summed. */
  method DoHomework1(data: array<nat>, ops: seq<Op>) returns (answer: Option<nat>)
    modifies data
    ensures answer == Homework1(old(data[..]), ops)
    ensures answer.None? ==> data[..] == old(data[..])
    ensures answer.Some? ==>
      (forall c :: 0 <= c < |ops| ==> data[c] == ColumnResult(old(data[..]), ops, c)) &&
      data[|ops|..] == old(data[|ops|..])
  {
    var stride := |ops|;
    if stride == 0 || data.Length < stride {
      return None;
    }
    ghost var d := data[..];
    var b := stride;
    while b < data.Length
      invariant stride <= b
      invariant forall q :: stride <= q < data.Length ==> data[q] == d[q]
      invariant forall c :: 0 <= c < stride ==> FoldColumn(ops[c], data[c], d, stride, b + c) == ColumnResult(d, ops, c)
      decreases data.Length - b
    {
      ghost var before := data[..];
      FoldRow(data, ops, b);
      forall c | 0 <= c < stride
        ensures FoldColumn(ops[c], data[c], d, stride, b + stride + c) == FoldColumn(ops[c], before[c], d, stride, b + c)
      {
        if b + c < data.Length {
          assert data[c] == Apply(ops[c], before[c], d[b + c]);
        }
      }
      b := b + stride;
    }
    assert data[stride..] == d[stride..];
    assert data[..stride] == seq(stride, c requires 0 <= c < stride => ColumnResult(d, ops, c));
    answer := Some(SumNat(data[..stride]));
  }

  /** `part_one`. */
  method PartOne(input: String) returns (answer: Option<nat>)
    ensures match ParseLines(Lines(input), [], [])
      case None => answer == None
      case Some((d, ops)) => answer == Homework1(d, ops)
  {
    var parsed := ParseInput1(input);
    if parsed.None? {
      return None;
    }
    var (d, ops) := parsed.value;
    var data := new nat[|d|](i requires 0 <= i < |d| => d[i]);
    assert data[..] == d;
    answer := DoHomework1(data, ops);
  }

  /* ---- Part two ---- */

  /** The operators of the last line, read byte by byte: `+` and `*` count, anything else is skipped. */
  function OpsOf(line: String): seq<Op>
  {
    FlatMap(OpChar, line)
  }

  /** `parse_input_2`: all lines but the last, and the operators of the last;
      `None` where `pop().unwrap()` panics on text with no lines. */
  function ParseInput2(input: String): Option<(seq<String>, seq<Op>)>
  {
    var lines := Lines(input);
    if lines == [] then None else Some((lines[..|lines| - 1], OpsOf(lines[|lines| - 1])))
  }

  /** The operator line of part one reads the same in part two. */
  lemma {:induction false} OpsOfShown(ops: seq<Op>)
    ensures OpsOf(Join(ShowOps(ops), ' ')) == ops
    decreases |ops|
  {
    if |ops| == 1 {
      assert FlatMap(OpChar, ShowOp(ops[0])) == [ops[0]] by {
        assert ShowOp(ops[0])[..0] == [];
      }
    } else if |ops| > 1 {
      var rest := Join(ShowOps(ops)[1..], ' ');
      OpsOfShown(ops[1..]);
      assert ShowOps(ops)[1..] == ShowOps(ops[1..]);
      assert ShowOp(ops[0]) + [' '] == [Symbol(ops[0]), ' '];
      FlatMapAppend(OpChar, [Symbol(ops[0]), ' '], rest);
      assert FlatMap(OpChar, [Symbol(ops[0]), ' ']) == [ops[0]] by {
        assert [Symbol(ops[0]), ' '][..1] == [Symbol(ops[0])];
        assert [Symbol(ops[0])][..0] == [];
      }
      assert ops == [ops[0]] + ops[1..];
    }
  }

  /** `split_off_first` on a line: the line without its first byte, if it has one. */
  function Behead(line: String): String
  {
    if line == [] then [] else line[1..]
  }

  /** One column step: every line loses its first byte. */
  function Advance(lines: seq<String>): (r: seq<String>)
    ensures |r| == |lines|
  {
    seq(|lines|, i requires 0 <= i < |lines| => Behead(lines[i]))
  }

  /** The first byte of a line when it is a digit. */
  function HeadDigit(line: String): (s: String)
    ensures AllDigits(s)
  {
    if line != [] && IsDigit(line[0]) then [line[0]] else []
  }

  /** The digits at the front of the lines, top to bottom; lines that are
      empty or start with another byte contribute nothing. */
  function ColumnDigits(lines: seq<String>): String
  {
    FlatMap(HeadDigit, lines)
  }

  lemma {:induction false} ColumnDigitsAreDigits(lines: seq<String>)
    ensures AllDigits(ColumnDigits(lines))
  {
    if lines != [] {
      ColumnDigitsAreDigits(lines[..|lines| - 1]);
    }
  }

  /** The number a column reads as. */
  function ColumnNumber(lines: seq<String>): nat
  {
    ColumnDigitsAreDigits(lines);
    DecimalValue(ColumnDigits(lines))
  }

  /** Total number of bytes left in the lines. */
  function TotalLength(lines: seq<String>): nat
  {
    if lines == [] then 0 else TotalLength(lines[..|lines| - 1]) + |lines[|lines| - 1]|
  }

  /** A column with a digit in it consumes at least one byte. */
  lemma {:induction false} AdvanceShrinks(lines: seq<String>)
    ensures TotalLength(Advance(lines)) <= TotalLength(lines)
    ensures ColumnDigits(lines) != [] ==> TotalLength(Advance(lines)) < TotalLength(lines)
    decreases |lines|
  {
    if lines != [] {
      var m := |lines| - 1;
      AdvanceShrinks(lines[..m]);
      assert Advance(lines)[..m] == Advance(lines[..m]);
    }
  }

  /** One problem of part two. */
  datatype Problem = Problem(numbers: seq<nat>, rest: seq<String>)

  /** The numbers of the columns up to the first one that reads as zero, and
      the lines after that column. */
  function NextProblem(lines: seq<String>): Problem
    decreases TotalLength(lines)
  {
    var v := ColumnNumber(lines);
    if v == 0 then Problem([], Advance(lines))
    else
      AdvanceShrinks(lines);
      var p := NextProblem(Advance(lines));
      Problem([v] + p.numbers, p.rest)
  }

  /** The lines with their first `k` bytes removed. */
  function Shift(lines: seq<String>, k: nat): (r: seq<String>)
    ensures |r| == |lines|
  {
    seq(|lines|, i requires 0 <= i < |lines| => lines[i][Min(k, |lines[i]|)..])
  }

  lemma ShiftAdvance(lines: seq<String>, k: nat)
    ensures Advance(Shift(lines, k)) == Shift(lines, k + 1)
  {
    forall i | 0 <= i < |lines| ensures Advance(Shift(lines, k))[i] == Shift(lines, k + 1)[i] {
      var l := lines[i];
      if k < |l| {
        assert l[k..][1..] == l[k + 1..];
      }
    }
  }

  /** The lines after `j` column steps. */
  function AdvanceBy(lines: seq<String>, j: nat): seq<String>
  {
    if j == 0 then lines else Advance(AdvanceBy(lines, j - 1))
  }

  /** After `j` column steps every line has lost its first `j` bytes. */
  lemma {:induction false} AdvanceByShift(lines: seq<String>, j: nat)
    ensures AdvanceBy(lines, j) == Shift(lines, j)
  {
    if j == 0 {
      assert Shift(lines, 0) == lines;
    } else {
      AdvanceByShift(lines, j - 1);
      ShiftAdvance(lines, j - 1);
    }
  }

  lemma {:induction false} AdvanceByFront(lines: seq<String>, j: nat)
    ensures AdvanceBy(Advance(lines), j) == AdvanceBy(lines, j + 1)
  {
    if j > 0 {
      AdvanceByFront(lines, j - 1);
    }
  }

  /** Number `j` of a problem is the reading of column `j`, and it is not zero. */
  lemma {:induction false} ProblemNumber(lines: seq<String>, j: nat)
    requires j < |NextProblem(lines).numbers|
    ensures NextProblem(lines).numbers[j] == ColumnNumber(AdvanceBy(lines, j)) != 0
    decreases j
  {
    AdvanceShrinks(lines);
    var v := ColumnNumber(lines);
    assert v != 0;
    var q := NextProblem(Advance(lines));
    assert NextProblem(lines).numbers == [v] + q.numbers;
    if j > 0 {
      ProblemNumber(Advance(lines), j - 1);
      AdvanceByFront(lines, j - 1);
      assert NextProblem(lines).numbers[j] == q.numbers[j - 1];
    }
  }

  /** A problem ends at the first column that reads as zero, and that column
      is consumed with it. */
  lemma {:induction false} ProblemEnd(lines: seq<String>)
    ensures var p := NextProblem(lines);
      ColumnNumber(AdvanceBy(lines, |p.numbers|)) == 0 && p.rest == AdvanceBy(lines, |p.numbers| + 1)
    decreases TotalLength(lines)
  {
    if ColumnNumber(lines) != 0 {
      AdvanceShrinks(lines);
      var q := NextProblem(Advance(lines));
      ProblemEnd(Advance(lines));
      AdvanceByFront(lines, |q.numbers|);
      AdvanceByFront(lines, |q.numbers| + 1);
    }
  }

  /** `numbers.iter().copied().reduce(|acc, x| op.apply(acc, x)).unwrap_or(0)`. */
  function Reduce(op: Op, numbers: seq<nat>): nat
  {
    if numbers == [] then 0 else Fold(op, numbers[0], numbers[1..])
  }

  /** The reduction is the sum or the product of the numbers, and 0 for none. */
  lemma ReduceMeaning(op: Op, numbers: seq<nat>)
    ensures op == Add ==> Reduce(op, numbers) == SumNat(numbers)
    ensures op == Multiply && numbers != [] ==> Reduce(op, numbers) == Product(numbers)
    ensures numbers == [] ==> Reduce(op, numbers) == 0
  {
    if numbers != [] {
      FoldAdd(0, numbers);
      FoldMultiply(1, numbers);
      assert Fold(Add, 0, numbers) == Fold(Add, numbers[0], numbers[1..]);
      assert Fold(Multiply, 1, numbers) == Fold(Multiply, numbers[0], numbers[1..]);
    }
  }

  /** The answer of part two: one problem per operator, in order. */
  function Homework2(lines: seq<String>, ops: seq<Op>): nat
    decreases |ops|
  {
    if ops == [] then 0
    else
      var p := NextProblem(lines);
      Reduce(ops[0], p.numbers) + Homework2(p.rest, ops[1..])
  }

  /** The innermost loop of `do_homework_2`: take the first byte of every line
      and read the digits among them, top to bottom, as one number. */
  method ReadColumn(lines: array<String>) returns (number: nat)
    modifies lines
    ensures number == ColumnNumber(old(lines[..]))
    ensures lines[..] == Advance(old(lines[..]))
  {
    ghost var start := lines[..];
    number := 0;
    for i := 0 to lines.Length
      invariant forall t :: 0 <= t < i ==> lines[t] == Behead(start[t])
      invariant forall t :: i <= t < lines.Length ==> lines[t] == start[t]
      invariant number == ColumnNumber(start[..i])
    {
      ColumnNumberStep(start, i);
      var line := lines[i];
      if line != [] {
        var digit := line[0];
        lines[i] := line[1..];
        if IsDigit(digit) {
          number := 10 * number + DigitValue(digit);
        }
      }
    }
    assert start[..lines.Length] == start;
  }

  /** One more line adds its leading digit, if any, to the column's number. */
  lemma ColumnNumberStep(lines: seq<String>, i: nat)
    requires i < |lines|
    ensures ColumnNumber(lines[..i + 1]) ==
      if lines[i] != [] && IsDigit(lines[i][0]) then 10 * ColumnNumber(lines[..i]) + DigitValue(lines[i][0])
      else ColumnNumber(lines[..i])
  {
    var s := ColumnDigits(lines[..i]);
    ColumnDigitsAreDigits(lines[..i]);
    assert lines[..i + 1][..i] == lines[..i];
    assert ColumnDigits(lines[..i + 1]) == s + HeadDigit(lines[i]);
    if lines[i] != [] && IsDigit(lines[i][0]) {
      assert (s + [lines[i][0]])[..|s|] == s;
    } else {
      assert s + [] == s;
    }
  }

  /** The `loop` of `do_homework_2`: read columns into `numbers` until one
      reads as zero, then reduce them with `op`. */
  method SolveProblem(lines: array<String>, op: Op) returns (result: nat)
    modifies lines
    ensures result == Reduce(op, NextProblem(old(lines[..])).numbers)
    ensures lines[..] == NextProblem(old(lines[..])).rest
  {
    ghost var start := lines[..];
    var numbers: seq<nat> := [];
    while true
      invariant numbers + NextProblem(lines[..]).numbers == NextProblem(start).numbers
      invariant NextProblem(lines[..]).rest == NextProblem(start).rest
      decreases TotalLength(lines[..])
    {
      ghost var before := lines[..];
      var number := ReadColumn(lines);
      if number == 0 {
        result := Reduce(op, numbers);
        assert numbers + [] == numbers;
        return;
      }
      AdvanceShrinks(before);
      assert numbers + ([number] + NextProblem(lines[..]).numbers) == (numbers + [number]) + NextProblem(lines[..]).numbers;
      numbers := numbers + [number];
    }
  }

  /** `do_homework_2`: one problem per operator, their results added up. */
  method DoHomework2(lines: array<String>, ops: seq<Op>) returns (answer: nat)
    modifies lines
    ensures answer == Homework2(old(lines[..]), ops)
  {
    ghost var start := lines[..];
    answer := 0;
    for k := 0 to |ops|
      invariant answer + Homework2(lines[..], ops[k..]) == Homework2(start, ops)
    {
      assert ops[k..][1..] == ops[k + 1..];
      var result := SolveProblem(lines, ops[k]);
      answer := answer + result;
    }
  }

  /** `part_two`. */
  method PartTwo(input: String) returns (answer: Option<nat>)
    ensures match ParseInput2(input)
      case None => answer == None
      case Some((ls, ops)) => answer == Some(Homework2(ls, ops))
  {
    var parsed := ParseInput2(input);
    if parsed.None? {
      return None;
    }
    var (ls, ops) := parsed.value;
    var lines := new String[|ls|](i requires 0 <= i < |ls| => ls[i]);
    assert lines[..] == ls;
    var total := DoHomework2(lines, ops);
    answer := Some(total);
  }
}
