/** Day 3: every line is a bank of batteries written as digits. A bank's
    joltage is the largest number spelt by `n` of its digits kept in their
    order; the answer sums the joltages of all banks, for `n == 2` (part one)
    and `n == 12` (part two). The solver picks the digits greedily: the first
    largest digit of the window that still leaves room for the remaining
    ones. */
module Day03 {
  import opened Base
  import opened Text

  /** The position the scan `if v > max { max = v; j = idx }` ends on over
      the window `line[lo..hi]`: it moves only on a character larger than
      all before it. */
  function FirstMaxIn(line: String, lo: nat, hi: nat): (j: nat)
    requires lo < hi <= |line|
    ensures lo <= j < hi
    decreases hi
  {
    if hi == lo + 1 then lo
    else
      var j := FirstMaxIn(line, lo, hi - 1);
      if line[hi - 1] > line[j] then hi - 1 else j
  }

  /** The scan finds the first occurrence of the largest character of the
      window. */
  lemma {:induction false} FirstMaxIsFirstLargest(line: String, lo: nat, hi: nat)
    requires lo < hi <= |line|
    ensures forall k :: lo <= k < hi ==> line[k] <= line[FirstMaxIn(line, lo, hi)]
    ensures forall k :: lo <= k < FirstMaxIn(line, lo, hi) ==> line[k] < line[FirstMaxIn(line, lo, hi)]
    decreases hi
  {
    if hi > lo + 1 {
      FirstMaxIsFirstLargest(line, lo, hi - 1);
    }
  }

  /** The positions the solver picks for `k` more digits from `cursor` on:
      the first largest character of the window that leaves `k - 1`
      characters after it, then the picks for `k - 1` digits after that one. */
  function Picks(line: String, cursor: nat, k: nat): (p: seq<nat>)
    requires cursor + k <= |line|
    ensures |p| == k && forall t :: 0 <= t < k ==> cursor <= p[t] < |line|
    decreases k
  {
    if k == 0 then []
    else
      var j := FirstMaxIn(line, cursor, |line| - (k - 1));
      [j] + Picks(line, j + 1, k - 1)
  }

  /** The characters of `line` at the positions `p`. */
  function Pick(line: String, p: seq<nat>): (r: String)
    requires forall t :: 0 <= t < |p| ==> p[t] < |line|
    ensures |r| == |p| && forall t :: 0 <= t < |p| ==> r[t] == line[p[t]]
  {
    if p == [] then [] else [line[p[0]]] + Pick(line, p[1..])
  }

  /** One step of the accumulator, `acc = 10 * acc + (max - b'0')`; `None`
      once a character below '0' has made the `u8` subtraction overflow. */
  function Digit(acc: Option<nat>, c: char): Option<nat>
  {
    match acc
    case None => None
    case Some(a) => if c < '0' then None else Some(10 * a + ((c as int) - ('0' as int)))
  }

  /** The accumulator run over the characters of `s`, first to last. */
  function Run(acc: Option<nat>, s: String): Option<nat>
    decreases |s|
  {
    if s == [] then acc else Run(Digit(acc, s[0]), s[1..])
  }

  /** A failed accumulator stays failed. */
  lemma {:induction false} RunNone(s: String)
    ensures Run(None, s) == None
    decreases |s|
  {
    if s != [] {
      RunNone(s[1..]);
    }
  }

  /** The accumulator fails exactly when a character is below '0'. */
  lemma {:induction false} RunFails(a: nat, s: String)
    ensures Run(Some(a), s).None? <==> exists t :: 0 <= t < |s| && s[t] < '0'
    decreases |s|
  {
    if s != [] {
      if s[0] < '0' {
        RunNone(s[1..]);
      } else {
        RunFails(10 * a + ((s[0] as int) - ('0' as int)), s[1..]);
        if exists t :: 0 <= t < |s| - 1 && s[1..][t] < '0' {
          var t :| 0 <= t < |s| - 1 && s[1..][t] < '0';
          assert s[t + 1] < '0';
        }
        if exists t :: 0 <= t < |s| && s[t] < '0' {
          var t :| 0 <= t < |s| && s[t] < '0';
          assert s[1..][t - 1] < '0';
        }
      }
    }
  }

  lemma RunAlgebra(a: int, d: int, p: int, x: int)
    ensures (10 * a + d) * p + x == a * (10 * p) + (d * p + x)
  {
  }

  /** On digits the accumulator shifts its start left by their number and
      adds their decimal value. */
  lemma {:induction false} RunDigits(a: nat, s: String)
    requires AllDigits(s)
    ensures Run(Some(a), s) == Some(a * Pow10(|s|) + DecimalValue(s))
    decreases |s|
  {
    if s != [] {
      var d := DigitValue(s[0]);
      RunDigits(10 * a + d, s[1..]);
      DecimalFront(s);
      RunAlgebra(a, d, Pow10(|s| - 1), DecimalValue(s[1..]));
    }
  }

  /** Each position before the next one. */
  predicate Ascending(p: seq<nat>)
  {
    |p| <= 1 || (p[0] < p[1] && Ascending(p[1..]))
  }

  predicate Within(p: seq<nat>, lo: nat, hi: nat)
  {
    forall t :: 0 <= t < |p| ==> lo <= p[t] < hi
  }

  /** Positions strictly increasing, all in `lo..hi`: an order-preserving
      choice of characters. */
  predicate Choice(p: seq<nat>, lo: nat, hi: nat)
  {
    Within(p, lo, hi) && Ascending(p)
  }

  /** The joltage of one bank; `None` when the line is shorter than `n` (the
      window end `len - i` underflows, or the window is empty and the digit
      subtraction overflows) or a picked character is below '0'. */
  function LineValue(line: String, n: nat): Option<nat>
  {
    if |line| < n then None else Run(Some(0), Pick(line, Picks(line, 0, n)))
  }

  /** The answer: the sum of the banks' joltages, `None` when a bank panics. */
  function Total(input: String, n: nat): Option<nat>
  {
    match MapAll(line => LineValue(line, n), Lines(input))
    case None => None
    case Some(vs) => Some(SumNat(vs))
  }

  /* ---- Arithmetic ---- */

  lemma FrontAlgebra(d: int, p: int, x: int, y: int)
    ensures 10 * (d * p + x) + y == d * (10 * p) + (10 * x + y)
  {
  }

  lemma LeadCompare(da: int, db: int, p: int, x: int, y: int)
    requires 0 <= da && 0 <= x < p && 0 <= y
    ensures da < db ==> da * p + x < db * p + y
    ensures da == db && x <= y ==> da * p + x <= db * p + y
  {
    assert (db - da - 1) * p == db * p - da * p - p;
  }

  /** A run of digits is its first digit times the weight of its place plus
      the value of the rest. */
  lemma {:induction false} DecimalFront(s: String)
    requires s != [] && AllDigits(s)
    ensures DecimalValue(s) == DigitValue(s[0]) * Pow10(|s| - 1) + DecimalValue(s[1..])
  {
    if |s| == 1 {
      assert s[1..] == [] && s[..0] == [];
    } else {
      var m := s[..|s| - 1];
      DecimalFront(m);
      assert s[1..][..|s| - 2] == m[1..];
      FrontAlgebra(DigitValue(s[0]), Pow10(|s| - 2), DecimalValue(m[1..]), DigitValue(s[|s| - 1]));
    }
  }

  /** Runs of digits of one length compare by their first digit, then by
      the rest. */
  lemma DecimalCompare(a: String, b: String)
    requires AllDigits(a) && AllDigits(b) && |a| == |b| >= 1
    ensures a[0] < b[0] ==> DecimalValue(a) < DecimalValue(b)
    ensures a[0] == b[0] && DecimalValue(a[1..]) <= DecimalValue(b[1..]) ==> DecimalValue(a) <= DecimalValue(b)
  {
    DecimalFront(a);
    DecimalFront(b);
    var p := Pow10(|a| - 1);
    LeadCompare(DigitValue(a[0]), DigitValue(b[0]), p, DecimalValue(a[1..]), DecimalValue(b[1..]));
  }

  /** Every later position of an ascending list is above its first. */
  lemma {:induction false} AscendingAbove(p: seq<nat>)
    requires Ascending(p)
    ensures forall t :: 0 < t < |p| ==> p[0] < p[t]
  {
    if |p| > 1 {
      AscendingAbove(p[1..]);
      forall t | 1 < t < |p|
        ensures p[0] < p[t]
      {
        assert p[1..][t - 1] == p[t];
      }
    }
  }

  /** `Ascending` is strict increase between any two positions. */
  lemma {:induction false} AscendingIff(p: seq<nat>)
    ensures Ascending(p) <==> forall a, b :: 0 <= a < b < |p| ==> p[a] < p[b]
  {
    if |p| > 1 {
      AscendingIff(p[1..]);
      if Ascending(p) {
        AscendingAbove(p);
        forall a, b | 0 <= a < b < |p|
          ensures p[a] < p[b]
        {
          if a > 0 {
            assert p[a] == p[1..][a - 1] && p[b] == p[1..][b - 1];
          }
        }
      }
      if forall a, b :: 0 <= a < b < |p| ==> p[a] < p[b] {
        forall a, b | 0 <= a < b < |p| - 1
          ensures p[1..][a] < p[1..][b]
        {
          assert p[1..][a] == p[a + 1] && p[1..][b] == p[b + 1];
        }
      }
    }
  }

  /** A choice of positions below `hi` leaves room: the first is at most
      `hi - |p|`. */
  lemma {:induction false} ChoiceRoom(p: seq<nat>, lo: nat, hi: nat)
    requires Choice(p, lo, hi) && p != []
    ensures p[0] + |p| <= hi
  {
    if |p| > 1 {
      assert Within(p[1..], lo, hi) by {
        forall t | 0 <= t < |p| - 1
          ensures lo <= p[1..][t] < hi
        {
          assert p[1..][t] == p[t + 1];
        }
      }
      ChoiceRoom(p[1..], lo, hi);
    }
  }

  /* ---- The greedy choice ---- */

  /** The picks are an order-preserving choice. */
  lemma {:induction false} PicksChoice(line: String, cursor: nat, k: nat)
    requires cursor + k <= |line|
    ensures Choice(Picks(line, cursor, k), cursor, |line|)
    decreases k
  {
    if k > 1 {
      var p := Picks(line, cursor, k);
      var j := p[0];
      PicksChoice(line, j + 1, k - 1);
      assert p[1..] == Picks(line, j + 1, k - 1);
    }
  }

  /** The greedy first pick holds the largest character any choice of `k`
      positions from `cursor` can start with, and a choice that starts with
      that character starts no earlier. */
  lemma GreedyLead(line: String, cursor: nat, k: nat, idx: seq<nat>)
    requires cursor + k <= |line| && k >= 1
    requires |idx| == k && Choice(idx, cursor, |line|)
    ensures line[idx[0]] <= line[Picks(line, cursor, k)[0]]
    ensures line[idx[0]] == line[Picks(line, cursor, k)[0]] ==> idx[0] >= Picks(line, cursor, k)[0]
  {
    var j := Picks(line, cursor, k)[0];
    ChoiceRoom(idx, cursor, |line|);
    FirstMaxIsFirstLargest(line, cursor, |line| - (k - 1));
  }

  lemma PickTail(line: String, p: seq<nat>)
    requires p != [] && forall t :: 0 <= t < |p| ==> p[t] < |line|
    ensures Pick(line, p)[1..] == Pick(line, p[1..])
  {
  }

  /** The picks after the first are the picks for one digit fewer after the
      first position. */
  lemma GreedyTail(line: String, cursor: nat, k: nat)
    requires cursor + k <= |line| && k >= 1
    ensures Picks(line, cursor, k)[0] + k <= |line|
    ensures Picks(line, cursor, k)[1..] == Picks(line, Picks(line, cursor, k)[0] + 1, k - 1)
  {
    var j := FirstMaxIn(line, cursor, |line| - (k - 1));
    assert Picks(line, cursor, k) == [j] + Picks(line, j + 1, k - 1);
  }

  /** Dropping the first position of a choice leaves a choice after any
      position up to that first one. */
  lemma ChoiceTail(p: seq<nat>, lo: nat, hi: nat, j: nat)
    requires Choice(p, lo, hi) && p != [] && j <= p[0]
    ensures Choice(p[1..], j + 1, hi)
  {
    AscendingAbove(p);
    forall t | 0 <= t < |p| - 1
      ensures j + 1 <= p[1..][t] < hi
    {
      assert p[1..][t] == p[t + 1];
    }
  }

  /** `a` is at most `b` in dictionary order. */
  predicate LexLe(a: String, b: String)
    requires |a| == |b|
  {
    a == [] || a[0] < b[0] || (a[0] == b[0] && LexLe(a[1..], b[1..]))
  }

  /** No order-preserving choice of `k` characters from `cursor` on comes
      after the greedy picks in dictionary order: the greedy first character
      is the largest that leaves room for the rest, and a choice that starts
      with the same character starts no earlier, so its rest is a choice after
      the greedy position. */
  lemma {:induction false} GreedyLex(line: String, cursor: nat, k: nat, idx: seq<nat>)
    requires cursor + k <= |line|
    requires |idx| == k && Choice(idx, cursor, |line|)
    ensures LexLe(Pick(line, idx), Pick(line, Picks(line, cursor, k)))
    decreases k
  {
    if k > 0 {
      var g := Picks(line, cursor, k);
      var j := g[0];
      GreedyTail(line, cursor, k);
      GreedyLead(line, cursor, k, idx);
      PickTail(line, idx);
      PickTail(line, g);
      if line[idx[0]] == line[j] {
        ChoiceTail(idx, cursor, |line|, j);
        GreedyLex(line, j + 1, k - 1, idx[1..]);
      }
    }
  }

  /** Runs of digits of one length in dictionary order are in numeric order. */
  lemma {:induction false} LexValue(a: String, b: String)
    requires AllDigits(a) && AllDigits(b) && |a| == |b| && LexLe(a, b)
    ensures DecimalValue(a) <= DecimalValue(b)
  {
    if a != [] {
      DecimalCompare(a, b);
      if a[0] == b[0] {
        LexValue(a[1..], b[1..]);
      }
    }
  }

  /** No order-preserving choice of `k` digits from `cursor` on spells a
      larger number than the greedy picks. */
  lemma GreedyMax(line: String, cursor: nat, k: nat, idx: seq<nat>)
    requires AllDigits(line) && cursor + k <= |line|
    requires |idx| == k && Choice(idx, cursor, |line|)
    ensures DecimalValue(Pick(line, idx)) <= DecimalValue(Pick(line, Picks(line, cursor, k)))
  {
    GreedyLex(line, cursor, k, idx);
    LexValue(Pick(line, idx), Pick(line, Picks(line, cursor, k)));
  }

  /** A bank of digits at least `n` long has a joltage: the number spelt by
      the greedy picks, an order-preserving choice of `n` digits, and no
      other such choice spells a larger number. */
  lemma LineValueMaximal(line: String, n: nat, idx: seq<nat>)
    requires AllDigits(line) && n <= |line|
    requires |idx| == n && Choice(idx, 0, |line|)
    ensures Choice(Picks(line, 0, n), 0, |line|)
    ensures LineValue(line, n) == Some(DecimalValue(Pick(line, Picks(line, 0, n))))
    ensures DecimalValue(Pick(line, idx)) <= LineValue(line, n).value
  {
    PicksChoice(line, 0, n);
    GreedyMax(line, 0, n, idx);
    var s := Pick(line, Picks(line, 0, n));
    assert AllDigits(s);
    RunDigits(0, s);
  }

  /* ---- The solver ---- */

  /** The scan of the window `bytes[lo..hi]`: the first byte larger than
      every byte before it, starting from 0, and its index in the window (0
      for an empty window). */
  method WindowMax(bytes: String, lo: nat, hi: nat) returns (j: nat, max: char)
    requires lo <= hi <= |bytes|
    ensures lo == hi ==> j == 0 && max == 0 as char
    ensures lo < hi ==> lo + j == FirstMaxIn(bytes, lo, hi) && max == bytes[lo + j]
  {
    j, max := 0, 0 as char;
    for idx := 0 to hi - lo
      invariant idx == 0 ==> j == 0 && max == 0 as char
      invariant idx > 0 ==> lo + j == FirstMaxIn(bytes, lo, lo + idx) && max == bytes[lo + j]
    {
      var v := bytes[lo + idx];
      if v > max {
        max := v;
        j := idx;
      }
    }
  }

  /** One round of the loop of `LineJoltage`: the scan's pick is the first
      of the remaining picks, so a character below '0' fails the line and
      any other moves into the accumulator, leaving the picks after it. */
  lemma JoltageStep(line: String, cursor: nat, i: nat, acc: nat, j: nat)
    requires cursor + i + 1 <= |line| && j == FirstMaxIn(line, cursor, |line| - i)
    ensures line[j] < '0' ==> Run(Some(acc), Pick(line, Picks(line, cursor, i + 1))) == None
    ensures line[j] >= '0' ==> (j + 1 + i <= |line| &&
      Run(Some(acc), Pick(line, Picks(line, cursor, i + 1))) == Run(Some(10 * acc + ((line[j] as int) - ('0' as int))), Pick(line, Picks(line, j + 1, i))))
  {
    var rest := Picks(line, j + 1, i);
    assert Picks(line, cursor, i + 1) == [j] + rest;
    assert Pick(line, [j] + rest) == [line[j]] + Pick(line, rest) by {
      assert ([j] + rest)[1..] == rest;
    }
    if line[j] < '0' {
      RunNone(Pick(line, rest));
    }
  }

  /** `solve::<N>` on one line: for each of the `n` digits, scan the window
      that leaves room for the remaining ones, keep its first largest byte,
      append it to the accumulator and move the cursor past it. */
  method LineJoltage(line: String, n: nat) returns (r: Option<nat>)
    ensures r == LineValue(line, n)
  {
    var acc: nat := 0;
    var cursor: nat := 0;
    ghost var fits := n <= |line|;
    ghost var target := LineValue(line, n);
    for i := n downto 0
      invariant !fits ==> i == n && cursor == 0 && target == None
      invariant fits ==> (cursor + i <= |line| &&
        target == Run(Some(acc), Pick(line, Picks(line, cursor, i))))
    {
      if i > |line| {
        // `bytes.len() - i` underflows
        return None;
      }
      var end := |line| - i;
      var j, max := WindowMax(line, cursor, end);
      if fits {
        JoltageStep(line, cursor, i, acc, cursor + j);
      }
      if max < '0' {
        // `max - b'0'` overflows
        return None;
      }
      acc := 10 * acc + ((max as int) - ('0' as int));
      cursor := cursor + j + 1;
    }
    assert Pick(line, Picks(line, cursor, 0)) == [];
    return Some(acc);
  }

  /** `solve::<N>`: the joltages of all lines, summed. */
  method Solve(input: String, n: nat) returns (r: Option<nat>)
    ensures r == Total(input, n)
  {
    var lines := Lines(input);
    var total := 0;
    ghost var vs: seq<nat> := [];
    for k := 0 to |lines|
      invariant |vs| == k && forall t :: 0 <= t < k ==> LineValue(lines[t], n) == Some(vs[t])
      invariant total == SumNat(vs)
    {
      var v := LineJoltage(lines[k], n);
      if v.None? {
        return None;
      }
      assert (vs + [v.value])[..k] == vs;
      vs := vs + [v.value];
      total := total + v.value;
    }
    MapAllSome(line => LineValue(line, n), lines, vs);
    return Some(total);
  }

  /** Part one: two batteries per bank. */
  method PartOne(input: String) returns (r: Option<nat>)
    ensures r == Total(input, 2)
  {
    r := Solve(input, 2);
  }

  /** Part two: twelve batteries per bank. */
  method PartTwo(input: String) returns (r: Option<nat>)
    ensures r == Total(input, 12)
  {
    r := Solve(input, 12);
  }
}
