/** Day 2: product ids in comma-separated ranges `a-b`. An id is invalid in
    part one when its decimal digits are two equal halves, and in part two when
    they are one block repeated at least twice. Part one tests every id of a
    range; part two generates the repeated-block numbers of each digit count
    and keeps those inside the range. */
module Day02 {
  import opened Base
  import opened Text

  /* ---- Division facts ---- */

  lemma DivDiv(x: nat, a: nat, c: nat)
    requires a > 0 && c > 0
    ensures x / (a * c) == (x / a) / c
  {
    var q, r2, r1 := (x / a) / c, (x / a) % c, x % a;
    assert x / a == c * q + r2;
    assert x == a * (x / a) + r1;
    assert x == (a * c) * q + (a * r2 + r1) by {
      assert a * (c * q + r2) == (a * c) * q + a * r2;
    }
    assert a * r2 <= a * (c - 1);
    DivUnique(x, a * c, q, a * r2 + r1);
  }

  lemma Distribute(a: int, b: int, c: int)
    ensures a * (b + c) == a * b + a * c
  {
  }

  lemma FoldStep(acc: int, blk: int, m: int, o: int)
    ensures (acc + blk) + (blk * m) * o == acc + blk * (1 + m * o)
  {
    assert blk * (1 + m * o) == blk + blk * (m * o);
  }

  lemma FrontStep(b: int, m: int, o: int)
    ensures b * (1 + m * o) == b + m * (b * o)
  {
    assert b * (1 + m * o) == b + b * (m * o);
  }

  lemma SumStep(m: int, o: int, w: int)
    requires (m - 1) * o == w - 1
    ensures (m - 1) * (o + w) == m * w - 1
  {
    assert (m - 1) * (o + w) == (m - 1) * o + (m - 1) * w;
  }

  lemma BoundStep(b: int, m: int, o: int, p: int)
    requires 0 <= b < m && o >= 0 && p >= 1 && (m - 1) * o == p - 1
    ensures b * p <= b * (o + p) < (b + 1) * p <= m * p
  {
    assert b * (o + p) == b * o + b * p;
    assert b * o <= (m - 1) * o;
    assert (b + 1) * p == b * p + p;
  }

  lemma DivBelow(x: int, m: int, w: int)
    requires m > 0 && 0 <= x < m * w
    ensures x / m < w
  {
    var q := x / m;
    assert m * q <= x;
    assert q >= w ==> m * q >= m * w;
  }

  lemma DivExact(d: int, len: int)
    requires len > 0 && d % len == 0
    ensures len * (d / len) == d
  {
  }

  lemma MulMonotone(a: int, b: int, w: int)
    requires 0 <= a <= b && w >= 0
    ensures a * w <= b * w
  {
  }

  lemma MulCancel(a: int, c: int, w: int)
    requires w > 0 && a * w < c * w
    ensures a < c
  {
    assert a >= c ==> a * w >= c * w;
  }

  /** Powers of ten are ordered like their exponents. */
  lemma Pow10Le(a: nat, b: nat)
    ensures a <= b ==> Pow10(a) <= Pow10(b)
  {
    if a <= b {
      Pow10Monotone(a, b);
    }
  }

  /* ---- Digit counts ---- */

  /** `digits`: the number of decimal digits of a positive number (`ilog10 + 1`;
      `ilog10` panics on 0). */
  function Digits(n: nat): (d: nat)
    requires n >= 1
    ensures d >= 1
  {
    if n < 10 then 1 else 1 + Digits(n / 10)
  }

  /** A number has `d` digits exactly when it lies in `[10^(d-1), 10^d)`. */
  lemma {:induction false} DigitsBounds(n: nat)
    requires n >= 1
    ensures Pow10(Digits(n) - 1) <= n < Pow10(Digits(n))
  {
    if n >= 10 {
      DigitsBounds(n / 10);
      assert n == 10 * (n / 10) + n % 10;
    }
  }

  lemma DigitsOf(n: nat, d: nat)
    requires d >= 1 && Pow10(d - 1) <= n < Pow10(d)
    ensures Digits(n) == d
  {
    DigitsBounds(n);
    Pow10Le(Digits(n), d - 1);
    Pow10Le(d, Digits(n) - 1);
  }

  lemma DigitsMonotone(m: nat, n: nat)
    requires 1 <= m <= n
    ensures Digits(m) <= Digits(n)
  {
    DigitsBounds(m);
    DigitsBounds(n);
    Pow10Le(Digits(n), Digits(m) - 1);
  }

  /* ---- Repeated blocks ---- */

  /** The fold of `repeat_block`: `steps` times, add `blk` to `acc` and
      multiply `blk` by `mult`. */
  function Fold(acc: nat, blk: nat, mult: nat, steps: nat): nat
    decreases steps
  {
    if steps == 0 then acc else Fold(acc + blk, blk * mult, mult, steps - 1)
  }

  /** `repeat_block`: `block` written `blocks` times, each copy in its own
      `len`-digit slot, as the fold computes it. */
  function RepeatBlock(block: nat, blocks: nat, len: nat): nat
  {
    Fold(0, block, Pow10(len), blocks)
  }

  /** The weight of slot `i` of `len` digits, `10^(len * i)`. */
  function Weight(len: nat, i: nat): (r: nat)
    ensures r >= 1
    decreases i
  {
    if i == 0 then 1 else Pow10(len) * Weight(len, i - 1)
  }

  /** The number whose `k` slots of `len` digits each hold 1. */
  function Ones(len: nat, k: nat): nat
    decreases k
  {
    if k == 0 then 0 else 1 + Pow10(len) * Ones(len, k - 1)
  }

  lemma {:induction false} FoldOnes(acc: nat, blk: nat, len: nat, k: nat)
    ensures Fold(acc, blk, Pow10(len), k) == acc + blk * Ones(len, k)
    decreases k
  {
    if k > 0 {
      FoldOnes(acc + blk, blk * Pow10(len), len, k - 1);
      FoldStep(acc, blk, Pow10(len), Ones(len, k - 1));
    }
  }

  /** `repeat_block` multiplies the block by the all-ones pattern: the
      block is copied into every slot. */
  lemma RepeatBlockOnes(block: nat, blocks: nat, len: nat)
    ensures RepeatBlock(block, blocks, len) == block * Ones(len, blocks)
  {
    FoldOnes(0, block, len, blocks);
  }

  lemma MulSplit(len: nat, k: nat, d: nat)
    requires len * k == d && k >= 1
    ensures len <= d && len * (k - 1) == d - len
  {
  }

  /** `k` slots of `len` digits make `len * k` digits. */
  lemma {:induction false} WeightDigits(len: nat, k: nat, d: nat)
    requires len * k == d
    ensures Weight(len, k) == Pow10(d)
  {
    if k > 0 {
      MulSplit(len, k, d);
      WeightDigits(len, k - 1, d - len);
      Pow10Add(len, d - len);
    }
  }

  /** The all-ones pattern read from the top: the highest slot has weight
      `Weight(len, k - 1)`. */
  lemma {:induction false} OnesBack(len: nat, k: nat)
    requires k >= 1
    ensures Ones(len, k) == Ones(len, k - 1) + Weight(len, k - 1)
  {
    if k > 1 {
      OnesBack(len, k - 1);
      Distribute(Pow10(len), Ones(len, k - 2), Weight(len, k - 2));
    }
  }

  /** Summing the slot weights: `(10^len - 1) * Ones(len, k) == 10^(len k) - 1`. */
  lemma {:induction false} OnesSum(len: nat, k: nat)
    ensures (Pow10(len) - 1) * Ones(len, k) == Weight(len, k) - 1
  {
    if k > 0 {
      OnesSum(len, k - 1);
      OnesBack(len, k);
      SumStep(Pow10(len), Ones(len, k - 1), Weight(len, k - 1));
    }
  }

  /** A block that fits its slot gives a number below `10^(len * blocks)`
      whose top slot holds the block. */
  lemma RepeatBlockBounds(block: nat, blocks: nat, len: nat)
    requires block < Pow10(len) && blocks >= 1
    ensures block * Weight(len, blocks - 1) <= RepeatBlock(block, blocks, len) < (block + 1) * Weight(len, blocks - 1)
    ensures RepeatBlock(block, blocks, len) < Weight(len, blocks)
  {
    RepeatBlockOnes(block, blocks, len);
    OnesSum(len, blocks - 1);
    OnesBack(len, blocks);
    BoundStep(block, Pow10(len), Ones(len, blocks - 1), Weight(len, blocks - 1));
  }

  /** Above slot `i` sit `blocks - i` copies, and slot `i` holds the block. */
  lemma {:induction false} RepeatBlockSlots(block: nat, blocks: nat, len: nat, i: nat)
    requires block < Pow10(len) && i < blocks
    ensures RepeatBlock(block, blocks, len) / Weight(len, i) == RepeatBlock(block, blocks - i, len)
    ensures (RepeatBlock(block, blocks, len) / Weight(len, i)) % Pow10(len) == block
  {
    var m := Pow10(len);
    if i > 0 {
      RepeatBlockSlots(block, blocks, len, i - 1);
      DivDiv(RepeatBlock(block, blocks, len), Weight(len, i - 1), m);
      assert Weight(len, i - 1) * m == Weight(len, i);
      RepeatFront(block, blocks - i + 1, len);
      DivUnique(RepeatBlock(block, blocks - i + 1, len), m, RepeatBlock(block, blocks - i, len), block);
    }
    RepeatFront(block, blocks - i, len);
    DivUnique(RepeatBlock(block, blocks - i, len), m, RepeatBlock(block, blocks - i - 1, len), block);
  }

  lemma RepeatFront(block: nat, blocks: nat, len: nat)
    requires blocks >= 1
    ensures RepeatBlock(block, blocks, len) == block + Pow10(len) * RepeatBlock(block, blocks - 1, len)
  {
    RepeatBlockOnes(block, blocks, len);
    RepeatBlockOnes(block, blocks - 1, len);
    FrontStep(block, Pow10(len), Ones(len, blocks - 1));
  }

  /** `repeat_block(9, len, 1)`, the largest `len`-digit block, is `10^len - 1`. */
  lemma AllNines(len: nat)
    ensures RepeatBlock(9, len, 1) == Pow10(len) - 1
  {
    RepeatBlockOnes(9, len, 1);
    OnesSum(1, len);
    WeightDigits(1, len, len);
  }

  /* ---- Slots and repeated blocks ---- */

  /** Slot `i` of `n`: its digits `len * i` to `len * (i + 1) - 1`, counted
      from the lowest. */
  function Slot(n: nat, len: nat, i: nat): nat
  {
    (n / Weight(len, i)) % Pow10(len)
  }

  /** Dropping the lowest slot moves every other slot down by one. */
  lemma SlotShift(n: nat, len: nat, i: nat, q: nat)
    requires q == n / Pow10(len)
    ensures Slot(q, len, i) == Slot(n, len, i + 1)
  {
    DivDiv(n, Pow10(len), Weight(len, i));
  }

  /** Euclidean division of a natural number by a positive one. */
  lemma DivParts(n: nat, m: nat)
    requires m > 0
    ensures n / m >= 0 && n == m * (n / m) + n % m
  {
  }

  /** A number below `10^(len k)` whose `k` slots all hold `b` is `b`
      repeated `k` times. */
  lemma {:induction false} SlotsDetermine(n: nat, len: nat, k: nat, b: nat)
    requires n < Weight(len, k)
    requires forall i :: 0 <= i < k ==> Slot(n, len, i) == b
    ensures n == RepeatBlock(b, k, len)
  {
    if k > 0 {
      var m := Pow10(len);
      DivParts(n, m);
      var q: nat := n / m;
      DivBelow(n, m, Weight(len, k - 1));
      forall i | 0 <= i < k - 1
        ensures Slot(q, len, i) == b
      {
        SlotShift(n, len, i, q);
      }
      SlotsDetermine(q, len, k - 1, b);
      assert n % m == Slot(n, len, 0) == b;
      RepeatFront(b, k, len);
    }
  }

  /** `is_repeated_block`: `n` equals its lowest `len` digits repeated over
      all of its digits. */
  function IsRepeatedBlock(n: nat, len: nat): bool
    requires n >= 1 && len >= 1
  {
    n == RepeatBlock(n % Pow10(len), Digits(n) / len, len)
  }

  /** For a block length that divides the digit count, `is_repeated_block`
      holds exactly when every slot holds the same digits as the lowest. */
  lemma IsRepeatedBlockIff(n: nat, len: nat)
    requires n >= 1 && len >= 1 && Digits(n) % len == 0
    ensures IsRepeatedBlock(n, len) <==> forall i :: 0 <= i < Digits(n) / len ==> Slot(n, len, i) == Slot(n, len, 0)
  {
    var k, b := Digits(n) / len, n % Pow10(len);
    assert Slot(n, len, 0) == b;
    if IsRepeatedBlock(n, len) {
      forall i | 0 <= i < k
        ensures Slot(n, len, i) == b
      {
        RepeatBlockSlots(b, k, len, i);
      }
    }
    if forall i :: 0 <= i < k ==> Slot(n, len, i) == b {
      DigitsBounds(n);
      DivExact(Digits(n), len);
      WeightDigits(len, k, Digits(n));
      SlotsDetermine(n, len, k, b);
    }
  }

  /* ---- What makes an id invalid ---- */

  /** `n` is a block of `len` digits written `k >= 2` times. */
  predicate RepeatedTimes(n: nat, len: nat, k: nat)
  {
    n >= 1 && len >= 1 && k >= 2 && Digits(n) == len * k &&
    forall i :: 0 <= i < k ==> Slot(n, len, i) == Slot(n, len, 0)
  }

  /** Part one's invalid ids: a block of digits written exactly twice. */
  ghost predicate InvalidOnce(n: nat)
  {
    exists len: nat :: RepeatedTimes(n, len, 2)
  }

  /** Part two's invalid ids: a block of digits written at least twice. */
  ghost predicate InvalidRepeated(n: nat)
  {
    exists len: nat, k: nat :: RepeatedTimes(n, len, k)
  }

  /** `repeatable_lengths`: the block lengths `1..=n/2` that divide `n`. */
  function RepeatableLengths(n: nat): (r: seq<nat>)
    ensures forall l :: l in r <==> 1 <= l <= n / 2 && n % l == 0
  {
    DivisorsUpTo(n, n / 2)
  }

  function DivisorsUpTo(n: nat, m: nat): (r: seq<nat>)
    ensures forall l :: l in r <==> 1 <= l <= m && n % l == 0
  {
    if m == 0 then [] else DivisorsUpTo(n, m - 1) + (if n % m == 0 then [m] else [])
  }

  lemma {:induction false} DivisorsIncreasing(n: nat, m: nat)
    ensures Increasing(DivisorsUpTo(n, m))
  {
    if m > 0 {
      var p := DivisorsUpTo(n, m - 1);
      DivisorsIncreasing(n, m - 1);
      forall i | 0 <= i < |p|
        ensures p[i] < m
      {
        assert p[i] in p;
      }
    }
  }

  /** `repeatable_lengths` lists the lengths in increasing order. */
  lemma RepeatableLengthsIncreasing(n: nat)
    ensures Increasing(RepeatableLengths(n))
  {
    DivisorsIncreasing(n, n / 2);
  }

  lemma DivisorCount(d: nat, len: nat)
    requires 1 <= len <= d / 2 && d % len == 0
    ensures len * (d / len) == d && d / len >= 2
  {
    var k := d / len;
    assert k <= 1 ==> len * k <= len;
  }

  lemma CountDivisor(d: nat, len: nat, k: nat)
    requires len >= 1 && k >= 2 && d == len * k
    ensures d % len == 0 && d / len == k && len <= d / 2
  {
    assert len * k == len * (k - 2) + 2 * len;
    DivUnique(d, len, k, 0);
  }

  /** The lengths `is_repeated_block` is asked about are exactly those of
      blocks written at least twice. */
  lemma RepeatableIff(n: nat, len: nat)
    requires n >= 1 && len >= 1
    ensures len in RepeatableLengths(Digits(n)) && IsRepeatedBlock(n, len) <==> RepeatedTimes(n, len, Digits(n) / len)
  {
    var d := Digits(n);
    if len in RepeatableLengths(d) {
      DivisorCount(d, len);
      IsRepeatedBlockIff(n, len);
    }
    if RepeatedTimes(n, len, d / len) {
      CountDivisor(d, len, d / len);
      IsRepeatedBlockIff(n, len);
    }
  }

  /** Part two's test is the slot definition: some repeatable length gives
      a repeated block exactly when the id is a block written at least twice. */
  lemma InvalidRepeatedIff(n: nat)
    requires n >= 1
    ensures (exists len :: len in RepeatableLengths(Digits(n)) && IsRepeatedBlock(n, len)) <==> InvalidRepeated(n)
  {
    if exists len :: len in RepeatableLengths(Digits(n)) && IsRepeatedBlock(n, len) {
      var len :| len in RepeatableLengths(Digits(n)) && IsRepeatedBlock(n, len);
      RepeatableIff(n, len);
    }
    if InvalidRepeated(n) {
      var len: nat, k: nat :| RepeatedTimes(n, len, k);
      CountDivisor(Digits(n), len, k);
      RepeatableIff(n, len);
    }
  }

  /* ---- Generating the invalid ids of one digit count ---- */

  lemma RepeatPositive(block: nat, blocks: nat, len: nat)
    requires block >= 1 && blocks >= 1
    ensures RepeatBlock(block, blocks, len) >= block
  {
    RepeatBlockOnes(block, blocks, len);
    MulMonotone(1, Ones(len, blocks), block);
  }

  /** Bigger blocks give bigger repeated numbers. */
  lemma RepeatMonotone(b1: nat, b2: nat, blocks: nat, len: nat)
    requires b1 < b2 && blocks >= 1
    ensures RepeatBlock(b1, blocks, len) < RepeatBlock(b2, blocks, len)
  {
    RepeatBlockOnes(b1, blocks, len);
    RepeatBlockOnes(b2, blocks, len);
    MulMonotone(b1 + 1, b2, Ones(len, blocks));
  }

  /** A block of exactly `len` digits, repeated over `d` digits, gives a
      `d`-digit number whose lowest slot is the block and which
      `is_repeated_block` recognises. */
  lemma BlockShape(d: nat, len: nat, b: nat)
    requires len in RepeatableLengths(d) && Pow10(len - 1) <= b < Pow10(len)
    ensures RepeatBlock(b, d / len, len) >= 1
    ensures Digits(RepeatBlock(b, d / len, len)) == d
    ensures RepeatBlock(b, d / len, len) % Pow10(len) == b
    ensures IsRepeatedBlock(RepeatBlock(b, d / len, len), len)
  {
    var k := d / len;
    var n := RepeatBlock(b, k, len);
    DivisorCount(d, len);
    MulSplit(len, k, d);
    RepeatBlockBounds(b, k, len);
    WeightDigits(len, k, d);
    WeightDigits(len, k - 1, d - len);
    Pow10Add(len - 1, d - len);
    MulMonotone(Pow10(len - 1), b, Weight(len, k - 1));
    DigitsOf(n, d);
    RepeatBlockSlots(b, k, len, 0);
  }

  /** `iter_invalid_ids`' filter: no shorter repeatable length gives a
      repeated block. */
  predicate ShortestBlock(n: nat, d: nat, len: nat)
    requires n >= 1
  {
    forall l :: l in RepeatableLengths(d) && l < len ==> !IsRepeatedBlock(n, l)
  }

  /** The ids `iter_invalid_ids` yields for one block length and the
      blocks `lo..=hi`, in order. */
  function Generated(d: nat, len: nat, lo: nat, hi: nat): seq<nat>
    requires len in RepeatableLengths(d) && lo >= 1
    decreases hi
  {
    if hi < lo then []
    else
      DivisorCount(d, len);
      RepeatPositive(hi, d / len, len);
      var n := RepeatBlock(hi, d / len, len);
      Generated(d, len, lo, hi - 1) + (if ShortestBlock(n, d, len) then [n] else [])
  }

  /** The ids `iter_invalid_ids` yields for block length `len`: every block
      of exactly `len` digits. */
  function BlocksOf(d: nat, len: nat): seq<nat>
    requires len in RepeatableLengths(d)
  {
    Generated(d, len, Pow10(len - 1), RepeatBlock(9, len, 1))
  }

  /** `iter_invalid_ids` over the block lengths `ls`, in order. */
  function FromLengths(d: nat, ls: seq<nat>): seq<nat>
    requires forall l :: l in ls ==> l in RepeatableLengths(d)
  {
    if ls == [] then [] else BlocksOf(d, ls[0]) + FromLengths(d, ls[1..])
  }

  /** `iter_invalid_ids`: the invalid ids with `d` digits. */
  function IterInvalidIds(d: nat): seq<nat>
  {
    FromLengths(d, RepeatableLengths(d))
  }

  predicate NoDuplicates(s: seq<nat>)
  {
    forall i, j :: 0 <= i < j < |s| ==> s[i] != s[j]
  }

  predicate Increasing(s: seq<nat>)
  {
    forall i, j :: 0 <= i < j < |s| ==> s[i] < s[j]
  }

  lemma NoDuplicatesAppend(a: seq<nat>, b: seq<nat>)
    requires NoDuplicates(a) && NoDuplicates(b)
    requires forall x :: x in a ==> x !in b
    ensures NoDuplicates(a + b)
  {
    forall i, j | 0 <= i < j < |a + b|
      ensures (a + b)[i] != (a + b)[j]
    {
      if i < |a| && j >= |a| {
        assert (a + b)[i] in a && (a + b)[j] in b;
      }
    }
  }

  /** The lowest slot of a repeated block is the block. */
  lemma RepeatLow(b: nat, k: nat, len: nat)
    requires b < Pow10(len) && k >= 1
    ensures RepeatBlock(b, k, len) % Pow10(len) == b
  {
    RepeatBlockSlots(b, k, len, 0);
  }

  /** Every id generated from the blocks `lo..=hi` is such a block repeated,
      and passes the filter. */
  lemma {:induction false} GeneratedSound(d: nat, len: nat, lo: nat, hi: nat, x: nat)
    requires len in RepeatableLengths(d) && lo >= 1 && hi < Pow10(len)
    requires x in Generated(d, len, lo, hi)
    ensures x >= 1 && lo <= x % Pow10(len) <= hi
    ensures x == RepeatBlock(x % Pow10(len), d / len, len) && ShortestBlock(x, d, len)
    decreases hi
  {
    DivisorCount(d, len);
    RepeatPositive(hi, d / len, len);
    var n := RepeatBlock(hi, d / len, len);
    var g, t := Generated(d, len, lo, hi - 1), if ShortestBlock(n, d, len) then [n] else [];
    assert Generated(d, len, lo, hi) == g + t;
    if x in g {
      GeneratedSound(d, len, lo, hi - 1, x);
    } else {
      assert x in t;
      RepeatLow(hi, d / len, len);
    }
  }

  /** Every block in `lo..=hi` whose repetition passes the filter is generated. */
  lemma {:induction false} GeneratedComplete(d: nat, len: nat, lo: nat, hi: nat, b: nat)
    requires len in RepeatableLengths(d) && 1 <= lo <= b <= hi
    requires RepeatBlock(b, d / len, len) >= 1 && ShortestBlock(RepeatBlock(b, d / len, len), d, len)
    ensures RepeatBlock(b, d / len, len) in Generated(d, len, lo, hi)
    decreases hi
  {
    if b < hi {
      GeneratedComplete(d, len, lo, hi - 1, b);
    }
  }

  lemma {:induction false} GeneratedIncreasing(d: nat, len: nat, lo: nat, hi: nat)
    requires len in RepeatableLengths(d) && lo >= 1 && hi < Pow10(len)
    ensures Increasing(Generated(d, len, lo, hi))
    decreases hi
  {
    if hi >= lo {
      DivisorCount(d, len);
      var g := Generated(d, len, lo, hi - 1);
      GeneratedIncreasing(d, len, lo, hi - 1);
      forall i | 0 <= i < |g|
        ensures g[i] < RepeatBlock(hi, d / len, len)
      {
        assert g[i] in g;
        GeneratedSound(d, len, lo, hi - 1, g[i]);
        RepeatMonotone(g[i] % Pow10(len), hi, d / len, len);
      }
    }
  }

  /** The lowest slot of a `d`-digit repeated block has exactly `len`
      digits: a shorter block could not reach `d` digits. */
  lemma LowBlockBound(d: nat, len: nat, x: nat)
    requires len in RepeatableLengths(d) && x >= 1 && Digits(x) == d && IsRepeatedBlock(x, len)
    ensures Pow10(len - 1) <= x % Pow10(len)
  {
    var b, k := x % Pow10(len), d / len;
    DivisorCount(d, len);
    MulSplit(len, k, d);
    DigitsBounds(x);
    RepeatBlockBounds(b, k, len);
    WeightDigits(len, k - 1, d - len);
    Pow10Add(len - 1, d - len);
    MulCancel(Pow10(len - 1), b + 1, Weight(len, k - 1));
  }

  /** The ids generated for block length `len` are exactly the `d`-digit
      repeated blocks of that length that pass the filter. */
  lemma BlocksOfMembers(d: nat, len: nat, x: nat)
    requires len in RepeatableLengths(d)
    ensures x in BlocksOf(d, len) <==> x >= 1 && Digits(x) == d && IsRepeatedBlock(x, len) && ShortestBlock(x, d, len)
  {
    var m, lo, hi := Pow10(len), Pow10(len - 1), RepeatBlock(9, len, 1);
    AllNines(len);
    if x in BlocksOf(d, len) {
      GeneratedSound(d, len, lo, hi, x);
      BlockShape(d, len, x % m);
    }
    if x >= 1 && Digits(x) == d && IsRepeatedBlock(x, len) && ShortestBlock(x, d, len) {
      LowBlockBound(d, len, x);
      GeneratedComplete(d, len, lo, hi, x % m);
    }
  }

  /** Among the repeatable lengths that give a repeated block there is a
      shortest one. */
  lemma LeastLength(x: nat, d: nat, len: nat)
    requires x >= 1 && len in RepeatableLengths(d) && IsRepeatedBlock(x, len)
    ensures exists l :: l in RepeatableLengths(d) && IsRepeatedBlock(x, l) && ShortestBlock(x, d, l)
    decreases len
  {
    if !ShortestBlock(x, d, len) {
      var l :| l in RepeatableLengths(d) && l < len && IsRepeatedBlock(x, l);
      LeastLength(x, d, l);
    }
  }

  lemma {:induction false} FromLengthsMembers(d: nat, ls: seq<nat>, x: nat)
    requires forall l :: l in ls ==> l in RepeatableLengths(d)
    ensures x in FromLengths(d, ls) <==> exists l :: l in ls && x in BlocksOf(d, l)
  {
    if ls != [] {
      FromLengthsMembers(d, ls[1..], x);
      assert forall l :: l in ls <==> l == ls[0] || l in ls[1..];
    }
  }

  /** `iter_invalid_ids(d)` yields exactly the `d`-digit ids made of a block
      written at least twice. */
  lemma IterInvalidIdsMembers(d: nat, x: nat)
    ensures x in IterInvalidIds(d) <==> x >= 1 && Digits(x) == d && InvalidRepeated(x)
  {
    FromLengthsMembers(d, RepeatableLengths(d), x);
    if x in IterInvalidIds(d) {
      var l :| l in RepeatableLengths(d) && x in BlocksOf(d, l);
      BlocksOfMembers(d, l, x);
      InvalidRepeatedIff(x);
    }
    if x >= 1 && Digits(x) == d && InvalidRepeated(x) {
      InvalidRepeatedIff(x);
      var len :| len in RepeatableLengths(d) && IsRepeatedBlock(x, len);
      LeastLength(x, d, len);
      var l :| l in RepeatableLengths(d) && IsRepeatedBlock(x, l) && ShortestBlock(x, d, l);
      BlocksOfMembers(d, l, x);
    }
  }

  lemma IterInvalidIdsDigits(d: nat, x: nat)
    requires x in IterInvalidIds(d)
    ensures x >= 1 && Digits(x) == d
  {
    IterInvalidIdsMembers(d, x);
  }

  lemma {:induction false} FromLengthsDistinct(d: nat, ls: seq<nat>)
    requires forall l :: l in ls ==> l in RepeatableLengths(d)
    requires Increasing(ls)
    ensures NoDuplicates(FromLengths(d, ls))
  {
    if ls != [] {
      var a, b := BlocksOf(d, ls[0]), FromLengths(d, ls[1..]);
      AllNines(ls[0]);
      GeneratedIncreasing(d, ls[0], Pow10(ls[0] - 1), RepeatBlock(9, ls[0], 1));
      FromLengthsDistinct(d, ls[1..]);
      forall x | x in a
        ensures x !in b
      {
        BlocksOfMembers(d, ls[0], x);
        forall l | l in ls[1..]
          ensures x !in BlocksOf(d, l)
        {
          BlocksOfMembers(d, l, x);
        }
        FromLengthsMembers(d, ls[1..], x);
      }
      NoDuplicatesAppend(a, b);
    }
  }

  /** `iter_invalid_ids` never yields an id twice: each comes only from its
      shortest block. */
  lemma IterInvalidIdsDistinct(d: nat)
    ensures NoDuplicates(IterInvalidIds(d))
  {
    RepeatableLengthsIncreasing(d);
    FromLengthsDistinct(d, RepeatableLengths(d));
  }

  /* ---- Part two: the ids of a range ---- */

  /** `filter(|id| start <= id <= end)`, keeping the order. */
  function Within(xs: seq<nat>, s: nat, e: nat): (r: seq<nat>)
    ensures forall x :: x in r <==> x in xs && s <= x <= e
  {
    if xs == [] then []
    else
      var n := |xs| - 1;
      assert forall x :: x in xs <==> x in xs[..n] || x == xs[n];
      Within(xs[..n], s, e) + (if s <= xs[n] <= e then [xs[n]] else [])
  }

  lemma {:induction false} WithinDistinct(xs: seq<nat>, s: nat, e: nat)
    requires NoDuplicates(xs)
    ensures NoDuplicates(Within(xs, s, e))
  {
    if xs != [] {
      var n := |xs| - 1;
      WithinDistinct(xs[..n], s, e);
      assert xs[n] !in xs[..n];
      NoDuplicatesAppend(Within(xs[..n], s, e), if s <= xs[n] <= e then [xs[n]] else []);
    }
  }

  /** The `flat_map` over the digit counts `lo..=hi` of `ids(d)` filtered
      to `s..=e`; `iter_range_invalid_ids` passes `iter_invalid_ids` as
      `ids`. */
  function FromDigits(ids: nat -> seq<nat>, lo: nat, hi: nat, s: nat, e: nat): seq<nat>
    requires lo >= 1
    decreases hi
  {
    if hi < lo then [] else FromDigits(ids, lo, hi - 1, s, e) + Within(ids(hi), s, e)
  }

  /** `iter_range_invalid_ids`: `digits` of both ends is taken first, so a
      bound of 0 panics even when the range is empty. */
  function IterRangeInvalidIds(s: nat, e: nat): seq<nat>
    requires s >= 1 && e >= 1
  {
    FromDigits(IterInvalidIds, Digits(s), Digits(e), s, e)
  }

  /** Every id `ids(d)` yields has `d` digits. */
  ghost predicate GroupedByDigits(ids: nat -> seq<nat>)
  {
    forall d: nat, x: nat :: x in ids(d) ==> x >= 1 && Digits(x) == d
  }

  /** No `ids(d)` yields an id twice. */
  ghost predicate EachDistinct(ids: nat -> seq<nat>)
  {
    forall d: nat :: NoDuplicates(ids(d))
  }

  /** `iter_invalid_ids` groups its ids by digit count. */
  lemma IterInvalidIdsGrouped()
    ensures GroupedByDigits(IterInvalidIds)
  {
    var ids: nat -> seq<nat> := IterInvalidIds;
    forall d: nat, x: nat
      ensures x in ids(d) ==> x >= 1 && Digits(x) == d
    {
      assert ids(d) == IterInvalidIds(d);
      if x in IterInvalidIds(d) {
        IterInvalidIdsDigits(d, x);
      }
    }
    assert GroupedByDigits(ids);
  }

  /** `iter_invalid_ids` yields each id once. */
  lemma IterInvalidIdsEachDistinct()
    ensures EachDistinct(IterInvalidIds)
  {
    forall d: nat
      ensures NoDuplicates(IterInvalidIds(d))
    {
      IterInvalidIdsDistinct(d);
    }
  }

  /** An id is listed exactly when it is one of `ids` for its own digit
      count, that count is in `lo..=hi` and the id is in `s..=e`. */
  lemma FromDigitsMembers(ids: nat -> seq<nat>, lo: nat, hi: nat, s: nat, e: nat, x: nat)
    requires lo >= 1 && GroupedByDigits(ids)
    ensures x in FromDigits(ids, lo, hi, s, e) <==> x >= 1 && lo <= Digits(x) <= hi && s <= x <= e && x in ids(Digits(x))
  {
    if x in FromDigits(ids, lo, hi, s, e) {
      FromDigitsBound(ids, lo, hi, s, e, x);
    }
    if x >= 1 && lo <= Digits(x) <= hi && s <= x <= e && x in ids(Digits(x)) {
      FromDigitsHas(ids, lo, hi, s, e, x, Digits(x));
    }
  }

  /** An id of `ids(d)` in the range, for `lo <= d <= hi`, is listed. */
  lemma {:induction false} FromDigitsHas(ids: nat -> seq<nat>, lo: nat, hi: nat, s: nat, e: nat, x: nat, d: nat)
    requires 1 <= lo <= d <= hi && s <= x <= e && x in ids(d)
    ensures x in FromDigits(ids, lo, hi, s, e)
    decreases hi
  {
    FromDigitsStep(ids, lo, hi, s, e, x);
    if d < hi {
      FromDigitsHas(ids, lo, hi - 1, s, e, x, d);
    }
  }

  /** One more digit count adds the ids of that count within the range. */
  lemma FromDigitsStep(ids: nat -> seq<nat>, lo: nat, hi: nat, s: nat, e: nat, x: nat)
    requires 1 <= lo <= hi
    ensures x in FromDigits(ids, lo, hi, s, e) <==>
      x in FromDigits(ids, lo, hi - 1, s, e) || (x in ids(hi) && s <= x <= e)
  {
    var a, b := FromDigits(ids, lo, hi - 1, s, e), Within(ids(hi), s, e);
    assert FromDigits(ids, lo, hi, s, e) == a + b;
  }

  /** A listed id has a digit count in `lo..=hi`, lies in the range and is
      one of `ids` for its digit count. */
  lemma {:induction false} FromDigitsBound(ids: nat -> seq<nat>, lo: nat, hi: nat, s: nat, e: nat, x: nat)
    requires lo >= 1 && GroupedByDigits(ids) && x in FromDigits(ids, lo, hi, s, e)
    ensures x >= 1 && lo <= Digits(x) <= hi && s <= x <= e && x in ids(Digits(x))
    decreases hi
  {
    assert hi >= lo;
    FromDigitsStep(ids, lo, hi, s, e, x);
    if x in FromDigits(ids, lo, hi - 1, s, e) {
      FromDigitsBound(ids, lo, hi - 1, s, e, x);
    } else {
      GroupedDigits(ids, hi, x);
    }
  }

  /** Ids of different digit counts are different. */
  lemma FromDigitsDisjoint(ids: nat -> seq<nat>, lo: nat, hi: nat, s: nat, e: nat)
    requires 1 <= lo <= hi && GroupedByDigits(ids)
    ensures forall x :: x in FromDigits(ids, lo, hi - 1, s, e) ==> x !in Within(ids(hi), s, e)
  {
    forall x | x in FromDigits(ids, lo, hi - 1, s, e)
      ensures x !in Within(ids(hi), s, e)
    {
      FromDigitsMissing(ids, lo, hi, s, e, x);
    }
  }

  lemma FromDigitsMissing(ids: nat -> seq<nat>, lo: nat, hi: nat, s: nat, e: nat, x: nat)
    requires 1 <= lo <= hi && GroupedByDigits(ids) && x in FromDigits(ids, lo, hi - 1, s, e)
    ensures x !in Within(ids(hi), s, e)
  {
    FromDigitsBound(ids, lo, hi - 1, s, e, x);
    if x in ids(hi) {
      GroupedDigits(ids, hi, x);
    }
  }

  lemma GroupedDigits(ids: nat -> seq<nat>, d: nat, x: nat)
    requires GroupedByDigits(ids) && x in ids(d)
    ensures x >= 1 && Digits(x) == d
  {
  }

  /** No id is listed twice. */
  lemma {:induction false} FromDigitsDistinct(ids: nat -> seq<nat>, lo: nat, hi: nat, s: nat, e: nat)
    requires lo >= 1 && GroupedByDigits(ids) && EachDistinct(ids)
    ensures NoDuplicates(FromDigits(ids, lo, hi, s, e))
    decreases hi
  {
    if hi >= lo {
      var a, b := FromDigits(ids, lo, hi - 1, s, e), Within(ids(hi), s, e);
      assert FromDigits(ids, lo, hi, s, e) == a + b;
      FromDigitsDistinct(ids, lo, hi - 1, s, e);
      WithinDistinct(ids(hi), s, e);
      FromDigitsDisjoint(ids, lo, hi, s, e);
      NoDuplicatesAppend(a, b);
    }
  }

  /** Part two's ids of a range are exactly its ids made of a block written
      at least twice, each listed once. */
  lemma RangeInvalidIds(s: nat, e: nat)
    requires s >= 1 && e >= 1
    ensures forall x: nat :: x in IterRangeInvalidIds(s, e) <==> s <= x <= e && InvalidRepeated(x)
    ensures NoDuplicates(IterRangeInvalidIds(s, e))
  {
    IterInvalidIdsGrouped();
    IterInvalidIdsEachDistinct();
    forall x: nat
      ensures x in IterRangeInvalidIds(s, e) <==> s <= x <= e && InvalidRepeated(x)
    {
      FromDigitsMembers(IterInvalidIds, Digits(s), Digits(e), s, e, x);
      if s <= x <= e {
        DigitsMonotone(s, x);
        DigitsMonotone(x, e);
        IterInvalidIdsMembers(Digits(x), x);
      }
    }
    FromDigitsDistinct(IterInvalidIds, Digits(s), Digits(e), s, e);
  }

  /* ---- Part one: the ids of a range ---- */

  /** Part one's test: an even number of digits whose two halves are equal. */
  predicate HalvesEqual(n: nat)
    requires n >= 1
  {
    var d := Digits(n);
    d % 2 == 0 && n % Pow10(d / 2) == n / Pow10(d / 2)
  }

  /** `invalid_ids`: the ids of `s..=e` with equal halves, in increasing
      order; `digits` panics on the id 0. */
  function InvalidIds(s: nat, e: nat): (r: seq<nat>)
    requires s >= 1 || e < s
    ensures forall x :: x in r <==> s <= x <= e && HalvesEqual(x)
    ensures Increasing(r)
  {
    if e < s then []
    else
      var p := InvalidIds(s, e - 1);
      assert forall k :: 0 <= k < |p| ==> p[k] < e by {
        forall k | 0 <= k < |p|
          ensures p[k] < e
        {
          assert p[k] in p;
        }
      }
      p + (if HalvesEqual(e) then [e] else [])
  }

  /** For a number of `2 h` digits, slot 0 is the low half and slot 1 the
      high half. */
  lemma Halves(n: nat, h: nat)
    requires n >= 1 && Digits(n) == 2 * h
    ensures Slot(n, h, 0) == n % Pow10(h) && Slot(n, h, 1) == n / Pow10(h)
  {
    assert Weight(h, 0) == 1;
    HighSlot(n, h, Pow10(h));
  }

  lemma HighSlot(n: nat, h: nat, m: nat)
    requires n >= 1 && Digits(n) == 2 * h && m == Pow10(h)
    ensures Slot(n, h, 1) == n / m
  {
    assert Weight(h, 1) == m;
    HighHalfBelow(n, h);
    SmallQuotient(n, m);
  }

  /** A quotient below its divisor is its own remainder. */
  lemma SmallQuotient(n: nat, m: nat)
    requires m >= 1 && n / m < m
    ensures (n / m) % m == n / m
  {
    DivUnique(n / m, m, 0, n / m);
  }

  /** The high half of a number of `2 h` digits has at most `h` digits. */
  lemma HighHalfBelow(n: nat, h: nat)
    requires n >= 1 && Digits(n) == 2 * h
    ensures n / Pow10(h) < Pow10(h)
  {
    DigitsBounds(n);
    Pow10Add(h, h);
    DivBelow(n, Pow10(h), Pow10(h));
  }

  /** Two equal halves are exactly a block written twice. */
  lemma HalvesIff(n: nat)
    requires n >= 1
    ensures HalvesEqual(n) <==> InvalidOnce(n)
  {
    var d := Digits(n);
    if HalvesEqual(n) {
      Halves(n, d / 2);
      assert RepeatedTimes(n, d / 2, 2);
    }
    if InvalidOnce(n) {
      var len: nat :| RepeatedTimes(n, len, 2);
      Halves(n, len);
      assert d / 2 == len;
    }
  }

  /** Part one's ids of a range are exactly its ids made of a block written
      twice, and each of them is also one of part two's. */
  lemma RangeHalvesIds(s: nat, e: nat)
    requires s >= 1
    ensures forall x :: x in InvalidIds(s, e) <==> s <= x <= e && InvalidOnce(x)
    ensures e >= 1 ==> forall x :: x in InvalidIds(s, e) ==> x in IterRangeInvalidIds(s, e)
  {
    forall x | s <= x <= e
      ensures HalvesEqual(x) <==> InvalidOnce(x)
    {
      HalvesIff(x);
    }
    if e >= 1 {
      RangeInvalidIds(s, e);
      forall x | x in InvalidIds(s, e)
        ensures InvalidRepeated(x)
      {
        var len: nat :| RepeatedTimes(x, len, 2);
      }
    }
  }

  /* ---- Input and answers ---- */

  /** One range `a-b`: both ends trimmed and parsed as `u64`. A missing `-`
      or an end that does not parse makes `unwrap` panic. */
  function ParseRange(text: String): (r: Option<(nat, nat)>)
    ensures r.Some? ==> '-' in text && r.value.0 <= U64_MAX && r.value.1 <= U64_MAX
  {
    match SplitOnce(text, '-')
    case None => None
    case Some((a, b)) =>
      match (ParseUnsigned(Trim(a), U64_MAX), ParseUnsigned(Trim(b), U64_MAX))
      case (Some(x), Some(y)) => Some((x, y))
      case _ => None
  }

  /** The ranges of the input, split at commas; `None` when one panics. */
  function ParseInput(input: String): Option<seq<(nat, nat)>>
  {
    MapAll(ParseRange, Split(input, ','))
  }

  function ShowRange(r: (nat, nat)): String
  {
    ToDecimal(r.0) + ['-'] + ToDecimal(r.1)
  }

  function ShowRanges(rs: seq<(nat, nat)>): (r: seq<String>)
    ensures |r| == |rs| && forall k :: 0 <= k < |rs| ==> r[k] == ShowRange(rs[k])
  {
    if rs == [] then [] else [ShowRange(rs[0])] + ShowRanges(rs[1..])
  }

  lemma DecimalPlain(v: nat)
    ensures '-' !in ToDecimal(v) && ',' !in ToDecimal(v) && Trim(ToDecimal(v)) == ToDecimal(v)
  {
    var t := ToDecimal(v);
    assert IsDigit(t[0]) && IsDigit(t[|t| - 1]);
    TrimUnchanged(t);
  }

  /** A range written as `a-b` parses back to itself. */
  lemma ParseRangeRoundTrip(a: nat, b: nat)
    requires a <= U64_MAX && b <= U64_MAX
    ensures ParseRange(ShowRange((a, b))) == Some((a, b))
  {
    DecimalPlain(a);
    DecimalPlain(b);
    SplitOnceAfter(ToDecimal(a), '-', ToDecimal(b));
    ParseUnsignedRoundTrip(a, U64_MAX);
    ParseUnsignedRoundTrip(b, U64_MAX);
  }

  /** Ranges written `a-b` and joined with commas parse back to themselves. */
  lemma ParseInputRoundTrip(rs: seq<(nat, nat)>)
    requires |rs| >= 1 && forall k :: 0 <= k < |rs| ==> rs[k].0 <= U64_MAX && rs[k].1 <= U64_MAX
    ensures ParseInput(Join(ShowRanges(rs), ',')) == Some(rs)
  {
    var parts := ShowRanges(rs);
    forall k | 0 <= k < |rs|
      ensures ',' !in parts[k] && ParseRange(parts[k]) == Some(rs[k])
    {
      DecimalPlain(rs[k].0);
      DecimalPlain(rs[k].1);
      ParseRangeRoundTrip(rs[k].0, rs[k].1);
    }
    JoinSplit(parts, ',');
    MapAllSome(ParseRange, parts, rs);
  }

  /** Ranges on which `digits` never meets 0: part one walks every range
      from its start, so the start must be positive. */
  predicate StartsPositive(rs: seq<(nat, nat)>)
  {
    forall k :: 0 <= k < |rs| ==> rs[k].0 >= 1
  }

  /** Part two takes `digits` of both ends, so both must be positive. */
  predicate EndsPositive(rs: seq<(nat, nat)>)
  {
    forall k :: 0 <= k < |rs| ==> rs[k].0 >= 1 && rs[k].1 >= 1
  }

  /** Sum over the ranges of the ids `invalid_ids` lists. */
  function TotalOne(rs: seq<(nat, nat)>): nat
    requires StartsPositive(rs)
  {
    if rs == [] then 0 else SumNat(InvalidIds(rs[0].0, rs[0].1)) + TotalOne(rs[1..])
  }

  /** Sum over the ranges of the ids `iter_range_invalid_ids` lists. */
  function TotalTwo(rs: seq<(nat, nat)>): nat
    requires EndsPositive(rs)
  {
    if rs == [] then 0 else SumNat(IterRangeInvalidIds(rs[0].0, rs[0].1)) + TotalTwo(rs[1..])
  }

  /** Taking one element out of a list lowers its sum by that element. */
  lemma {:induction false} SumNatRemove(b: seq<nat>, j: nat)
    requires j < |b|
    ensures SumNat(b) == SumNat(b[..j] + b[j + 1..]) + b[j]
  {
    var front, back := b[..j], b[j + 1..];
    var one := front + [b[j]];
    assert b == one + back;
    assert one[..|one| - 1] == front;
    SumNatAppend(one, back);
    SumNatAppend(front, back);
  }

  /** A list without repeats whose elements all occur in `b` sums to at most `b`'s sum. */
  lemma {:induction false} SumNatSubset(a: seq<nat>, b: seq<nat>)
    requires NoDuplicates(a) && forall x :: x in a ==> x in b
    ensures SumNat(a) <= SumNat(b)
  {
    if a != [] {
      var x := a[|a| - 1];
      var a' := a[..|a| - 1];
      assert x in a;
      var j :| 0 <= j < |b| && b[j] == x;
      var b' := b[..j] + b[j + 1..];
      forall y | y in a'
        ensures y in b'
      {
        var i :| 0 <= i < |a'| && a'[i] == y;
        assert a[i] == y && i < |a| - 1;
        assert y in a;
        var k :| 0 <= k < |b| && b[k] == y;
        if k < j {
          assert b'[k] == y;
        } else {
          assert b'[k - 1] == y;
        }
      }
      SumNatSubset(a', b');
      SumNatRemove(b, j);
    }
  }

  /** Every part-one id of a range is also a part-two id of it, so part one's
      total never exceeds part two's. */
  lemma {:induction false} TotalOneAtMostTwo(rs: seq<(nat, nat)>)
    requires EndsPositive(rs)
    ensures StartsPositive(rs) && TotalOne(rs) <= TotalTwo(rs)
  {
    if rs != [] {
      var s, e := rs[0].0, rs[0].1;
      RangeHalvesIds(s, e);
      assert NoDuplicates(InvalidIds(s, e));
      SumNatSubset(InvalidIds(s, e), IterRangeInvalidIds(s, e));
      TotalOneAtMostTwo(rs[1..]);
    }
  }

  /** Part one: the sum of the ids with two equal halves over all ranges;
      `None` when a range does not parse or `digits` meets 0. */
  function PartOne(input: String): (r: Option<nat>)
    ensures r.None? <==> ParseInput(input).None? || !StartsPositive(ParseInput(input).value)
  {
    var p := ParseInput(input);
    if p.None? || !StartsPositive(p.value) then None else Some(TotalOne(p.value))
  }

  /** Part two: the sum of the ids made of a repeated block over all ranges. */
  function PartTwo(input: String): (r: Option<nat>)
    ensures r.None? <==> ParseInput(input).None? || !EndsPositive(ParseInput(input).value)
  {
    var p := ParseInput(input);
    if p.None? || !EndsPositive(p.value) then None else Some(TotalTwo(p.value))
  }

  /** When part two has an answer, part one has one too, and it is no larger. */
  lemma PartOneAtMostPartTwo(input: String)
    requires PartTwo(input).Some?
    ensures PartOne(input).Some? && PartOne(input).value <= PartTwo(input).value
  {
    TotalOneAtMostTwo(ParseInput(input).value);
  }
}
