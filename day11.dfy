/** Day 11: a graph of devices. Every device name becomes a `u16` id whose
    5-bit fields hold the letters (`'a'` is 0), the input lists each
    device's outputs, and part two combines path counts through the
    devices `dac` and `fft`. The path counting itself is a library call
    and is a parameter here. */
module Day11 {
  import opened Base
  import opened Text

  // ---------------------------------------------------------------------
  // Bitwise or on naturals

  /** `a | b`, bit by bit from the least significant. */
  function Or(a: nat, b: nat): nat
    decreases a + b
  {
    if a == 0 then b
    else if b == 0 then a
    else 2 * Or(a / 2, b / 2) + (if a % 2 == 1 || b % 2 == 1 then 1 else 0)
  }

  /** `2^k`. */
  function Pow2(k: nat): (r: nat)
    ensures r >= 1
  {
    if k == 0 then 1 else 2 * Pow2(k - 1)
  }

  /** The or of two numbers below `2^k` stays below `2^k`. */
  lemma {:induction false} OrBelow(a: nat, b: nat, k: nat)
    requires a < Pow2(k) && b < Pow2(k)
    ensures Or(a, b) < Pow2(k)
    decreases a + b
  {
    if a != 0 && b != 0 {
      assert k > 0;
      OrBelow(a / 2, b / 2, k - 1);
    }
  }

  /** When `a` has no bits below `2^k` and `b` has none from there up, `a | b`
      is `a + b`. */
  lemma {:induction false} OrDisjoint(a: nat, b: nat, k: nat)
    requires a % Pow2(k) == 0 && b < Pow2(k)
    ensures Or(a, b) == a + b
    decreases a + b
  {
    if a != 0 && b != 0 {
      assert k > 0;
      var p := Pow2(k - 1);
      assert Pow2(k) == 2 * p;
      HalfMultiple(a, p);
      OrDisjoint(a / 2, b / 2, k - 1);
    }
  }

  /** A multiple of `2p` is even and its half is a multiple of `p`. */
  lemma HalfMultiple(a: nat, p: nat)
    requires p > 0 && a % (2 * p) == 0
    ensures a % 2 == 0 && (a / 2) % p == 0
  {
    var q := a / (2 * p);
    assert a == (2 * p) * q + a % (2 * p);
    assert a == 2 * (p * q) + 0;
    DivUnique(a, 2, p * q, 0);
    DivUnique(p * q, p, q, 0);
  }

  // ---------------------------------------------------------------------
  // Node ids

  /** `*char - b'a'` as a `u16`: `None` where the byte subtraction underflows
      (a character before `'a'`). A character stands for one byte. */
  function Letter(c: char): Option<nat>
  {
    if c < 'a' then None else Some((c as int - 'a' as int) % 0x100)
  }

  /** `id_recursive`: the letters folded front to back into
      `value << 5 | letter`, where the shift drops the bits beyond 16. */
  function IdRecursive(node: String, value: nat): Option<nat>
  {
    if node == [] then Some(value)
    else
      match Letter(node[0])
      case None => None
      case Some(d) => IdRecursive(node[1..], Or((value * 32) % 0x1_0000, d))
  }

  /** `node_id`. */
  function NodeId(node: String): Option<nat>
  {
    IdRecursive(node, 0)
  }

  /** The fold from the other end: appending a letter shifts the id and
      ors in the letter. */
  lemma {:induction false} IdRecursiveSnoc(s: String, c: char, value: nat)
    ensures IdRecursive(s + [c], value) ==
      match (IdRecursive(s, value), Letter(c))
      case (Some(v), Some(d)) => Some(Or((v * 32) % 0x1_0000, d))
      case _ => None
  {
    if s == [] {
      assert [c][1..] == [];
    } else {
      assert (s + [c])[1..] == s[1..] + [c];
      match Letter(s[0])
      case None =>
      case Some(d) =>
        IdRecursiveSnoc(s[1..], c, Or((value * 32) % 0x1_0000, d));
    }
  }

  /** `node_id("") == 0`, and a letter more shifts the id left by 5 and ors
      the letter in. */
  lemma NodeIdSnoc(s: String, c: char)
    ensures NodeId([]) == Some(0)
    ensures NodeId(s + [c]) ==
      match (NodeId(s), Letter(c))
      case (Some(v), Some(d)) => Some(Or((v * 32) % 0x1_0000, d))
      case _ => None
  {
    IdRecursiveSnoc(s, c, 0);
  }

  /** Every id is a `u16`. */
  lemma {:induction false} IdRecursiveBelow(s: String, value: nat)
    requires value < 0x1_0000
    ensures IdRecursive(s, value).Some? ==> IdRecursive(s, value).value < 0x1_0000
  {
    if s != [] && Letter(s[0]).Some? {
      var d := Letter(s[0]).value;
      assert Pow2(16) == 0x1_0000 by {
        assert Pow2(8) == 256 by {
          assert Pow2(4) == 16 by {
            assert Pow2(2) == 4;
          }
        }
      }
      OrBelow((value * 32) % 0x1_0000, d, 16);
      IdRecursiveBelow(s[1..], Or((value * 32) % 0x1_0000, d));
    }
  }

  predicate Lowercase(s: String)
  {
    forall i :: 0 <= i < |s| ==> 'a' <= s[i] <= 'z'
  }

  /** A lowercase name read as a base-32 numeral (`'a'` is 0). */
  function Base32(s: String): nat
    requires Lowercase(s)
  {
    if s == [] then 0 else 32 * Base32(s[..|s| - 1]) + (s[|s| - 1] as int - 'a' as int)
  }

  /** A name of at most three lowercase letters is its base-32 value: the
      5-bit fields do not overlap and nothing is shifted out. */
  lemma {:induction false} NodeIdLowercase(s: String)
    requires Lowercase(s) && |s| <= 3
    ensures NodeId(s) == Some(Base32(s)) && Base32(s) < Pow(32, |s|)
  {
    if s != [] {
      var n := |s| - 1;
      var front := s[..n];
      NodeIdLowercase(front);
      assert s == front + [s[n]];
      NodeIdSnoc(front, s[n]);
      var v := Base32(front);
      var d := s[n] as int - 'a' as int;
      assert Letter(s[n]) == Some(d);
      assert NodeId(s) == Some(Or((v * 32) % 0x1_0000, d));
      ShiftInLetter(v, d, n);
      assert Base32(s) == 32 * v + d;
    }
  }

  /** While the id has fewer than three letters, shifting it by 5 bits
      loses nothing and the new letter fills the freed bits. */
  lemma ShiftInLetter(v: nat, d: nat, n: nat)
    requires n < 3 && v < Pow(32, n) && d < 26
    ensures Or((v * 32) % 0x1_0000, d) == 32 * v + d < Pow(32, n + 1)
  {
    assert Pow(32, n) <= 1024 by {
      assert Pow(32, 2) == 1024;
    }
    assert (v * 32) % 0x1_0000 == v * 32;
    assert Pow2(5) == 32;
    assert (v * 32) % Pow2(5) == 0;
    OrDisjoint(v * 32, d, 5);
  }

  /** Distinct names of the same length up to three lowercase letters have
      distinct ids. */
  lemma {:induction false} Base32Injective(a: String, b: String)
    requires Lowercase(a) && Lowercase(b) && |a| == |b|
    ensures Base32(a) == Base32(b) <==> a == b
  {
    if a != [] && Base32(a) == Base32(b) {
      var n := |a| - 1;
      var da := a[n] as int - 'a' as int;
      var db := b[n] as int - 'a' as int;
      DivUnique(Base32(a), 32, Base32(a[..n]), da);
      DivUnique(Base32(a), 32, Base32(b[..n]), db);
      Base32Injective(a[..n], b[..n]);
      assert a == a[..n] + [a[n]];
      assert b == b[..n] + [b[n]];
    }
  }

  /** Three-letter lowercase names get ids below `2^15`, and two names share
      an id only when they are equal. */
  lemma NodeIdInjective(a: String, b: String)
    requires Lowercase(a) && Lowercase(b) && |a| == 3 && |b| == 3
    ensures NodeId(a).Some? && NodeId(a).value < 0x8000
    ensures NodeId(a) == NodeId(b) <==> a == b
  {
    NodeIdLowercase(a);
    NodeIdLowercase(b);
    assert Pow(32, 3) == 0x8000;
    Base32Injective(a, b);
  }

  /** The five devices the solver names. */
  const START: nat := 25044 // "you"
  const END: nat := 14995   // "out"
  const SVR: nat := 19121   // "svr"
  const DAC: nat := 3074    // "dac"
  const FFT: nat := 5299    // "fft"

  /** The constants are the ids of their names. */
  lemma {:induction false} ConstantIds()
    ensures NodeId("you") == Some(START) && NodeId("out") == Some(END)
    ensures NodeId("svr") == Some(SVR) && NodeId("dac") == Some(DAC) && NodeId("fft") == Some(FFT)
  {
    ThreeLetters("you", START);
    ThreeLetters("out", END);
    ThreeLetters("svr", SVR);
    ThreeLetters("dac", DAC);
    ThreeLetters("fft", FFT);
  }

  /** The id of a three-letter lowercase name, digit by digit. */
  lemma {:induction false} ThreeLetters(s: String, id: nat)
    requires Lowercase(s) && |s| == 3
    requires id == 1024 * (s[0] as int - 'a' as int) + 32 * (s[1] as int - 'a' as int) + (s[2] as int - 'a' as int)
    ensures NodeId(s) == Some(id)
  {
    NodeIdLowercase(s);
    assert s[..2][..1] == s[..1];
    assert Base32(s[..1]) == s[0] as int - 'a' as int by {
      assert s[..1][..0] == [];
    }
  }

  // ---------------------------------------------------------------------
  // Parsing

  /** One line: the id of the first three bytes of the first token (which
      drops the `:`), and the ids of the other tokens in order. `None` where
      the source panics: no token, a first token shorter than three, or a
      character before `'a'`. */
  function ParseLine(line: String): Option<(nat, seq<nat>)>
  {
    var parts := Words(line);
    if parts == [] || |parts[0]| < 3 then None
    else
      match (NodeId(parts[0][..3]), MapAll(NodeId, parts[1..]))
      case (Some(from), Some(to)) => Some((from, to))
      case _ => None
  }

  /** The map after inserting the entries in order: a later entry with the
      same key replaces an earlier one. */
  function Insertions(es: seq<(nat, seq<nat>)>): map<nat, seq<nat>>
  {
    if es == [] then map[] else Insertions(es[..|es| - 1])[es[|es| - 1].0 := es[|es| - 1].1]
  }

  /** Every key of the map comes from an entry. */
  lemma {:induction false} InsertionsKeys(es: seq<(nat, seq<nat>)>, key: nat)
    ensures key in Insertions(es) <==> exists i :: 0 <= i < |es| && es[i].0 == key
  {
    if es != [] {
      var n := |es| - 1;
      var front := es[..n];
      InsertionsKeys(front, key);
      if key in Insertions(front) {
        var i :| 0 <= i < n && front[i].0 == key;
        assert es[i].0 == key;
      }
      if key != es[n].0 && exists i :: 0 <= i < |es| && es[i].0 == key {
        var i :| 0 <= i < |es| && es[i].0 == key;
        assert front[i].0 == key;
      }
    }
  }

  /** A key maps to the outputs of its last entry: a later line with the
      same device overwrites an earlier one. */
  lemma {:induction false} InsertionsLastWins(es: seq<(nat, seq<nat>)>, j: nat)
    requires j < |es| && forall t :: j < t < |es| ==> es[t].0 != es[j].0
    ensures es[j].0 in Insertions(es) && Insertions(es)[es[j].0] == es[j].1
  {
    var n := |es| - 1;
    if j < n {
      var front := es[..n];
      assert front[j] == es[j];
      forall t | j < t < |front|
        ensures front[t].0 != front[j].0
      {
        assert front[t] == es[t];
      }
      InsertionsLastWins(front, j);
    }
  }

  /** `parse_input`: the map, or `None` where a line panics. */
  function ParseInput(input: String): Option<map<nat, seq<nat>>>
  {
    ParseEntries(Lines(input))
  }

  function ParseEntries(lines: seq<String>): Option<map<nat, seq<nat>>>
  {
    match MapAll(ParseLine, lines)
    case None => None
    case Some(es) => Some(Insertions(es))
  }

  /** The loop of `parse_input`: `map.insert(from, to)` line by line. */
  method ParseLines(lines: seq<String>) returns (r: Option<map<nat, seq<nat>>>)
    ensures r == ParseEntries(lines)
  {
    var m: map<nat, seq<nat>> := map[];
    ghost var es: seq<(nat, seq<nat>)> := [];
    for k := 0 to |lines|
      invariant |es| == k && forall t :: 0 <= t < k ==> ParseLine(lines[t]) == Some(es[t])
      invariant m == Insertions(es)
    {
      var parsed := ParseLine(lines[k]);
      if parsed.None? {
        MapAllNone(ParseLine, lines, k);
        return None;
      }
      var (from, to) := parsed.value;
      m := m[from := to];
      assert (es + [(from, to)])[..k] == es;
      es := es + [(from, to)];
    }
    MapAllSome(ParseLine, lines, es);
    return Some(m);
  }

  // ---------------------------------------------------------------------
  // Part two

  /** `a * b` on `u64`: `None` where it overflows (a panic). */
  function MulU64(a: Option<nat>, b: nat): Option<nat>
  {
    match a
    case None => None
    case Some(x) => if x * b <= U64_MAX then Some(x * b) else None
  }

  /** `n1 * n2 * n3`, left to right, on `u64`. */
  function Product3(n1: nat, n2: nat, n3: nat): Option<nat>
  {
    MulU64(MulU64(Some(n1), n2), n3)
  }

  /** `part_two` given `paths(a, b)`, the number of paths from `a` to `b`:
      the paths through `dac` then `fft` plus those through `fft` then `dac`.
      `None` where a product or the sum overflows a `u64`. */
  function PartTwo(paths: (nat, nat) -> nat): (r: Option<nat>)
    ensures var a := paths(SVR, DAC) * paths(DAC, FFT) * paths(FFT, END);
            var b := paths(SVR, FFT) * paths(FFT, DAC) * paths(DAC, END);
            r.Some? ==> r.value == a + b
  {
    match (Product3(paths(SVR, DAC), paths(DAC, FFT), paths(FFT, END)),
           Product3(paths(SVR, FFT), paths(FFT, DAC), paths(DAC, END)))
    case (Some(a), Some(b)) => if a + b <= U64_MAX then Some(a + b) else None
    case _ => None
  }

  /** The answer exists exactly when neither the first two factors of a
      term, nor a term, nor their sum exceeds `u64::MAX`. */
  lemma PartTwoDefined(paths: (nat, nat) -> nat)
    ensures var a2 := paths(SVR, DAC) * paths(DAC, FFT);
            var b2 := paths(SVR, FFT) * paths(FFT, DAC);
            var a := a2 * paths(FFT, END);
            var b := b2 * paths(DAC, END);
            PartTwo(paths).Some? <==> a2 <= U64_MAX && b2 <= U64_MAX && a <= U64_MAX && b <= U64_MAX && a + b <= U64_MAX
  {
  }

  /** Exchanging the roles of `dac` and `fft` gives the same answer. */
  lemma PartTwoSymmetric(paths: (nat, nat) -> nat, swapped: (nat, nat) -> nat)
    requires forall a, b :: swapped(a, b) == paths(Swap(a), Swap(b))
    ensures PartTwo(swapped) == PartTwo(paths)
  {
  }

  function Swap(id: nat): nat
  {
    if id == DAC then FFT else if id == FFT then DAC else id
  }
}
