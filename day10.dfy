/** Day 10: machines with indicator lights, buttons and joltage counters.
    A line `[.##.] (3) (1,3) (2) {3,5,4,7}` gives the light pattern, one
    button per parenthesised list and the joltage targets. Lights and
    buttons are packed into `u16` masks, most significant bit first:
    position `i` of a pattern of length `len` is bit `len - 1 - i`. */
module Day10 {
  import opened Base
  import opened Text

  /** A `u16`, as the set of the positions of its 1-bits (bit 0 is the
      least significant). `v & (1 << k) != 0` is `k in v`, `a | b` is
      `a + b` and `a ^ b` is the symmetric difference. */
  type Word = s: set<nat> | forall k :: k in s ==> k < 16

  /** `v << 1 | b` on a `u16`: every bit moves up one, the top bit is lost
      and `b` becomes bit 0. */
  function ShiftIn(v: Word, b: bool): Word
  {
    (set k | k in v && k < 15 :: k + 1) + (if b then {0} else {})
  }

  lemma ShiftInBit(v: Word, b: bool, k: nat)
    ensures k in ShiftIn(v, b) <==> (if k == 0 then b else k < 16 && k - 1 in v)
  {
    if k > 0 && k < 16 && k - 1 in v {
      assert (k - 1) + 1 == k;
    }
  }

  /** `a ^ b` on `u16`s. */
  function Xor(a: Word, b: Word): Word
  {
    (a - b) + (b - a)
  }

  /** `Machine`: the button masks in order of appearance, the joltage
      targets and the light pattern. */
  datatype Machine = Machine(buttons: seq<Word>, joltage: seq<nat>, pattern: Word)

  // ---------------------------------------------------------------------
  // The light pattern

  /** The fold over the bracket contents: `acc << 1 | (c == '#')`. */
  function PatternOf(s: String): Word
  {
    if s == [] then {} else ShiftIn(PatternOf(s[..|s| - 1]), s[|s| - 1] == '#')
  }

  /** The pattern is read most significant bit first: bit `k` is the `k`-th
      character from the end, and there is no bit at or beyond the length
      (so the pattern is below `2^len`), nor at 16 or beyond. */
  lemma {:induction false} PatternBits(s: String, k: nat)
    ensures k in PatternOf(s) <==> (k < 16 && k < |s| && s[|s| - 1 - k] == '#')
  {
    if s != [] {
      var t := s[..|s| - 1];
      ShiftInBit(PatternOf(t), s[|s| - 1] == '#', k);
    }
    if s != [] && k > 0 {
      var t := s[..|s| - 1];
      PatternBits(t, k - 1);
      if k < |s| {
        assert t[|t| - 1 - (k - 1)] == s[|s| - 1 - k];
      }
    }
  }

  // ---------------------------------------------------------------------
  // Button masks

  /** The fold over a button's indices: `acc | 1 << (pattern_len - 1 - i)`
      on `u16`s. `None` where it panics: `pattern_len - 1 - i` underflows
      when `i >= pattern_len`, and the shift overflows at 16 or more. */
  function Mask(ix: seq<nat>, plen: nat): Option<Word>
  {
    if ix == [] then Some({})
    else
      match Mask(ix[..|ix| - 1], plen)
      case None => None
      case Some(acc) =>
        var i := ix[|ix| - 1];
        if i < plen && plen - 1 - i < 16 then Some(acc + {plen - 1 - i}) else None
  }

  /** Every index fits the pattern and the word. */
  predicate IndicesFit(ix: seq<nat>, plen: nat)
  {
    forall t :: 0 <= t < |ix| ==> ix[t] < plen && plen - 1 - ix[t] < 16
  }

  /** Some index of `ix` is `i`. */
  predicate Lists(ix: seq<nat>, i: nat)
  {
    exists t :: 0 <= t < |ix| && ix[t] == i
  }

  /** The mask exists exactly when every index fits, and then bit
      `plen - 1 - i` is set exactly for the listed indices `i`. */
  lemma {:induction false} MaskMeaning(ix: seq<nat>, plen: nat)
    ensures Mask(ix, plen).Some? <==> IndicesFit(ix, plen)
    ensures Mask(ix, plen).Some? ==> forall i: nat :: i < plen ==> (plen - 1 - i in Mask(ix, plen).value <==> Lists(ix, i))
    ensures Mask(ix, plen).Some? ==> forall k :: k in Mask(ix, plen).value ==> k < plen
  {
    if ix != [] {
      var n := |ix| - 1;
      var front := ix[..n];
      MaskMeaning(front, plen);
      assert forall t :: 0 <= t < n ==> front[t] == ix[t];
      if Mask(ix, plen).Some? {
        forall i: nat | i < plen
          ensures plen - 1 - i in Mask(ix, plen).value <==> Lists(ix, i)
        {
          if Lists(front, i) {
            var t :| 0 <= t < n && front[t] == i;
            assert ix[t] == i;
          }
          if Lists(ix, i) && ix[n] != i {
            var t :| 0 <= t < |ix| && ix[t] == i;
            assert front[t] == i;
          }
        }
      }
    }
  }

  // ---------------------------------------------------------------------
  // Parsing a machine

  /** `s.parse::<u16>()`. */
  function ParseU16(s: String): Option<nat>
  {
    ParseUnsigned(s, U16_MAX)
  }

  /** `part[1..part.len() - 1]` split at commas and parsed as `u16`s;
      `None` where the slice or a parse panics. */
  function Bracketed(part: String): Option<seq<nat>>
  {
    if |part| < 2 then None else ParseList(Split(part[1..|part| - 1], ','))
  }

  /** The pieces parsed as `u16`s, or `None` when one does not parse. */
  function ParseList(pieces: seq<String>): Option<seq<nat>>
  {
    if pieces == [] then Some([])
    else
      match (ParseList(pieces[..|pieces| - 1]), ParseU16(pieces[|pieces| - 1]))
      case (Some(xs), Some(x)) => Some(xs + [x])
      case _ => None
  }

  /** One button token `(i,j,...)` as a mask over a pattern of `plen`
      lights: the pieces between the parentheses folded into a mask. */
  function ButtonOf(part: String, plen: nat): Option<Word>
  {
    if |part| < 2 then None else FoldMask(Split(part[1..|part| - 1], ','), plen)
  }

  /** The fold of a button: each piece parsed as a `u16` index `i` and
      `acc | 1 << (plen - 1 - i)`; `None` at the first piece that does not
      parse or whose bit underflows or overflows. */
  function FoldMask(pieces: seq<String>, plen: nat): Option<Word>
  {
    if pieces == [] then Some({})
    else
      match (FoldMask(pieces[..|pieces| - 1], plen), ParseU16(pieces[|pieces| - 1]))
      case (Some(acc), Some(i)) => if i < plen && plen - 1 - i < 16 then Some(acc + {plen - 1 - i}) else None
      case _ => None
  }

  /** Folding while parsing is parsing every index first, then folding. */
  lemma {:induction false} FoldMaskParsed(pieces: seq<String>, plen: nat)
    ensures FoldMask(pieces, plen) == match ParseList(pieces) case None => None case Some(ix) => Mask(ix, plen)
  {
    if pieces != [] {
      var front := pieces[..|pieces| - 1];
      FoldMaskParsed(front, plen);
      match (ParseList(front), ParseU16(pieces[|pieces| - 1]))
      case (Some(xs), Some(x)) =>
        assert (xs + [x])[..|xs + [x]| - 1] == xs;
      case _ =>
    }
  }

  /** A button token is a mask exactly when its indices parse and fit. */
  lemma ButtonOfMeaning(part: String, plen: nat)
    ensures ButtonOf(part, plen) == match Bracketed(part) case None => None case Some(ix) => Mask(ix, plen)
  {
    if |part| >= 2 {
      FoldMaskParsed(Split(part[1..|part| - 1], ','), plen);
    }
  }

  /** A failing prefix fails the whole fold. */
  lemma {:induction false} FoldMaskPrefix(pieces: seq<String>, plen: nat, k: nat)
    requires k <= |pieces| && FoldMask(pieces[..k], plen).None?
    ensures FoldMask(pieces, plen).None?
    decreases |pieces| - k
  {
    if k < |pieces| {
      assert pieces[..k + 1][..k] == pieces[..k];
      FoldMaskPrefix(pieces, plen, k + 1);
    } else {
      assert pieces[..k] == pieces;
    }
  }

  /** The fold of one button over its pieces. */
  method ParseButton(part: String, plen: nat) returns (b: Option<Word>)
    ensures b == ButtonOf(part, plen)
  {
    if |part| < 2 {
      return None;
    }
    var pieces := Split(part[1..|part| - 1], ',');
    b := FoldPieces(pieces, plen);
  }

  method FoldPieces(pieces: seq<String>, plen: nat) returns (b: Option<Word>)
    ensures b == FoldMask(pieces, plen)
  {
    var acc: Word := {};
    for k := 0 to |pieces|
      invariant FoldMask(pieces[..k], plen) == Some(acc)
    {
      assert pieces[..k + 1][..k] == pieces[..k];
      var i := ParseU16(pieces[k]);
      if i.None? || !(i.value < plen && plen - 1 - i.value < 16) {
        FoldMaskPrefix(pieces, plen, k + 1);
        return None;
      }
      acc := acc + {plen - 1 - i.value};
    }
    assert pieces[..|pieces|] == pieces;
    return Some(acc);
  }

  /** The masks of the button tokens `parts`, in order. */
  function ButtonsOf(parts: seq<String>, plen: nat): Option<seq<Word>>
  {
    if parts == [] then Some([])
    else
      match (ButtonsOf(parts[..|parts| - 1], plen), ButtonOf(parts[|parts| - 1], plen))
      case (Some(bs), Some(b)) => Some(bs + [b])
      case _ => None
  }

  predicate IsButton(part: String)
  {
    |part| > 0 && part[0] == '('
  }

  /** The first token at or after `i` that does not start with `(`, or
      `|parts|` when there is none. */
  function ButtonsEnd(parts: seq<String>, i: nat): (n: nat)
    requires i <= |parts|
    ensures i <= n <= |parts| && forall t :: i <= t < n ==> IsButton(parts[t])
    ensures n < |parts| ==> !IsButton(parts[n])
    decreases |parts| - i
  {
    if i == |parts| || !IsButton(parts[i]) then i else ButtonsEnd(parts, i + 1)
  }

  /** Past a run of buttons the end lies further on. */
  lemma {:induction false} ButtonsEndAfter(parts: seq<String>, i: nat, k: nat)
    requires i <= k < |parts| && forall t :: i <= t <= k ==> IsButton(parts[t])
    ensures ButtonsEnd(parts, i) > k
    decreases k - i
  {
    if i < k {
      ButtonsEndAfter(parts, i + 1, k);
    }
  }

  /** `pattern_str.len() - 2` as a `u16`; the cast keeps the low 16 bits. */
  function PatternLen(pattern: String): nat
    requires |pattern| >= 2
  {
    (|pattern| - 2) % 0x1_0000
  }

  /** One line of `parse_input`, split at blanks. */
  function ParseMachine(line: String): Option<Machine>
  {
    MachineOf(Words(line))
  }

  /** The tokens of one line: the first is the pattern, the tokens that
      start with `(` are buttons, and the first token that does not is the
      joltage list, which ends the machine; later tokens are ignored.
      `None` where the source panics: no token, a pattern token shorter than
      2, a bad button or joltage list, or no joltage token at all
      (`unreachable!`). */
  function MachineOf(parts: seq<String>): Option<Machine>
  {
    if parts == [] || |parts[0]| < 2 then None
    else
      var plen := PatternLen(parts[0]);
      var pattern := PatternOf(parts[0][1..|parts[0]| - 1]);
      var rest := parts[1..];
      var n := ButtonsEnd(rest, 0);
      if n == |rest| then None
      else
        match (ButtonsOf(rest[..n], plen), Bracketed(rest[n]))
        case (Some(buttons), Some(joltage)) => Some(Machine(buttons, joltage, pattern))
        case _ => None
  }

  /** The closure of `parse_input` for one line. */
  method ParseMachineLine(line: String) returns (r: Option<Machine>)
    ensures r == ParseMachine(line)
  {
    r := ParseTokens(Words(line));
  }

  /** Walk the tokens after the pattern, pushing button masks until the
      joltage token. */
  method ParseTokens(parts: seq<String>) returns (r: Option<Machine>)
    ensures r == MachineOf(parts)
  {
    if parts == [] || |parts[0]| < 2 {
      return None;
    }
    var pattern_str := parts[0];
    var plen := PatternLen(pattern_str);
    var pattern := PatternOf(pattern_str[1..|pattern_str| - 1]);
    var rest := parts[1..];
    var buttons, n := CollectButtons(rest, plen);
    if buttons.None? {
      MachineOfEnd(parts, ButtonsEnd(rest, 0));
      return None;
    }
    MachineOfEnd(parts, n);
    if n == |rest| {
      return None;
    }
    var joltage := Bracketed(rest[n]);
    if joltage.None? {
      return None;
    }
    return Some(Machine(buttons.value, joltage.value, pattern));
  }

  /** The leading button tokens of `parts` as masks, stopping at the first
      token that is not a button (`n`), or `None` at the first button that
      does not parse. */
  method CollectButtons(parts: seq<String>, plen: nat) returns (buttons: Option<seq<Word>>, n: nat)
    ensures buttons == ButtonsOf(parts[..ButtonsEnd(parts, 0)], plen)
    ensures buttons.Some? ==> n == ButtonsEnd(parts, 0)
  {
    var acc: seq<Word> := [];
    for k := 0 to |parts|
      invariant forall t :: 0 <= t < k ==> IsButton(parts[t])
      invariant ButtonsOf(parts[..k], plen) == Some(acc)
    {
      var part := parts[k];
      if !IsButton(part) {
        ButtonsStop(parts, plen, k, acc);
        return Some(acc), k;
      }
      ButtonsRunStep(parts, k);
      var next := PushButton(parts, plen, k, acc);
      if next.None? {
        ButtonFails(parts, plen, k);
        return None, k;
      }
      acc := next.value;
    }
    ButtonsStop(parts, plen, |parts|, acc);
    return Some(acc), |parts|;
  }

  lemma ButtonsRunStep(parts: seq<String>, k: nat)
    requires k < |parts| && IsButton(parts[k]) && forall t :: 0 <= t < k ==> IsButton(parts[t])
    ensures forall t :: 0 <= t <= k ==> IsButton(parts[t])
  {
  }

  /** One turn of the loop: parse token `k` as a button and push its mask. */
  method PushButton(parts: seq<String>, plen: nat, k: nat, acc: seq<Word>) returns (next: Option<seq<Word>>)
    requires k < |parts| && ButtonsOf(parts[..k], plen) == Some(acc)
    ensures next == ButtonsOf(parts[..k + 1], plen)
  {
    var sequence := ParseButton(parts[k], plen);
    ButtonsStep(parts, plen, k);
    if sequence.None? {
      return None;
    }
    return Some(acc + [sequence.value]);
  }

  /** The buttons end where the run of button tokens stops. */
  lemma {:induction false} ButtonsStop(parts: seq<String>, plen: nat, k: nat, acc: seq<Word>)
    requires k <= |parts| && forall t :: 0 <= t < k ==> IsButton(parts[t])
    requires k < |parts| ==> !IsButton(parts[k])
    requires ButtonsOf(parts[..k], plen) == Some(acc)
    ensures ButtonsEnd(parts, 0) == k && ButtonsOf(parts[..ButtonsEnd(parts, 0)], plen) == Some(acc)
  {
    ButtonsEndIs(parts, 0, k);
  }

  /** A button token that does not parse fails the whole run. */
  lemma {:induction false} ButtonFails(parts: seq<String>, plen: nat, k: nat)
    requires k < |parts| && forall t :: 0 <= t <= k ==> IsButton(parts[t])
    requires ButtonsOf(parts[..k], plen).Some? && ButtonsOf(parts[..k + 1], plen).None?
    ensures ButtonsOf(parts[..ButtonsEnd(parts, 0)], plen).None?
  {
    ButtonsStep(parts, plen, k);
    ButtonsEndAfter(parts, 0, k);
    ButtonsPrefixFails(parts[..ButtonsEnd(parts, 0)], plen, k);
  }

  /** A run of buttons ending at `k` ends there. */
  lemma {:induction false} ButtonsEndIs(parts: seq<String>, i: nat, k: nat)
    requires i <= k <= |parts| && forall t :: i <= t < k ==> IsButton(parts[t])
    requires k < |parts| ==> !IsButton(parts[k])
    ensures ButtonsEnd(parts, i) == k
    decreases k - i
  {
    if i < k {
      ButtonsEndIs(parts, i + 1, k);
    }
  }

  /** `MachineOf` once the buttons are known to end at token `k` of `rest`. */
  lemma {:induction false} MachineOfEnd(parts: seq<String>, k: nat)
    requires parts != [] && |parts[0]| >= 2 && k == ButtonsEnd(parts[1..], 0)
    ensures MachineOf(parts) ==
      if k == |parts| - 1 then None
      else
        match (ButtonsOf(parts[1..][..k], PatternLen(parts[0])), Bracketed(parts[1..][k]))
        case (Some(buttons), Some(joltage)) => Some(Machine(buttons, joltage, PatternOf(parts[0][1..|parts[0]| - 1])))
        case _ => None
  {
  }

  /** One more button token extends the list by its mask. */
  lemma {:induction false} ButtonsStep(parts: seq<String>, plen: nat, k: nat)
    requires k < |parts|
    ensures ButtonsOf(parts[..k + 1], plen) == match (ButtonsOf(parts[..k], plen), ButtonOf(parts[k], plen))
      case (Some(bs), Some(b)) => Some(bs + [b])
      case _ => None
  {
    assert parts[..k + 1][..k] == parts[..k];
  }

  /** A failing button fails the whole list. */
  lemma {:induction false} ButtonsPrefixFails(parts: seq<String>, plen: nat, k: nat)
    requires k < |parts| && ButtonOf(parts[k], plen).None?
    ensures ButtonsOf(parts, plen).None?
  {
    if k < |parts| - 1 {
      ButtonsPrefixFails(parts[..|parts| - 1], plen, k);
    }
  }

  /** `parse_input`: every line is a machine, or `None` where a line panics. */
  function ParseInput(input: String): Option<seq<Machine>>
  {
    MapAll(ParseMachine, Lines(input))
  }
}
