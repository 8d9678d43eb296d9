/** The pieces of Rust's `str` API the solvers use, over ASCII text: `lines`,
    `split`, `split_once`, `split_ascii_whitespace`, `trim` and the integer
    parsers behind `str::parse`. A string is a sequence of characters, one per byte. */
module Text {
  import opened Base

  type String = seq<char>

  predicate IsDigit(c: char) { '0' <= c <= '9' }

  /** The characters `split_ascii_whitespace` treats as blank. */
  predicate IsSpace(c: char)
  {
    c == ' ' || c == '\t' || c == '\n' || c == '\r' || c == '\U{000C}'
  }

  predicate AllDigits(s: String) { forall k :: 0 <= k < |s| ==> IsDigit(s[k]) }

  function DigitValue(c: char): (d: nat)
    requires IsDigit(c)
    ensures d < 10
  {
    (c as int) - ('0' as int)
  }

  function DigitChar(d: nat): (c: char)
    requires d < 10
    ensures IsDigit(c) && DigitValue(c) == d
  {
    (('0' as int) + d) as char
  }

  /** Value of a run of decimal digits, most significant digit first. */
  function DecimalValue(s: String): (v: nat)
    requires AllDigits(s)
    ensures v < Pow10(|s|)
  {
    if s == [] then 0 else 10 * DecimalValue(s[..|s| - 1]) + DigitValue(s[|s| - 1])
  }

  /** Shortest decimal spelling of `v` ("0" for zero). */
  function ToDecimal(v: nat): (s: String)
    ensures s != [] && AllDigits(s)
  {
    if v < 10 then [DigitChar(v)] else ToDecimal(v / 10) + [DigitChar(v % 10)]
  }

  lemma {:induction false} DecimalRoundTrip(v: nat)
    ensures DecimalValue(ToDecimal(v)) == v
  {
    if v >= 10 {
      var s := ToDecimal(v);
      assert s[..|s| - 1] == ToDecimal(v / 10);
      DecimalRoundTrip(v / 10);
    }
  }

  /** Rust's unsigned `parse`: an optional `+`, at least one digit, and a value
      no larger than `max`. */
  function ParseUnsigned(s: String, max: nat): (r: Option<nat>)
    ensures r.Some? ==> r.value <= max
  {
    var d := DropPlus(s);
    if d != [] && AllDigits(d) && DecimalValue(d) <= max then Some(DecimalValue(d)) else None
  }

  function DropPlus(s: String): String
  {
    if |s| > 0 && s[0] == '+' then s[1..] else s
  }

  lemma ParseUnsignedRoundTrip(v: nat, max: nat)
    requires v <= max
    ensures ParseUnsigned(ToDecimal(v), max) == Some(v)
  {
    DecimalRoundTrip(v);
  }

  /** Rust's signed `parse`: an optional `+` or `-`, at least one digit, and a
      value in `[min, max]`. */
  function ParseSigned(s: String, min: int, max: int): (r: Option<int>)
    ensures r.Some? ==> min <= r.value <= max
  {
    if |s| > 0 && s[0] == '-' then
      var d := s[1..];
      if d != [] && AllDigits(d) && min <= -(DecimalValue(d) as int) <= max then Some(-(DecimalValue(d) as int)) else None
    else
      var d := DropPlus(s);
      if d != [] && AllDigits(d) && min <= DecimalValue(d) <= max then Some(DecimalValue(d) as int) else None
  }

  /** Decimal spelling of an integer, with a leading `-` when it is negative. */
  function ShowSigned(v: int): (s: String)
    ensures s != [] && forall k :: 0 <= k < |s| ==> IsDigit(s[k]) || s[k] == '-'
  {
    if v < 0 then ['-'] + ToDecimal(-v) else ToDecimal(v)
  }

  lemma ParseSignedRoundTrip(v: int, min: int, max: int)
    requires min <= v <= max
    ensures ParseSigned(ShowSigned(v), min, max) == Some(v)
  {
    if v < 0 {
      var s := ['-'] + ToDecimal(-v);
      assert s[1..] == ToDecimal(-v);
      DecimalRoundTrip(-v);
    } else {
      DecimalRoundTrip(v);
    }
  }

  const U16_MAX: nat := 0xFFFF
  const U32_MAX: nat := 0xFFFF_FFFF
  const U64_MAX: nat := 0xFFFF_FFFF_FFFF_FFFF
  const I32_MIN: int := -0x8000_0000
  const I32_MAX: int := 0x7FFF_FFFF
  const I64_MIN: int := -0x8000_0000_0000_0000
  const I64_MAX: int := 0x7FFF_FFFF_FFFF_FFFF

  /** Index of the first `c` in `s`, or `|s|` when there is none. */
  function IndexOf(s: String, c: char): (i: nat)
    ensures i <= |s|
    ensures c !in s[..i]
    ensures i < |s| ==> s[i] == c
  {
    if s == [] then 0 else if s[0] == c then 0 else 1 + IndexOf(s[1..], c)
  }

  /** Index of the first `c` in `s` at or after `from`, or `|s|` when there
      is none: `position` on an iterator that has already consumed `from`
      bytes, counted from the start of `s`. */
  function IndexFrom(s: String, c: char, from: nat): (i: nat)
    requires from <= |s|
    ensures from <= i <= |s|
    ensures forall k :: from <= k < i ==> s[k] != c
    ensures i < |s| ==> s[i] == c
    decreases |s| - from
  {
    if from == |s| then |s| else if s[from] == c then from else IndexFrom(s, c, from + 1)
  }

  /** The first `c` at or after `from` is the one with no `c` before it. */
  lemma {:induction false} IndexFromIs(s: String, c: char, from: nat, n: nat)
    requires from <= n < |s| && s[n] == c
    requires forall k :: from <= k < n ==> s[k] != c
    ensures IndexFrom(s, c, from) == n
    decreases n - from
  {
    if from < n {
      IndexFromIs(s, c, from + 1, n);
    }
  }

  /** Rust's `split(c)`: the pieces between occurrences of `c`; always at least one. */
  function Split(s: String, c: char): (r: seq<String>)
    ensures |r| >= 1
    ensures forall k :: 0 <= k < |r| ==> c !in r[k]
    decreases |s|
  {
    var i := IndexOf(s, c);
    if i == |s| then [s] else [s[..i]] + Split(s[i + 1..], c)
  }

  /** Pieces glued back together with `c` between them. */
  function Join(parts: seq<String>, c: char): String
  {
    if parts == [] then [] else if |parts| == 1 then parts[0] else parts[0] + [c] + Join(parts[1..], c)
  }

  lemma {:induction false} SplitJoin(s: String, c: char)
    ensures Join(Split(s, c), c) == s
    decreases |s|
  {
    var i := IndexOf(s, c);
    if i < |s| {
      var rest := Split(s[i + 1..], c);
      var parts := [s[..i]] + rest;
      assert Split(s, c) == parts;
      SplitJoin(s[i + 1..], c);
      assert parts[1..] == rest;
      assert Join(parts, c) == s[..i] + [c] + Join(rest, c);
      assert s == s[..i] + [c] + s[i + 1..];
    } else {
      assert Split(s, c) == [s];
    }
  }

  /** Rust's `str::lines`, for text with `\n` line endings: the pieces between
      newlines, where a final newline does not start an extra empty line. */
  function Lines(s: String): (r: seq<String>)
    ensures forall k :: 0 <= k < |r| ==> '\n' !in r[k]
  {
    if s == [] then []
    else
      var parts := Split(s, '\n');
      if s[|s| - 1] == '\n' then parts[..|parts| - 1] else parts
  }

  lemma {:induction false} IndexOfAfter(l: String, c: char, t: String)
    requires c !in l
    ensures IndexOf(l + [c] + t, c) == |l|
  {
    if l != [] {
      IndexOfAfter(l[1..], c, t);
      assert (l + [c] + t)[1..] == l[1..] + [c] + t;
    }
  }

  /** Lines, each followed by a newline. */
  function Unlines(ls: seq<String>): String
  {
    if ls == [] then [] else ls[0] + ['\n'] + Unlines(ls[1..])
  }

  lemma SplitAfter(l: String, c: char, t: String)
    requires c !in l
    ensures Split(l + [c] + t, c) == [l] + Split(t, c)
  {
    var s := l + [c] + t;
    IndexOfAfter(l, c, t);
    assert s[..|l|] == l && s[|l| + 1..] == t;
  }

  /** Pieces without `c` glued together with `c` split back into the same pieces. */
  lemma {:induction false} JoinSplit(parts: seq<String>, c: char)
    requires |parts| >= 1 && forall k :: 0 <= k < |parts| ==> c !in parts[k]
    ensures Split(Join(parts, c), c) == parts
  {
    if |parts| > 1 {
      JoinSplit(parts[1..], c);
      SplitAfter(parts[0], c, Join(parts[1..], c));
      assert parts == [parts[0]] + parts[1..];
    }
  }

  lemma {:induction false} SplitUnlines(ls: seq<String>)
    requires forall k :: 0 <= k < |ls| ==> '\n' !in ls[k]
    ensures Split(Unlines(ls), '\n') == ls + [[]]
  {
    if ls != [] {
      var rest, t := ls[1..], Unlines(ls[1..]);
      SplitUnlines(rest);
      SplitAfter(ls[0], '\n', t);
      calc {
        Split(Unlines(ls), '\n');
        Split(ls[0] + ['\n'] + t, '\n');
        [ls[0]] + Split(t, '\n');
        [ls[0]] + (rest + [[]]);
        { assert ls == [ls[0]] + rest; }
        ls + [[]];
      }
    }
  }

  /** `lines` gives back the lines of text written one per line. */
  lemma LinesUnlines(ls: seq<String>)
    requires forall k :: 0 <= k < |ls| ==> '\n' !in ls[k]
    ensures Lines(Unlines(ls)) == ls
  {
    SplitUnlines(ls);
    if ls != [] {
      var s := Unlines(ls);
      UnlinesEnd(ls);
      assert (ls + [[]])[..|ls|] == ls;
    }
  }

  lemma {:induction false} UnlinesEnd(ls: seq<String>)
    requires ls != []
    ensures |Unlines(ls)| > 0 && Unlines(ls)[|Unlines(ls)| - 1] == '\n'
  {
    if |ls| > 1 {
      UnlinesEnd(ls[1..]);
    } else {
      assert Unlines(ls[1..]) == [];
    }
  }

  /** Rust's `split_once(c)`: the text before and after the first `c`. */
  function SplitOnce(s: String, c: char): (r: Option<(String, String)>)
    ensures r.None? <==> c !in s
    ensures r.Some? ==> s == r.value.0 + [c] + r.value.1 && c !in r.value.0
  {
    var i := IndexOf(s, c);
    if i == |s| then None else Some((s[..i], s[i + 1..]))
  }

  lemma SplitOnceAfter(l: String, c: char, t: String)
    requires c !in l
    ensures SplitOnce(l + [c] + t, c) == Some((l, t))
  {
    var s := l + [c] + t;
    IndexOfAfter(l, c, t);
    assert s[..|l|] == l && s[|l| + 1..] == t;
  }

  /** Index of the first occurrence of the two-character pattern `[a, b]`, or `|s|`. */
  function IndexOfPair(s: String, a: char, b: char): (i: nat)
    ensures i <= |s|
    ensures i < |s| ==> i + 1 < |s| && s[i] == a && s[i + 1] == b
    ensures forall k :: 0 <= k < i && k + 1 < |s| ==> !(s[k] == a && s[k + 1] == b)
  {
    if |s| < 2 then |s| else if s[0] == a && s[1] == b then 0 else 1 + IndexOfPair(s[1..], a, b)
  }

  /** Rust's `split_once` on a two-character pattern (`split_once(": ")`). */
  function SplitOncePair(s: String, a: char, b: char): (r: Option<(String, String)>)
    ensures r.Some? ==> s == r.value.0 + [a, b] + r.value.1
  {
    var i := IndexOfPair(s, a, b);
    if i == |s| then None else Some((s[..i], s[i + 2..]))
  }

  /** Rust's `split_ascii_whitespace`: the maximal runs of non-blank characters. */
  function Words(s: String): (r: seq<String>)
    ensures forall k :: 0 <= k < |r| ==> r[k] != [] && forall j :: 0 <= j < |r[k]| ==> !IsSpace(r[k][j])
    decreases |s|
  {
    if s == [] then []
    else if IsSpace(s[0]) then Words(s[1..])
    else
      var n := WordLength(s);
      [s[..n]] + Words(s[n..])
  }

  /** A blank-free word followed by a blank (or nothing) is the first word. */
  lemma {:induction false} WordLengthOf(p: String, t: String)
    requires forall j :: 0 <= j < |p| ==> !IsSpace(p[j])
    requires t == [] || IsSpace(t[0])
    ensures WordLength(p + t) == |p|
  {
    if p == [] {
      assert p + t == t;
    } else {
      WordLengthOf(p[1..], t);
      assert (p + t)[1..] == p[1..] + t;
    }
  }

  lemma WordsCons(p: String, t: String)
    requires p != [] && forall j :: 0 <= j < |p| ==> !IsSpace(p[j])
    requires t == [] || IsSpace(t[0])
    ensures Words(p + t) == [p] + Words(t)
  {
    WordLengthOf(p, t);
    assert (p + t)[..|p|] == p;
    assert (p + t)[|p|..] == t;
  }

  /** Blank-free words joined by single spaces split back into the same words. */
  lemma {:induction false} WordsJoin(parts: seq<String>)
    requires forall k :: 0 <= k < |parts| ==> parts[k] != [] && forall j :: 0 <= j < |parts[k]| ==> !IsSpace(parts[k][j])
    ensures Words(Join(parts, ' ')) == parts
  {
    if |parts| == 1 {
      WordsCons(parts[0], []);
      assert parts[0] + [] == parts[0];
    } else if |parts| > 1 {
      var t := Join(parts[1..], ' ');
      WordsJoin(parts[1..]);
      WordsCons(parts[0], [' '] + t);
      assert parts[0] + [' '] + t == parts[0] + ([' '] + t);
      assert ([' '] + t)[1..] == t;
      assert parts == [parts[0]] + parts[1..];
    }
  }

  /** Length of the run of non-blank characters at the start of `s`. */
  function WordLength(s: String): (n: nat)
    ensures n <= |s|
    ensures forall j :: 0 <= j < n ==> !IsSpace(s[j])
    ensures n < |s| ==> IsSpace(s[n])
  {
    if s == [] || IsSpace(s[0]) then 0 else 1 + WordLength(s[1..])
  }

  function Concat(parts: seq<String>): String
  {
    if parts == [] then [] else parts[0] + Concat(parts[1..])
  }

  /** The non-blank characters of `s`, in order. */
  function NonSpace(s: String): String
  {
    if s == [] then [] else (if IsSpace(s[0]) then [] else [s[0]]) + NonSpace(s[1..])
  }

  lemma {:induction false} NonSpaceAppend(s: String, t: String)
    ensures NonSpace(s + t) == NonSpace(s) + NonSpace(t)
  {
    if s == [] {
      assert s + t == t;
    } else {
      assert (s + t)[0] == s[0];
      assert (s + t)[1..] == s[1..] + t;
      NonSpaceAppend(s[1..], t);
    }
  }

  lemma {:induction false} NonSpaceOfWord(s: String)
    requires forall j :: 0 <= j < |s| ==> !IsSpace(s[j])
    ensures NonSpace(s) == s
  {
    if s != [] {
      NonSpaceOfWord(s[1..]);
    }
  }

  /** Splitting into words loses exactly the blanks. */
  lemma {:induction false} WordsKeepText(s: String)
    ensures Concat(Words(s)) == NonSpace(s)
    decreases |s|
  {
    if s != [] {
      if IsSpace(s[0]) {
        WordsKeepText(s[1..]);
      } else {
        var n := WordLength(s);
        WordsKeepText(s[n..]);
        assert s == s[..n] + s[n..];
        NonSpaceAppend(s[..n], s[n..]);
        NonSpaceOfWord(s[..n]);
      }
    }
  }

  /** The characters `trim` strips, as far as ASCII goes: Unicode white space,
      which unlike `split_ascii_whitespace` includes the vertical tab. */
  predicate IsTrimmed(c: char)
  {
    IsSpace(c) || c == '\U{000B}'
  }

  /** Rust's `trim` on ASCII text: `s` without its leading and trailing white space. */
  function Trim(s: String): (r: String)
    ensures r == [] || (!IsTrimmed(r[0]) && !IsTrimmed(r[|r| - 1]))
    ensures |r| <= |s|
  {
    TrimEnd(TrimStart(s))
  }

  /** Text that neither starts nor ends with a blank is its own trim. */
  lemma TrimUnchanged(s: String)
    requires s != [] && !IsTrimmed(s[0]) && !IsTrimmed(s[|s| - 1])
    ensures Trim(s) == s
  {
  }

  function TrimStart(s: String): (r: String)
    ensures r == [] || !IsTrimmed(r[0])
    ensures |r| <= |s| && r == s[|s| - |r|..]
  {
    if s != [] && IsTrimmed(s[0]) then TrimStart(s[1..]) else s
  }

  function TrimEnd(s: String): (r: String)
    ensures r == [] || !IsTrimmed(r[|r| - 1])
    ensures |r| <= |s| && r == s[..|r|]
  {
    if s != [] && IsTrimmed(s[|s| - 1]) then TrimEnd(s[..|s| - 1]) else s
  }

  /** Number of occurrences of `c` in `s`. */
  function Count(s: String, c: char): (n: nat)
    ensures n <= |s|
  {
    if s == [] then 0 else Count(s[..|s| - 1], c) + (if s[|s| - 1] == c then 1 else 0)
  }

  /** `Count` read from the front. */
  lemma {:induction false} CountCons(x: char, s: String, c: char)
    ensures Count([x] + s, c) == (if x == c then 1 else 0) + Count(s, c)
    decreases |s|
  {
    if s != [] {
      var n := |s| - 1;
      CountCons(x, s[..n], c);
      assert ([x] + s)[..|[x] + s| - 1] == [x] + s[..n];
    } else {
      assert [x] + s == [x];
      assert [x][..0] == [];
    }
  }
}
