/** Small vocabulary shared by every solver: optional results, powers and sums. */
module Base {

  /** A value that may be missing. The solvers use `None` where the program
      returns `None` or stops with a panic (an `unwrap` on a failed parse). */
  datatype Option<+T> = None | Some(value: T)

  /** `f` applied to every element, or `None` when it fails on any: what
      `collect::<Option<Vec<_>>>()` gives, and where a `map` that unwraps
      each result would panic. */
  function MapAll<S, T>(f: S -> Option<T>, s: seq<S>): (r: Option<seq<T>>)
    ensures r.Some? ==> |r.value| == |s| && forall k :: 0 <= k < |s| ==> f(s[k]) == Some(r.value[k])
    ensures r.None? ==> exists k :: 0 <= k < |s| && f(s[k]).None?
  {
    if s == [] then Some([])
    else
      match (f(s[0]), MapAll(f, s[1..]))
      case (Some(x), Some(xs)) => Some([x] + xs)
      case (None, _) => None
      case (_, None) => None
  }

  /** When `f` succeeds on every element, `MapAll` collects exactly its results. */
  lemma {:induction false} MapAllSome<S, T>(f: S -> Option<T>, s: seq<S>, t: seq<T>)
    requires |s| == |t| && forall k :: 0 <= k < |s| ==> f(s[k]) == Some(t[k])
    ensures MapAll(f, s) == Some(t)
  {
    if s != [] {
      MapAllSome(f, s[1..], t[1..]);
      assert t == [t[0]] + t[1..];
    }
  }

  /** `MapAll` fails when `f` fails on any element. */
  lemma {:induction false} MapAllNone<S, T>(f: S -> Option<T>, s: seq<S>, k: nat)
    requires k < |s| && f(s[k]).None?
    ensures MapAll(f, s) == None
  {
    if k > 0 {
      MapAllNone(f, s[1..], k - 1);
    }
  }

  /** `flat_map`: the pieces `f` gives for the elements, concatenated in order. */
  function FlatMap<S, T>(f: S -> seq<T>, s: seq<S>): seq<T>
  {
    if s == [] then [] else FlatMap(f, s[..|s| - 1]) + f(s[|s| - 1])
  }

  lemma {:induction false} FlatMapAppend<S, T>(f: S -> seq<T>, s: seq<S>, t: seq<S>)
    ensures FlatMap(f, s + t) == FlatMap(f, s) + FlatMap(f, t)
    decreases |t|
  {
    if t == [] {
      assert s + t == s;
    } else {
      FlatMapAppend(f, s, t[..|t| - 1]);
      assert (s + t)[..|s + t| - 1] == s + t[..|t| - 1];
    }
  }

  /** `s` without its element at `m` (`Vec::remove`, or a pop of a heap
      element), the others kept in order. */
  function RemoveAt<T>(s: seq<T>, m: nat): (r: seq<T>)
    requires m < |s|
    ensures |r| == |s| - 1
    ensures forall k {:trigger r[k]} :: 0 <= k < |r| ==> r[k] == if k < m then s[k] else s[k + 1]
  {
    s[..m] + s[m + 1..]
  }

  /** `b` raised to the power `e`. */
  function Pow(b: int, e: nat): int
  {
    if e == 0 then 1 else b * Pow(b, e - 1)
  }

  function Pow10(e: nat): (r: nat)
    ensures r >= 1
  {
    if e == 0 then 1 else 10 * Pow10(e - 1)
  }

  lemma {:induction false} Pow10Add(a: nat, b: nat)
    ensures Pow10(a + b) == Pow10(a) * Pow10(b)
  {
    if b > 0 {
      Pow10Add(a, b - 1);
      calc {
        Pow10(a + b);
        10 * Pow10(a + b - 1);
        10 * (Pow10(a) * Pow10(b - 1));
        Pow10(a) * (10 * Pow10(b - 1));
      }
    }
  }

  lemma {:induction false} Pow10Monotone(a: nat, b: nat)
    requires a <= b
    ensures Pow10(a) <= Pow10(b)
  {
    if a < b {
      Pow10Monotone(a, b - 1);
    }
  }

  function Sum(s: seq<int>): int
  {
    if s == [] then 0 else Sum(s[..|s| - 1]) + s[|s| - 1]
  }

  /** Sum of a sequence of naturals. */
  function SumNat(s: seq<nat>): nat
  {
    if s == [] then 0 else SumNat(s[..|s| - 1]) + s[|s| - 1]
  }

  lemma {:induction false} SumNatAppend(a: seq<nat>, b: seq<nat>)
    ensures SumNat(a + b) == SumNat(a) + SumNat(b)
  {
    if b != [] {
      SumNatAppend(a, b[..|b| - 1]);
      assert (a + b)[..|a + b| - 1] == a + b[..|b| - 1];
    } else {
      assert a + b == a;
    }
  }

  /** Replacing one entry changes the sum by the difference. */
  lemma {:induction false} SumNatUpdate(s: seq<nat>, k: nat, v: nat)
    requires k < |s|
    ensures SumNat(s[k := v]) + s[k] == SumNat(s) + v
    decreases |s|
  {
    var n := |s| - 1;
    if k == n {
      assert s[k := v][..n] == s[..n];
    } else {
      SumNatUpdate(s[..n], k, v);
      assert s[k := v][..n] == s[..n][k := v];
    }
  }

  /** A sequence of zeros sums to zero. */
  lemma {:induction false} SumNatZeros(s: seq<nat>)
    requires forall k :: 0 <= k < |s| ==> s[k] == 0
    ensures SumNat(s) == 0
    decreases |s|
  {
    if s != [] {
      SumNatZeros(s[..|s| - 1]);
    }
  }

  function Product(s: seq<int>): int
  {
    if s == [] then 1 else Product(s[..|s| - 1]) * s[|s| - 1]
  }

  lemma {:induction false} SumAppend(s: seq<int>, t: seq<int>)
    ensures Sum(s + t) == Sum(s) + Sum(t)
  {
    if t == [] {
      assert s + t == s;
    } else {
      assert (s + t)[..|s + t| - 1] == s + t[..|t| - 1];
      SumAppend(s, t[..|t| - 1]);
    }
  }

  lemma {:induction false} SumNonNegative(s: seq<int>)
    requires forall k :: 0 <= k < |s| ==> s[k] >= 0
    ensures Sum(s) >= 0
  {
    if s != [] {
      SumNonNegative(s[..|s| - 1]);
    }
  }

  /** The `u64` a value of a signed 64-bit integer type is reinterpreted as by `as u64`. */
  function AsU64(v: int): (r: nat)
    ensures r < 0x1_0000_0000_0000_0000
    ensures 0 <= v < 0x1_0000_0000_0000_0000 ==> r == v
  {
    v % 0x1_0000_0000_0000_0000
  }

  /** Quotient and remainder are the only ones with `0 <= r < m`. */
  lemma DivUnique(x: int, m: int, q: int, r: int)
    requires m > 0 && x == m * q + r && 0 <= r < m
    ensures x / m == q && x % m == r
  {
    var d := q - x / m;
    assert m * d == x % m - r;
    assert d >= 1 ==> m * d >= m;
    assert d <= -1 ==> m * d <= -m;
  }

  function Min(a: int, b: int): int { if a <= b then a else b }

  function Max(a: int, b: int): int { if a >= b then a else b }
}
