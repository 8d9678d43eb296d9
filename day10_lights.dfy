/** Day 10, part one: the lights start off, and a press of button `j` flips
    the lights of its mask (`state ^ mask`). The breadth-first search of
    `part_one` is a library call and is not modelled: its answer per machine
    is a parameter, and this module states what that answer means and
    proves that pressing a button twice is never needed. */
module Day10Lights {
  import opened Base
  import opened Day10
  import opened Day10Joltage

  /** Every press names a button. */
  predicate Presses(bs: seq<Word>, ps: seq<nat>)
  {
    forall t :: 0 <= t < |ps| ==> ps[t] < |bs|
  }

  /** The lights after pressing `ps` in order, starting from all off. */
  function Lights(bs: seq<Word>, ps: seq<nat>): Word
    requires Presses(bs, ps)
  {
    if ps == [] then {} else Xor(Lights(bs, ps[..|ps| - 1]), bs[ps[|ps| - 1]])
  }

  /** A path of the search: it starts at `0` and each step is
      `state ^ bs[ps[t]]`, so it is one state longer than its presses. */
  predicate IsPath(bs: seq<Word>, path: seq<Word>, ps: seq<nat>)
  {
    Presses(bs, ps) && |path| == |ps| + 1 && path[0] == {} &&
    forall t :: 0 <= t < |ps| ==> path[t + 1] == Xor(path[t], bs[ps[t]])
  }

  /** A path ends in the lights of its presses, and `path.len() - 1` is the
      number of presses. */
  lemma {:induction false} PathLights(bs: seq<Word>, path: seq<Word>, ps: seq<nat>)
    requires IsPath(bs, path, ps)
    ensures path[|path| - 1] == Lights(bs, ps) && |path| - 1 == |ps|
  {
    if ps != [] {
      var n := |ps| - 1;
      assert IsPath(bs, path[..n + 1], ps[..n]);
      PathLights(bs, path[..n + 1], ps[..n]);
    }
  }

  /** The presses reach the machine's pattern. */
  ghost predicate Reaches(m: Machine, ps: seq<nat>)
  {
    Presses(m.buttons, ps) && Lights(m.buttons, ps) == m.pattern
  }

  /** What the search is trusted to return for one machine: the fewest
      presses that reach the pattern, or `None` (`path.unwrap()` panics)
      when no presses do. */
  ghost predicate IsFewestPresses(m: Machine, n: Option<nat>)
  {
    match n
    case None => forall ps :: !Reaches(m, ps)
    case Some(k) => (exists ps :: Reaches(m, ps) && |ps| == k) && forall ps :: Reaches(m, ps) ==> k <= |ps|
  }

  /** How many presses flip light `k`. */
  function Flips(bs: seq<Word>, ps: seq<nat>, k: nat): nat
    requires Presses(bs, ps)
  {
    if ps == [] then 0 else Flips(bs, ps[..|ps| - 1], k) + (if k in bs[ps[|ps| - 1]] then 1 else 0)
  }

  /** A light is on exactly when an odd number of presses flipped it, so the
      order of the presses does not matter. */
  lemma {:induction false} LightsParity(bs: seq<Word>, ps: seq<nat>, k: nat)
    requires Presses(bs, ps)
    ensures k in Lights(bs, ps) <==> Flips(bs, ps, k) % 2 == 1
  {
    if ps != [] {
      LightsParity(bs, ps[..|ps| - 1], k);
    }
  }

  /** Removing one press removes its flips. */
  lemma {:induction false} FlipsWithout(bs: seq<Word>, ps: seq<nat>, s: nat, k: nat)
    requires Presses(bs, ps) && s < |ps|
    ensures Presses(bs, RemoveAt(ps, s))
    ensures Flips(bs, ps, k) == Flips(bs, RemoveAt(ps, s), k) + (if k in bs[ps[s]] then 1 else 0)
    decreases |ps|
  {
    var n := |ps| - 1;
    var w := RemoveAt(ps, s);
    if s == n {
      assert w == ps[..n];
    } else {
      FlipsWithout(bs, ps[..n], s, k);
      assert w[..|w| - 1] == RemoveAt(ps[..n], s);
      assert w[|w| - 1] == ps[n];
    }
  }

  /** Two presses of the same button cancel. */
  lemma {:induction false} PairCancels(bs: seq<Word>, ps: seq<nat>, s: nat, t: nat)
    requires Presses(bs, ps) && s < t < |ps| && ps[s] == ps[t]
    ensures Presses(bs, RemoveAt(RemoveAt(ps, t), s))
    ensures Lights(bs, RemoveAt(RemoveAt(ps, t), s)) == Lights(bs, ps)
  {
    var w := RemoveAt(ps, t);
    FlipsWithout(bs, ps, t, 0);
    assert w[s] == ps[s];
    FlipsWithout(bs, w, s, 0);
    var v := RemoveAt(w, s);
    forall k: nat
      ensures k in Lights(bs, v) <==> k in Lights(bs, ps)
    {
      FlipsWithout(bs, ps, t, k);
      FlipsWithout(bs, w, s, k);
      LightsParity(bs, v, k);
      LightsParity(bs, ps, k);
    }
  }

  predicate Distinct(ps: seq<nat>)
  {
    forall s, t :: 0 <= s < t < |ps| ==> ps[s] != ps[t]
  }

  /** Distinct presses name distinct buttons, so there are at most as many
      as there are buttons. */
  lemma {:induction false} DistinctBound(ps: seq<nat>, n: nat)
    requires Distinct(ps) && forall t :: 0 <= t < |ps| ==> ps[t] < n
    ensures |ps| <= n
  {
    if ps == [] {
    } else if t :| 0 <= t < |ps| && ps[t] == n - 1 {
      var w := RemoveAt(ps, t);
      DistinctBound(w, n - 1);
    } else {
      assert ps[0] < n;
      DistinctBound(ps, n - 1);
    }
  }

  /** Any presses that light a state can be shortened to presses of distinct
      buttons that light the same state. */
  lemma {:induction false} Shorten(bs: seq<Word>, ps: seq<nat>) returns (qs: seq<nat>)
    requires Presses(bs, ps)
    ensures Presses(bs, qs) && Lights(bs, qs) == Lights(bs, ps)
    ensures |qs| <= |ps| && Distinct(qs)
    decreases |ps|
  {
    if Distinct(ps) {
      return ps;
    }
    var s, t :| 0 <= s < t < |ps| && ps[s] == ps[t];
    PairCancels(bs, ps, s, t);
    qs := Shorten(bs, RemoveAt(RemoveAt(ps, t), s));
  }

  /** When the pattern can be reached at all, the fewest presses press no
      button twice, so the answer of a machine is at most its number of
      buttons. */
  lemma {:induction false} FewestAtMostButtons(m: Machine, k: nat)
    requires IsFewestPresses(m, Some(k))
    ensures k <= |m.buttons|
  {
    var ps :| Reaches(m, ps) && |ps| == k;
    var qs := Shorten(m.buttons, ps);
    assert Reaches(m, qs);
    DistinctBound(qs, |m.buttons|);
  }

  /** `part_one`: add up `path.len() - 1` over the machines, where
      `fewest[i]` stands for the search's answer on machine `i`. */
  method PartOne(fewest: seq<Option<nat>>) returns (r: Option<nat>)
    ensures r == SumAll(fewest)
  {
    var answer := 0;
    for i := 0 to |fewest|
      invariant SumAll(fewest[..i]) == Some(answer)
    {
      assert fewest[..i + 1][..i] == fewest[..i];
      if fewest[i].None? {
        SumAllPrefix(fewest, i + 1);
        return None;
      }
      answer := answer + fewest[i].value;
    }
    assert fewest[..|fewest|] == fewest;
    return Some(answer);
  }

  /** With a trusted search the answer is at most the total number of
      buttons. */
  lemma {:induction false} PartOneBound(ms: seq<Machine>, fewest: seq<Option<nat>>)
    requires |fewest| == |ms| && forall i :: 0 <= i < |ms| ==> IsFewestPresses(ms[i], fewest[i])
    requires SumAll(fewest).Some?
    ensures SumAll(fewest).value <= SumNat(seq(|ms|, i requires 0 <= i < |ms| => |ms[i].buttons|))
  {
    if ms != [] {
      var n := |ms| - 1;
      var counts := seq(|ms|, i requires 0 <= i < |ms| => |ms[i].buttons|);
      assert counts[..n] == seq(n, i requires 0 <= i < n => |ms[..n][i].buttons|);
      assert SumAll(fewest[..n]).Some?;
      PartOneBound(ms[..n], fewest[..n]);
      FewestAtMostButtons(ms[n], fewest[n].value);
    }
  }
}
