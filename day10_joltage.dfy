/** Day 10, part two: the linear system handed to the integer solver. Each
    button `j` gets a press count `x[j]`; row `i` says that the presses of
    the buttons whose mask has bit `n_joltages - 1 - i` add up to
    `joltage[i]`. The solver itself is not modelled: its answer per machine
    is a parameter. */
module Day10Joltage {
  import opened Base
  import opened Day10

  /** One equation: the press counts of the listed buttons add up to `target`. */
  datatype Constraint = Constraint(presses: seq<nat>, target: nat)

  /** The buttons among the first `n` whose mask has bit `k`, in order. */
  function Pressing(bs: seq<Word>, k: nat, n: nat): seq<nat>
    requires n <= |bs|
  {
    if n == 0 then [] else Pressing(bs, k, n - 1) + (if k in bs[n - 1] then [n - 1] else [])
  }

  /** Row `i` of a machine's system. */
  function Row(m: Machine, i: nat): Constraint
    requires i < |m.joltage|
  {
    Constraint(Pressing(m.buttons, |m.joltage| - 1 - i, |m.buttons|), m.joltage[i])
  }

  /** The whole system, or `None` where `1 << (n_joltages - 1 - i)` overflows
      the `u16` of the masks: a shift of 16 or more (more than 16 joltages)
      with a button to test it on. */
  function Constraints(m: Machine): Option<seq<Constraint>>
  {
    if |m.joltage| > 16 && m.buttons != [] then None
    else Some(Rows(m))
  }

  function Rows(m: Machine): (rs: seq<Constraint>)
    ensures |rs| == |m.joltage| && forall i :: 0 <= i < |rs| ==> rs[i] == Row(m, i)
  {
    seq(|m.joltage|, i requires 0 <= i < |m.joltage| => Row(m, i))
  }

  /** The nested loops of `part_two` that build the constraints. */
  method BuildConstraints(m: Machine) returns (r: Option<seq<Constraint>>)
    ensures r == Constraints(m)
  {
    var nj := |m.joltage|;
    var rows: seq<Constraint> := [];
    for i := 0 to nj
      invariant |rows| == i && forall t :: 0 <= t < i ==> rows[t] == Row(m, t)
      invariant i > 0 && m.buttons != [] ==> nj <= 16
    {
      var bit := nj - 1 - i;
      var expr: seq<nat> := [];
      for j := 0 to |m.buttons|
        invariant expr == Pressing(m.buttons, bit, j)
        invariant j > 0 ==> bit < 16
      {
        if bit >= 16 {
          return None;
        }
        if bit in m.buttons[j] {
          expr := expr + [j];
        }
      }
      rows := rows + [Constraint(expr, m.joltage[i])];
    }
    assert !(nj > 16 && m.buttons != []);
    assert rows == Rows(m);
    return Some(rows);
  }

  /** `Pressing` lists exactly the buttons with bit `k`, each once, in
      increasing order. */
  lemma {:induction false} PressingMeaning(bs: seq<Word>, k: nat, n: nat)
    requires n <= |bs|
    ensures forall j: nat :: Lists(Pressing(bs, k, n), j) <==> j < n && k in bs[j]
    ensures forall s, t :: 0 <= s < t < |Pressing(bs, k, n)| ==> Pressing(bs, k, n)[s] < Pressing(bs, k, n)[t]
    ensures forall t :: 0 <= t < |Pressing(bs, k, n)| ==> Pressing(bs, k, n)[t] < n
  {
    if n > 0 {
      var front := Pressing(bs, k, n - 1);
      PressingMeaning(bs, k, n - 1);
      var p := Pressing(bs, k, n);
      assert forall t :: 0 <= t < |front| ==> p[t] == front[t];
      forall j: nat
        ensures Lists(p, j) <==> j < n && k in bs[j]
      {
        if Lists(front, j) {
          var t :| 0 <= t < |front| && front[t] == j;
          assert p[t] == j;
        }
        if Lists(p, j) && j != n - 1 {
          var t :| 0 <= t < |p| && p[t] == j;
          assert front[t] == j;
        }
        if j == n - 1 && k in bs[j] {
          assert p[|p| - 1] == j;
        }
      }
    }
  }

  /** Counter `k` after button `j` is pressed `x[j]` times, over the first
      `n` buttons: every press of a button with bit `k` adds one. */
  function Counter(bs: seq<Word>, x: seq<nat>, k: nat, n: nat): nat
    requires n <= |bs| && n <= |x|
  {
    if n == 0 then 0 else Counter(bs, x, k, n - 1) + (if k in bs[n - 1] then x[n - 1] else 0)
  }

  /** The left-hand side of a constraint: `sum of x[j]` over its buttons. */
  function PressSum(ps: seq<nat>, x: seq<nat>): nat
  {
    if ps == [] then 0
    else PressSum(ps[..|ps| - 1], x) + (if ps[|ps| - 1] < |x| then x[ps[|ps| - 1]] else 0)
  }

  predicate Satisfies(cs: seq<Constraint>, x: seq<nat>)
  {
    forall i :: 0 <= i < |cs| ==> PressSum(cs[i].presses, x) == cs[i].target
  }

  /** A constraint's sum is the counter of its bit. */
  lemma {:induction false} PressingCounter(bs: seq<Word>, x: seq<nat>, k: nat, n: nat)
    requires n <= |bs| && n <= |x|
    ensures PressSum(Pressing(bs, k, n), x) == Counter(bs, x, k, n)
  {
    if n > 0 {
      PressingCounter(bs, x, k, n - 1);
      var front := Pressing(bs, k, n - 1);
      if k in bs[n - 1] {
        assert (front + [n - 1])[..|front|] == front;
      } else {
        assert front + [] == front;
      }
    }
  }

  /** Press counts solve the system exactly when every counter `i` (bit
      `n_joltages - 1 - i` of the masks) ends at `joltage[i]`. */
  lemma {:induction false} ConstraintsMeaning(m: Machine, x: seq<nat>)
    requires |x| == |m.buttons| && Constraints(m).Some?
    ensures Satisfies(Constraints(m).value, x) <==>
      forall i :: 0 <= i < |m.joltage| ==> Counter(m.buttons, x, |m.joltage| - 1 - i, |m.buttons|) == m.joltage[i]
  {
    var cs := Constraints(m).value;
    assert |cs| == |m.joltage|;
    forall i | 0 <= i < |m.joltage|
      ensures PressSum(cs[i].presses, x) == Counter(m.buttons, x, |m.joltage| - 1 - i, |m.buttons|)
      ensures cs[i].target == m.joltage[i]
    {
      PressingCounter(m.buttons, x, |m.joltage| - 1 - i, |m.buttons|);
    }
  }

  /** Bit `n_joltages - 1 - i` of a button parsed from index list `ix` is set
      exactly when `ix` lists `i`, as long as the pattern and the joltage
      list have the same length. */
  lemma {:induction false} ButtonTouches(ix: seq<nat>, m: Machine, j: nat, i: nat, plen: nat)
    requires j < |m.buttons| && Mask(ix, plen) == Some(m.buttons[j])
    requires plen == |m.joltage| && i < |m.joltage|
    ensures |m.joltage| - 1 - i in m.buttons[j] <==> Lists(ix, i)
  {
    MaskMeaning(ix, plen);
  }

  // ---------------------------------------------------------------------
  // The answer

  /** The total number of presses of a solution. */
  function Total(x: seq<nat>): nat
  {
    SumNat(x)
  }

  /** `x` is a cheapest solution of `cs` over `nb` buttons. */
  ghost predicate IsOptimal(cs: seq<Constraint>, nb: nat, x: seq<nat>)
  {
    |x| == nb && Satisfies(cs, x) && forall y: seq<nat> :: |y| == nb && Satisfies(cs, y) ==> Total(x) <= Total(y)
  }

  /** What the solver is trusted to return for one machine: a cheapest
      solution, or `None` (`solve().unwrap()` panics) when there is none. */
  ghost predicate SolverAnswer(m: Machine, sol: Option<seq<nat>>)
  {
    Constraints(m).Some? ==>
      if sol.Some? then IsOptimal(Constraints(m).value, |m.buttons|, sol.value)
      else forall y: seq<nat> :: |y| == |m.buttons| ==> !Satisfies(Constraints(m).value, y)
  }

  /** One machine's term of the answer: `None` where building the system
      or unwrapping the solution panics. */
  function MachinePresses(m: Machine, sol: Option<seq<nat>>): Option<nat>
  {
    if Constraints(m).None? || sol.None? then None else Some(Total(sol.value))
  }

  /** The sum of per-machine terms, `None` at the first panic. */
  function SumAll(xs: seq<Option<nat>>): (r: Option<nat>)
  {
    if xs == [] then Some(0)
    else
      match (SumAll(xs[..|xs| - 1]), xs[|xs| - 1])
      case (Some(a), Some(b)) => Some(a + b)
      case _ => None
  }

  /** The sum exists exactly when every term does. */
  lemma {:induction false} SumAllSome(xs: seq<Option<nat>>)
    ensures SumAll(xs).Some? <==> forall i :: 0 <= i < |xs| ==> xs[i].Some?
  {
    if xs != [] {
      var front := xs[..|xs| - 1];
      SumAllSome(front);
      assert forall i :: 0 <= i < |front| ==> front[i] == xs[i];
    }
  }

  /** The terms of the answer, machine by machine. */
  function Terms(ms: seq<Machine>, sols: seq<Option<seq<nat>>>): seq<Option<nat>>
    requires |sols| == |ms|
  {
    seq(|ms|, i requires 0 <= i < |ms| => MachinePresses(ms[i], sols[i]))
  }

  /** `part_two`: build every machine's system and add up the solver's
      totals; `sols[i]` stands for the solver's answer on machine `i`. */
  method PartTwo(ms: seq<Machine>, sols: seq<Option<seq<nat>>>) returns (r: Option<nat>)
    requires |sols| == |ms|
    ensures r == SumAll(Terms(ms, sols))
  {
    var terms := Terms(ms, sols);
    var answer := 0;
    for i := 0 to |ms|
      invariant SumAll(terms[..i]) == Some(answer)
    {
      assert terms[..i + 1][..i] == terms[..i];
      var cs := BuildConstraints(ms[i]);
      if cs.None? || sols[i].None? {
        SumAllPrefix(terms, i + 1);
        return None;
      }
      answer := answer + Total(sols[i].value);
    }
    assert terms[..|ms|] == terms;
    return Some(answer);
  }

  /** A missing term in a prefix makes the whole sum missing. */
  lemma {:induction false} SumAllPrefix(xs: seq<Option<nat>>, k: nat)
    requires k <= |xs| && SumAll(xs[..k]).None?
    ensures SumAll(xs).None?
    decreases |xs| - k
  {
    if k < |xs| {
      assert xs[..k + 1][..k] == xs[..k];
      SumAllPrefix(xs, k + 1);
    } else {
      assert xs[..k] == xs;
    }
  }

  /** With a trusted solver the answer is the least total over every way of
      solving all machines. */
  lemma {:induction false} PartTwoLeast(ms: seq<Machine>, sols: seq<Option<seq<nat>>>, ys: seq<seq<nat>>)
    requires |sols| == |ms| && |ys| == |ms|
    requires forall i :: 0 <= i < |ms| ==> SolverAnswer(ms[i], sols[i])
    requires forall i :: 0 <= i < |ms| ==> |ys[i]| == |ms[i].buttons| && Constraints(ms[i]).Some? && Satisfies(Constraints(ms[i]).value, ys[i])
    ensures SumAll(Terms(ms, sols)).Some?
    ensures SumAll(Terms(ms, sols)).value <= SumNat(seq(|ys|, i requires 0 <= i < |ys| => Total(ys[i])))
  {
    if ms != [] {
      var n := |ms| - 1;
      PartTwoLeast(ms[..n], sols[..n], ys[..n]);
      assert Terms(ms, sols)[..n] == Terms(ms[..n], sols[..n]);
      var totals := seq(|ys|, i requires 0 <= i < |ys| => Total(ys[i]));
      assert totals[..n] == seq(n, i requires 0 <= i < n => Total(ys[..n][i]));
      assert SolverAnswer(ms[n], sols[n]);
    }
  }
}
