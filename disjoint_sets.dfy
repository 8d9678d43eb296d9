/** Union-find, specified by the labelling it maintains: every element is
    labelled with the root of its set, and a union relabels one whole set with
    the root of the other. Both day-8 `DisjointSetUnion` structures are proved
    against these definitions; the forest invariant at the end ties a
    `parents` vector to the labelling it represents. */
module DisjointSets {
  import opened Base
  import opened Sorting

  /* ---- Labellings ---- */

  /** Every label is an element that labels itself: the root of its set. */
  ghost predicate IsLabelling(l: seq<nat>)
  {
    forall k :: 0 <= k < |l| ==> l[k] < |l| && l[l[k]] == l[k]
  }

  /** `n` singleton sets. */
  function Identity(n: nat): (l: seq<nat>)
    ensures |l| == n && forall k :: 0 <= k < n ==> l[k] == k
  {
    seq(n, k requires 0 <= k < n => k)
  }

  /** The labelling after the sets of `a` and `b` are united: the set of `a`
      takes the root of the set of `b`. */
  function Merge(l: seq<nat>, a: nat, b: nat): (r: seq<nat>)
    requires a < |l| && b < |l|
    ensures |r| == |l|
  {
    seq(|l|, k requires 0 <= k < |l| => if l[k] == l[a] then l[b] else l[k])
  }

  /** A merge keeps a labelling, joins exactly the two sets involved, and is a
      no-op when they are already one. */
  lemma MergeFacts(l: seq<nat>, a: nat, b: nat)
    requires IsLabelling(l) && a < |l| && b < |l|
    ensures IsLabelling(Merge(l, a, b))
    ensures forall x, y :: 0 <= x < |l| && 0 <= y < |l| ==>
      (Merge(l, a, b)[x] == Merge(l, a, b)[y] <==>
        l[x] == l[y] || (l[x] == l[a] && l[y] == l[b]) || (l[x] == l[b] && l[y] == l[a]))
    ensures l[a] == l[b] ==> Merge(l, a, b) == l
  {
    MergeSame(l, a, b);
    var r := Merge(l, a, b);
    forall k | 0 <= k < |l| ensures r[k] < |r| && r[r[k]] == r[k] {
      if l[k] == l[a] {
        assert r[k] == l[b] && l[l[b]] == l[b];
      }
    }
  }

  /** Merging two elements of one set changes nothing. */
  lemma MergeSame(l: seq<nat>, a: nat, b: nat)
    requires a < |l| && b < |l|
    ensures l[a] == l[b] ==> Merge(l, a, b) == l
  {
    if l[a] == l[b] {
      assert forall k :: 0 <= k < |l| ==> Merge(l, a, b)[k] == l[k];
    }
  }

  /** The roots in use: one per set. */
  function Classes(l: seq<nat>): set<nat>
  {
    set k | 0 <= k < |l| :: l[k]
  }

  /** Uniting two different sets removes exactly one root. */
  lemma MergeCount(l: seq<nat>, a: nat, b: nat)
    requires IsLabelling(l) && a < |l| && b < |l| && l[a] != l[b]
    ensures Classes(Merge(l, a, b)) == Classes(l) - {l[a]}
    ensures |Classes(Merge(l, a, b))| == |Classes(l)| - 1
  {
    var r := Merge(l, a, b);
    forall c | c in Classes(r) ensures c in Classes(l) - {l[a]} {
      var k :| 0 <= k < |r| && r[k] == c;
      if l[k] == l[a] {
        assert c == l[b] && l[b] in Classes(l);
      }
    }
    forall c | c in Classes(l) - {l[a]} ensures c in Classes(r) {
      var k :| 0 <= k < |l| && l[k] == c;
      assert r[k] == c;
    }
    assert l[a] in Classes(l);
  }

  /** `n` singletons are `n` sets. */
  lemma {:induction false} IdentityCount(n: nat)
    ensures IsLabelling(Identity(n))
    ensures |Classes(Identity(n))| == n
  {
    if n > 0 {
      IdentityCount(n - 1);
      var c, d := Classes(Identity(n)), Classes(Identity(n - 1));
      forall x | x in c ensures x in d + {n - 1} {
        var k :| 0 <= k < n && Identity(n)[k] == x;
        if k < n - 1 {
          assert Identity(n - 1)[k] == x;
        }
      }
      forall x | x in d + {n - 1} ensures x in c {
        if x == n - 1 {
          assert Identity(n)[n - 1] == x;
        } else {
          var k :| 0 <= k < n - 1 && Identity(n - 1)[k] == x;
          assert Identity(n)[k] == x;
        }
      }
      assert c == d + {n - 1};
      assert n - 1 !in d;
    }
  }

  /** A labelling of at least one element has at least one set. */
  lemma ClassesNonEmpty(l: seq<nat>)
    requires |l| >= 1
    ensures |Classes(l)| >= 1
  {
    assert l[0] in Classes(l);
  }

  /** One set holds everything exactly when every element has the label of element 0. */
  lemma SingleClass(l: seq<nat>)
    requires |l| >= 1
    ensures |Classes(l)| == 1 <==> forall k :: 0 <= k < |l| ==> l[k] == l[0]
  {
    assert l[0] in Classes(l);
    if forall k :: 0 <= k < |l| ==> l[k] == l[0] {
      assert Classes(l) == {l[0]};
    } else {
      var k :| 0 <= k < |l| && l[k] != l[0];
      assert {l[0], l[k]} <= Classes(l);
      assert |{l[0], l[k]}| == 2;
      SubsetSize({l[0], l[k]}, Classes(l));
    }
  }

  lemma SubsetSize<T>(a: set<T>, b: set<T>)
    requires a <= b
    ensures |a| <= |b|
  {
    assert b == a + (b - a);
  }

  /* ---- Sequences of unions ---- */

  ghost predicate ValidLinks(n: nat, links: seq<(nat, nat)>)
  {
    forall q :: 0 <= q < |links| ==> links[q].0 < n && links[q].1 < n
  }

  /** The labelling after uniting, in order, the two ends of every link. */
  function UnionAll(l: seq<nat>, links: seq<(nat, nat)>): (r: seq<nat>)
    requires ValidLinks(|l|, links)
    ensures |r| == |l|
  {
    if links == [] then l
    else Merge(UnionAll(l, links[..|links| - 1]), links[|links| - 1].0, links[|links| - 1].1)
  }

  lemma UnionAllStep(l: seq<nat>, links: seq<(nat, nat)>, q: nat)
    requires ValidLinks(|l|, links) && q < |links|
    ensures UnionAll(l, links[..q + 1]) == Merge(UnionAll(l, links[..q]), links[q].0, links[q].1)
  {
    assert links[..q + 1][..q] == links[..q];
  }

  lemma {:induction false} UnionAllLabelling(l: seq<nat>, links: seq<(nat, nat)>)
    requires IsLabelling(l) && ValidLinks(|l|, links)
    ensures IsLabelling(UnionAll(l, links))
  {
    if links != [] {
      UnionAllLabelling(l, links[..|links| - 1]);
      MergeFacts(UnionAll(l, links[..|links| - 1]), links[|links| - 1].0, links[|links| - 1].1);
    }
  }

  /** Unions never separate two elements. */
  lemma {:induction false} UnionAllKeeps(l: seq<nat>, links: seq<(nat, nat)>, x: nat, y: nat)
    requires IsLabelling(l) && ValidLinks(|l|, links) && x < |l| && y < |l| && l[x] == l[y]
    ensures UnionAll(l, links)[x] == UnionAll(l, links)[y]
  {
    if links != [] {
      var p := links[..|links| - 1];
      UnionAllKeeps(l, p, x, y);
      UnionAllLabelling(l, p);
      MergeFacts(UnionAll(l, p), links[|links| - 1].0, links[|links| - 1].1);
    }
  }

  /** After all unions, the two ends of every link are in one set. */
  lemma {:induction false} UnionAllJoins(l: seq<nat>, links: seq<(nat, nat)>, q: nat)
    requires IsLabelling(l) && ValidLinks(|l|, links) && q < |links|
    ensures UnionAll(l, links)[links[q].0] == UnionAll(l, links)[links[q].1]
  {
    var p := links[..|links| - 1];
    var last := links[|links| - 1];
    UnionAllLabelling(l, p);
    MergeFacts(UnionAll(l, p), last.0, last.1);
    if q < |links| - 1 {
      assert links[q] == p[q];
      UnionAllJoins(l, p, q);
    }
  }

  /** Every element sits on the same side of `s` as its root. */
  ghost predicate RespectsCut(l: seq<nat>, s: set<nat>)
  {
    forall k :: 0 <= k < |l| ==> (k in s <==> l[k] in s)
  }

  /** Unions along links that never cross `s` never join its two sides: either
      the result still respects `s`, or some link crosses it. */
  lemma {:induction false} UnionAllCrossing(l: seq<nat>, links: seq<(nat, nat)>, s: set<nat>)
    requires IsLabelling(l) && ValidLinks(|l|, links) && RespectsCut(l, s)
    ensures RespectsCut(UnionAll(l, links), s) ||
      exists q :: 0 <= q < |links| && (links[q].0 in s <==> links[q].1 !in s)
  {
    if links != [] {
      var p := links[..|links| - 1];
      var last := links[|links| - 1];
      assert forall q :: 0 <= q < |p| ==> p[q] == links[q];
      UnionAllCrossing(l, p, s);
      UnionAllLabelling(l, p);
      var m := UnionAll(l, p);
      if RespectsCut(m, s) && (last.0 in s <==> last.1 in s) {
        forall k | 0 <= k < |l| ensures (k in s <==> Merge(m, last.0, last.1)[k] in s) {
        }
      }
    }
  }

  /** After all unions, the two ends of every link are in one set. */
  lemma UnionAllJoinsAll(l: seq<nat>, links: seq<(nat, nat)>)
    requires IsLabelling(l) && ValidLinks(|l|, links)
    ensures forall q :: 0 <= q < |links| ==> UnionAll(l, links)[links[q].0] == UnionAll(l, links)[links[q].1]
  {
    forall q | 0 <= q < |links| ensures UnionAll(l, links)[links[q].0] == UnionAll(l, links)[links[q].1] {
      UnionAllJoins(l, links, q);
    }
  }

  /* ---- Set sizes ---- */

  /** Number of elements labelled `r`. */
  function CountLabel(l: seq<nat>, r: nat): (c: nat)
    ensures c <= |l|
  {
    if l == [] then 0 else CountLabel(l[..|l| - 1], r) + (if l[|l| - 1] == r then 1 else 0)
  }

  /** Sizes indexed by root: entry `r` is the size of the set whose root is
      `r`, and 0 where `r` is no root. */
  function Tally(l: seq<nat>): (t: seq<nat>)
    ensures |t| == |l|
  {
    seq(|l|, r requires 0 <= r < |l| => CountLabel(l, r))
  }

  /** The nonzero entries of `s`, in order. */
  function Positives(s: seq<nat>): (r: seq<nat>)
    ensures forall k :: 0 <= k < |r| ==> r[k] > 0
    ensures |r| <= |s|
  {
    if s == [] then []
    else Positives(s[..|s| - 1]) + (if s[|s| - 1] > 0 then [s[|s| - 1]] else [])
  }

  /** The size of every set, in the order of their roots. */
  function ComponentSizes(l: seq<nat>): seq<nat>
  {
    Positives(Tally(l))
  }

  function SumCounts(l: seq<nat>, m: nat): nat
  {
    if m == 0 then 0 else SumCounts(l, m - 1) + CountLabel(l, m - 1)
  }

  lemma {:induction false} SumCountsSnoc(l: seq<nat>, e: nat, m: nat)
    ensures SumCounts(l + [e], m) == SumCounts(l, m) + (if e < m then 1 else 0)
  {
    if m > 0 {
      SumCountsSnoc(l, e, m - 1);
      assert (l + [e])[..|l + [e]| - 1] == l;
    }
  }

  lemma {:induction false} SumCountsAll(l: seq<nat>, n: nat)
    requires forall k :: 0 <= k < |l| ==> l[k] < n
    ensures SumCounts(l, n) == |l|
  {
    if l != [] {
      var p, e := l[..|l| - 1], l[|l| - 1];
      assert forall k :: 0 <= k < |p| ==> p[k] == l[k];
      SumCountsAll(p, n);
      assert l == p + [e];
      SumCountsSnoc(p, e, n);
      assert e < n;
    } else {
      SumCountsNone(n);
    }
  }

  lemma {:induction false} SumCountsNone(m: nat)
    ensures SumCounts([], m) == 0
  {
    if m > 0 {
      SumCountsNone(m - 1);
    }
  }

  lemma {:induction false} SumTallyPrefix(l: seq<nat>, m: nat)
    requires m <= |l|
    ensures Sum(Tally(l)[..m]) == SumCounts(l, m)
  {
    if m > 0 {
      assert Tally(l)[..m][..m - 1] == Tally(l)[..m - 1];
      SumTallyPrefix(l, m - 1);
    }
  }

  lemma {:induction false} SumPositives(s: seq<nat>)
    ensures Sum(Positives(s)) == Sum(s)
  {
    if s != [] {
      var p := s[..|s| - 1];
      SumPositives(p);
      SumAppend(Positives(p), if s[|s| - 1] > 0 then [s[|s| - 1]] else []);
      assert Sum([s[|s| - 1]]) == s[|s| - 1] by {
        assert [s[|s| - 1]][..0] == [];
      }
    }
  }

  lemma {:induction false} CountLabelPositive(l: seq<nat>, r: nat)
    ensures CountLabel(l, r) > 0 <==> exists k :: 0 <= k < |l| && l[k] == r
  {
    if l != [] {
      var p := l[..|l| - 1];
      CountLabelPositive(p, r);
      if exists k :: 0 <= k < |l| && l[k] == r {
        var k :| 0 <= k < |l| && l[k] == r;
        if k < |l| - 1 {
          assert p[k] == r;
        }
      }
    }
  }

  /** The sizes add up to the number of elements, and a size is nonzero exactly at a root. */
  lemma TallyFacts(l: seq<nat>)
    requires IsLabelling(l)
    ensures Sum(Tally(l)) == |l|
    ensures forall r :: 0 <= r < |l| ==> (Tally(l)[r] > 0 <==> r in Classes(l))
    ensures Sum(ComponentSizes(l)) == |l|
  {
    assert Tally(l)[..|l|] == Tally(l);
    SumTallyPrefix(l, |l|);
    SumCountsAll(l, |l|);
    SumPositives(Tally(l));
    forall r | 0 <= r < |l| ensures Tally(l)[r] > 0 <==> r in Classes(l) {
      CountLabelPositive(l, r);
    }
  }

  /** The product of the `k` largest entries of `s` (of all of them when there are fewer). */
  function LargestProduct(s: seq<nat>, k: nat): int
  {
    var sorted := SortBy(s, (x: nat) => x as int);
    Product(NatsToInts(sorted[|sorted| - Min(k, |sorted|)..]))
  }

  function NatsToInts(s: seq<nat>): (r: seq<int>)
    ensures |r| == |s| && forall k :: 0 <= k < |s| ==> r[k] == s[k]
  {
    seq(|s|, k requires 0 <= k < |s| => s[k] as int)
  }

  /* ---- Parent forests ---- */

  /** Every parent link stays in range and, unless it is a root's self-link,
      goes to an element of smaller depth. */
  ghost predicate Ranked(parents: seq<nat>, depth: seq<nat>)
  {
    |depth| == |parents| &&
    forall k {:trigger parents[k]} :: 0 <= k < |parents| ==>
      parents[k] < |parents| && (parents[k] != k ==> depth[parents[k]] < depth[k])
  }

  /** `parents` is a forest whose trees are the sets of the labelling `roots`:
      the roots are exactly the fixed points, and a parent link never leaves a tree. */
  ghost predicate IsForest(parents: seq<nat>, roots: seq<nat>, depth: seq<nat>)
  {
    Ranked(parents, depth) && |roots| == |parents| && IsLabelling(roots) &&
    forall k {:trigger parents[k]} :: 0 <= k < |parents| ==>
      (parents[k] == k <==> roots[k] == k) &&
      roots[parents[k]] == roots[k] &&
      (roots[k] != k ==> depth[roots[k]] < depth[k])
  }

  /** The elements met walking parent links from `k` up to its root, both ends included. */
  ghost function Path(parents: seq<nat>, depth: seq<nat>, k: nat): set<nat>
    requires Ranked(parents, depth) && k < |parents|
    decreases depth[k]
  {
    if parents[k] == k then {k} else {k} + Path(parents, depth, parents[k])
  }

  /** The root reached from `k` by following parent links. */
  ghost function RootOf(parents: seq<nat>, depth: seq<nat>, k: nat): nat
    requires Ranked(parents, depth) && k < |parents|
    decreases depth[k]
  {
    if parents[k] == k then k else RootOf(parents, depth, parents[k])
  }

  /** In a forest the label of `k` is the root its parent links lead to, and
      the walk there stays inside the tree of `k`. */
  lemma {:induction false} PathFacts(parents: seq<nat>, roots: seq<nat>, depth: seq<nat>, k: nat)
    requires IsForest(parents, roots, depth) && k < |parents|
    ensures roots[k] == RootOf(parents, depth, k)
    ensures k in Path(parents, depth, k) && roots[k] in Path(parents, depth, k)
    ensures forall m :: m in Path(parents, depth, k) ==> m < |parents| && roots[m] == roots[k] && depth[m] <= depth[k]
    decreases depth[k]
  {
    if parents[k] != k {
      PathFacts(parents, roots, depth, parents[k]);
    }
  }

  /** The walk from a point on the walk from `k` is part of the walk from `k`. */
  lemma {:induction false} PathNested(parents: seq<nat>, depth: seq<nat>, k: nat, m: nat)
    requires Ranked(parents, depth) && k < |parents| && m in Path(parents, depth, k)
    ensures m < |parents| && Path(parents, depth, m) <= Path(parents, depth, k)
    decreases depth[k]
  {
    if m != k {
      PathNested(parents, depth, parents[k], m);
    }
  }

  /** Singletons form a forest of roots. */
  lemma InitialForest(n: nat)
    ensures IsForest(Identity(n), Identity(n), seq(n, k => 0))
  {
  }

  /** Pointing a non-root at another element of its tree that lies closer to
      the root keeps the forest and every label. */
  lemma Redirect(parents: seq<nat>, roots: seq<nat>, depth: seq<nat>, x: nat, y: nat)
    requires IsForest(parents, roots, depth) && x < |parents| && y < |parents|
    requires parents[x] != x && roots[y] == roots[x] && depth[y] < depth[x]
    ensures IsForest(parents[x := y], roots, depth)
  {
    var q := parents[x := y];
    forall k | 0 <= k < |q|
      ensures q[k] < |q| && (q[k] != k ==> depth[q[k]] < depth[k])
      ensures (q[k] == k <==> roots[k] == k) && roots[q[k]] == roots[k] && (roots[k] != k ==> depth[roots[k]] < depth[k])
    {
      assert parents[k] < |parents|;
    }
  }

  /** Depths after the tree of root `r` is hung below a root of depth `h - 1`. */
  function Raise(roots: seq<nat>, depth: seq<nat>, r: nat, h: nat): (d: seq<nat>)
    requires |depth| == |roots|
    ensures |d| == |depth|
  {
    seq(|depth|, k requires 0 <= k < |depth| => if roots[k] == r then depth[k] + h else depth[k])
  }

  /** Pointing one root at another unites their sets, as `Merge` says. */
  lemma Link(parents: seq<nat>, roots: seq<nat>, depth: seq<nat>, ri: nat, rj: nat)
    requires IsForest(parents, roots, depth) && ri < |parents| && rj < |parents|
    requires roots[ri] == ri && roots[rj] == rj && ri != rj
    ensures IsForest(parents[ri := rj], Merge(roots, ri, rj), Raise(roots, depth, ri, depth[rj] + 1))
  {
    MergeFacts(roots, ri, rj);
    var p, l, d := parents[ri := rj], Merge(roots, ri, rj), Raise(roots, depth, ri, depth[rj] + 1);
    forall k | 0 <= k < |p|
      ensures p[k] < |p| && (p[k] != k ==> d[p[k]] < d[k])
      ensures (p[k] == k <==> l[k] == k) && l[p[k]] == l[k] && (l[k] != k ==> d[l[k]] < d[k])
    {
      LinkAt(parents, roots, depth, ri, rj, k);
    }
    assert Ranked(p, d);
  }

  lemma LinkAt(parents: seq<nat>, roots: seq<nat>, depth: seq<nat>, ri: nat, rj: nat, k: nat)
    requires IsForest(parents, roots, depth) && ri < |parents| && rj < |parents| && k < |parents|
    requires roots[ri] == ri && roots[rj] == rj && ri != rj
    ensures var p, l, d := parents[ri := rj], Merge(roots, ri, rj), Raise(roots, depth, ri, depth[rj] + 1);
      p[k] < |p| && (p[k] != k ==> d[p[k]] < d[k]) &&
      (p[k] == k <==> l[k] == k) && l[p[k]] == l[k] && (l[k] != k ==> d[l[k]] < d[k])
  {
    var p, l, d := parents[ri := rj], Merge(roots, ri, rj), Raise(roots, depth, ri, depth[rj] + 1);
    if k == ri {
      assert l[rj] == rj && d[rj] == depth[rj];
    } else {
      assert p[k] == parents[k];
      assert roots[parents[k]] == roots[k];
      if roots[k] != k {
        assert roots[roots[k]] == roots[k];
      }
    }
  }

  /* ---- Walks that rewire the forest ---- */

  /** Invariant of a walk from `i` that rewires parent links, now at `x`: the
      forest and its labels are kept, `x` is on the original walk from `i`, the
      walk ahead of `x` is untouched, and only elements of the original walk
      have changed. */
  ghost predicate Rewiring(parents: seq<nat>, roots: seq<nat>, depth: seq<nat>, p0: seq<nat>, i: nat, x: nat)
  {
    IsForest(parents, roots, depth) && IsForest(p0, roots, depth) && |parents| == |p0| &&
    i < |p0| && x < |p0| && roots[x] == roots[i] && x in Path(p0, depth, i) &&
    (forall k :: 0 <= k < |parents| && k in Path(p0, depth, x) ==> parents[k] == p0[k]) &&
    (forall k :: 0 <= k < |parents| && k !in Path(p0, depth, i) ==> parents[k] == p0[k])
  }

  lemma RewiringStart(parents: seq<nat>, roots: seq<nat>, depth: seq<nat>, i: nat)
    requires IsForest(parents, roots, depth) && i < |parents|
    ensures Rewiring(parents, roots, depth, parents, i, i)
  {
    PathFacts(parents, roots, depth, i);
  }

  lemma RewiringEnd(parents: seq<nat>, roots: seq<nat>, depth: seq<nat>, p0: seq<nat>, i: nat, x: nat)
    requires Rewiring(parents, roots, depth, p0, i, x) && parents[x] == x
    ensures x == roots[i]
  {
  }

  /** Hanging the root of `i` below the root of `j` represents their merge and
      removes one set. */
  lemma LinkRoots(parents: seq<nat>, roots: seq<nat>, depth: seq<nat>, i: nat, j: nat)
    requires IsForest(parents, roots, depth) && i < |parents| && j < |parents| && roots[i] != roots[j]
    ensures roots[i] < |parents| && roots[j] < |parents|
    ensures IsForest(parents[roots[i] := roots[j]], Merge(roots, i, j), Raise(roots, depth, roots[i], depth[roots[j]] + 1))
    ensures |Classes(Merge(roots, i, j))| == |Classes(roots)| - 1
  {
    var ri, rj := roots[i], roots[j];
    assert roots[ri] == ri && roots[rj] == rj;
    Link(parents, roots, depth, ri, rj);
    MergeCount(roots, i, j);
    assert Merge(roots, ri, rj) == Merge(roots, i, j);
  }

  lemma CountLabelStep(l: seq<nat>, i: nat)
    requires i < |l|
    ensures forall r: nat :: CountLabel(l[..i + 1], r) == CountLabel(l[..i], r) + (if l[i] == r then 1 else 0)
  {
    assert l[..i + 1][..i] == l[..i];
  }
}
