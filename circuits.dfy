/** Circuits formed by connecting junction boxes with cables, one union per
    cable: the specification both day-8 solvers are proved against, and the
    reason the Kruskal-style search of one solver and the Prim-style search of
    the other report the same bottleneck distance. */
module Circuits {
  import opened Base
  import opened Junctions
  import opened DisjointSets

  /** The pairs of boxes the cables connect. */
  function Links(cs: seq<Cable>): (r: seq<(nat, nat)>)
    ensures |r| == |cs| && forall k :: 0 <= k < |cs| ==> r[k] == (cs[k].u, cs[k].v)
  {
    seq(|cs|, k requires 0 <= k < |cs| => (cs[k].u, cs[k].v))
  }

  /** The circuits of `n` boxes after connecting the first `q` cables of `cs`. */
  function Joined(n: nat, cs: seq<Cable>, q: nat): (l: seq<nat>)
    requires ValidLinks(n, Links(cs)) && q <= |cs|
    ensures |l| == n
  {
    UnionAll(Identity(n), Links(cs)[..q])
  }

  /** The first `q` cables leave a single circuit. */
  ghost predicate Connected(n: nat, cs: seq<Cable>, q: nat)
    requires ValidLinks(n, Links(cs)) && q <= |cs|
  {
    |Classes(Joined(n, cs, q))| == 1
  }

  /** Connecting cable `t` is the first connection that leaves a single circuit. */
  ghost predicate FirstConnecting(n: nat, cs: seq<Cable>, t: nat)
    requires ValidLinks(n, Links(cs))
  {
    t < |cs| && Connected(n, cs, t + 1) &&
    forall q :: 0 < q <= t ==> !Connected(n, cs, q)
  }

  ghost predicate SortedByDist(cs: seq<Cable>)
  {
    forall i, j :: 0 <= i < j < |cs| ==> cs[i].dist <= cs[j].dist
  }

  /** `cs` offers a cable between every two boxes. */
  ghost predicate Complete(pts: seq<Point>, cs: seq<Cable>)
  {
    forall a, b :: 0 <= a < b < |pts| ==> Joins(cs, a, b)
  }

  /** Connecting one more cable merges the circuits of its two ends. */
  lemma JoinedStep(n: nat, cs: seq<Cable>, q: nat)
    requires ValidLinks(n, Links(cs)) && q < |cs|
    ensures Joined(n, cs, q + 1) == Merge(Joined(n, cs, q), cs[q].u, cs[q].v)
  {
    UnionAllStep(Identity(n), Links(cs), q);
    assert Links(cs)[..q + 1][..q] == Links(cs)[..q];
  }

  lemma JoinedFacts(n: nat, cs: seq<Cable>, q: nat)
    requires ValidLinks(n, Links(cs)) && q <= |cs|
    ensures IsLabelling(Joined(n, cs, q))
    ensures forall p :: 0 <= p < q ==> Joined(n, cs, q)[cs[p].u] == Joined(n, cs, q)[cs[p].v]
  {
    IdentityCount(n);
    var links := Links(cs)[..q];
    UnionAllLabelling(Identity(n), links);
    UnionAllJoinsAll(Identity(n), links);
    assert forall p :: 0 <= p < q ==> links[p] == (cs[p].u, cs[p].v);
  }

  /** Every cut of the boxes is crossed by a cable among the first `t + 1`
      once those leave a single circuit. */
  lemma CutCrossed(pts: seq<Point>, cs: seq<Cable>, t: nat, s: set<nat>)
    requires AllCablesOf(pts, cs) && SortedByDist(cs) && t < |cs|
    requires Connected(|pts|, cs, t + 1) && IsCut(|pts|, s)
    ensures CrossedWithin(pts, s, cs[t].dist)
  {
    var n := |pts|;
    var l := Joined(n, cs, t + 1);
    var k :| k in s;
    var m :| 0 <= m < n && m !in s;
    SingleClass(l);
    assert l[k] == l[m];
    assert !RespectsCut(l, s);
    IdentityCount(n);
    var links := Links(cs)[..t + 1];
    UnionAllCrossing(Identity(n), links, s);
    var q :| 0 <= q < |links| && (links[q].0 in s <==> links[q].1 !in s);
    var c := cs[q];
    assert links[q] == (c.u, c.v);
    SqDistFacts(pts[c.u], pts[c.v]);
    assert c.dist <= cs[t].dist;
    if c.u in s {
      assert Dist(pts, c.u, c.v) <= cs[t].dist;
    } else {
      assert Dist(pts, c.v, c.u) <= cs[t].dist;
    }
  }

  /** Just before the first connecting cable is added, its two ends lie in
      different circuits. */
  lemma EndsApart(pts: seq<Point>, cs: seq<Cable>, t: nat)
    requires AllCablesOf(pts, cs) && FirstConnecting(|pts|, cs, t)
    ensures Joined(|pts|, cs, t)[cs[t].u] != Joined(|pts|, cs, t)[cs[t].v]
  {
    var n := |pts|;
    var u, v := cs[t].u, cs[t].v;
    var before := Joined(n, cs, t);
    JoinedFacts(n, cs, t);
    IdentityCount(n);
    JoinedStep(n, cs, t);
    MergeFacts(before, u, v);
    assert t > 0 ==> !Connected(n, cs, t);
  }

  /** Two boxes in different circuits just before cable `t` is added are at
      least as far apart as that cable is long. */
  lemma ApartIsFar(pts: seq<Point>, cs: seq<Cable>, t: nat, a: nat, b: nat)
    requires AllCablesOf(pts, cs) && SortedByDist(cs) && Complete(pts, cs) && t < |cs|
    requires a < |pts| && b < |pts| && Joined(|pts|, cs, t)[a] != Joined(|pts|, cs, t)[b]
    ensures Dist(pts, a, b) >= cs[t].dist
  {
    var before := Joined(|pts|, cs, t);
    JoinedFacts(|pts|, cs, t);
    var lo, hi := Min(a, b), Max(a, b);
    assert Joins(cs, lo, hi);
    var q :| 0 <= q < |cs| && cs[q].u == lo && cs[q].v == hi;
    assert before[lo] != before[hi];
    assert q >= t;
    SqDistFacts(pts[a], pts[b]);
  }

  /** The circuit holding the near end of the first connecting cable, just
      before that cable is added, is a cut no shorter cable crosses. */
  lemma LastCutUncrossed(pts: seq<Point>, cs: seq<Cable>, t: nat)
    requires AllCablesOf(pts, cs) && SortedByDist(cs) && Complete(pts, cs)
    requires FirstConnecting(|pts|, cs, t)
    ensures IsBottleneckEdge(pts, cs[t].u, cs[t].v, cs[t].dist)
  {
    var n := |pts|;
    var u, v := cs[t].u, cs[t].v;
    var before := Joined(n, cs, t);
    EndsApart(pts, cs, t);
    var s := set k | 0 <= k < n && before[k] == before[u];
    assert IsCut(n, s) by {
      assert u in s && v !in s;
    }
    forall a, b | 0 <= a < n && 0 <= b < n && a in s && b !in s
      ensures Dist(pts, a, b) > cs[t].dist - 1
    {
      ApartIsFar(pts, cs, t, a, b);
    }
  }

  /** The cable whose union leaves a single circuit has the bottleneck length,
      and it is a heaviest edge of a minimum spanning tree. */
  lemma KruskalBottleneck(pts: seq<Point>, cs: seq<Cable>, t: nat)
    requires AllCablesOf(pts, cs) && SortedByDist(cs) && Complete(pts, cs)
    requires FirstConnecting(|pts|, cs, t)
    ensures IsBottleneck(pts, cs[t].dist)
    ensures IsBottleneckEdge(pts, cs[t].u, cs[t].v, cs[t].dist)
  {
    forall s | IsCut(|pts|, s) ensures CrossedWithin(pts, s, cs[t].dist) {
      CutCrossed(pts, cs, t, s);
    }
    LastCutUncrossed(pts, cs, t);
    SqDistFacts(pts[cs[t].u], pts[cs[t].v]);
  }

  /** With at least two boxes and a cable between every two, connecting
      every cable leaves a single circuit. */
  lemma AllConnected(pts: seq<Point>, cs: seq<Cable>)
    requires AllCablesOf(pts, cs) && Complete(pts, cs)
    ensures |pts| >= 2 ==> |cs| > 0 && Connected(|pts|, cs, |cs|)
  {
    var n := |pts|;
    if n >= 2 {
      assert Joins(cs, 0, 1);
      var all := Joined(n, cs, |cs|);
      JoinedFacts(n, cs, |cs|);
      forall k | 0 < k < n ensures all[k] == all[0] {
        assert Joins(cs, 0, k);
      }
      SingleClass(all);
    }
  }

  /** With at least two boxes and a cable between every two, some cable is
      the first to leave a single circuit. */
  lemma EventuallyConnected(pts: seq<Point>, cs: seq<Cable>)
    requires AllCablesOf(pts, cs) && Complete(pts, cs) && |pts| >= 2
    ensures exists t: nat :: FirstConnecting(|pts|, cs, t)
  {
    var n := |pts|;
    AllConnected(pts, cs);
    var t := 0;
    while !Connected(n, cs, t + 1)
      invariant t < |cs|
      invariant forall q :: 0 < q <= t ==> !Connected(n, cs, q)
      decreases |cs| - t
    {
      t := t + 1;
    }
    assert FirstConnecting(n, cs, t);
  }

  /** At most one cable is the first to leave a single circuit. */
  lemma FirstConnectingUnique(n: nat, cs: seq<Cable>, t1: nat, t2: nat)
    requires ValidLinks(n, Links(cs)) && FirstConnecting(n, cs, t1) && FirstConnecting(n, cs, t2)
    ensures t1 == t2
  {
    FirstConnectingLeast(n, cs, t1, t2);
    FirstConnectingLeast(n, cs, t2, t1);
  }

  /** No prefix shorter than the first connecting one leaves a single circuit. */
  lemma FirstConnectingLeast(n: nat, cs: seq<Cable>, t: nat, q: nat)
    requires ValidLinks(n, Links(cs)) && FirstConnecting(n, cs, t) && q < |cs| && Connected(n, cs, q + 1)
    ensures t <= q
  {
  }

  /** The first connecting cable, once found, is the only one, and there are
      at least two boxes. */
  lemma FirstConnectingFound(pts: seq<Point>, cs: seq<Cable>, k: nat)
    requires AllCablesOf(pts, cs) && Complete(pts, cs) && FirstConnecting(|pts|, cs, k)
    ensures |pts| >= 2
    ensures forall t: nat :: FirstConnecting(|pts|, cs, t) ==> t == k
  {
    ConnectsIffTwo(pts, cs);
    forall t: nat | FirstConnecting(|pts|, cs, t) ensures t == k {
      FirstConnectingUnique(|pts|, cs, t, k);
    }
  }

  /** When no prefix of the cables leaves a single circuit, there are fewer
      than two boxes and no cable is the first connecting one. */
  lemma NeverConnected(pts: seq<Point>, cs: seq<Cable>)
    requires AllCablesOf(pts, cs) && Complete(pts, cs)
    requires forall q: nat :: 0 < q <= |cs| ==> !Connected(|pts|, cs, q)
    ensures |pts| < 2
    ensures forall t: nat :: !FirstConnecting(|pts|, cs, t)
  {
    AllConnected(pts, cs);
  }

  /** Some cable is the first to leave a single circuit exactly when there
      are at least two boxes. */
  lemma ConnectsIffTwo(pts: seq<Point>, cs: seq<Cable>)
    requires AllCablesOf(pts, cs) && Complete(pts, cs)
    ensures (exists t: nat :: FirstConnecting(|pts|, cs, t)) <==> |pts| >= 2
  {
    if |pts| >= 2 {
      EventuallyConnected(pts, cs);
    }
  }
}
