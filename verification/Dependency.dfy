/** Shares of shortest paths, and the dependency recurrence Brandes' algorithm rests on. */
module Dependency {
  import opened Sequences
  import opened Graphs
  import opened Sums
  import opened PathCount

  // ------------------------------------------------------------------ the definition

  /** All shortest paths from `s` to `t`; none when `t` is unreachable. */
  ghost function ShortestPaths(g: Graph, s: nat, t: nat): PathSet
    requires WellFormed(g) && t < g.n
  {
    if exists d: nat :: IsDistance(g, s, t, d) then
      var d: nat :| IsDistance(g, s, t, d);
      Paths(g, s, d)[t]
    else {}
  }

  ghost function Containing(paths: PathSet, v: nat): PathSet {
    set p | p in paths && v in p
  }

  /** The fraction of the shortest `s`-`t` paths that pass through `v`, an inner node. */
  ghost function PairShare(g: Graph, s: nat, t: nat, v: nat): real
    requires WellFormed(g)
  {
    if t < g.n && s != v && t != v && s != t && ShortestPaths(g, s, t) != {} then
      |Containing(ShortestPaths(g, s, t), v)| as real / |ShortestPaths(g, s, t)| as real
    else 0.0
  }

  ghost function SharesOf(g: Graph, s: nat, v: nat): nat -> real
    requires WellFormed(g)
  {
    (t: nat) => PairShare(g, s, t, v)
  }

  ghost function DependencyOf(g: Graph, v: nat): nat -> real
    requires WellFormed(g)
  {
    (s: nat) => Sum(g.n, SharesOf(g, s, v))
  }

  /** Half the sum over ordered pairs of the share of shortest paths through `v`. */
  ghost function Betweenness(g: Graph, v: nat): real
    requires WellFormed(g)
  {
    Sum(g.n, DependencyOf(g, v)) / 2.0
  }

  // ------------------------------------------------------------------ hops along paths

  lemma {:induction false} HopsStretch(g: Graph, s: nat, hops: seq<int>, p: seq<nat>, v: nat, t: nat)
    requires WellFormed(g) && Labels(g, s, hops) && IsPath(g, p, v, t) && v < g.n && hops[v] >= 0
    ensures t < g.n && 0 <= hops[t] <= hops[v] + |p| - 1
    decreases |p|
  {
    if |p| > 1 {
      var q := p[..|p| - 1];
      forall i: nat | i + 1 < |q| ensures Hop(g, q, i) {
        assert Hop(g, p, i);
      }
      HopsStretch(g, s, hops, q, v, q[|q| - 1]);
      assert Hop(g, p, |p| - 2);
      assert LabelOk(g, s, hops, q[|q| - 1]);
    }
  }

  /** No path is shorter than the labels allow. */
  lemma TooShort(g: Graph, s: nat, hops: seq<int>, w: nat, k: nat, t: nat)
    requires WellFormed(g) && Labels(g, s, hops) && w < g.n && t < g.n && hops[w] >= 0
    requires hops[t] > hops[w] + k || hops[t] < 0
    ensures Count(g, w, k, t) == 0.0
  {
    if p :| p in Paths(g, w, k)[t] {
      PathsExact(g, w, k, t, p);
      HopsStretch(g, s, hops, p, w, t);
    }
    assert Paths(g, w, k)[t] == {};
  }

  lemma PathSlices(g: Graph, p: seq<nat>, s: nat, t: nat, i: nat)
    requires IsPath(g, p, s, t) && i < |p|
    ensures IsPath(g, p[..i + 1], s, p[i]) && IsPath(g, p[i..], p[i], t)
  {
    var front, back := p[..i + 1], p[i..];
    forall j: nat | j + 1 < |front| ensures Hop(g, front, j) {
      assert Hop(g, p, j);
    }
    forall j: nat | j + 1 < |back| ensures Hop(g, back, j) {
      assert Hop(g, p, i + j);
    }
  }

  /** A shortest path meets a node exactly after that node's hop count. */
  lemma MeetsAtHops(g: Graph, s: nat, hops: seq<int>, t: nat, p: seq<nat>, i: nat)
    requires WellFormed(g) && Labels(g, s, hops) && t < g.n && hops[t] >= 0
    requires IsPath(g, p, s, t) && |p| == hops[t] + 1 && i < |p|
    ensures p[i] < g.n && hops[p[i]] == i
  {
    PathSlices(g, p, s, t, i);
    LabelsBoundPath(g, s, hops, p[..i + 1], p[i]);
    HopsStretch(g, s, hops, p[i..], p[i], t);
  }

  lemma ShortestAre(g: Graph, s: nat, hops: seq<int>, t: nat)
    requires WellFormed(g) && Labels(g, s, hops) && t < g.n
    ensures ShortestPaths(g, s, t) == if hops[t] >= 0 then Paths(g, s, hops[t])[t] else {}
    ensures hops[t] >= 0 ==> ShortestPaths(g, s, t) != {}
  {
    LabelsAreDistances(g, s, hops, t);
    if hops[t] >= 0 {
      assert IsDistance(g, s, t, hops[t]);
      forall d: nat | IsDistance(g, s, t, d) ensures d == hops[t] {
      }
      var p :| IsPath(g, p, s, t) && |p| == hops[t] + 1;
      PathsExact(g, s, hops[t], t, p);
    } else {
      forall d: nat ensures !IsDistance(g, s, t, d) {
      }
    }
  }

  // ------------------------------------------------------------------ sigma and flow

  /** The number of shortest paths from the source. */
  ghost function Sigma(g: Graph, s: nat, hops: seq<int>, v: nat): real
    requires WellFormed(g) && |hops| == g.n
  {
    if v < g.n && hops[v] >= 0 then Count(g, s, hops[v], v) else 0.0
  }

  lemma SigmaPositive(g: Graph, s: nat, hops: seq<int>, v: nat)
    requires WellFormed(g) && Labels(g, s, hops) && v < g.n && hops[v] >= 0
    ensures Sigma(g, s, hops, v) > 0.0
  {
    ShortestAre(g, s, hops, v);
  }

  /** The shortest `s`-`t` paths through `w`, end nodes included, as a fraction. */
  ghost function Flow(g: Graph, s: nat, hops: seq<int>, w: nat, t: nat): real
    requires WellFormed(g) && Labels(g, s, hops)
  {
    if w < g.n && t < g.n && 0 <= hops[w] <= hops[t] then
      SigmaPositive(g, s, hops, t);
      Sigma(g, s, hops, w) * Count(g, w, hops[t] - hops[w], t) / Sigma(g, s, hops, t)
    else 0.0
  }

  lemma InnerPosition(g: Graph, s: nat, hops: seq<int>, v: nat, t: nat, p: seq<nat>)
    requires WellFormed(g) && Labels(g, s, hops) && v < g.n && t < g.n && hops[t] >= 0
    requires p in Paths(g, s, hops[t])[t]
    ensures |p| == hops[t] + 1
    ensures v in p <==> 0 <= hops[v] <= hops[t] && p[hops[v]] == v
  {
    PathsExact(g, s, hops[t], t, p);
    if v in p {
      var i :| 0 <= i < |p| && p[i] == v;
      MeetsAtHops(g, s, hops, t, p, i);
    }
  }

  lemma ContainingIsVia(g: Graph, s: nat, hops: seq<int>, v: nat, t: nat)
    requires WellFormed(g) && Labels(g, s, hops) && v < g.n && t < g.n && hops[t] >= 0
    ensures var paths := Containing(Paths(g, s, hops[t])[t], v);
      paths == if 0 <= hops[v] <= hops[t] then Via(g, s, v, hops[v], hops[t])[t] else {}
  {
    var paths := Paths(g, s, hops[t])[t];
    var via := if 0 <= hops[v] <= hops[t] then Via(g, s, v, hops[v], hops[t])[t] else {};
    forall p ensures p in Containing(paths, v) <==> p in via {
      if p in paths {
        InnerPosition(g, s, hops, v, t, p);
      }
    }
  }

  /** The size of the share's numerator. */
  lemma ContainingSize(g: Graph, s: nat, hops: seq<int>, v: nat, t: nat)
    requires WellFormed(g) && Labels(g, s, hops) && v < g.n && t < g.n && hops[t] >= 0
    ensures |Containing(Paths(g, s, hops[t])[t], v)| as real
         == if 0 <= hops[v] <= hops[t] then Sigma(g, s, hops, v) * Count(g, v, hops[t] - hops[v], t) else 0.0
  {
    ContainingIsVia(g, s, hops, v, t);
    if 0 <= hops[v] <= hops[t] {
      ViaCount(g, s, v, hops[v], hops[t] - hops[v], t);
    }
  }

  lemma ShareRatio(g: Graph, s: nat, hops: seq<int>, v: nat, t: nat)
    requires WellFormed(g) && Labels(g, s, hops) && t < g.n && hops[t] >= 0 && s != v && t != v && s != t
    ensures Sigma(g, s, hops, t) > 0.0
    ensures PairShare(g, s, t, v) == |Containing(Paths(g, s, hops[t])[t], v)| as real / Sigma(g, s, hops, t)
  {
    ShortestAre(g, s, hops, t);
    SigmaPositive(g, s, hops, t);
  }

  lemma NoFlow(g: Graph, s: nat, hops: seq<int>, v: nat, t: nat)
    requires WellFormed(g) && Labels(g, s, hops) && v < g.n && s != v && t < g.n && (t == s || hops[t] < 0)
    ensures Flow(g, s, hops, v, t) == 0.0 && PairShare(g, s, t, v) == 0.0
  {
    ShortestAre(g, s, hops, t);
    assert LabelOk(g, s, hops, s) && LabelOk(g, s, hops, v);
  }

  /** The flow's numerator over its denominator. */
  lemma FlowRatio(g: Graph, s: nat, hops: seq<int>, v: nat, t: nat, through: real)
    requires WellFormed(g) && Labels(g, s, hops) && v < g.n && t < g.n && hops[t] >= 0 && Sigma(g, s, hops, t) > 0.0
    requires through == if 0 <= hops[v] <= hops[t] then Sigma(g, s, hops, v) * Count(g, v, hops[t] - hops[v], t) else 0.0
    ensures Flow(g, s, hops, v, t) == through / Sigma(g, s, hops, t)
  {
    NoneOver(Sigma(g, s, hops, t));
  }

  lemma NoneOver(y: real)
    requires y > 0.0
    ensures 0.0 / y == 0.0
  {
  }

  /** For an inner node the share is the flow. */
  lemma ShareIsFlow(g: Graph, s: nat, hops: seq<int>, v: nat, t: nat)
    requires WellFormed(g) && Labels(g, s, hops) && v < g.n && t < g.n && s != v
    ensures PairShare(g, s, t, v) == if t == v then 0.0 else Flow(g, s, hops, v, t)
  {
    if t == s || hops[t] < 0 {
      NoFlow(g, s, hops, v, t);
    } else if t != v {
      var through := |Containing(Paths(g, s, hops[t])[t], v)| as real;
      ShareRatio(g, s, hops, v, t);
      ContainingSize(g, s, hops, v, t);
      FlowRatio(g, s, hops, v, t, through);
    }
  }

  lemma OwnFlow(g: Graph, s: nat, hops: seq<int>, w: nat)
    requires WellFormed(g) && Labels(g, s, hops) && w < g.n && hops[w] >= 0
    ensures Flow(g, s, hops, w, w) == 1.0
  {
    SigmaPositive(g, s, hops, w);
    CountZeroHops(g, w, w);
  }

  // ------------------------------------------------------------------ the recurrence

  /** `w` is one hop farther from the source than its neighbour `v`. */
  ghost predicate Leads(g: Graph, hops: seq<int>, v: nat, w: nat) {
    Adjacent(g, v, w) && v < |hops| && w < |hops| && hops[v] >= 0 && hops[w] == hops[v] + 1
  }

  ghost function FlowFrom(g: Graph, s: nat, hops: seq<int>, w: nat): nat -> real
    requires WellFormed(g) && Labels(g, s, hops)
  {
    (t: nat) => Flow(g, s, hops, w, t)
  }

  ghost function InnerFlow(g: Graph, s: nat, hops: seq<int>, v: nat): nat -> real
    requires WellFormed(g) && Labels(g, s, hops)
  {
    (t: nat) => if t == v then 0.0 else Flow(g, s, hops, v, t)
  }

  /** The dependency of the source on `v`. */
  ghost function Dep(g: Graph, s: nat, hops: seq<int>, v: nat): real
    requires WellFormed(g) && Labels(g, s, hops)
  {
    Sum(g.n, InnerFlow(g, s, hops, v))
  }

  ghost function Ratio(g: Graph, s: nat, hops: seq<int>, v: nat, w: nat): real
    requires WellFormed(g) && Labels(g, s, hops) && w < g.n && hops[w] >= 0
  {
    SigmaPositive(g, s, hops, w);
    Sigma(g, s, hops, v) / Sigma(g, s, hops, w)
  }

  /** What one successor contributes to the dependency on `v`. */
  ghost function Contribution(g: Graph, s: nat, hops: seq<int>, v: nat, w: nat): real
    requires WellFormed(g) && Labels(g, s, hops)
  {
    if Leads(g, hops, v, w) then Times(Ratio(g, s, hops, v, w), 1.0 + Dep(g, s, hops, w)) else 0.0
  }

  ghost function Contributions(g: Graph, s: nat, hops: seq<int>, v: nat): nat -> real
    requires WellFormed(g) && Labels(g, s, hops)
  {
    (w: nat) => Contribution(g, s, hops, v, w)
  }

  /** Flow through `v` and on through its successor `w` to `t`. */
  ghost function Onward(g: Graph, s: nat, hops: seq<int>, v: nat): (nat, nat) -> real
    requires WellFormed(g) && Labels(g, s, hops)
  {
    (w: nat, t: nat) => if Leads(g, hops, v, w) then Ratio(g, s, hops, v, w) * Flow(g, s, hops, w, t) else 0.0
  }

  /** Summed over all targets, the flow through `w` is its dependency plus itself. */
  lemma FlowTotal(g: Graph, s: nat, hops: seq<int>, w: nat)
    requires WellFormed(g) && Labels(g, s, hops) && w < g.n && hops[w] >= 0
    ensures Sum(g.n, FlowFrom(g, s, hops, w)) == 1.0 + Dep(g, s, hops, w)
  {
    OwnFlow(g, s, hops, w);
    SumPoint(g.n, InnerFlow(g, s, hops, w), FlowFrom(g, s, hops, w), w);
  }

  lemma OnwardPoint(g: Graph, s: nat, hops: seq<int>, v: nat, w: nat, t: nat)
    requires WellFormed(g) && Labels(g, s, hops) && Leads(g, hops, v, w)
    ensures RowPoint(Onward(g, s, hops, v), w, Ratio(g, s, hops, v, w), FlowFrom(g, s, hops, w), t)
  {
  }

  lemma RowScaled(g: Graph, s: nat, hops: seq<int>, v: nat, w: nat)
    requires WellFormed(g) && Labels(g, s, hops) && Leads(g, hops, v, w)
    ensures Sum(g.n, Row(Onward(g, s, hops, v), w)) == Times(Ratio(g, s, hops, v, w), Sum(g.n, FlowFrom(g, s, hops, w)))
  {
    var f, flow, c := Onward(g, s, hops, v), FlowFrom(g, s, hops, w), Ratio(g, s, hops, v, w);
    forall t: nat | t < g.n ensures RowPoint(f, w, c, flow, t) {
      OnwardPoint(g, s, hops, v, w, t);
    }
    RowScale(g.n, f, w, c, flow);
  }

  lemma NoRow(g: Graph, s: nat, hops: seq<int>, v: nat, w: nat)
    requires WellFormed(g) && Labels(g, s, hops) && !Leads(g, hops, v, w)
    ensures Sum(g.n, Row(Onward(g, s, hops, v), w)) == 0.0
  {
    SumZero(g.n, Row(Onward(g, s, hops, v), w));
  }

  lemma RowSum(g: Graph, s: nat, hops: seq<int>, v: nat, w: nat)
    requires WellFormed(g) && Labels(g, s, hops)
    ensures Sum(g.n, Row(Onward(g, s, hops, v), w)) == Contribution(g, s, hops, v, w)
  {
    if Leads(g, hops, v, w) {
      RowScaled(g, s, hops, v, w);
      FlowTotal(g, s, hops, w);
    } else {
      NoRow(g, s, hops, v, w);
    }
  }

  lemma Cancel(a: real, b: real, c: real, d: real)
    requires b > 0.0 && d > 0.0
    ensures (a / b) * (b * c / d) == (a / d) * c
  {
    assert b * c / d == b * (c / d);
    assert (a / b) * b == a;
    assert (a / b) * (b * (c / d)) == ((a / b) * b) * (c / d);
    assert a * (c / d) == (a / d) * c;
  }

  /** One successor's onward flow, as a multiple of its path count. */
  lemma OnwardTerm(g: Graph, s: nat, hops: seq<int>, v: nat, w: nat, t: nat, k: nat, c: real)
    requires WellFormed(g) && Labels(g, s, hops) && v < g.n && w < g.n && t < g.n
    requires hops[v] >= 0 && hops[t] == hops[v] + k + 1 && Sigma(g, s, hops, t) > 0.0
    requires c == Sigma(g, s, hops, v) / Sigma(g, s, hops, t)
    ensures ColumnPoint(Onward(g, s, hops, v), t, c, Over(g, v, CountFrom(g, k, t)), w)
  {
    if Adjacent(g, v, w) {
      assert LabelOk(g, s, hops, v);
      if Leads(g, hops, v, w) {
        SigmaPositive(g, s, hops, w);
        assert hops[t] - hops[w] == k;
        Cancel(Sigma(g, s, hops, v), Sigma(g, s, hops, w), Count(g, w, k, t), Sigma(g, s, hops, t));
      } else {
        TooShort(g, s, hops, w, k, t);
      }
    }
  }

  /** The flow into `t` over all first steps, as a multiple of the paths from `v` to `t`. */
  lemma ColumnSum(g: Graph, s: nat, hops: seq<int>, v: nat, t: nat, k: nat, c: real)
    requires WellFormed(g) && Labels(g, s, hops) && v < g.n && t < g.n
    requires hops[v] >= 0 && hops[t] == hops[v] + k + 1 && Sigma(g, s, hops, t) > 0.0
    requires c == Sigma(g, s, hops, v) / Sigma(g, s, hops, t)
    ensures Sum(g.n, Column(Onward(g, s, hops, v), t)) == Times(c, Sum(g.n, Over(g, v, CountFrom(g, k, t))))
  {
    var f, over := Onward(g, s, hops, v), Over(g, v, CountFrom(g, k, t));
    forall w: nat | w < g.n ensures ColumnPoint(f, t, c, over, w) {
      OnwardTerm(g, s, hops, v, w, t, k, c);
    }
    ColumnScale(g.n, f, t, c, over);
  }

  lemma RatioTimes(a: real, b: real, c: real, n: real)
    requires b > 0.0 && c == a / b
    ensures Times(c, n) == a * n / b
  {
  }

  lemma FlowBeyond(g: Graph, s: nat, hops: seq<int>, v: nat, t: nat, k: nat, c: real)
    requires WellFormed(g) && Labels(g, s, hops) && v < g.n && t < g.n
    requires hops[v] >= 0 && hops[t] == hops[v] + k + 1 && Sigma(g, s, hops, t) > 0.0
    requires c == Sigma(g, s, hops, v) / Sigma(g, s, hops, t)
    ensures Flow(g, s, hops, v, t) == Times(c, Count(g, v, k + 1, t))
  {
    RatioTimes(Sigma(g, s, hops, v), Sigma(g, s, hops, t), c, Count(g, v, k + 1, t));
    FlowRatio(g, s, hops, v, t, Sigma(g, s, hops, v) * Count(g, v, k + 1, t));
  }

  lemma ColumnBeyond(g: Graph, s: nat, hops: seq<int>, v: nat, t: nat)
    requires WellFormed(g) && Labels(g, s, hops) && v < g.n && t < g.n && 0 <= hops[v] < hops[t]
    ensures Sum(g.n, Column(Onward(g, s, hops, v), t)) == Flow(g, s, hops, v, t)
  {
    var k := hops[t] - hops[v] - 1;
    SigmaPositive(g, s, hops, t);
    var c := Sigma(g, s, hops, v) / Sigma(g, s, hops, t);
    ColumnSum(g, s, hops, v, t, k, c);
    CountFirstStep(g, v, k, t);
    FlowBeyond(g, s, hops, v, t, k, c);
  }

  lemma ColumnWithin(g: Graph, s: nat, hops: seq<int>, v: nat, t: nat)
    requires WellFormed(g) && Labels(g, s, hops) && v < g.n && t < g.n && hops[v] >= 0 && hops[t] <= hops[v]
    ensures Sum(g.n, Column(Onward(g, s, hops, v), t)) == 0.0
    ensures t != v ==> Flow(g, s, hops, v, t) == 0.0
  {
    SumZero(g.n, Column(Onward(g, s, hops, v), t));
    if t != v && hops[t] == hops[v] {
      CountZeroHops(g, v, t);
      SigmaPositive(g, s, hops, t);
    }
  }

  /** Brandes' recurrence: the dependency on `v` comes from the nodes one hop farther. */
  lemma DepRecurrence(g: Graph, s: nat, hops: seq<int>, v: nat)
    requires WellFormed(g) && Labels(g, s, hops) && v < g.n && hops[v] >= 0
    ensures Dep(g, s, hops, v) == Sum(g.n, Contributions(g, s, hops, v))
  {
    var f := Onward(g, s, hops, v);
    forall w: nat | w < g.n ensures Contributions(g, s, hops, v)(w) == Sum(g.n, Row(f, w)) {
      RowSum(g, s, hops, v, w);
    }
    forall t: nat | t < g.n ensures InnerFlow(g, s, hops, v)(t) == Sum(g.n, Column(f, t)) {
      if hops[v] < hops[t] {
        ColumnBeyond(g, s, hops, v, t);
      } else {
        ColumnWithin(g, s, hops, v, t);
      }
    }
    SumSwap(g.n, g.n, f, Contributions(g, s, hops, v), InnerFlow(g, s, hops, v));
  }

  /** The dependency is the sum of the shares, and nothing for an unreached node. */
  lemma DepIsShares(g: Graph, s: nat, hops: seq<int>, v: nat)
    requires WellFormed(g) && Labels(g, s, hops) && v < g.n
    ensures Sum(g.n, SharesOf(g, s, v)) == if s == v then 0.0 else Dep(g, s, hops, v)
    ensures hops[v] < 0 ==> Dep(g, s, hops, v) == 0.0
  {
    if s == v {
      SumZero(g.n, SharesOf(g, s, v));
    } else {
      forall t: nat | t < g.n ensures SharesOf(g, s, v)(t) == InnerFlow(g, s, hops, v)(t) {
        ShareIsFlow(g, s, hops, v, t);
      }
      SumCong(g.n, SharesOf(g, s, v), InnerFlow(g, s, hops, v));
    }
    if hops[v] < 0 {
      SumZero(g.n, InnerFlow(g, s, hops, v));
    }
  }
}
