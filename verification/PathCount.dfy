/** Sets of paths of a given length, and how their sizes add and multiply. */
module PathCount {
  import opened Sequences
  import opened Graphs
  import opened Sums

  type PathSet = set<seq<nat>>

  /** `family[u]` holds paths that end at `u`. */
  ghost predicate EndsAt(family: seq<PathSet>, u: nat)
    requires u < |family|
  {
    forall p :: p in family[u] ==> p != [] && p[|p| - 1] == u
  }

  ghost predicate IsFamily(family: seq<PathSet>) {
    forall u: nat :: u < |family| ==> EndsAt(family, u)
  }

  /** All one-hop extensions to `t` of paths that end below `m` at a member of `from`. */
  ghost function ExtendBelow(family: seq<PathSet>, from: seq<nat>, t: nat, m: nat): PathSet {
    set u, p | u in from && u < m && u < |family| && p in family[u] :: p + [t]
  }

  ghost function Extend(family: seq<PathSet>, from: seq<nat>, t: nat): PathSet {
    ExtendBelow(family, from, t, |family|)
  }

  ghost function Appended(paths: PathSet, t: nat): PathSet {
    set p | p in paths :: p + [t]
  }

  lemma {:induction false} AppendedSize(paths: PathSet, t: nat)
    ensures |Appended(paths, t)| == |paths|
  {
    if paths != {} {
      var p :| p in paths;
      var rest := paths - {p};
      AppendedSize(rest, t);
      forall q | q in rest ensures q + [t] != p + [t] {
        assert (q + [t])[..|q + [t]| - 1] == q && (p + [t])[..|p + [t]| - 1] == p;
      }
      assert Appended(paths, t) == Appended(rest, t) + {p + [t]};
      assert p + [t] !in Appended(rest, t);
    }
  }

  /** The number of paths available at each member of `from`. */
  ghost function Sizes(family: seq<PathSet>, from: seq<nat>): nat -> real {
    (u: nat) => if u < |family| && u in from then |family[u]| as real else 0.0
  }

  lemma {:induction false} ExtendBelowSize(family: seq<PathSet>, from: seq<nat>, t: nat, m: nat)
    requires IsFamily(family) && m <= |family|
    ensures |ExtendBelow(family, from, t, m)| as real == Sum(m, Sizes(family, from))
  {
    if m > 0 {
      var k := m - 1;
      ExtendBelowSize(family, from, t, k);
      var before, all := ExtendBelow(family, from, t, k), ExtendBelow(family, from, t, m);
      if k in from {
        var added := Appended(family[k], t);
        AppendedSize(family[k], t);
        assert all == before + added;
        assert EndsAt(family, k);
        forall x | x in before ensures x !in added {
          var u, p :| u in from && u < k && u < |family| && p in family[u] && x == p + [t];
          assert EndsAt(family, u);
          assert x[..|x| - 1] == p;
          forall q | q in family[k] ensures q + [t] != x {
            assert (q + [t])[..|q + [t]| - 1] == q;
          }
        }
        assert before !! added;
      } else {
        assert all == before;
      }
    }
  }

  lemma ExtendSize(family: seq<PathSet>, from: seq<nat>, t: nat)
    requires IsFamily(family)
    ensures |Extend(family, from, t)| as real == Sum(|family|, Sizes(family, from))
  {
    ExtendBelowSize(family, from, t, |family|);
  }

  // ------------------------------------------------------------------ paths by length

  /** Entry `t`: the paths of exactly `k` hops from `s` to `t`. */
  ghost function Paths(g: Graph, s: nat, k: nat): (r: seq<PathSet>)
    requires WellFormed(g)
    ensures |r| == g.n
  {
    if k == 0 then seq(g.n, t => if t == s then {[s]} else {})
    else
      var shorter := Paths(g, s, k - 1);
      seq(g.n, t requires 0 <= t < g.n => Extend(shorter, g.adj[t], t))
  }

  lemma PathExtended(g: Graph, q: seq<nat>, s: nat, u: nat, t: nat)
    requires WellFormed(g) && IsPath(g, q, s, u) && t < |g.adj| && u in g.adj[t]
    ensures IsPath(g, q + [t], s, t)
  {
    var p := q + [t];
    assert Adjacent(g, t, u);
    AdjacentFacts(g, t, u);
    forall i: nat | i + 1 < |p| ensures Hop(g, p, i) {
      if i + 1 < |q| { assert Hop(g, q, i); }
    }
  }

  lemma PathShortened(g: Graph, p: seq<nat>, s: nat, t: nat)
    requires WellFormed(g) && IsPath(g, p, s, t) && |p| > 1
    ensures var q, u := p[..|p| - 1], p[|p| - 2];
      IsPath(g, q, s, u) && Adjacent(g, t, u) && u < g.n && t < g.n && p == q + [t]
  {
    var q := p[..|p| - 1];
    assert Hop(g, p, |p| - 2);
    AdjacentFacts(g, p[|p| - 2], t);
    forall i: nat | i + 1 < |q| ensures Hop(g, q, i) {
      assert Hop(g, p, i);
    }
  }

  lemma {:induction false} PathsExact(g: Graph, s: nat, k: nat, t: nat, p: seq<nat>)
    requires WellFormed(g) && t < g.n
    ensures p in Paths(g, s, k)[t] <==> IsPath(g, p, s, t) && |p| == k + 1
  {
    if k == 0 {
      assert p in Paths(g, s, 0)[t] <==> t == s && p == [s];
    } else {
      var shorter := Paths(g, s, k - 1);
      if p in Paths(g, s, k)[t] {
        var u, q :| u in g.adj[t] && u < g.n && q in shorter[u] && p == q + [t];
        PathsExact(g, s, k - 1, u, q);
        PathExtended(g, q, s, u, t);
      }
      if IsPath(g, p, s, t) && |p| == k + 1 {
        var u, q := p[k - 1], p[..k];
        PathShortened(g, p, s, t);
        PathsExact(g, s, k - 1, u, q);
      }
    }
  }

  lemma PathsFamily(g: Graph, s: nat, k: nat)
    requires WellFormed(g)
    ensures IsFamily(Paths(g, s, k))
  {
    forall u: nat | u < g.n ensures EndsAt(Paths(g, s, k), u) {
      forall p | p in Paths(g, s, k)[u] ensures p != [] && p[|p| - 1] == u {
        PathsExact(g, s, k, u, p);
      }
    }
  }

  /** How many paths of `k` hops lead from `s` to `t`. */
  ghost function Count(g: Graph, s: nat, k: nat, t: nat): real
    requires WellFormed(g)
  {
    if t < g.n then |Paths(g, s, k)[t]| as real else 0.0
  }

  /** The terms of a sum over the neighbours of `t`. */
  ghost function Over(g: Graph, t: nat, f: nat -> real): nat -> real {
    (u: nat) => if Adjacent(g, t, u) then f(u) else 0.0
  }

  ghost function CountAt(g: Graph, s: nat, k: nat): nat -> real
    requires WellFormed(g)
  {
    (t: nat) => Count(g, s, k, t)
  }

  /** Last-step recurrence. */
  lemma CountLastStep(g: Graph, s: nat, k: nat, t: nat)
    requires WellFormed(g) && t < g.n
    ensures Count(g, s, k + 1, t) == Sum(g.n, Over(g, t, CountAt(g, s, k)))
  {
    var shorter := Paths(g, s, k);
    PathsFamily(g, s, k);
    ExtendSize(shorter, g.adj[t], t);
    SumCong(g.n, Sizes(shorter, g.adj[t]), Over(g, t, CountAt(g, s, k)));
  }

  lemma CountZeroHops(g: Graph, s: nat, t: nat)
    requires WellFormed(g) && t < g.n
    ensures Count(g, s, 0, t) == if t == s then 1.0 else 0.0
  {
    if t == s {
      assert Paths(g, s, 0)[t] == {[s]};
    } else {
      assert Paths(g, s, 0)[t] == {};
    }
  }

  /** The number of `k`-hop paths to `t` as a function of their source. */
  ghost function CountFrom(g: Graph, k: nat, t: nat): nat -> real
    requires WellFormed(g)
  {
    (w: nat) => Count(g, w, k, t)
  }

  /** First-step recurrence. */
  lemma {:induction false} CountFirstStep(g: Graph, v: nat, k: nat, t: nat)
    requires WellFormed(g) && v < g.n && t < g.n
    ensures Count(g, v, k + 1, t) == Sum(g.n, Over(g, v, CountFrom(g, k, t)))
    decreases k
  {
    CountLastStep(g, v, k, t);
    if k == 0 {
      OneHop(g, v, t);
    } else {
      ExchangeSteps(g, v, k, t);
    }
  }

  ghost function Only(v: nat, x: real): nat -> real { (u: nat) => if u == v then x else 0.0 }

  lemma {:induction false} SumOnly(n: nat, v: nat, x: real)
    ensures Sum(n, Only(v, x)) == if v < n then x else 0.0
  {
    if n > 0 { SumOnly(n - 1, v, x); }
  }

  lemma OneHop(g: Graph, v: nat, t: nat)
    requires WellFormed(g) && v < g.n && t < g.n
    ensures Sum(g.n, Over(g, t, CountAt(g, v, 0))) == Sum(g.n, Over(g, v, CountFrom(g, 0, t)))
  {
    var x := if Adjacent(g, v, t) then 1.0 else 0.0;
    if Adjacent(g, v, t) { AdjacentFacts(g, v, t); }
    if Adjacent(g, t, v) { AdjacentFacts(g, t, v); }
    forall u: nat | u < g.n
      ensures Over(g, t, CountAt(g, v, 0))(u) == Only(v, x)(u)
      ensures Over(g, v, CountFrom(g, 0, t))(u) == Only(t, x)(u)
    {
      CountZeroHops(g, v, u);
      CountZeroHops(g, u, t);
    }
    SumCong(g.n, Over(g, t, CountAt(g, v, 0)), Only(v, x));
    SumCong(g.n, Over(g, v, CountFrom(g, 0, t)), Only(t, x));
    SumOnly(g.n, v, x);
    SumOnly(g.n, t, x);
  }

  /** Paths split at both ends: first hop to `w`, last hop from `u`. */
  ghost function BothEnds(g: Graph, v: nat, k: nat, t: nat): (nat, nat) -> real
    requires WellFormed(g)
  {
    (u: nat, w: nat) => if Adjacent(g, t, u) && Adjacent(g, v, w) then Count(g, w, k, u) else 0.0
  }

  lemma ExchangeSteps(g: Graph, v: nat, k: nat, t: nat)
    requires WellFormed(g) && v < g.n && t < g.n && k > 0
    ensures Sum(g.n, Over(g, t, CountAt(g, v, k))) == Sum(g.n, Over(g, v, CountFrom(g, k, t)))
    decreases k, 0
  {
    var rows, columns := Over(g, t, CountAt(g, v, k)), Over(g, v, CountFrom(g, k, t));
    var f := BothEnds(g, v, k - 1, t);
    forall u: nat | u < g.n ensures rows(u) == Sum(g.n, Row(f, u)) {
      if Adjacent(g, t, u) {
        CountFirstStep(g, v, k - 1, u);
        SumCong(g.n, Row(f, u), Over(g, v, CountFrom(g, k - 1, u)));
      } else {
        SumZero(g.n, Row(f, u));
      }
    }
    forall w: nat | w < g.n ensures columns(w) == Sum(g.n, Column(f, w)) {
      if Adjacent(g, v, w) {
        CountLastStep(g, w, k - 1, t);
        SumCong(g.n, Column(f, w), Over(g, t, CountAt(g, w, k - 1)));
      } else {
        SumZero(g.n, Column(f, w));
      }
    }
    SumSwap(g.n, g.n, f, rows, columns);
  }

  // ------------------------------------------------------------------ paths through a node

  /** Entry `t`: the `k`-hop paths from `s` to `t` whose node after `i` hops is `v`. */
  ghost function Via(g: Graph, s: nat, v: nat, i: nat, k: nat): (r: seq<PathSet>)
    requires WellFormed(g)
    ensures |r| == g.n
  {
    seq(g.n, t requires 0 <= t < g.n => set p | p in Paths(g, s, k)[t] && i < |p| && p[i] == v)
  }

  lemma ViaFamily(g: Graph, s: nat, v: nat, i: nat, k: nat)
    requires WellFormed(g)
    ensures IsFamily(Via(g, s, v, i, k))
  {
    PathsFamily(g, s, k);
    forall u: nat | u < g.n ensures EndsAt(Via(g, s, v, i, k), u) {
      assert EndsAt(Paths(g, s, k), u);
    }
  }

  lemma ViaStep(g: Graph, s: nat, v: nat, i: nat, k: nat, t: nat)
    requires WellFormed(g) && i <= k && t < g.n
    ensures Via(g, s, v, i, k + 1)[t] == Extend(Via(g, s, v, i, k), g.adj[t], t)
  {
    var shorter := Paths(g, s, k);
    assert Paths(g, s, k + 1)[t] == Extend(shorter, g.adj[t], t);
    forall p ensures p in Via(g, s, v, i, k + 1)[t] <==> p in Extend(Via(g, s, v, i, k), g.adj[t], t) {
      if p in Via(g, s, v, i, k + 1)[t] {
        var u, q :| u in g.adj[t] && u < g.n && q in shorter[u] && p == q + [t];
        PathsExact(g, s, k, u, q);
        assert q in Via(g, s, v, i, k)[u];
      }
      if p in Extend(Via(g, s, v, i, k), g.adj[t], t) {
        var u, q :| u in g.adj[t] && u < g.n && q in Via(g, s, v, i, k)[u] && p == q + [t];
        PathsExact(g, s, k, u, q);
      }
    }
  }

  lemma ViaEnd(g: Graph, s: nat, v: nat, i: nat, t: nat)
    requires WellFormed(g) && v < g.n && t < g.n
    ensures |Via(g, s, v, i, i)[t]| as real == if t == v then Count(g, s, i, v) else 0.0
  {
    forall p | p in Paths(g, s, i)[t] ensures i < |p| && p[i] == t {
      PathsExact(g, s, i, t, p);
    }
    if t == v {
      assert Via(g, s, v, i, i)[t] == Paths(g, s, i)[t];
    } else {
      assert Via(g, s, v, i, i)[t] == {};
    }
  }

  lemma ViaLastStep(g: Graph, s: nat, v: nat, i: nat, k: nat, t: nat)
    requires WellFormed(g) && i <= k && t < g.n
    ensures |Via(g, s, v, i, k + 1)[t]| as real == Sum(g.n, Sizes(Via(g, s, v, i, k), g.adj[t]))
  {
    ViaStep(g, s, v, i, k, t);
    ViaFamily(g, s, v, i, k);
    ExtendSize(Via(g, s, v, i, k), g.adj[t], t);
  }

  /** A way there of `i` hops, then a way on of `j` hops. */
  ghost predicate Splits(g: Graph, family: seq<PathSet>, c: real, f: nat -> real, u: nat)
    requires u < |family|
  {
    |family[u]| as real == c * f(u)
  }

  lemma ScaledTerm(g: Graph, family: seq<PathSet>, t: nat, u: nat, c: real, f: nat -> real)
    requires WellFormed(g) && t < g.n && u < g.n && |family| == g.n && Splits(g, family, c, f, u)
    ensures Sizes(family, g.adj[t])(u) == c * Over(g, t, f)(u)
  {
  }

  /** Extending a family that is `c` times `f` keeps the factor. */
  lemma ScaledSum(g: Graph, family: seq<PathSet>, t: nat, c: real, f: nat -> real)
    requires WellFormed(g) && t < g.n && |family| == g.n
    requires forall u: nat :: u < g.n ==> Splits(g, family, c, f, u)
    ensures Sum(g.n, Sizes(family, g.adj[t])) == c * Sum(g.n, Over(g, t, f))
  {
    forall u: nat | u < g.n ensures Sizes(family, g.adj[t])(u) == c * Over(g, t, f)(u) {
      assert Splits(g, family, c, f, u);
      ScaledTerm(g, family, t, u, c, f);
    }
    SumScale(g.n, c, Over(g, t, f), Sizes(family, g.adj[t]));
  }

  lemma SplitsStep(g: Graph, s: nat, v: nat, i: nat, k: nat, j: nat, t: nat, c: real)
    requires WellFormed(g) && i <= k && t < g.n
    requires forall u: nat :: u < g.n ==> Splits(g, Via(g, s, v, i, k), c, CountAt(g, v, j), u)
    ensures Splits(g, Via(g, s, v, i, k + 1), c, CountAt(g, v, j + 1), t)
  {
    ScaledSum(g, Via(g, s, v, i, k), t, c, CountAt(g, v, j));
    ViaLastStep(g, s, v, i, k, t);
    CountLastStep(g, v, j, t);
  }

  lemma SplitsStart(g: Graph, s: nat, v: nat, i: nat, t: nat)
    requires WellFormed(g) && v < g.n && t < g.n
    ensures Splits(g, Via(g, s, v, i, i), Count(g, s, i, v), CountAt(g, v, 0), t)
  {
    ViaEnd(g, s, v, i, t);
    CountZeroHops(g, v, t);
  }

  /** Paths through `v` after `i` hops: choose the way there, then the way on. */
  lemma {:induction false} ViaSplits(g: Graph, s: nat, v: nat, i: nat, j: nat, t: nat)
    requires WellFormed(g) && v < g.n && t < g.n
    ensures Splits(g, Via(g, s, v, i, i + j), Count(g, s, i, v), CountAt(g, v, j), t)
    decreases j
  {
    if j == 0 {
      SplitsStart(g, s, v, i, t);
    } else {
      var c, family, f := Count(g, s, i, v), Via(g, s, v, i, i + (j - 1)), CountAt(g, v, j - 1);
      forall u: nat | u < g.n ensures Splits(g, family, c, f, u) {
        ViaSplits(g, s, v, i, j - 1, u);
      }
      SplitsStep(g, s, v, i, i + (j - 1), j - 1, t, c);
    }
  }

  lemma ViaCount(g: Graph, s: nat, v: nat, i: nat, j: nat, t: nat)
    requires WellFormed(g) && v < g.n && t < g.n
    ensures |Via(g, s, v, i, i + j)[t]| as real == Count(g, s, i, v) * Count(g, v, j, t)
  {
    ViaSplits(g, s, v, i, j, t);
  }
}
