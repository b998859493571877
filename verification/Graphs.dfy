/** The undirected asset graph, its paths and its hop distances. */
module Graphs {
  import opened Sequences

  /** Node `v`'s neighbours are `adj[v]`, in ascending order. */
  datatype Graph = Graph(n: nat, adj: seq<seq<nat>>)

  /** An upper bound every `usize` graph meets; hop counts stay far below `u64::MAX`. */
  const USIZE_LIMIT: nat := 0x8000_0000_0000_0000

  ghost predicate Adjacent(g: Graph, u: nat, v: nat) {
    u < |g.adj| && v in g.adj[u]
  }

  ghost predicate NeighboursOk(g: Graph, u: nat)
    requires u < |g.adj|
  {
    && Increasing(g.adj[u])
    && forall v :: v in g.adj[u] ==> v < g.n && v != u && Adjacent(g, v, u)
  }

  ghost predicate WellFormed(g: Graph) {
    && |g.adj| == g.n < USIZE_LIMIT
    && forall u: nat :: u < g.n ==> NeighboursOk(g, u)
  }

  lemma AdjacentFacts(g: Graph, u: nat, v: nat)
    requires WellFormed(g) && Adjacent(g, u, v)
    ensures u < g.n && v < g.n && u != v && Adjacent(g, v, u)
  {
    assert NeighboursOk(g, u);
  }

  // ------------------------------------------------------------------ construction

  /** The edge list joins `a` and `b`: listed either way round, in range, not a loop. */
  ghost predicate Joins(n: nat, edges: seq<(nat, nat)>, a: nat, b: nat) {
    a < n && b < n && a != b && ((a, b) in edges || (b, a) in edges)
  }

  ghost predicate RowIs(n: nat, edges: seq<(nat, nat)>, row: seq<nat>, a: nat) {
    forall b: nat :: b in row <==> Joins(n, edges, a, b)
  }

  /** Builds from a flat edge list; self-loops and out-of-range endpoints are dropped. */
  method FromEdges(n: nat, edges: seq<(nat, nat)>) returns (g: Graph)
    requires n < USIZE_LIMIT
    ensures WellFormed(g) && g.n == n
    ensures forall a: nat, b: nat :: Adjacent(g, a, b) <==> Joins(n, edges, a, b)
  {
    var adj: seq<seq<nat>> := seq(n, _ => []);
    for i := 0 to |edges|
      invariant |adj| == n
      invariant forall a: nat :: a < n ==> RowIs(n, edges[..i], adj[a], a)
    {
      var (a, b) := edges[i];
      ghost var before := adj;
      if a < n && b < n && a != b {
        adj := adj[a := adj[a] + [b]];
        adj := adj[b := adj[b] + [a]];
      }
      forall c: nat | c < n ensures RowIs(n, edges[..i + 1], adj[c], c) {
        assert RowIs(n, edges[..i], before[c], c);
        assert edges[..i + 1] == edges[..i] + [(a, b)];
      }
    }
    assert edges[..|edges|] == edges;
    for i := 0 to n
      invariant |adj| == n
      invariant forall a: nat :: a < n ==> RowIs(n, edges, adj[a], a)
      invariant forall a: nat :: a < i ==> Increasing(adj[a])
    {
      ghost var before := adj;
      adj := adj[i := SortDedup(adj[i])];
      forall a: nat | a < n ensures RowIs(n, edges, adj[a], a) {
        assert RowIs(n, edges, before[a], a);
      }
    }
    g := Graph(n, adj);
    forall a: nat, b: nat ensures Adjacent(g, a, b) <==> Joins(n, edges, a, b) {
      if a < n {
        assert RowIs(n, edges, adj[a], a);
      }
    }
    forall u: nat | u < g.n ensures NeighboursOk(g, u) {
      forall v | v in g.adj[u] ensures v < g.n && v != u && Adjacent(g, v, u) {
        assert Adjacent(g, u, v);
        assert Joins(n, edges, v, u);
      }
    }
  }

  // ------------------------------------------------------------------ paths

  ghost predicate Hop(g: Graph, p: seq<nat>, i: nat)
    requires i + 1 < |p|
  {
    Adjacent(g, p[i], p[i + 1])
  }

  ghost predicate IsPath(g: Graph, p: seq<nat>, s: nat, t: nat) {
    && p != [] && p[0] == s && p[|p| - 1] == t
    && forall i: nat :: i + 1 < |p| ==> Hop(g, p, i)
  }

  ghost predicate Reachable(g: Graph, s: nat, t: nat) {
    exists p :: IsPath(g, p, s, t)
  }

  /** `d` is the least number of hops from `s` to `t`. */
  ghost predicate IsDistance(g: Graph, s: nat, t: nat, d: nat) {
    && (exists p :: IsPath(g, p, s, t) && |p| == d + 1)
    && (forall p :: IsPath(g, p, s, t) ==> d + 1 <= |p|)
  }

  /** What one node's label says locally; a negative label means unreached. */
  ghost predicate LabelOk(g: Graph, s: nat, hops: seq<int>, v: nat)
    requires |hops| == g.n == |g.adj| && v < g.n
  {
    && (hops[v] == 0 <==> v == s)
    && (hops[v] > 0 ==> exists u: nat :: Adjacent(g, u, v) && u < g.n && hops[u] == hops[v] - 1)
    && (hops[v] >= 0 ==> forall w :: w in g.adj[v] ==> w < g.n && 0 <= hops[w] <= hops[v] + 1)
  }

  /** Labels that are locally consistent everywhere. */
  ghost predicate Labels(g: Graph, s: nat, hops: seq<int>) {
    && |hops| == g.n == |g.adj| && s < g.n
    && forall v: nat :: v < g.n ==> LabelOk(g, s, hops, v)
  }

  lemma {:induction false} LabelsBoundPath(g: Graph, s: nat, hops: seq<int>, p: seq<nat>, t: nat)
    requires Labels(g, s, hops) && IsPath(g, p, s, t)
    ensures t < g.n && 0 <= hops[t] < |p|
    decreases |p|
  {
    if |p| == 1 {
      assert LabelOk(g, s, hops, s);
    } else {
      var q := p[..|p| - 1];
      forall i: nat | i + 1 < |q| ensures Hop(g, q, i) {
        assert Hop(g, p, i);
      }
      LabelsBoundPath(g, s, hops, q, q[|q| - 1]);
      assert Hop(g, p, |p| - 2);
      assert LabelOk(g, s, hops, q[|q| - 1]);
    }
  }

  lemma {:induction false} LabelsGivePath(g: Graph, s: nat, hops: seq<int>, t: nat) returns (p: seq<nat>)
    requires Labels(g, s, hops) && t < g.n && 0 <= hops[t]
    ensures IsPath(g, p, s, t) && |p| == hops[t] + 1
    decreases hops[t]
  {
    assert LabelOk(g, s, hops, t);
    if hops[t] == 0 {
      p := [s];
    } else {
      var u: nat :| Adjacent(g, u, t) && u < g.n && hops[u] == hops[t] - 1;
      var q := LabelsGivePath(g, s, hops, u);
      p := q + [t];
      forall i: nat | i + 1 < |p| ensures Hop(g, p, i) {
        if i + 1 < |q| {
          assert Hop(g, q, i);
        }
      }
    }
  }

  /** Locally consistent labels are the hop distances. */
  lemma LabelsAreDistances(g: Graph, s: nat, hops: seq<int>, t: nat)
    requires Labels(g, s, hops) && t < g.n
    ensures if hops[t] >= 0 then IsDistance(g, s, t, hops[t]) else !Reachable(g, s, t)
  {
    if hops[t] >= 0 {
      var p := LabelsGivePath(g, s, hops, t);
    }
    forall p | IsPath(g, p, s, t) ensures 0 <= hops[t] < |p| {
      LabelsBoundPath(g, s, hops, p, t);
    }
  }
}
