/** Betweenness centrality by Brandes' algorithm, over exact reals. */
module Brandes {
  import opened Sequences
  import opened Graphs
  import opened Sums
  import opened PathCount
  import opened Dependency

  // ------------------------------------------------------------------ the counting search

  /** Edge `u`-`w` was looked at: `u` is expanded, or is being expanded and `w` is among its first `j` neighbours. */
  ghost predicate Scanned(g: Graph, queue: seq<nat>, head: nat, j: nat, u: nat, w: nat) {
    Adjacent(g, u, w) && head <= |queue|
    && (u in queue[..head] || (head < |queue| && u == queue[head] && j <= |g.adj[u]| && w in g.adj[u][..j]))
  }

  /** The sigma of the recorded predecessors. */
  ghost function Picked(preds: seq<nat>, sigma: seq<real>): nat -> real {
    (u: nat) => if u < |sigma| && u in preds then sigma[u] else 0.0
  }

  datatype State = State(dist: seq<int>, sigma: seq<real>, preds: seq<seq<nat>>, queue: seq<nat>)

  ghost predicate Sized(g: Graph, st: State) {
    |st.dist| == |st.sigma| == |st.preds| == g.n == |g.adj|
  }

  ghost predicate QueueOk(g: Graph, st: State, head: nat)
    requires Sized(g, st)
  {
    && head <= |st.queue| && AllDistinct(st.queue) && AllBelow(st.queue, g.n)
    && (forall v: nat :: v < g.n ==> (v in st.queue <==> st.dist[v] >= 0))
    && (forall i, j :: 0 <= i < j < |st.queue| ==> st.dist[st.queue[i]] <= st.dist[st.queue[j]])
    && (forall i :: 0 <= i < |st.queue| && head < |st.queue| ==> st.dist[st.queue[i]] <= st.dist[st.queue[head]] + 1)
  }

  /** One node's predecessors and count against the edges scanned so far. */
  ghost predicate NodeTally(g: Graph, s: nat, st: State, head: nat, j: nat, w: nat)
    requires Sized(g, st) && w < g.n
  {
    && (st.dist[w] == 0 <==> w == s)
    && AllDistinct(st.preds[w])
    && (forall u: nat :: u in st.preds[w] <==>
          u < g.n && Scanned(g, st.queue, head, j, u, w) && st.dist[w] == st.dist[u] + 1)
    && st.sigma[w] == (if w == s then 1.0 else 0.0) + Sum(g.n, Picked(st.preds[w], st.sigma))
  }

  ghost predicate Reached(g: Graph, st: State, w: nat)
    requires Sized(g, st) && w < g.n
  {
    st.dist[w] > 0 ==> st.preds[w] != []
  }

  /** Scanned edges never lead more than one hop farther. */
  ghost predicate EdgeOk(g: Graph, st: State, head: nat, j: nat, u: nat, w: nat)
    requires Sized(g, st)
  {
    u < g.n && w < g.n && Scanned(g, st.queue, head, j, u, w) ==> 0 <= st.dist[w] <= st.dist[u] + 1
  }

  ghost predicate Inv(g: Graph, s: nat, st: State, head: nat, j: nat) {
    && WellFormed(g) && s < g.n && Sized(g, st) && QueueOk(g, st, head)
    && (forall w: nat :: w < g.n ==> NodeTally(g, s, st, head, j, w))
    && (forall w: nat :: w < g.n ==> Reached(g, st, w))
    && (forall u: nat, w: nat :: EdgeOk(g, st, head, j, u, w))
  }

  /** Discovering `w` from `v`. */
  function Discover(st: State, v: nat, w: nat): State
    requires v < |st.dist| && w < |st.dist|
  {
    if st.dist[w] < 0 then st.(dist := st.dist[w := st.dist[v] + 1], queue := st.queue + [w]) else st
  }

  /** Counting the shortest paths that reach `w` over `v`. */
  function Tally(st: State, v: nat, w: nat): State
    requires v < |st.sigma| && w < |st.sigma| && |st.sigma| == |st.preds|
  {
    st.(sigma := st.sigma[w := st.sigma[w] + st.sigma[v]], preds := st.preds[w := st.preds[w] + [v]])
  }

  function StepEdge(st: State, v: nat, w: nat): State
    requires v < |st.dist| == |st.sigma| == |st.preds| && w < |st.dist|
  {
    var d := Discover(st, v, w);
    if d.dist[w] == d.dist[v] + 1 then Tally(d, v, w) else d
  }

  lemma ScannedMore(g: Graph, queue: seq<nat>, head: nat, j: nat, u: nat, w: nat)
    requires WellFormed(g) && head < |queue| && queue[head] < g.n && j < |g.adj[queue[head]]|
    ensures Scanned(g, queue, head, j + 1, u, w)
       <==> Scanned(g, queue, head, j, u, w) || (u == queue[head] && w == g.adj[u][j])
  {
    var v := queue[head];
    assert g.adj[v][..j + 1] == g.adj[v][..j] + [g.adj[v][j]];
    if u == v && w == g.adj[v][j] {
      assert Adjacent(g, u, w);
    }
  }

  lemma ScannedSameQueue(g: Graph, queue: seq<nat>, more: seq<nat>, head: nat, j: nat, u: nat, w: nat)
    requires head < |queue|
    ensures Scanned(g, queue + more, head, j, u, w) <==> Scanned(g, queue, head, j, u, w)
  {
    assert (queue + more)[..head] == queue[..head];
  }

  /** Scanned sources are no deeper than the node being expanded. */
  lemma ScannedDepth(g: Graph, s: nat, st: State, head: nat, j: nat, u: nat, w: nat)
    requires Inv(g, s, st, head, j) && head < |st.queue| && Scanned(g, st.queue, head, j, u, w)
    ensures u < g.n && w < g.n && u in st.queue && 0 <= st.dist[u] <= st.dist[st.queue[head]] && 0 <= st.dist[w]
  {
    AdjacentFacts(g, u, w);
    assert EdgeOk(g, st, head, j, u, w);
    if u in st.queue[..head] {
      var i :| 0 <= i < head && st.queue[i] == u;
    }
  }

  /** First half of a step: an unseen neighbour gets its distance and its place in the queue. */
  lemma DiscoverKeeps(g: Graph, s: nat, st: State, head: nat, j: nat, w: nat)
    requires Inv(g, s, st, head, j) && head < |st.queue| && w < g.n && st.dist[w] < 0
    ensures QueueOk(g, Discover(st, st.queue[head], w), head)
  {
    var v := st.queue[head];
    var d := Discover(st, v, w);
    assert w !in st.queue;
    assert NodeTally(g, s, st, head, j, w);
    forall i, k | 0 <= i < k < |d.queue| ensures d.queue[i] != d.queue[k] && d.dist[d.queue[i]] <= d.dist[d.queue[k]] {
      assert d.queue[i] == st.queue[i];
      assert st.queue[i] in st.queue;
      if k < |st.queue| {
        assert st.queue[k] in st.queue;
      }
    }
    forall i | 0 <= i < |d.queue| ensures d.dist[d.queue[i]] <= d.dist[d.queue[head]] + 1 {
      assert d.queue[head] == v && v in st.queue;
      if i < |st.queue| {
        assert d.queue[i] == st.queue[i] && st.queue[i] in st.queue;
      }
    }
  }

  /** An undiscovered node has been counted nowhere. */
  lemma Untouched(g: Graph, s: nat, st: State, head: nat, j: nat, w: nat)
    requires Inv(g, s, st, head, j) && head < |st.queue| && w < g.n && st.dist[w] < 0
    ensures w != s && st.preds[w] == [] && w !in st.queue
    ensures forall u: nat :: !Scanned(g, st.queue, head, j, u, w)
  {
    assert NodeTally(g, s, st, head, j, w);
    assert st.preds[w] != [] ==> st.preds[w][0] in st.preds[w];
    forall u: nat ensures !Scanned(g, st.queue, head, j, u, w) {
      if Scanned(g, st.queue, head, j, u, w) {
        ScannedDepth(g, s, st, head, j, u, w);
      }
    }
  }

  lemma DiscoverTally(g: Graph, s: nat, st: State, head: nat, j: nat, w: nat, x: nat)
    requires Inv(g, s, st, head, j) && head < |st.queue| && w < g.n && st.dist[w] < 0 && x < g.n
    ensures NodeTally(g, s, Discover(st, st.queue[head], w), head, j, x)
  {
    var v := st.queue[head];
    var d := Discover(st, v, w);
    Untouched(g, s, st, head, j, w);
    assert v in st.queue;
    assert NodeTally(g, s, st, head, j, x);
    forall u: nat
      ensures u in d.preds[x] <==> u < g.n && Scanned(g, d.queue, head, j, u, x) && d.dist[x] == d.dist[u] + 1
    {
      ScannedSameQueue(g, st.queue, [w], head, j, u, x);
      if Scanned(g, st.queue, head, j, u, x) {
        ScannedDepth(g, s, st, head, j, u, x);
      }
    }
  }

  lemma DiscoverEdge(g: Graph, s: nat, st: State, head: nat, j: nat, w: nat, u: nat, x: nat)
    requires Inv(g, s, st, head, j) && head < |st.queue| && w < g.n && st.dist[w] < 0
    ensures EdgeOk(g, Discover(st, st.queue[head], w), head, j, u, x)
  {
    ScannedSameQueue(g, st.queue, [w], head, j, u, x);
    Untouched(g, s, st, head, j, w);
    if Scanned(g, st.queue, head, j, u, x) {
      ScannedDepth(g, s, st, head, j, u, x);
      assert EdgeOk(g, st, head, j, u, x);
    }
  }

  /** The state between the two halves of a step. */
  ghost predicate MidInv(g: Graph, s: nat, st: State, head: nat, j: nat, w: nat) {
    && WellFormed(g) && s < g.n && Sized(g, st) && QueueOk(g, st, head) && w < g.n
    && head < |st.queue| && st.queue[head] < g.n && j < |g.adj[st.queue[head]]| && w == g.adj[st.queue[head]][j]
    && 0 <= st.dist[st.queue[head]] && 0 <= st.dist[w] <= st.dist[st.queue[head]] + 1
    && (forall x: nat :: x < g.n ==> NodeTally(g, s, st, head, j, x))
    && (forall x: nat :: x < g.n && x != w ==> Reached(g, st, x))
    && (st.dist[w] != st.dist[st.queue[head]] + 1 ==> Reached(g, st, w))
    && (forall u: nat, x: nat :: EdgeOk(g, st, head, j, u, x))
  }

  lemma DiscoverStep(g: Graph, s: nat, st: State, head: nat, j: nat)
    requires Inv(g, s, st, head, j) && head < |st.queue| && st.queue[head] < g.n && j < |g.adj[st.queue[head]]|
    ensures var w := g.adj[st.queue[head]][j];
      w < g.n && MidInv(g, s, Discover(st, st.queue[head], w), head, j, w)
  {
    var v := st.queue[head];
    var w := g.adj[v][j];
    assert v in st.queue;
    assert Adjacent(g, v, w);
    AdjacentFacts(g, v, w);
    if st.dist[w] < 0 {
      var d := Discover(st, v, w);
      DiscoverKeeps(g, s, st, head, j, w);
      forall x: nat | x < g.n ensures NodeTally(g, s, d, head, j, x) {
        DiscoverTally(g, s, st, head, j, w, x);
      }
      forall x: nat | x < g.n && x != w ensures Reached(g, d, x) {
        assert Reached(g, st, x);
      }
      forall u: nat, x: nat ensures EdgeOk(g, d, head, j, u, x) {
        DiscoverEdge(g, s, st, head, j, w, u, x);
      }
    } else {
      assert w in st.queue;
      var i :| 0 <= i < |st.queue| && st.queue[i] == w;
    }
  }

  /** The node being expanded can only be recorded for strictly deeper nodes, so its count is final. */
  lemma TallyFresh(g: Graph, s: nat, st: State, head: nat, j: nat, w: nat, x: nat)
    requires MidInv(g, s, st, head, j, w) && st.dist[w] == st.dist[st.queue[head]] + 1 && x < g.n
    ensures w !in st.preds[x] && (x == w ==> st.queue[head] !in st.preds[x])
  {
    var v := st.queue[head];
    assert NodeTally(g, s, st, head, j, x);
    assert forall i :: 0 <= i < head ==> st.queue[i] != w;
    NotYetScanned(g, st, head, j);
  }

  lemma NotYetScanned(g: Graph, st: State, head: nat, j: nat)
    requires WellFormed(g) && Sized(g, st) && QueueOk(g, st, head) && head < |st.queue| && j < |g.adj[st.queue[head]]|
    ensures !Scanned(g, st.queue, head, j, st.queue[head], g.adj[st.queue[head]][j])
  {
    var v := st.queue[head];
    assert NeighboursOk(g, v);
    assert forall i :: 0 <= i < head ==> st.queue[i] != v;
    PrefixExcludes(g.adj[v], j);
  }

  lemma PrefixExcludes(ws: seq<nat>, j: nat)
    requires Increasing(ws) && j < |ws|
    ensures ws[j] !in ws[..j]
  {
  }

  lemma TallySigma(g: Graph, st: State, v: nat, w: nat, x: nat)
    requires Sized(g, st) && v < g.n && w < g.n && x < g.n && v != w
    requires w !in st.preds[x] && (x == w ==> v !in st.preds[w])
    ensures var t := Tally(st, v, w);
      Sum(g.n, Picked(t.preds[x], t.sigma)) == Sum(g.n, Picked(st.preds[x], st.sigma)) + (if x == w then st.sigma[v] else 0.0)
  {
    var t := Tally(st, v, w);
    var before, after := Picked(st.preds[x], st.sigma), Picked(t.preds[x], t.sigma);
    if x == w {
      SumPoint(g.n, before, after, v);
    } else {
      SumCong(g.n, before, after);
    }
  }

  lemma TallyNode(g: Graph, s: nat, st: State, head: nat, j: nat, w: nat, x: nat)
    requires MidInv(g, s, st, head, j, w) && st.dist[w] == st.dist[st.queue[head]] + 1 && x < g.n
    ensures NodeTally(g, s, Tally(st, st.queue[head], w), head, j + 1, x)
  {
    var v := st.queue[head];
    var t := Tally(st, v, w);
    TallyFresh(g, s, st, head, j, w, x);
    TallySigma(g, st, v, w, x);
    assert NodeTally(g, s, st, head, j, x);
    forall u: nat
      ensures u in t.preds[x] <==> u < g.n && Scanned(g, t.queue, head, j + 1, u, x) && t.dist[x] == t.dist[u] + 1
    {
      ScannedMore(g, st.queue, head, j, u, x);
    }
  }

  lemma SkipNode(g: Graph, s: nat, st: State, head: nat, j: nat, w: nat, x: nat)
    requires MidInv(g, s, st, head, j, w) && st.dist[w] != st.dist[st.queue[head]] + 1 && x < g.n
    ensures NodeTally(g, s, st, head, j + 1, x)
  {
    assert NodeTally(g, s, st, head, j, x);
    forall u: nat
      ensures u in st.preds[x] <==> u < g.n && Scanned(g, st.queue, head, j + 1, u, x) && st.dist[x] == st.dist[u] + 1
    {
      ScannedMore(g, st.queue, head, j, u, x);
    }
  }

  /** One edge of the search. */
  lemma StepKeeps(g: Graph, s: nat, st: State, head: nat, j: nat)
    requires Inv(g, s, st, head, j) && head < |st.queue| && st.queue[head] < g.n && j < |g.adj[st.queue[head]]|
    ensures var w := g.adj[st.queue[head]][j];
      && w < g.n && Inv(g, s, StepEdge(st, st.queue[head], w), head, j + 1)
      && st.queue <= StepEdge(st, st.queue[head], w).queue
  {
    var v := st.queue[head];
    var w := g.adj[v][j];
    DiscoverStep(g, s, st, head, j);
    var d := Discover(st, v, w);
    var r := StepEdge(st, v, w);
    assert d.queue[head] == v;
    var next := j + 1;
    forall x: nat | x < g.n ensures NodeTally(g, s, r, head, next, x) && Reached(g, r, x) {
      assert x != w ==> Reached(g, d, x);
      if d.dist[w] == d.dist[v] + 1 {
        TallyNode(g, s, d, head, j, w, x);
      } else {
        SkipNode(g, s, d, head, j, w, x);
      }
    }
    forall u: nat, x: nat ensures EdgeOk(g, r, head, next, u, x) {
      ScannedMore(g, d.queue, head, j, u, x);
      assert EdgeOk(g, d, head, j, u, x);
    }
    assert QueueOk(g, r, head);
  }

  lemma ScannedAll(g: Graph, queue: seq<nat>, head: nat, u: nat, w: nat)
    requires WellFormed(g) && head < |queue| && queue[head] < g.n
    ensures Scanned(g, queue, head, |g.adj[queue[head]]|, u, w) <==> Scanned(g, queue, head + 1, 0, u, w)
  {
    var v := queue[head];
    assert g.adj[v][..|g.adj[v]|] == g.adj[v];
    assert queue[..head + 1] == queue[..head] + [v];
  }

  /** All edges of the front node looked at: it is expanded. */
  lemma NextHead(g: Graph, s: nat, st: State, head: nat)
    requires WellFormed(g) && head < |st.queue| && st.queue[head] < g.n
    requires Inv(g, s, st, head, |g.adj[st.queue[head]]|)
    ensures Inv(g, s, st, head + 1, 0)
  {
    var j, next := |g.adj[st.queue[head]]|, head + 1;
    forall x: nat | x < g.n ensures NodeTally(g, s, st, next, 0, x) {
      assert NodeTally(g, s, st, head, j, x);
      forall u: nat
        ensures u in st.preds[x] <==> u < g.n && Scanned(g, st.queue, head + 1, 0, u, x) && st.dist[x] == st.dist[u] + 1
      {
        ScannedAll(g, st.queue, head, u, x);
      }
    }
    forall u: nat, x: nat ensures EdgeOk(g, st, next, 0, u, x) {
      ScannedAll(g, st.queue, head, u, x);
      assert EdgeOk(g, st, head, j, u, x);
    }
  }

  ghost predicate Initial(g: Graph, s: nat, st: State) {
    && s < g.n && Sized(g, st) && st.queue == [s]
    && (forall v :: 0 <= v < g.n ==> st.preds[v] == [])
    && (forall v :: 0 <= v < g.n ==> st.dist[v] == if v == s then 0 else -1)
    && (forall v :: 0 <= v < g.n ==> st.sigma[v] == if v == s then 1.0 else 0.0)
  }

  lemma InitialInv(g: Graph, s: nat, st: State)
    requires WellFormed(g) && Initial(g, s, st)
    ensures Inv(g, s, st, 0, 0)
  {
    forall w: nat | w < g.n ensures NodeTally(g, s, st, 0, 0, w) {
      SumZero(g.n, Picked(st.preds[w], st.sigma));
    }
  }

  // ------------------------------------------------------------------ what a finished search knows

  /** Distances are hop counts, predecessors are exactly the neighbours one hop closer. */
  ghost predicate PredsOk(g: Graph, st: State, w: nat)
    requires Sized(g, st) && w < g.n
  {
    && AllDistinct(st.preds[w])
    && forall u: nat :: u in st.preds[w] <==> Leads(g, st.dist, u, w)
  }

  lemma FinishedScanned(g: Graph, s: nat, st: State, u: nat, w: nat)
    requires Inv(g, s, st, |st.queue|, 0) && u < g.n
    ensures Scanned(g, st.queue, |st.queue|, 0, u, w) <==> Adjacent(g, u, w) && st.dist[u] >= 0
  {
    assert st.queue[..|st.queue|] == st.queue;
  }

  lemma FinishedLabels(g: Graph, s: nat, st: State)
    requires Inv(g, s, st, |st.queue|, 0)
    ensures Labels(g, s, st.dist)
  {
    forall v: nat | v < g.n ensures LabelOk(g, s, st.dist, v) {
      assert NodeTally(g, s, st, |st.queue|, 0, v) && Reached(g, st, v);
      if st.dist[v] > 0 {
        var u := st.preds[v][0];
        assert u in st.preds[v];
        FinishedScanned(g, s, st, u, v);
      }
      forall w | w in g.adj[v] && st.dist[v] >= 0 ensures w < g.n && 0 <= st.dist[w] <= st.dist[v] + 1 {
        assert Adjacent(g, v, w);
        AdjacentFacts(g, v, w);
        FinishedScanned(g, s, st, v, w);
        assert EdgeOk(g, st, |st.queue|, 0, v, w);
      }
    }
  }

  lemma FinishedPreds(g: Graph, s: nat, st: State, w: nat)
    requires Inv(g, s, st, |st.queue|, 0) && w < g.n
    ensures PredsOk(g, st, w)
  {
    assert NodeTally(g, s, st, |st.queue|, 0, w);
    forall u: nat ensures u in st.preds[w] <==> Leads(g, st.dist, u, w) {
      if Adjacent(g, u, w) { AdjacentFacts(g, u, w); }
      if u < g.n { FinishedScanned(g, s, st, u, w); }
    }
  }

  /** The counts are the numbers of shortest paths. */
  lemma {:induction false} FinishedSigma(g: Graph, s: nat, st: State, w: nat)
    requires Inv(g, s, st, |st.queue|, 0) && Labels(g, s, st.dist) && w < g.n && st.dist[w] >= 0
    ensures st.sigma[w] == Sigma(g, s, st.dist, w)
    decreases st.dist[w]
  {
    assert NodeTally(g, s, st, |st.queue|, 0, w);
    FinishedPreds(g, s, st, w);
    var picked := Picked(st.preds[w], st.sigma);
    if st.dist[w] == 0 {
      SumZero(g.n, picked);
      CountZeroHops(g, s, w);
    } else {
      var k := st.dist[w] - 1;
      CountLastStep(g, s, k, w);
      forall u: nat | u < g.n ensures picked(u) == Over(g, w, CountAt(g, s, k))(u) {
        if Adjacent(g, w, u) {
          AdjacentFacts(g, w, u);
          if Leads(g, st.dist, u, w) {
            FinishedSigma(g, s, st, u);
          } else {
            CloserIsExact(g, s, st.dist, w, u);
            FarCount(g, s, st.dist, u, k);
          }
        } else if Adjacent(g, u, w) {
          AdjacentFacts(g, u, w);
        }
      }
      SumCong(g.n, picked, Over(g, w, CountAt(g, s, k)));
    }
  }

  /** A neighbour that is not one hop closer is farther than `dist - 1`. */
  lemma CloserIsExact(g: Graph, s: nat, hops: seq<int>, w: nat, u: nat)
    requires WellFormed(g) && Labels(g, s, hops) && w < g.n && hops[w] > 0 && Adjacent(g, w, u) && !Leads(g, hops, u, w)
    ensures u < g.n && hops[u] > hops[w] - 1
  {
    AdjacentFacts(g, w, u);
    assert LabelOk(g, s, hops, w) && LabelOk(g, s, hops, u);
  }

  lemma FarCount(g: Graph, s: nat, hops: seq<int>, u: nat, k: nat)
    requires WellFormed(g) && Labels(g, s, hops) && u < g.n && hops[u] > k
    ensures Count(g, s, k, u) == 0.0
  {
    assert LabelOk(g, s, hops, s);
    TooShort(g, s, hops, s, k, u);
  }

  /** Runs the search to the end. */
  method CountPaths(g: Graph, s: nat) returns (st: State)
    requires WellFormed(g) && s < g.n
    ensures Sized(g, st) && Inv(g, s, st, |st.queue|, 0)
  {
    st := State(seq(g.n, _ => -1)[s := 0], seq(g.n, _ => 0.0)[s := 1.0], seq(g.n, _ => []), [s]);
    InitialInv(g, s, st);
    var head := 0;
    while head < |st.queue|
      invariant head <= |st.queue| && Inv(g, s, st, head, 0)
      decreases g.n - head
    {
      Pigeonhole(st.queue, g.n);
      st := ScanNode(g, s, st, head);
      NextHead(g, s, st, head);
      head := head + 1;
    }
  }

  /** The inner loop: every neighbour of the queue's node `head`. */
  method ScanNode(g: Graph, ghost s: nat, before: State, head: nat) returns (st: State)
    requires WellFormed(g) && s < g.n && head < |before.queue| && before.queue[head] < g.n && Inv(g, s, before, head, 0)
    ensures head < |st.queue| && st.queue[head] == before.queue[head]
    ensures Inv(g, s, st, head, |g.adj[st.queue[head]]|)
  {
    st := before;
    var v := st.queue[head];
    for j := 0 to |g.adj[v]|
      invariant head < |st.queue| && st.queue[head] == v && Inv(g, s, st, head, j)
    {
      StepKeeps(g, s, st, head, j);
      var w := g.adj[v][j];
      if st.dist[w] < 0 {
        st := Discover(st, v, w);
      }
      if st.dist[w] == st.dist[v] + 1 {
        st := Tally(st, v, w);
      }
    }
  }

  // ------------------------------------------------------------------ back-propagation

  /** Contributions to `v` from the successors popped so far. */
  ghost function PoppedTerms(g: Graph, s: nat, hops: seq<int>, popped: seq<nat>, v: nat): nat -> real
    requires WellFormed(g) && Labels(g, s, hops)
  {
    (w: nat) => if w in popped then Contribution(g, s, hops, v, w) else 0.0
  }

  ghost function Partial(g: Graph, s: nat, hops: seq<int>, popped: seq<nat>, v: nat): real
    requires WellFormed(g) && Labels(g, s, hops)
  {
    Sum(g.n, PoppedTerms(g, s, hops, popped, v))
  }

  /** Popping one more node adds its contribution. */
  lemma PartialMore(g: Graph, s: nat, hops: seq<int>, w: nat, popped: seq<nat>, v: nat)
    requires WellFormed(g) && Labels(g, s, hops) && w < g.n && w !in popped
    ensures Partial(g, s, hops, [w] + popped, v) == Partial(g, s, hops, popped, v) + Contribution(g, s, hops, v, w)
  {
    SumPoint(g.n, PoppedTerms(g, s, hops, popped, v), PoppedTerms(g, s, hops, [w] + popped, v), w);
  }

  /** When every successor was popped the partial sum is the dependency. */
  lemma PartialDone(g: Graph, s: nat, hops: seq<int>, popped: seq<nat>, v: nat)
    requires WellFormed(g) && Labels(g, s, hops) && v < g.n && hops[v] >= 0
    requires forall w: nat :: Leads(g, hops, v, w) ==> w in popped
    ensures Partial(g, s, hops, popped, v) == Dep(g, s, hops, v)
  {
    DepRecurrence(g, s, hops, v);
    SumCong(g.n, PoppedTerms(g, s, hops, popped, v), Contributions(g, s, hops, v));
  }

  lemma DeeperIsLater(g: Graph, st: State, i: nat, j: nat)
    requires Sized(g, st) && QueueOk(g, st, |st.queue|) && i < |st.queue| && j < |st.queue|
    requires st.dist[st.queue[i]] > st.dist[st.queue[j]]
    ensures i > j
  {
  }

  /** The nodes behind `w` on the stack include all its successors. */
  lemma SuccessorsPopped(g: Graph, s: nat, st: State, idx: nat, w: nat)
    requires Inv(g, s, st, |st.queue|, 0) && idx < |st.queue| && Leads(g, st.dist, st.queue[idx], w)
    ensures w in st.queue[idx + 1..]
  {
    AdjacentFacts(g, st.queue[idx], w);
    assert w in st.queue;
    var i :| 0 <= i < |st.queue| && st.queue[i] == w;
    DeeperIsLater(g, st, i, idx);
    assert st.queue[idx + 1..][i - idx - 1] == w;
  }

  /** `delta` of one node while `w`'s predecessors are served: the first `k` have received `w`'s share. */
  ghost predicate DeltaOk(g: Graph, s: nat, st: State, delta: seq<real>, popped: seq<nat>, served: seq<nat>, w: nat, v: nat)
    requires WellFormed(g) && Labels(g, s, st.dist) && |delta| == g.n && v < g.n
  {
    delta[v] == Partial(g, s, st.dist, popped, v) + (if v in served then Contribution(g, s, st.dist, v, w) else 0.0)
  }

  /** One predecessor receives its share. */
  lemma ServeOne(g: Graph, s: nat, st: State, delta: seq<real>, popped: seq<nat>, served: seq<nat>, w: nat, p: nat, v: nat)
    requires Inv(g, s, st, |st.queue|, 0) && Labels(g, s, st.dist) && |delta| == g.n
    requires v < g.n && w < g.n && p < g.n && p !in served && Leads(g, st.dist, p, w)
    requires st.sigma[w] == Sigma(g, s, st.dist, w) > 0.0 && st.sigma[p] == Sigma(g, s, st.dist, p)
    requires delta[w] == Dep(g, s, st.dist, w)
    requires DeltaOk(g, s, st, delta, popped, served, w, v)
    ensures DeltaOk(g, s, st, delta[p := delta[p] + st.sigma[p] / st.sigma[w] * (1.0 + delta[w])], popped, served + [p], w, v)
  {
  }

  /** Serves all predecessors of `w`. */
  method Serve(g: Graph, ghost s: nat, st: State, delta0: seq<real>, ghost popped: seq<nat>, w: nat) returns (delta: seq<real>)
    requires WellFormed(g) && Sized(g, st) && Inv(g, s, st, |st.queue|, 0) && Labels(g, s, st.dist)
    requires w < g.n && st.dist[w] >= 0 && |delta0| == g.n && delta0[w] == Dep(g, s, st.dist, w)
    requires forall v: nat :: v < g.n ==> DeltaOk(g, s, st, delta0, popped, [], w, v)
    ensures |delta| == g.n && delta[w] == delta0[w]
    ensures forall v: nat :: v < g.n ==> DeltaOk(g, s, st, delta, popped, st.preds[w], w, v)
  {
    delta := delta0;
    FinishedPreds(g, s, st, w);
    FinishedSigma(g, s, st, w);
    SigmaPositive(g, s, st.dist, w);
    var ps := st.preds[w];
    assert ps[..0] == [];
    for k := 0 to |ps|
      invariant |delta| == g.n && delta[w] == delta0[w]
      invariant forall v: nat :: v < g.n ==> DeltaOk(g, s, st, delta, popped, ps[..k], w, v)
    {
      var p := ps[k];
      assert p in ps && p !in ps[..k] && p != w;
      FinishedSigma(g, s, st, p);
      ghost var before := delta;
      if st.sigma[w] > 0.0 {
        delta := delta[p := delta[p] + st.sigma[p] / st.sigma[w] * (1.0 + delta[w])];
      }
      ghost var served := ps[..k + 1];
      assert served == ps[..k] + [p];
      forall v: nat | v < g.n ensures DeltaOk(g, s, st, delta, popped, served, w, v) {
        ServeOne(g, s, st, before, popped, ps[..k], w, p, v);
      }
    }
    assert ps[..|ps|] == ps;
  }

  /** `w`'s predecessors served is the same as `w` popped. */
  lemma ServedIsPopped(g: Graph, s: nat, st: State, delta: seq<real>, popped: seq<nat>, w: nat, v: nat)
    requires Inv(g, s, st, |st.queue|, 0) && Labels(g, s, st.dist) && |delta| == g.n && v < g.n && w < g.n
    requires w !in popped && DeltaOk(g, s, st, delta, popped, st.preds[w], w, v)
    ensures delta[v] == Partial(g, s, st.dist, [w] + popped, v)
  {
    PartialMore(g, s, st.dist, w, popped, v);
    FinishedPreds(g, s, st, w);
  }

  /** The accumulators when the nodes in `popped` have been taken off the stack. */
  ghost predicate Accumulated(g: Graph, s: nat, st: State, cb0: seq<real>, cb: seq<real>, delta: seq<real>,
                              popped: seq<nat>, v: nat)
    requires WellFormed(g) && Labels(g, s, st.dist) && |delta| == |cb| == |cb0| == g.n && v < g.n
  {
    && delta[v] == Partial(g, s, st.dist, popped, v)
    && cb[v] == cb0[v] + (if v in popped && v != s then Dep(g, s, st.dist, v) else 0.0)
  }

  /** The node on top of the stack has collected its whole dependency. */
  lemma TopIsDone(g: Graph, s: nat, st: State, m: nat)
    requires Inv(g, s, st, |st.queue|, 0) && Labels(g, s, st.dist) && m < |st.queue|
    ensures st.queue[m] < g.n && st.dist[st.queue[m]] >= 0 && st.queue[m] !in st.queue[m + 1..]
    ensures Partial(g, s, st.dist, st.queue[m + 1..], st.queue[m]) == Dep(g, s, st.dist, st.queue[m])
  {
    var w := st.queue[m];
    assert w in st.queue;
    forall x: nat | Leads(g, st.dist, w, x) ensures x in st.queue[m + 1..] {
      SuccessorsPopped(g, s, st, m, x);
    }
    PartialDone(g, s, st.dist, st.queue[m + 1..], w);
  }

  /** Pops one node: serves its predecessors and adds its dependency to the centrality. */
  method PopOne(g: Graph, s: nat, st: State, ghost m: nat, ghost popped: seq<nat>, w: nat,
                cb0: seq<real>, ghost base: seq<real>, delta0: seq<real>)
    returns (cb: seq<real>, delta: seq<real>)
    requires Inv(g, s, st, |st.queue|, 0) && Labels(g, s, st.dist)
    requires m < |st.queue| && st.queue[m] == w && popped == st.queue[m + 1..] && |cb0| == |delta0| == |base| == g.n
    requires forall v: nat :: v < g.n ==> Accumulated(g, s, st, base, cb0, delta0, popped, v)
    ensures |cb| == |delta| == g.n
    ensures forall v: nat :: v < g.n ==> Accumulated(g, s, st, base, cb, delta, st.queue[m..], v)
  {
    TopIsDone(g, s, st, m);
    assert Accumulated(g, s, st, base, cb0, delta0, popped, w);
    forall v: nat | v < g.n ensures DeltaOk(g, s, st, delta0, popped, [], w, v) {
      assert Accumulated(g, s, st, base, cb0, delta0, popped, v);
    }
    delta := Serve(g, s, st, delta0, popped, w);
    cb := cb0;
    if w != s {
      cb := cb[w := cb[w] + delta[w]];
    }
    ghost var grown := st.queue[m..];
    assert grown == [w] + popped;
    forall v: nat | v < g.n ensures Accumulated(g, s, st, base, cb, delta, grown, v) {
      assert Accumulated(g, s, st, base, cb0, delta0, popped, v);
      ServedIsPopped(g, s, st, delta, popped, w, v);
    }
  }

  /** One source: adds its shares to every node's centrality. */
  method Accumulate(g: Graph, source: nat, cb0: seq<real>) returns (cb: seq<real>)
    requires WellFormed(g) && source < g.n && |cb0| == g.n
    ensures |cb| == g.n
    ensures forall v: nat :: v < g.n ==> cb[v] == cb0[v] + Sum(g.n, SharesOf(g, source, v))
  {
    var st := CountPaths(g, source);
    FinishedLabels(g, source, st);
    var delta: seq<real> := seq(g.n, _ => 0.0);
    cb := cb0;
    var stack := st.queue;
    forall v: nat | v < g.n ensures Accumulated(g, source, st, cb0, cb, delta, [], v) {
      SumZero(g.n, PoppedTerms(g, source, st.dist, [], v));
    }
    assert st.queue[|stack|..] == [];
    while stack != []
      invariant stack <= st.queue && |cb| == |delta| == g.n
      invariant forall v: nat :: v < g.n ==> Accumulated(g, source, st, cb0, cb, delta, st.queue[|stack|..], v)
    {
      var w := stack[|stack| - 1];
      stack := stack[..|stack| - 1];
      cb, delta := PopOne(g, source, st, |stack|, st.queue[|stack| + 1..], w, cb, cb0, delta);
    }
    assert st.queue[0..] == st.queue;
    forall v: nat | v < g.n ensures cb[v] == cb0[v] + Sum(g.n, SharesOf(g, source, v)) {
      assert Accumulated(g, source, st, cb0, cb, delta, st.queue, v);
      DepIsShares(g, source, st.dist, v);
    }
  }

  /** The centrality of every node is half the sum of the shares over all ordered pairs. */
  method BetweennessCentrality(g: Graph) returns (cb: seq<real>)
    requires WellFormed(g)
    ensures |cb| == g.n
    ensures forall v: nat :: v < g.n ==> cb[v] == Betweenness(g, v)
  {
    cb := seq(g.n, _ => 0.0);
    for s := 0 to g.n
      invariant |cb| == g.n
      invariant forall v: nat :: v < g.n ==> cb[v] == Sum(s, DependencyOf(g, v))
    {
      cb := Accumulate(g, s, cb);
    }
    for i := 0 to g.n
      invariant |cb| == g.n
      invariant forall v: nat :: v < g.n ==> cb[v] == if v < i then Betweenness(g, v) else Sum(g.n, DependencyOf(g, v))
    {
      cb := cb[i := cb[i] / 2.0];
    }
  }
}
