/** `shortest_hops_from`: Dijkstra over unit weights with lazy deletion. */
module DijkstraHops {
  import opened Options
  import opened Sequences
  import opened Graphs

  const COST_INFINITY: nat := 0xFFFF_FFFF_FFFF_FFFF

  datatype Entry = Entry(cost: nat, node: nat)

  predicate Cheaper(a: Entry, b: Entry) {
    a.cost < b.cost || (a.cost == b.cost && a.node <= b.node)
  }

  /** `BinaryHeap::pop` under the reversed order: the cheapest entry, ties by node. */
  method PopMin(heap: seq<Entry>) returns (e: Entry, rest: seq<Entry>)
    requires heap != []
    ensures e in heap && forall x :: x in heap ==> Cheaper(e, x)
    ensures |rest| == |heap| - 1 && forall x :: x in heap <==> x == e || x in rest
  {
    var best := 0;
    for i := 1 to |heap|
      invariant 0 <= best < |heap|
      invariant forall j :: 0 <= j < i ==> Cheaper(heap[best], heap[j])
    {
      if !Cheaper(heap[best], heap[i]) {
        best := i;
      }
    }
    e := heap[best];
    rest := heap[..best] + heap[best + 1..];
    assert heap == heap[..best] + [e] + heap[best + 1..];
  }

  /** A finite distance is justified by a settled neighbour one hop closer, or is the source's own. */
  ghost predicate Justified(g: Graph, s: nat, dist: seq<nat>, settled: seq<bool>, v: nat)
    requires |dist| == |settled| == |g.adj| && v < |dist|
  {
    && (dist[v] == 0 <==> v == s)
    && (0 < dist[v] != COST_INFINITY ==>
          exists u: nat :: u < |dist| && settled[u] && Adjacent(g, u, v) && dist[u] + 1 == dist[v])
  }

  /** Settled nodes have relaxed all their edges. */
  ghost predicate Relaxed(g: Graph, dist: seq<nat>, settled: seq<bool>, u: nat)
    requires |dist| == |settled| == |g.adj| && u < |dist|
  {
    settled[u] ==> dist[u] != COST_INFINITY && forall v :: v in g.adj[u] ==> v < |dist| && dist[v] <= dist[u] + 1
  }

  /** Unsettled nodes with a finite distance wait in the heap under it. */
  ghost predicate Waiting(dist: seq<nat>, settled: seq<bool>, heap: seq<Entry>, v: nat)
    requires |dist| == |settled| && v < |dist|
  {
    !settled[v] && dist[v] != COST_INFINITY ==> Entry(dist[v], v) in heap
  }

  /** No settled node is farther than anything still in the heap, and entries never undercut. */
  ghost predicate EntryOk(dist: seq<nat>, settled: seq<bool>, e: Entry)
    requires |dist| == |settled|
  {
    && e.node < |dist| && dist[e.node] <= e.cost < COST_INFINITY
    && forall u :: 0 <= u < |dist| && settled[u] ==> dist[u] <= e.cost
  }

  /** Distances stay below the number of settled nodes, so hop counts cannot overflow. */
  ghost predicate Small(dist: seq<nat>, settled: seq<bool>, count: nat, v: nat)
    requires |dist| == |settled| && v < |dist|
  {
    && dist[v] <= COST_INFINITY
    && (dist[v] != COST_INFINITY ==> dist[v] <= count && (settled[v] ==> dist[v] < count))
  }

  /** Everything but the relaxation of `open`; `done` lists the settled nodes. */
  ghost predicate Core(g: Graph, s: nat, dist: seq<nat>, settled: seq<bool>, heap: seq<Entry>, done: seq<nat>,
                       open: Option<nat>) {
    && |dist| == |settled| == g.n == |g.adj| && s < g.n
    && (forall v: nat :: v < g.n ==> Justified(g, s, dist, settled, v))
    && (forall v: nat :: v < g.n && open != Some(v) ==> Relaxed(g, dist, settled, v))
    && (forall v: nat :: v < g.n ==> Waiting(dist, settled, heap, v))
    && (forall e :: e in heap ==> EntryOk(dist, settled, e))
    && (forall v: nat :: v < g.n ==> Small(dist, settled, |done|, v))
    && AllDistinct(done) && AllBelow(done, g.n)
    && (forall v: nat :: v < g.n ==> (settled[v] <==> v in done))
  }

  /** While `node`'s edges are relaxed: the first `j` neighbours are, and `node` is the farthest settled one. */
  ghost predicate Open(g: Graph, dist: seq<nat>, settled: seq<bool>, node: nat, j: nat)
    requires |dist| == |settled| == |g.adj|
  {
    && node < |dist| && settled[node] && dist[node] != COST_INFINITY
    && j <= |g.adj[node]|
    && (forall i :: 0 <= i < j ==> g.adj[node][i] < |dist| && dist[g.adj[node][i]] <= dist[node] + 1)
    && (forall u :: 0 <= u < |dist| && settled[u] ==> dist[u] <= dist[node])
  }

  /** Popping an entry of a settled node loses nothing. */
  lemma SkipSettled(g: Graph, s: nat, dist: seq<nat>, settled: seq<bool>, heap: seq<Entry>, rest: seq<Entry>,
                    done: seq<nat>, e: Entry)
    requires Core(g, s, dist, settled, heap, done, None) && e in heap && e.node < g.n && settled[e.node]
    requires forall x :: x in heap <==> x == e || x in rest
    ensures Core(g, s, dist, settled, rest, done, None)
  {
    forall v: nat | v < g.n ensures Waiting(dist, settled, rest, v) {
      assert Waiting(dist, settled, heap, v);
    }
  }

  /** The cheapest entry of an unsettled node carries its distance; settling it opens the node. */
  lemma Settle(g: Graph, s: nat, dist: seq<nat>, settled: seq<bool>, heap: seq<Entry>, rest: seq<Entry>, done: seq<nat>, e: Entry)
    requires Core(g, s, dist, settled, heap, done, None) && e in heap && e.node < g.n && !settled[e.node]
    requires forall x :: x in heap <==> x == e || x in rest
    requires forall x :: x in heap ==> Cheaper(e, x)
    ensures dist[e.node] == e.cost
    ensures Core(g, s, dist, settled[e.node := true], rest, done + [e.node], Some(e.node))
    ensures Open(g, dist, settled[e.node := true], e.node, 0)
  {
    var node := e.node;
    var st, dn := settled[node := true], done + [node];
    assert EntryOk(dist, settled, e);
    assert Waiting(dist, settled, heap, node);
    assert Cheaper(e, Entry(dist[node], node));
    forall v: nat | v < g.n ensures Justified(g, s, dist, st, v) && Waiting(dist, st, rest, v) && Small(dist, st, |dn|, v) {
      assert Justified(g, s, dist, settled, v) && Waiting(dist, settled, heap, v) && Small(dist, settled, |done|, v);
    }
    forall v: nat | v < g.n && v != node ensures Relaxed(g, dist, st, v) {
      assert Relaxed(g, dist, settled, v);
    }
    forall x | x in rest ensures EntryOk(dist, st, x) {
      assert EntryOk(dist, settled, x);
    }
  }

  /** Relaxing one edge of the open node. */
  lemma Relax(g: Graph, s: nat, dist: seq<nat>, settled: seq<bool>, heap: seq<Entry>, done: seq<nat>, node: nat, j: nat)
    requires WellFormed(g) && Core(g, s, dist, settled, heap, done, Some(node)) && Open(g, dist, settled, node, j)
    requires j < |g.adj[node]|
    ensures var next, c := g.adj[node][j], dist[node] + 1;
      && next < g.n && c < COST_INFINITY
      && (settled[next] || c >= dist[next] ==> Open(g, dist, settled, node, j + 1))
      && (!settled[next] && c < dist[next] ==>
            && Core(g, s, dist[next := c], settled, heap + [Entry(c, next)], done, Some(node))
            && Open(g, dist[next := c], settled, node, j + 1))
  {
    var next, c := g.adj[node][j], dist[node] + 1;
    assert Adjacent(g, node, next);
    AdjacentFacts(g, node, next);
    assert Small(dist, settled, |done|, node);
    Pigeonhole(done, g.n);
    if !settled[next] && c < dist[next] {
      RelaxCore(g, s, dist, settled, heap, done, node, next);
    }
  }

  lemma RelaxCore(g: Graph, s: nat, dist: seq<nat>, settled: seq<bool>, heap: seq<Entry>, done: seq<nat>, node: nat, next: nat)
    requires Core(g, s, dist, settled, heap, done, Some(node)) && node < g.n && next < g.n && Adjacent(g, node, next)
    requires settled[node] && !settled[next] && dist[node] + 1 < dist[next] && dist[node] + 1 < COST_INFINITY
    requires forall u :: 0 <= u < |dist| && settled[u] ==> dist[u] <= dist[node]
    ensures Core(g, s, dist[next := dist[node] + 1], settled, heap + [Entry(dist[node] + 1, next)], done, Some(node))
  {
    var c := dist[node] + 1;
    var d, h := dist[next := c], heap + [Entry(c, next)];
    assert Small(dist, settled, |done|, node);
    assert Justified(g, s, dist, settled, next);
    forall v: nat | v < g.n ensures Justified(g, s, d, settled, v) {
      assert Justified(g, s, dist, settled, v);
      if v != next && 0 < dist[v] != COST_INFINITY {
        var u: nat :| u < |dist| && settled[u] && Adjacent(g, u, v) && dist[u] + 1 == dist[v];
        assert d[u] == dist[u];
      } else if v == next {
        assert d[node] + 1 == d[next];
      }
    }
    forall v: nat | v < g.n ensures Waiting(d, settled, h, v) && Small(d, settled, |done|, v) {
      assert Waiting(dist, settled, heap, v) && Small(dist, settled, |done|, v);
      assert h[|heap|] == Entry(c, next);
    }
    forall v: nat | v < g.n && v != node ensures Relaxed(g, d, settled, v) {
      assert Relaxed(g, dist, settled, v);
    }
    forall e | e in h ensures EntryOk(d, settled, e) {
      assert e in heap ==> EntryOk(dist, settled, e);
    }
  }

  lemma CloseNode(g: Graph, s: nat, dist: seq<nat>, settled: seq<bool>, heap: seq<Entry>, done: seq<nat>, node: nat)
    requires Core(g, s, dist, settled, heap, done, Some(node)) && node < g.n
    requires Open(g, dist, settled, node, |g.adj[node]|)
    ensures Core(g, s, dist, settled, heap, done, None)
  {
    forall v: nat | v < g.n ensures Relaxed(g, dist, settled, v) {
      if v == node {
        forall w | w in g.adj[v] ensures w < |dist| && dist[w] <= dist[v] + 1 {
          var i :| 0 <= i < |g.adj[v]| && g.adj[v][i] == w;
        }
      }
    }
  }

  ghost function LabelsOf(dist: seq<nat>): (r: seq<int>)
    ensures |r| == |dist| && forall v :: 0 <= v < |dist| ==> r[v] == if dist[v] == COST_INFINITY then -1 else dist[v]
  {
    seq(|dist|, v requires 0 <= v < |dist| => if dist[v] == COST_INFINITY then -1 else dist[v] as int)
  }

  /** With the heap empty the distances are locally consistent labels. */
  lemma EmptyHeapLabels(g: Graph, s: nat, dist: seq<nat>, settled: seq<bool>, done: seq<nat>)
    requires WellFormed(g) && Core(g, s, dist, settled, [], done, None)
    ensures Labels(g, s, LabelsOf(dist))
  {
    var hops := LabelsOf(dist);
    Pigeonhole(done, g.n);
    forall v: nat | v < g.n ensures LabelOk(g, s, hops, v) {
      assert Justified(g, s, dist, settled, v) && Relaxed(g, dist, settled, v);
      assert Waiting(dist, settled, [], v) && Small(dist, settled, |done|, v);
      if hops[v] > 0 {
        var u: nat :| u < |dist| && settled[u] && Adjacent(g, u, v) && dist[u] + 1 == dist[v];
        assert hops[u] == hops[v] - 1;
      }
      if hops[v] >= 0 {
        forall w | w in g.adj[v] ensures w < g.n && 0 <= hops[w] <= hops[v] + 1 {
          assert dist[w] <= dist[v] + 1;
        }
      }
    }
  }

  /** Relaxes every edge of the settled node, pushing each improvement. */
  method RelaxAll(g: Graph, ghost s: nat, dist0: seq<nat>, settled: seq<bool>, heap0: seq<Entry>, ghost done: seq<nat>, node: nat)
    returns (dist: seq<nat>, heap: seq<Entry>)
    requires WellFormed(g) && Core(g, s, dist0, settled, heap0, done, Some(node)) && Open(g, dist0, settled, node, 0)
    ensures Core(g, s, dist, settled, heap, done, None)
  {
    dist, heap := dist0, heap0;
    var cost := dist[node];
    var ws := g.adj[node];
    for j := 0 to |ws|
      invariant Core(g, s, dist, settled, heap, done, Some(node)) && Open(g, dist, settled, node, j)
      invariant dist[node] == cost
    {
      var next := ws[j];
      Relax(g, s, dist, settled, heap, done, node, j);
      if !settled[next] {
        var candidate := cost + 1;
        if candidate <= COST_INFINITY && candidate < dist[next] {
          dist := dist[next := candidate];
          heap := heap + [Entry(candidate, next)];
        }
      }
    }
    CloseNode(g, s, dist, settled, heap, done, node);
  }

  /** Hop counts from `source`; `None` marks unreachable nodes. */
  method ShortestHopsFrom(g: Graph, source: nat) returns (result: seq<Option<nat>>, ghost hops: seq<int>)
    requires WellFormed(g)
    ensures |result| == g.n
    ensures source >= g.n ==> forall v :: 0 <= v < g.n ==> result[v] == None
    ensures source < g.n ==> Labels(g, source, hops)
    ensures source < g.n ==> forall v :: 0 <= v < g.n ==> result[v] == if hops[v] >= 0 then Some(hops[v]) else None
  {
    hops := [];
    if source >= g.n {
      return seq(g.n, _ => None), [];
    }
    var dist: seq<nat> := seq(g.n, _ => COST_INFINITY)[source := 0];
    var settled := seq(g.n, _ => false);
    var heap := [Entry(0, source)];
    ghost var done: seq<nat> := [];
    while heap != []
      invariant Core(g, source, dist, settled, heap, done, None)
      decreases g.n - |done|, |heap|
    {
      var e, rest := PopMin(heap);
      assert EntryOk(dist, settled, e);
      Pigeonhole(done, g.n);
      if settled[e.node] {
        SkipSettled(g, source, dist, settled, heap, rest, done, e);
        heap := rest;
      } else {
        Settle(g, source, dist, settled, heap, rest, done, e);
        settled := settled[e.node := true];
        done := done + [e.node];
        Pigeonhole(done, g.n);
        dist, heap := RelaxAll(g, source, dist, settled, rest, done, e.node);
      }
    }
    EmptyHeapLabels(g, source, dist, settled, done);
    hops := LabelsOf(dist);
    result := seq(g.n, v requires 0 <= v < |dist| => if dist[v] == COST_INFINITY then None else Some(dist[v]));
  }
}
