/** The Rust `shortest_path`, and its agreement with the Python search. */
module RustPath {
  import opened Options
  import opened Sequences
  import opened Graphs
  import opened DijkstraHops
  import opened ShortestPath
  import opened LexRoutes

  /** `usize::MAX`, the mark of a node without predecessor. */
  const NO_NODE: nat := 0xFFFF_FFFF_FFFF_FFFF

  /** The `seen` and `prev` vectors against the common search. */
  ghost predicate CellOk(st: Search, seen: seq<bool>, prev: seq<nat>, v: nat)
    requires |seen| == |prev| && v < |seen|
  {
    && (seen[v] <==> v in st.order)
    && prev[v] == if v in st.prev then st.prev[v] else NO_NODE
  }

  ghost predicate Vectors(g: Graph, st: Search, seen: seq<bool>, prev: seq<nat>) {
    && |seen| == |prev| == g.n
    && forall v: nat :: v < g.n ==> CellOk(st, seen, prev, v)
  }

  lemma MeetVectors(g: Graph, st: Search, seen: seq<bool>, prev: seq<nat>, v: nat, w: nat)
    requires Vectors(g, st, seen, prev) && w < g.n && !seen[w]
    ensures Meet(st, v, w) == Search(st.order + [w], st.prev[w := v])
    ensures Vectors(g, Meet(st, v, w), seen[w := true], prev[w := v])
  {
    var m := Meet(st, v, w);
    assert CellOk(st, seen, prev, w);
    var seen', prev' := seen[w := true], prev[w := v];
    forall x: nat | x < g.n ensures CellOk(m, seen', prev', x) {
      assert CellOk(st, seen, prev, x);
    }
  }

  /** The innermost loop: discovers the unseen neighbours of one frontier node. */
  method ExpandNode(g: Graph, ghost s: nat, ghost k: nat, ghost base: nat, v: nat,
                    seen0: seq<bool>, prev0: seq<nat>, next0: seq<nat>)
    returns (seen: seq<bool>, prev: seq<nat>, next: seq<nat>)
    requires WellFormed(g) && s < g.n && Vectors(g, Run(g, s, k), seen0, prev0)
    requires k < |Run(g, s, k).order| && Run(g, s, k).order[k] == v
    requires base <= |Run(g, s, k).order| && next0 == Run(g, s, k).order[base..]
    ensures Vectors(g, Run(g, s, k + 1), seen, prev)
    ensures base <= |Run(g, s, k + 1).order| && next == Run(g, s, k + 1).order[base..]
  {
    ghost var st := Run(g, s, k);
    RunOk(g, s, k);
    seen, prev, next := seen0, prev0, next0;
    var ws := g.adj[v];
    assert ws[..0] == [];
    for j := 0 to |ws|
      invariant Vectors(g, MeetAll(st, v, ws[..j]), seen, prev)
      invariant base <= |MeetAll(st, v, ws[..j]).order| && next == MeetAll(st, v, ws[..j]).order[base..]
    {
      var w := ws[j];
      assert ws[..j + 1][..j] == ws[..j];
      assert Adjacent(g, v, w);
      AdjacentFacts(g, v, w);
      ghost var mid := MeetAll(st, v, ws[..j]);
      assert CellOk(mid, seen, prev, w);
      if !seen[w] {
        MeetVectors(g, mid, seen, prev, v, w);
        seen := seen[w := true];
        prev := prev[w := v];
        next := next + [w];
      }
    }
    assert ws[..|ws|] == ws;
  }

  /** All discovered nodes are within `depth` hops. */
  ghost predicate Within(order: seq<nat>, hops: seq<int>, depth: int) {
    forall v :: v in order ==> v < |hops| && 0 <= hops[v] <= depth
  }

  /** After `k` expansions: exactly the nodes within `depth` hops are discovered, and the unexpanded ones are `depth` away. */
  ghost predicate AtLevel(g: Graph, s: nat, hops: seq<int>, k: nat, depth: nat)
    requires WellFormed(g)
  {
    var order := Run(g, s, k).order;
    && k <= |order|
    && Within(order, hops, depth)
    && (forall v: nat :: v < |hops| && 0 <= hops[v] <= depth ==> v in order)
    && (forall i :: 0 <= i < |order| ==> order[i] < |hops| && (k <= i <==> hops[order[i]] == depth))
    && Graded(Run(g, s, k).prev, hops)
  }

  /** Recorded predecessors are one hop closer to the source. */
  ghost predicate Graded(prev: map<nat, nat>, hops: seq<int>) {
    forall w :: w in prev ==> w < |hops| && prev[w] < |hops| && hops[w] == hops[prev[w]] + 1
  }

  lemma WithinStep(g: Graph, s: nat, hops: seq<int>, k: nat, depth: nat)
    requires WellFormed(g) && Labels(g, s, hops)
    requires k < |Run(g, s, k).order| && Within(Run(g, s, k).order, hops, depth + 1)
    requires Run(g, s, k).order[k] < g.n && hops[Run(g, s, k).order[k]] == depth
    requires forall v: nat :: v < |hops| && 0 <= hops[v] <= depth ==> v in Run(g, s, k).order
    requires Graded(Run(g, s, k).prev, hops)
    ensures Within(Run(g, s, k + 1).order, hops, depth + 1)
    ensures Graded(Run(g, s, k + 1).prev, hops)
  {
    var st := Run(g, s, k);
    RunOk(g, s, k);
    MeetAllOk(g, s, st, st.order[k], g.adj[st.order[k]]);
    assert LabelOk(g, s, hops, st.order[k]);
    var after := Run(g, s, k + 1);
    assert Extends(st, after) by { RunOk(g, s, k + 1); }
    forall w | w in after.prev
      ensures w < |hops| && after.prev[w] < |hops| && hops[w] == hops[after.prev[w]] + 1
    {
      if w !in st.prev {
        assert w !in st.order;
      }
    }
  }

  /** Expanding every frontier node moves to the next level. */
  lemma NextLevel(g: Graph, s: nat, hops: seq<int>, k: nat, next: nat, depth: nat)
    requires WellFormed(g) && Labels(g, s, hops) && AtLevel(g, s, hops, k, depth)
    requires next == |Run(g, s, k).order| && Within(Run(g, s, next).order, hops, depth + 1)
    requires Graded(Run(g, s, next).prev, hops)
    ensures AtLevel(g, s, hops, next, depth + 1)
  {
    var before, order := Run(g, s, k).order, Run(g, s, next).order;
    RunExtends(g, s, k, next);
    RunOk(g, s, next);
    forall v: nat | v < |hops| && 0 <= hops[v] <= depth + 1 ensures v in order {
      if hops[v] == depth + 1 {
        assert LabelOk(g, s, hops, v);
        var u: nat :| Adjacent(g, u, v) && u < g.n && hops[u] == depth;
        var i :| 0 <= i < |before| && before[i] == u;
        assert order[i] == u;
        RunCloses(g, s, next, i, v);
      }
    }
    forall i | 0 <= i < |order| ensures order[i] < |hops| && (next <= i <==> hops[order[i]] == depth + 1) {
      assert order[i] in order;
      if i < next {
        assert order[i] == before[i];
      } else {
        LaterIsNew(order, before, i);
      }
    }
  }

  lemma LaterIsNew(order: seq<nat>, before: seq<nat>, i: nat)
    requires AllDistinct(order) && before <= order && |before| <= i < |order|
    ensures order[i] !in before
  {
  }

  lemma StartLevel(g: Graph, s: nat, hops: seq<int>)
    requires WellFormed(g) && Labels(g, s, hops)
    ensures AtLevel(g, s, hops, 0, 0)
  {
    assert LabelOk(g, s, hops, s);
    forall v: nat | v < |hops| && hops[v] == 0 ensures v == s {
      assert LabelOk(g, s, hops, v);
    }
  }

  /** One frontier node's turn. */
  lemma LevelTurn(g: Graph, s: nat, hops: seq<int>, k: nat, i: nat, depth: nat)
    requires WellFormed(g) && Labels(g, s, hops) && AtLevel(g, s, hops, k, depth)
    requires k + i < |Run(g, s, k).order|
    requires Within(Run(g, s, k + i).order, hops, depth + 1) && Graded(Run(g, s, k + i).prev, hops)
    ensures k + i < |Run(g, s, k + i).order| && Run(g, s, k + i).order[k + i] == Run(g, s, k).order[k + i]
    ensures Within(Run(g, s, k + i + 1).order, hops, depth + 1) && Graded(Run(g, s, k + i + 1).prev, hops)
    ensures |Run(g, s, k).order| <= |Run(g, s, k + i).order|
  {
    LevelPlace(g, s, hops, k, i, depth);
    WithinStep(g, s, hops, k + i, depth);
  }

  lemma LevelPlace(g: Graph, s: nat, hops: seq<int>, k: nat, i: nat, depth: nat)
    requires WellFormed(g) && Labels(g, s, hops) && AtLevel(g, s, hops, k, depth) && k + i < |Run(g, s, k).order|
    ensures var before, order := Run(g, s, k).order, Run(g, s, k + i).order;
      && |before| <= |order| && k + i < |order| && order[k + i] == before[k + i]
      && order[k + i] < g.n && hops[order[k + i]] == depth
      && forall v: nat :: v < |hops| && 0 <= hops[v] <= depth ==> v in order
  {
    RunExtends(g, s, k, k + i);
    RunOk(g, s, k + i);
  }

  /** One turn of the level loop. */
  method ExpandLevel(g: Graph, ghost s: nat, ghost hops: seq<int>, ghost k: nat, ghost depth: nat,
                     frontier: seq<nat>, seen0: seq<bool>, prev0: seq<nat>)
    returns (seen: seq<bool>, prev: seq<nat>, next: seq<nat>)
    requires WellFormed(g) && Labels(g, s, hops) && AtLevel(g, s, hops, k, depth)
    requires Vectors(g, Run(g, s, k), seen0, prev0) && frontier == Run(g, s, k).order[k..]
    ensures var e := k + |frontier|;
      && AtLevel(g, s, hops, e, depth + 1)
      && Vectors(g, Run(g, s, e), seen, prev) && next == Run(g, s, e).order[e..]
  {
    ghost var base := |Run(g, s, k).order|;
    seen, prev, next := seen0, prev0, [];
    for i := 0 to |frontier|
      invariant Vectors(g, Run(g, s, k + i), seen, prev)
      invariant base <= |Run(g, s, k + i).order| && next == Run(g, s, k + i).order[base..]
      invariant Within(Run(g, s, k + i).order, hops, depth + 1) && Graded(Run(g, s, k + i).prev, hops)
    {
      LevelTurn(g, s, hops, k, i, depth);
      seen, prev, next := ExpandNode(g, s, k + i, base, frontier[i], seen, prev, next);
    }
    NextLevel(g, s, hops, k, k + |frontier|, depth);
  }

  /** Every smaller hop count is also taken. */
  lemma {:induction false} NoGap(g: Graph, s: nat, hops: seq<int>, t: nat, d: nat) returns (u: nat)
    requires Labels(g, s, hops) && t < g.n && d <= hops[t]
    ensures u < g.n && hops[u] == d
    decreases hops[t]
  {
    if hops[t] == d {
      u := t;
    } else {
      assert LabelOk(g, s, hops, t);
      var p: nat :| Adjacent(g, p, t) && p < g.n && hops[p] == hops[t] - 1;
      u := NoGap(g, s, hops, p, d);
    }
  }

  /** A full frontier node exists below the goal's level, so the loop stops only there. */
  lemma FrontierAlive(g: Graph, s: nat, hops: seq<int>, k: nat, depth: nat, goal: nat)
    requires Labels(g, s, hops) && WellFormed(g) && AtLevel(g, s, hops, k, depth) && goal < g.n && depth <= hops[goal]
    ensures Run(g, s, k).order[k..] != []
  {
    var u := NoGap(g, s, hops, goal, depth);
    var order := Run(g, s, k).order;
    assert u in order;
    var i :| 0 <= i < |order| && order[i] == u;
    assert k <= i;
  }

  /** The predecessor loop of the Rust routine; its "no predecessor" branch is dead. */
  method TraceBack(g: Graph, ghost st: Search, source: nat, goal: nat, seen: seq<bool>, prev: seq<nat>) returns (path: seq<nat>)
    requires WellFormed(g) && SearchOk(g, source, st) && Vectors(g, st, seen, prev) && goal in st.order
    ensures Chain(st.prev, source, goal, path)
  {
    path := [goal];
    var cur := goal;
    while cur != source
      invariant cur in st.order && BackFrom(st.prev, goal, path) && cur == path[|path| - 1]
      decreases Rank(st.order, cur)
    {
      StepBack(g, source, st, cur);
      assert st.order[Rank(st.order, cur)] == cur;
      assert CellOk(st, seen, prev, cur);
      BackMore(st.prev, goal, path);
      var p := prev[cur];
      if p == NO_NODE {
        assert false;
      }
      path := path + [p];
      cur := p;
    }
    ReversedIsChain(st.prev, source, goal, path);
    path := Reverse(path);
  }

  /** Hop distance and route when reachable. */
  method ShortestPathRust(g: Graph, source: nat, goal: nat) returns (r: Option<(nat, seq<nat>)>)
    requires WellFormed(g)
    ensures r.None? <==> source >= g.n || goal >= g.n || !Reachable(g, source, goal)
    ensures r.Some? ==> IsDistance(g, source, goal, r.value.0) && |r.value.1| == r.value.0 + 1
    ensures r.Some? ==> Answers(g, source, goal, Some(r.value.1))
  {
    if source >= g.n || goal >= g.n {
      return None;
    }
    var dist, hops := ShortestHopsFrom(g, source);
    LabelsAreDistances(g, source, hops, goal);
    if dist[goal].None? {
      return None;
    }
    var path := Walk(g, source, goal, hops, dist[goal].value);
    r := Some((dist[goal].value, path));
  }

  /** Rebuilds the route level by level, then walks it back from the goal. */
  method Walk(g: Graph, source: nat, goal: nat, ghost hops: seq<int>, cost: nat) returns (path: seq<nat>)
    requires WellFormed(g) && source < g.n && goal < g.n && Labels(g, source, hops) && hops[goal] == cost
    ensures |path| == cost + 1 && Answers(g, source, goal, Some(path))
  {
    var seen, prev;
    ghost var k;
    seen, prev, k := Levels(g, source, goal, hops, cost);
    RunOk(g, source, k);
    path := TraceBack(g, Run(g, source, k), source, goal, seen, prev);
    StartIsZero(g, source, hops);
    ChainLength(Run(g, source, k).prev, hops, source, goal, path);
  }

  /** The level loop, down to the goal's level. */
  method Levels(g: Graph, source: nat, goal: nat, ghost hops: seq<int>, cost: nat)
    returns (seen: seq<bool>, prev: seq<nat>, ghost k: nat)
    requires WellFormed(g) && source < g.n && goal < g.n && Labels(g, source, hops) && hops[goal] == cost
    ensures Vectors(g, Run(g, source, k), seen, prev) && goal in Run(g, source, k).order
    ensures Graded(Run(g, source, k).prev, hops)
  {
    prev := seq(g.n, _ => NO_NODE);
    seen := seq(g.n, _ => false)[source := true];
    var frontier := [source];
    var depth := 0;
    k := 0;
    StartLevel(g, source, hops);
    while depth < cost && frontier != []
      invariant depth <= cost && AtLevel(g, source, hops, k, depth)
      invariant Vectors(g, Run(g, source, k), seen, prev) && frontier == Run(g, source, k).order[k..]
      decreases cost - depth
    {
      ghost var size := |frontier|;
      seen, prev, frontier := ExpandLevel(g, source, hops, k, depth, frontier, seen, prev);
      k := k + size;
      depth := depth + 1;
    }
    LevelsDone(g, source, hops, k, depth, goal);
  }

  /** When the level loop stops, the goal has been found. */
  lemma LevelsDone(g: Graph, s: nat, hops: seq<int>, k: nat, depth: nat, goal: nat)
    requires Labels(g, s, hops) && WellFormed(g) && AtLevel(g, s, hops, k, depth) && goal < g.n && depth <= hops[goal]
    requires depth == hops[goal] || Run(g, s, k).order[k..] == []
    ensures goal in Run(g, s, k).order && Graded(Run(g, s, k).prev, hops)
  {
    FrontierAlive(g, s, hops, k, depth, goal);
  }

  lemma StartIsZero(g: Graph, s: nat, hops: seq<int>)
    requires Labels(g, s, hops)
    ensures hops[s] == 0
  {
    assert LabelOk(g, s, hops, s);
  }

  /** Recorded predecessors are one hop closer, so the route is as long as the distance. */
  lemma {:induction false} ChainLength(prev: map<nat, nat>, hops: seq<int>, s: nat, t: nat, p: seq<nat>)
    requires Graded(prev, hops) && s < |hops| && hops[s] == 0 && t < |hops|
    requires Chain(prev, s, t, p)
    ensures |p| == hops[t] + 1
    decreases |p|
  {
    if |p| > 1 {
      ChainInit(prev, s, t, p);
      ChainLength(prev, hops, s, prev[t], p[..|p| - 1]);
    }
  }

  // ------------------------------------------------------------------ agreement

  /** Any two answers of the search are the same route. */
  lemma AnswersUnique(g: Graph, source: nat, goal: nat, a: Option<seq<nat>>, b: Option<seq<nat>>)
    requires WellFormed(g) && Answers(g, source, goal, a) && Answers(g, source, goal, b)
    ensures a == b
  {
    if a.Some? {
      AnswerIsPath(g, source, goal, a.value);
    }
    if b.Some? {
      AnswerIsPath(g, source, goal, b.value);
    }
    if a.Some? && b.Some? {
      var j: nat :| Chain(Run(g, source, j).prev, source, goal, a.value);
      var k: nat :| Chain(Run(g, source, k).prev, source, goal, b.value);
      var m := if j <= k then k else j;
      RunExtends(g, source, j, m);
      RunExtends(g, source, k, m);
      ChainExtends(Run(g, source, j), Run(g, source, m), source, goal, a.value);
      ChainExtends(Run(g, source, k), Run(g, source, m), source, goal, b.value);
      RunOk(g, source, m);
      assert PrevOk(g, source, Run(g, source, m), source);
      ChainUnique(Run(g, source, m).prev, source, goal, a.value, b.value);
    }
  }

  lemma AnswerIsPath(g: Graph, source: nat, goal: nat, p: seq<nat>)
    requires WellFormed(g) && Answers(g, source, goal, Some(p))
    ensures IsPath(g, p, source, goal) && Reachable(g, source, goal)
  {
    var k: nat :| Chain(Run(g, source, k).prev, source, goal, p);
    RunOk(g, source, k);
    ChainIsPath(g, source, Run(g, source, k), goal, p);
  }

  /** Both engines, run side by side, return the identical node sequence: a shortest route. */
  method BothEngines(g: Graph, source: nat, goal: nat) returns (rust: Option<(nat, seq<nat>)>, python: Option<seq<nat>>)
    requires WellFormed(g)
    ensures rust.None? <==> python.None?
    ensures rust.Some? ==> rust.value.1 == python.value
    ensures rust.Some? ==> IsPath(g, python.value, source, goal) && IsDistance(g, source, goal, rust.value.0)
    ensures python.Some? ==> |python.value| == rust.value.0 + 1
    ensures rust.None? <==> source >= g.n || goal >= g.n || !Reachable(g, source, goal)
    ensures python.Some? ==> forall q :: IsPath(g, q, source, goal) ==> NoLater(python.value, q)
  {
    rust := ShortestPathRust(g, source, goal);
    python := ShortestPathPython(g, source, goal);
    AnswersUnique(g, source, goal, if rust.Some? then Some(rust.value.1) else None, python);
    if python.Some? {
      AnswerIsPath(g, source, goal, python.value);
      forall q | IsPath(g, q, source, goal) ensures NoLater(python.value, q) {
        AnswerIsFirst(g, source, goal, python.value, q);
      }
    }
  }
}
