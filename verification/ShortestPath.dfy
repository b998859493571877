/**
 * The two shortest-path routines: the Rust one (Dijkstra hop counts, then
 * level-by-level frontiers) and the Python one (a queue with early exit).
 * Both replay one breadth-first search, so they return the same route.
 */
module ShortestPath {
  import opened Options
  import opened Sequences
  import opened Graphs

  // ------------------------------------------------------------------ the common search

  /** Discovery order and the predecessor recorded for each discovered node but the source. */
  datatype Search = Search(order: seq<nat>, prev: map<nat, nat>)

  /** Discovers `w` from `v` unless it was seen before. */
  function Meet(st: Search, v: nat, w: nat): Search {
    if w in st.order then st else Search(st.order + [w], st.prev[w := v])
  }

  function MeetAll(st: Search, v: nat, ws: seq<nat>): Search {
    if ws == [] then st else Meet(MeetAll(st, v, ws[..|ws| - 1]), v, ws[|ws| - 1])
  }

  /** The search after the first `k` discovered nodes were expanded. */
  function Run(g: Graph, s: nat, k: nat): Search
    requires WellFormed(g)
  {
    if k == 0 then Search([s], map[])
    else
      var st := Run(g, s, k - 1);
      if k - 1 < |st.order| && st.order[k - 1] < g.n
      then MeetAll(st, st.order[k - 1], g.adj[st.order[k - 1]])
      else st
  }

  /** The position of a discovered node in the discovery order. */
  ghost function Rank(order: seq<nat>, v: nat): (r: nat)
    requires v in order
    ensures r < |order| && order[r] == v
  {
    if order[|order| - 1] == v then |order| - 1 else Rank(order[..|order| - 1], v)
  }

  /** Every discovered node but the source has a neighbour recorded that was discovered earlier. */
  ghost predicate PrevOk(g: Graph, s: nat, st: Search, w: nat) {
    && (w in st.prev <==> w in st.order && w != s)
    && (w in st.prev ==>
          && Adjacent(g, st.prev[w], w) && st.prev[w] in st.order
          && Rank(st.order, st.prev[w]) < Rank(st.order, w))
  }

  ghost predicate SearchOk(g: Graph, s: nat, st: Search) {
    && AllDistinct(st.order) && AllBelow(st.order, g.n)
    && st.order != [] && st.order[0] == s
    && forall w: nat :: PrevOk(g, s, st, w)
  }

  /** Nothing discovered or recorded is ever changed. */
  ghost predicate Extends(a: Search, b: Search) {
    && a.order <= b.order
    && forall w :: w in a.prev ==> w in b.prev && b.prev[w] == a.prev[w]
  }

  lemma MeetOk(g: Graph, s: nat, st: Search, v: nat, w: nat)
    requires SearchOk(g, s, st) && Adjacent(g, v, w) && w < g.n && v in st.order
    ensures SearchOk(g, s, Meet(st, v, w)) && Extends(st, Meet(st, v, w))
  {
    var m := Meet(st, v, w);
    if w !in st.order {
      assert PrevOk(g, s, st, w);
      forall x: nat ensures PrevOk(g, s, m, x) {
        assert PrevOk(g, s, st, x);
        if x == w {
          RankStable(st.order, w, v);
          assert m.order[|m.order| - 1] == w;
        } else if x in st.prev {
          RankStable(st.order, w, x);
          RankStable(st.order, w, st.prev[x]);
        }
      }
      forall x | x in st.prev ensures x in m.prev && m.prev[x] == st.prev[x] {
      }
    }
  }

  lemma RankStable(order: seq<nat>, w: nat, x: nat)
    requires x in order && w !in order
    ensures Rank(order + [w], x) == Rank(order, x)
  {
    assert (order + [w])[..|order|] == order;
  }

  lemma StepBack(g: Graph, s: nat, st: Search, w: nat)
    requires SearchOk(g, s, st) && w in st.order && w != s
    ensures w in st.prev && st.prev[w] in st.order && st.prev[w] < g.n
    ensures Rank(st.order, st.prev[w]) < Rank(st.order, w)
  {
    assert PrevOk(g, s, st, w);
    assert st.order[Rank(st.order, st.prev[w])] == st.prev[w];
  }

  lemma ExtendsTrans(a: Search, b: Search, c: Search)
    requires Extends(a, b) && Extends(b, c)
    ensures Extends(a, c)
  {
  }

  lemma {:induction false} MeetAllOk(g: Graph, s: nat, st: Search, v: nat, ws: seq<nat>)
    requires WellFormed(g) && SearchOk(g, s, st) && v < g.n && v in st.order && ws <= g.adj[v]
    ensures SearchOk(g, s, MeetAll(st, v, ws)) && Extends(st, MeetAll(st, v, ws))
    ensures forall x :: x in MeetAll(st, v, ws).order <==> x in st.order || x in ws
    ensures forall x :: x in MeetAll(st, v, ws).prev && x !in st.prev ==>
      MeetAll(st, v, ws).prev[x] == v && x in ws && x !in st.order
  {
    if ws != [] {
      var k := |ws| - 1;
      MeetAllOk(g, s, st, v, ws[..k]);
      assert ws[k] in g.adj[v];
      AdjacentFacts(g, v, ws[k]);
      MeetOk(g, s, MeetAll(st, v, ws[..k]), v, ws[k]);
      ExtendsTrans(st, MeetAll(st, v, ws[..k]), MeetAll(st, v, ws));
      assert ws == ws[..k] + [ws[k]];
    }
  }

  lemma {:induction false} RunOk(g: Graph, s: nat, k: nat)
    requires WellFormed(g) && s < g.n
    ensures SearchOk(g, s, Run(g, s, k))
    ensures k > 0 ==> Extends(Run(g, s, k - 1), Run(g, s, k))
  {
    if k > 0 {
      RunOk(g, s, k - 1);
      var st := Run(g, s, k - 1);
      if k - 1 < |st.order| && st.order[k - 1] < g.n {
        MeetAllOk(g, s, st, st.order[k - 1], g.adj[st.order[k - 1]]);
      }
    }
  }

  lemma {:induction false} RunExtends(g: Graph, s: nat, j: nat, k: nat)
    requires WellFormed(g) && s < g.n && j <= k
    ensures Extends(Run(g, s, j), Run(g, s, k))
  {
    if j < k {
      RunExtends(g, s, j, k - 1);
      RunOk(g, s, k);
      ExtendsTrans(Run(g, s, j), Run(g, s, k - 1), Run(g, s, k));
    }
  }

  /** Part-way through one expansion the search lies between two whole ones. */
  lemma PartialExtends(g: Graph, s: nat, k: nat, j: nat)
    requires WellFormed(g) && s < g.n
    requires k < |Run(g, s, k).order|
    requires Run(g, s, k).order[k] < g.n && j <= |g.adj[Run(g, s, k).order[k]]|
    ensures var v := Run(g, s, k).order[k];
      && SearchOk(g, s, MeetAll(Run(g, s, k), v, g.adj[v][..j]))
      && Extends(MeetAll(Run(g, s, k), v, g.adj[v][..j]), Run(g, s, k + 1))
    decreases |g.adj[Run(g, s, k).order[k]]| - j
  {
    var st := Run(g, s, k);
    var v := st.order[k];
    var ws := g.adj[v];
    RunOk(g, s, k);
    MeetAllOk(g, s, st, v, ws[..j]);
    if j == |ws| {
      assert ws[..j] == ws;
    } else {
      PartialExtends(g, s, k, j + 1);
      assert ws[..j + 1][..j] == ws[..j];
      assert Adjacent(g, v, ws[j]);
      AdjacentFacts(g, v, ws[j]);
      MeetOk(g, s, MeetAll(st, v, ws[..j]), v, ws[j]);
      ExtendsTrans(MeetAll(st, v, ws[..j]), MeetAll(st, v, ws[..j + 1]), Run(g, s, k + 1));
    }
  }

  // ------------------------------------------------------------------ predecessor chains

  ghost predicate Link(prev: map<nat, nat>, p: seq<nat>, i: nat)
    requires i + 1 < |p|
  {
    p[i + 1] in prev && prev[p[i + 1]] == p[i]
  }

  /** `p` runs from `s` to `t` along recorded predecessors. */
  ghost predicate Chain(prev: map<nat, nat>, s: nat, t: nat, p: seq<nat>) {
    && p != [] && p[0] == s && p[|p| - 1] == t
    && forall i: nat :: i + 1 < |p| ==> Link(prev, p, i)
  }

  lemma ChainExtends(a: Search, b: Search, s: nat, t: nat, p: seq<nat>)
    requires Extends(a, b) && Chain(a.prev, s, t, p)
    ensures Chain(b.prev, s, t, p)
  {
    forall i: nat | i + 1 < |p| ensures Link(b.prev, p, i) {
      assert Link(a.prev, p, i);
    }
  }

  lemma ChainInit(prev: map<nat, nat>, s: nat, t: nat, p: seq<nat>)
    requires Chain(prev, s, t, p) && |p| > 1
    ensures t in prev && Chain(prev, s, prev[t], p[..|p| - 1])
  {
    assert Link(prev, p, |p| - 2);
    var q := p[..|p| - 1];
    forall i: nat | i + 1 < |q| ensures Link(prev, q, i) {
      assert Link(prev, p, i);
    }
  }

  /** A source that has no predecessor makes chains unique. */
  lemma {:induction false} ChainUnique(prev: map<nat, nat>, s: nat, t: nat, p: seq<nat>, q: seq<nat>)
    requires s !in prev && Chain(prev, s, t, p) && Chain(prev, s, t, q)
    ensures p == q
    decreases |p|
  {
    if |p| > 1 { ChainInit(prev, s, t, p); }
    if |q| > 1 { ChainInit(prev, s, t, q); }
    if |p| > 1 && |q| > 1 {
      ChainUnique(prev, s, prev[t], p[..|p| - 1], q[..|q| - 1]);
      assert p == p[..|p| - 1] + [t] && q == q[..|q| - 1] + [t];
    }
  }

  /** A chain is a path of the graph. */
  lemma ChainIsPath(g: Graph, s: nat, st: Search, t: nat, p: seq<nat>)
    requires SearchOk(g, s, st) && Chain(st.prev, s, t, p)
    ensures IsPath(g, p, s, t)
  {
    forall i: nat | i + 1 < |p| ensures Hop(g, p, i) {
      assert Link(st.prev, p, i);
      assert PrevOk(g, s, st, p[i + 1]);
    }
  }

  // ------------------------------------------------------------------ closure

  /** The first `k` discovered nodes have all their neighbours discovered. */
  lemma {:induction false} RunCloses(g: Graph, s: nat, k: nat, i: nat, w: nat)
    requires WellFormed(g) && s < g.n && i < k && i < |Run(g, s, k).order|
    requires Adjacent(g, Run(g, s, k).order[i], w)
    ensures w in Run(g, s, k).order
  {
    var st := Run(g, s, k - 1);
    RunOk(g, s, k - 1);
    RunOk(g, s, k);
    if i < k - 1 && i < |st.order| {
      RunCloses(g, s, k - 1, i, w);
    } else if k - 1 < |st.order| {
      MeetAllOk(g, s, st, st.order[k - 1], g.adj[st.order[k - 1]]);
    }
  }

  lemma {:induction false} ClosedKeepsPaths(g: Graph, members: seq<nat>, p: seq<nat>, s: nat, t: nat)
    requires IsPath(g, p, s, t) && s in members
    requires forall u, w :: u in members && Adjacent(g, u, w) ==> w in members
    ensures t in members
    decreases |p|
  {
    if |p| > 1 {
      var q := p[..|p| - 1];
      forall i: nat | i + 1 < |q| ensures Hop(g, q, i) {
        assert Hop(g, p, i);
      }
      ClosedKeepsPaths(g, members, q, s, q[|q| - 1]);
      assert Hop(g, p, |p| - 2);
    }
  }

  /** A finished search that missed `t` proves it unreachable. */
  lemma FinishedMisses(g: Graph, s: nat, k: nat, t: nat)
    requires WellFormed(g) && s < g.n && |Run(g, s, k).order| <= k && t !in Run(g, s, k).order
    ensures !Reachable(g, s, t)
  {
    var order := Run(g, s, k).order;
    RunOk(g, s, k);
    forall u, w | u in order && Adjacent(g, u, w) ensures w in order {
      var i :| 0 <= i < |order| && order[i] == u;
      RunCloses(g, s, k, i, w);
    }
    forall p | IsPath(g, p, s, t) ensures false {
      ClosedKeepsPaths(g, order, p, s, t);
    }
  }

  // ------------------------------------------------------------------ walking back

  function Reverse(s: seq<nat>): (r: seq<nat>)
    ensures |r| == |s| && forall i :: 0 <= i < |s| ==> r[i] == s[|s| - 1 - i]
  {
    seq(|s|, i requires 0 <= i < |s| => s[|s| - 1 - i])
  }

  /** `back` runs from `t` along recorded predecessors. */
  ghost predicate BackFrom(prev: map<nat, nat>, t: nat, back: seq<nat>) {
    && back != [] && back[0] == t
    && forall i: nat :: i + 1 < |back| ==> BackLink(prev, back, i)
  }

  ghost predicate BackLink(prev: map<nat, nat>, back: seq<nat>, i: nat)
    requires i + 1 < |back|
  {
    back[i] in prev && prev[back[i]] == back[i + 1]
  }

  lemma BackMore(prev: map<nat, nat>, t: nat, back: seq<nat>)
    requires BackFrom(prev, t, back) && back[|back| - 1] in prev
    ensures BackFrom(prev, t, back + [prev[back[|back| - 1]]])
  {
    var more := back + [prev[back[|back| - 1]]];
    forall i: nat | i + 1 < |more| ensures BackLink(prev, more, i) {
      if i + 1 < |back| {
        assert BackLink(prev, back, i);
      }
    }
  }

  lemma ReversedIsChain(prev: map<nat, nat>, s: nat, t: nat, back: seq<nat>)
    requires BackFrom(prev, t, back) && back[|back| - 1] == s
    ensures Chain(prev, s, t, Reverse(back))
  {
    var p := Reverse(back);
    forall i: nat | i + 1 < |p| ensures Link(prev, p, i) {
      assert BackLink(prev, back, |back| - 2 - i);
    }
  }

  /** The final loop of the Python search: append predecessors until the source, then reverse. */
  method PathBack(prev: map<nat, nat>, source: nat, target: nat, ghost g: Graph, ghost st: Search) returns (path: seq<nat>)
    requires SearchOk(g, source, st) && st.prev == prev && target in st.order
    ensures Chain(prev, source, target, path)
  {
    path := [target];
    while path[|path| - 1] != source
      invariant BackFrom(prev, target, path) && path[|path| - 1] in st.order
      decreases Rank(st.order, path[|path| - 1])
    {
      StepBack(g, source, st, path[|path| - 1]);
      BackMore(prev, target, path);
      path := path + [prev[path[|path| - 1]]];
    }
    ReversedIsChain(prev, source, target, path);
    path := Reverse(path);
  }

  // ------------------------------------------------------------------ the Python routine

  /** The breadth-first search's answer: its predecessor chain, or nothing when unreachable. */
  ghost predicate Answers(g: Graph, source: nat, target: nat, r: Option<seq<nat>>) {
    match r
    case None => source >= g.n || target >= g.n || !Reachable(g, source, target)
    case Some(p) =>
      && WellFormed(g) && source < g.n && target < g.n
      && exists k: nat :: Chain(Run(g, source, k).prev, source, target, p)
  }

  method ShortestPathPython(g: Graph, source: nat, target: nat) returns (r: Option<seq<nat>>)
    requires WellFormed(g)
    ensures Answers(g, source, target, r)
  {
    if source >= g.n || target >= g.n {
      return None;
    }
    if source == target {
      assert Chain(Run(g, source, 0).prev, source, target, [source]);
      return Some([source]);
    }
    var prev: map<nat, nat> := map[];
    var seen := {source};
    var queue := [source];
    ghost var h := 0;
    RunOk(g, source, 0);
    while queue != []
      invariant Mirrored(g, source, h, Run(g, source, h), seen, prev, queue)
      invariant target !in seen
      decreases g.n - h
    {
      ghost var st := Run(g, source, h);
      RunOk(g, source, h);
      Pigeonhole(st.order, g.n);
      var cur := queue[0];
      queue := queue[1..];
      var ws := g.adj[cur];
      assert ws[..0] == [];
      for j := 0 to |ws|
        invariant Mirrored(g, source, h + 1, MeetAll(st, cur, ws[..j]), seen, prev, queue)
        invariant target !in seen
      {
        var nb := ws[j];
        assert ws[..j + 1][..j] == ws[..j];
        PartialExtends(g, source, h, j + 1);
        if nb !in seen {
          seen := seen + {nb};
          prev := prev[nb := cur];
          if nb == target {
            var path := PathBack(prev, source, target, g, MeetAll(st, cur, ws[..j + 1]));
            ChainExtends(MeetAll(st, cur, ws[..j + 1]), Run(g, source, h + 1), source, target, path);
            return Some(path);
          }
          queue := queue + [nb];
        }
      }
      assert ws[..|ws|] == ws;
      h := h + 1;
    }
    FinishedMisses(g, source, h, target);
    r := None;
  }

  /** The Python variables against the common search: the queue is what is not yet expanded. */
  ghost predicate Mirrored(g: Graph, s: nat, h: nat, st: Search, seen: set<nat>, prev: map<nat, nat>, queue: seq<nat>) {
    && h <= |st.order| && queue == st.order[h..]
    && (forall v :: v in seen <==> v in st.order)
    && prev == st.prev
  }
}
