/** Which of the shortest routes the breadth-first search finds: the first in lexicographic order. */
module LexRoutes {
  import opened Options
  import opened Sequences
  import opened Graphs
  import opened ShortestPath

  /** Shorter, or as long and earlier in lexicographic order. */
  ghost predicate Shortlex(p: seq<nat>, q: seq<nat>) {
    |p| < |q| || (|p| == |q| && Earlier(p, q))
  }

  lemma ShortlexTrans(p: seq<nat>, q: seq<nat>, r: seq<nat>)
    requires Shortlex(p, q) && Shortlex(q, r)
    ensures Shortlex(p, r)
  {
    if |p| == |r| {
      EarlierTrans(p, q, r);
    }
  }

  /** What comes first stays first when one node is added to each. */
  lemma ShortlexMore(p: seq<nat>, q: seq<nat>, x: nat, y: nat)
    requires Shortlex(p, q)
    ensures Shortlex(p + [x], q + [y])
  {
    if |p| == |q| {
      var d: nat :| LexAt(p, q, d);
      assert (p + [x])[..d] == p[..d] && (q + [y])[..d] == q[..d];
      assert LexAt(p + [x], q + [y], d);
    }
  }

  lemma ShortlexLast(p: seq<nat>, x: nat, y: nat)
    requires x < y
    ensures Shortlex(p + [x], p + [y])
  {
    assert (p + [x])[..|p|] == (p + [y])[..|p|];
    assert LexAt(p + [x], p + [y], |p|);
  }

  // ------------------------------------------------------------------ the recorded routes

  lemma RankAt(order: seq<nat>, i: nat)
    requires AllDistinct(order) && i < |order|
    ensures Rank(order, order[i]) == i
  {
  }

  /** The route along the recorded predecessors. */
  ghost function RouteTo(g: Graph, s: nat, st: Search, v: nat): (p: seq<nat>)
    requires SearchOk(g, s, st) && v in st.order
    ensures p != [] && p[|p| - 1] == v
    decreases Rank(st.order, v)
  {
    if v == s then [s]
    else
      StepBack(g, s, st, v);
      RouteTo(g, s, st, st.prev[v]) + [v]
  }

  lemma {:induction false} RouteIsChain(g: Graph, s: nat, st: Search, v: nat)
    requires SearchOk(g, s, st) && v in st.order
    ensures Chain(st.prev, s, v, RouteTo(g, s, st, v))
    decreases Rank(st.order, v)
  {
    if v != s {
      StepBack(g, s, st, v);
      RouteIsChain(g, s, st, st.prev[v]);
      var q, p := RouteTo(g, s, st, st.prev[v]), RouteTo(g, s, st, v);
      forall i: nat | i + 1 < |p| ensures Link(st.prev, p, i) {
        if i + 1 < |q| {
          assert Link(st.prev, q, i);
        }
      }
    }
  }

  /** Discovering more changes no recorded route. */
  lemma {:induction false} RouteStays(g: Graph, s: nat, a: Search, b: Search, v: nat)
    requires SearchOk(g, s, a) && SearchOk(g, s, b) && Extends(a, b) && v in a.order
    ensures v in b.order && RouteTo(g, s, b, v) == RouteTo(g, s, a, v)
    decreases Rank(a.order, v)
  {
    if v != s {
      StepBack(g, s, a, v);
      RouteStays(g, s, a, b, a.prev[v]);
    }
  }

  // ------------------------------------------------------------------ the discovery order

  ghost predicate InTurn(g: Graph, s: nat, st: Search, i: nat, j: nat)
    requires SearchOk(g, s, st) && i < j < |st.order|
  {
    Shortlex(RouteTo(g, s, st, st.order[i]), RouteTo(g, s, st, st.order[j]))
  }

  /** Nodes are discovered in the order of their routes. */
  ghost predicate RoutesAscend(g: Graph, s: nat, st: Search)
    requires SearchOk(g, s, st)
  {
    forall i: nat, j: nat :: i < j < |st.order| ==> InTurn(g, s, st, i, j)
  }

  /** Every predecessor recorded is among the first `k` nodes. */
  ghost predicate FromFirst(g: Graph, s: nat, st: Search, k: nat)
    requires SearchOk(g, s, st)
  {
    forall w: nat :: w in st.prev ==> FoundEarly(g, s, st, k, w)
  }

  ghost predicate FoundEarly(g: Graph, s: nat, st: Search, k: nat, w: nat)
    requires SearchOk(g, s, st) && w in st.prev
  {
    st.prev[w] in st.order && Rank(st.order, st.prev[w]) < k
  }

  /** What was discovered from the node under expansion comes before its next neighbour. */
  ghost predicate Below(st: Search, v: nat, w: nat) {
    forall x :: x in st.prev && st.prev[x] == v ==> x < w
  }

  /** A new node's route comes after all others. */
  lemma LastRoute(g: Graph, s: nat, st: Search, k: nat, w: nat, x: nat)
    requires SearchOk(g, s, st) && RoutesAscend(g, s, st) && FromFirst(g, s, st, k + 1) && k < |st.order|
    requires Below(st, st.order[k], w) && x in st.order
    ensures Shortlex(RouteTo(g, s, st, x), RouteTo(g, s, st, st.order[k]) + [w])
  {
    var v := st.order[k];
    if x != s {
      StepBack(g, s, st, x);
      var u := st.prev[x];
      assert FoundEarly(g, s, st, k + 1, x);
      var i := Rank(st.order, u);
      assert st.order[i] == u;
      if i < k {
        assert InTurn(g, s, st, i, k);
        ShortlexMore(RouteTo(g, s, st, u), RouteTo(g, s, st, v), x, w);
      } else {
        assert u == v;
        ShortlexLast(RouteTo(g, s, st, v), x, w);
      }
    }
  }

  lemma MeetAscends(g: Graph, s: nat, st: Search, k: nat, w: nat)
    requires SearchOk(g, s, st) && RoutesAscend(g, s, st) && FromFirst(g, s, st, k + 1) && k < |st.order|
    requires Below(st, st.order[k], w) && w < g.n && Adjacent(g, st.order[k], w) && w !in st.order
    ensures var m := Meet(st, st.order[k], w);
      SearchOk(g, s, m) && RoutesAscend(g, s, m) && FromFirst(g, s, m, k + 1)
  {
    var v, m := st.order[k], Meet(st, st.order[k], w);
    MeetOk(g, s, st, v, w);
    forall i: nat, j: nat | i < j < |m.order| ensures InTurn(g, s, m, i, j) {
      RouteStays(g, s, st, m, st.order[i]);
      if j < |st.order| {
        RouteStays(g, s, st, m, st.order[j]);
        assert InTurn(g, s, st, i, j);
      } else {
        RouteStays(g, s, st, m, v);
        StepBack(g, s, m, w);
        LastRoute(g, s, st, k, w, st.order[i]);
      }
    }
    var next := k + 1;
    forall x: nat | x in m.prev ensures FoundEarly(g, s, m, next, x) {
      if x == w {
        RankStable(st.order, w, v);
        RankAt(st.order, k);
      } else {
        assert FoundEarly(g, s, st, next, x);
        RankStable(st.order, w, st.prev[x]);
      }
    }
  }

  /** Part of one expansion. */
  lemma {:induction false} MeetAllAscends(g: Graph, s: nat, st: Search, k: nat, ws: seq<nat>)
    requires WellFormed(g) && SearchOk(g, s, st) && RoutesAscend(g, s, st) && FromFirst(g, s, st, k)
    requires k < |st.order| && st.order[k] < g.n && ws <= g.adj[st.order[k]]
    ensures var m := MeetAll(st, st.order[k], ws);
      && SearchOk(g, s, m) && RoutesAscend(g, s, m) && FromFirst(g, s, m, k + 1)
      && (forall x :: x in m.prev && m.prev[x] == st.order[k] ==> x in ws)
  {
    var v := st.order[k];
    if ws == [] {
      var next := k + 1;
      RankAt(st.order, k);
      forall x: nat | x in st.prev ensures FoundEarly(g, s, st, next, x) && st.prev[x] != v {
        assert FoundEarly(g, s, st, k, x);
      }
    } else {
      var front, w := ws[..|ws| - 1], ws[|ws| - 1];
      var m := MeetAll(st, v, front);
      MeetAllAscends(g, s, st, k, front);
      MeetAllOk(g, s, st, v, front);
      assert w in g.adj[v];
      AdjacentFacts(g, v, w);
      assert NeighboursOk(g, v);
      forall x | x in front ensures x < w {
      }
      if w !in m.order {
        assert m.order[k] == v;
        MeetAscends(g, s, m, k, w);
      }
    }
  }

  lemma {:induction false} RunAscends(g: Graph, s: nat, k: nat)
    requires WellFormed(g) && s < g.n
    ensures SearchOk(g, s, Run(g, s, k))
    ensures RoutesAscend(g, s, Run(g, s, k)) && FromFirst(g, s, Run(g, s, k), k)
  {
    RunOk(g, s, k);
    if k > 0 {
      var st := Run(g, s, k - 1);
      RunOk(g, s, k - 1);
      RunAscends(g, s, k - 1);
      if k - 1 < |st.order| && st.order[k - 1] < g.n {
        MeetAllAscends(g, s, st, k - 1, g.adj[st.order[k - 1]]);
      } else {
        forall x: nat | x in st.prev ensures FoundEarly(g, s, st, k, x) {
          assert FoundEarly(g, s, st, k - 1, x);
        }
      }
    }
  }

  // ------------------------------------------------------------------ the first route

  /** Every neighbour of an expanded node was discovered from that node or an earlier one. */
  lemma {:induction false} FoundNoLater(g: Graph, s: nat, k: nat, i: nat, w: nat)
    requires WellFormed(g) && s < g.n && i < k && i < |Run(g, s, k).order| && w != s
    requires Adjacent(g, Run(g, s, k).order[i], w)
    ensures SearchOk(g, s, Run(g, s, k)) && w in Run(g, s, k).prev
    ensures var st := Run(g, s, k); st.prev[w] in st.order && Rank(st.order, st.prev[w]) <= i
  {
    var st, before := Run(g, s, k), Run(g, s, i + 1);
    RunOk(g, s, k);
    RunOk(g, s, i + 1);
    RunExtends(g, s, i + 1, k);
    ExpandedBy(g, s, k, i);
    RunCloses(g, s, i + 1, i, w);
    assert PrevOk(g, s, before, w);
    RunAscends(g, s, i + 1);
    assert FoundEarly(g, s, before, i + 1, w);
    SameRank(before.order, st.order, before.prev[w]);
  }

  lemma SameRank(a: seq<nat>, b: seq<nat>, x: nat)
    requires AllDistinct(a) && AllDistinct(b) && a <= b && x in a
    ensures x in b && Rank(b, x) == Rank(a, x)
  {
    var i := Rank(a, x);
    assert b[i] == x;
    RankAt(b, i);
  }

  /** Whatever has been expanded had been discovered by then. */
  lemma {:induction false} ExpandedBy(g: Graph, s: nat, k: nat, i: nat)
    requires WellFormed(g) && s < g.n && i < k && i < |Run(g, s, k).order|
    ensures i < |Run(g, s, i + 1).order| && Run(g, s, i + 1).order[i] == Run(g, s, k).order[i]
  {
    RunExtends(g, s, i + 1, k);
    if i >= |Run(g, s, i + 1).order| {
      Stalled(g, s, i + 1, k);
    }
  }

  /** A search with nothing left to expand stays as it is. */
  lemma {:induction false} Stalled(g: Graph, s: nat, j: nat, k: nat)
    requires WellFormed(g) && s < g.n && j <= k && |Run(g, s, j).order| <= j
    ensures Run(g, s, k) == Run(g, s, j)
  {
    if j < k {
      Stalled(g, s, j, k - 1);
    }
  }

  ghost predicate NoLater(p: seq<nat>, q: seq<nat>) {
    p == q || Shortlex(p, q)
  }

  /** In a finished search no path to a node comes before the recorded one. */
  lemma {:induction false} RouteIsFirst(g: Graph, s: nat, k: nat, t: nat, q: seq<nat>)
    requires WellFormed(g) && s < g.n && |Run(g, s, k).order| <= k && IsPath(g, q, s, t)
    ensures SearchOk(g, s, Run(g, s, k)) && t in Run(g, s, k).order
    ensures NoLater(RouteTo(g, s, Run(g, s, k), t), q)
    decreases |q|
  {
    var st := Run(g, s, k);
    RunOk(g, s, k);
    if |q| == 1 {
      assert t == s && q == [s];
    } else {
      var front, u := q[..|q| - 1], q[|q| - 2];
      PathFront(g, q, s, t);
      RouteIsFirst(g, s, k, u, front);
      var i := Rank(st.order, u);
      RunCloses(g, s, k, i, t);
      if t != s {
        FoundNoLater(g, s, k, i, t);
        RunAscends(g, s, k);
        RouteStep(g, s, st, i, t);
        NoLaterMore(RouteTo(g, s, st, t), RouteTo(g, s, st, u), front, t);
      }
    }
  }

  lemma PathFront(g: Graph, q: seq<nat>, s: nat, t: nat)
    requires IsPath(g, q, s, t) && |q| > 1
    ensures var front, u := q[..|q| - 1], q[|q| - 2]; IsPath(g, front, s, u) && Adjacent(g, u, t) && q == front + [t]
  {
    var front := q[..|q| - 1];
    forall i: nat | i + 1 < |front| ensures Hop(g, front, i) {
      assert Hop(g, q, i);
    }
    assert Hop(g, q, |q| - 2);
  }

  lemma NoLaterMore(r: seq<nat>, p: seq<nat>, front: seq<nat>, t: nat)
    requires NoLater(r, p + [t]) && NoLater(p, front)
    ensures NoLater(r, front + [t])
  {
    if p != front {
      ShortlexMore(p, front, t, t);
      if r != p + [t] {
        ShortlexTrans(r, p + [t], front + [t]);
      }
    }
  }

  /** The route by way of the recorded predecessor is no later than that by way of any later discovered node. */
  lemma RouteStep(g: Graph, s: nat, st: Search, i: nat, t: nat)
    requires SearchOk(g, s, st) && RoutesAscend(g, s, st) && i < |st.order| && t != s
    requires t in st.prev && t in st.order && st.prev[t] in st.order && Rank(st.order, st.prev[t]) <= i
    ensures NoLater(RouteTo(g, s, st, t), RouteTo(g, s, st, st.order[i]) + [t])
  {
    var j := Rank(st.order, st.prev[t]);
    if j < i {
      assert InTurn(g, s, st, j, i);
      ShortlexMore(RouteTo(g, s, st, st.prev[t]), RouteTo(g, s, st, st.order[i]), t, t);
    }
  }

  /** The search's answer comes before every other path: it is shortest, and of the shortest the first. */
  lemma AnswerIsFirst(g: Graph, source: nat, target: nat, p: seq<nat>, q: seq<nat>)
    requires Answers(g, source, target, Some(p)) && IsPath(g, q, source, target)
    ensures NoLater(p, q)
  {
    var k: nat :| Chain(Run(g, source, k).prev, source, target, p);
    var n := if k < g.n then g.n else k;
    RunExtends(g, source, k, n);
    ChainExtends(Run(g, source, k), Run(g, source, n), source, target, p);
    RunOk(g, source, n);
    var st := Run(g, source, n);
    Pigeonhole(st.order, g.n);
    RouteIsFirst(g, source, n, target, q);
    RouteIsChain(g, source, st, target);
    assert PrevOk(g, source, st, source);
    ChainUnique(st.prev, source, target, p, RouteTo(g, source, st, target));
  }
}
