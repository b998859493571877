/** Connected components: the Rust depth-first routine and the Python breadth-first one. */
module Components {
  import opened Sequences
  import opened Graphs

  // ------------------------------------------------------------------ reachability

  lemma PathBackwards(g: Graph, p: seq<nat>, s: nat, t: nat)
    requires WellFormed(g) && IsPath(g, p, s, t)
    ensures Reachable(g, t, s)
  {
    var q := seq(|p|, i requires 0 <= i < |p| => p[|p| - 1 - i]);
    forall i: nat | i + 1 < |q| ensures Hop(g, q, i) {
      assert Hop(g, p, |p| - 2 - i);
      AdjacentFacts(g, p[|p| - 2 - i], p[|p| - 1 - i]);
    }
    assert IsPath(g, q, t, s);
  }

  lemma PathJoin(g: Graph, p: seq<nat>, q: seq<nat>, s: nat, t: nat, u: nat)
    requires IsPath(g, p, s, t) && IsPath(g, q, t, u)
    ensures Reachable(g, s, u)
  {
    var r := p + q[1..];
    forall i: nat | i + 1 < |r| ensures Hop(g, r, i) {
      if i + 1 < |p| {
        assert Hop(g, p, i);
      } else {
        assert Hop(g, q, i + 1 - |p|);
      }
    }
    assert IsPath(g, r, s, u);
  }

  lemma ReachSelf(g: Graph, s: nat)
    ensures Reachable(g, s, s)
  {
    assert IsPath(g, [s], s, s);
  }

  lemma ReachOn(g: Graph, s: nat, t: nat, u: nat)
    requires Reachable(g, s, t) && Adjacent(g, t, u)
    ensures Reachable(g, s, u)
  {
    var p :| IsPath(g, p, s, t);
    assert Hop(g, [t, u], 0);
    assert IsPath(g, [t, u], t, u);
    PathJoin(g, p, [t, u], s, t, u);
  }

  ghost predicate ClosedAt(g: Graph, s: seq<nat>, u: nat) {
    u in s ==> forall v: nat :: Adjacent(g, u, v) ==> v in s
  }

  /** A set closed under neighbours holds whatever it reaches. */
  lemma {:induction false} ClosedReach(g: Graph, s: seq<nat>, p: seq<nat>, u: nat, v: nat)
    requires (forall x: nat :: ClosedAt(g, s, x)) && u in s && IsPath(g, p, u, v)
    ensures v in s
    decreases |p|
  {
    if |p| > 1 {
      var q := p[..|p| - 1];
      forall i: nat | i + 1 < |q| ensures Hop(g, q, i) {
        assert Hop(g, p, i);
      }
      ClosedReach(g, s, q, u, q[|q| - 1]);
      assert Hop(g, p, |p| - 2);
      assert ClosedAt(g, s, q[|q| - 1]);
    }
  }

  // ------------------------------------------------------------------ what components are

  /** Everything reachable from `root`, and nothing else. */
  ghost predicate IsClass(g: Graph, c: seq<nat>, root: nat) {
    forall v: nat :: v in c <==> v < g.n && Reachable(g, root, v)
  }

  /** From any member one reaches exactly the members. */
  lemma ClassFromMember(g: Graph, c: seq<nat>, root: nat, u: nat, v: nat)
    requires WellFormed(g) && IsClass(g, c, root) && u in c && v < g.n
    ensures Reachable(g, u, v) <==> v in c
  {
    var p :| IsPath(g, p, root, u);
    if Reachable(g, u, v) {
      var q :| IsPath(g, q, u, v);
      PathJoin(g, p, q, root, u, v);
    }
    if v in c {
      var q :| IsPath(g, q, root, v);
      PathBackwards(g, p, root, u);
      var back :| IsPath(g, back, u, root);
      PathJoin(g, back, q, u, root, v);
    }
  }

  ghost predicate ComponentAt(g: Graph, comps: seq<seq<nat>>, i: nat)
    requires i < |comps|
  {
    && comps[i] != [] && Increasing(comps[i]) && IsClass(g, comps[i], comps[i][0])
    && (i > 0 ==> comps[i - 1] != [] && comps[i - 1][0] < comps[i][0])
  }

  /** Nodes below `k` are all in a component. */
  ghost predicate Covered(comps: seq<seq<nat>>, v: nat) {
    exists i :: 0 <= i < |comps| && v in comps[i]
  }

  /** Reachability classes in ascending order of their least members. */
  ghost predicate AreComponents(g: Graph, comps: seq<seq<nat>>) {
    && (forall i: nat :: i < |comps| ==> ComponentAt(g, comps, i))
    && (forall v: nat :: v < g.n ==> Covered(comps, v))
  }

  /** Two nodes share a component exactly when one reaches the other. */
  lemma SameComponent(g: Graph, comps: seq<seq<nat>>, i: nat, u: nat, v: nat)
    requires WellFormed(g) && AreComponents(g, comps) && i < |comps| && u in comps[i] && v < g.n
    ensures v in comps[i] <==> Reachable(g, u, v)
  {
    assert ComponentAt(g, comps, i);
    ClassFromMember(g, comps[i], comps[i][0], u, v);
  }

  lemma {:induction false} FirstsIncrease(g: Graph, comps: seq<seq<nat>>, i: nat, j: nat)
    requires (forall k: nat :: k < |comps| ==> ComponentAt(g, comps, k)) && i < j < |comps|
    ensures comps[i] != [] && comps[j] != [] && comps[i][0] < comps[j][0]
    decreases j - i
  {
    assert ComponentAt(g, comps, j);
    if i + 1 < j {
      FirstsIncrease(g, comps, i, j - 1);
    }
  }

  /** A node is in one component only. */
  lemma Disjoint(g: Graph, comps: seq<seq<nat>>, i: nat, j: nat, v: nat)
    requires WellFormed(g) && AreComponents(g, comps) && i < |comps| && j < |comps| && v in comps[i] && v in comps[j]
    ensures i == j
  {
    assert ComponentAt(g, comps, i) && ComponentAt(g, comps, j);
    var a, b := comps[i][0], comps[j][0];
    assert a in comps[i] && b in comps[j];
    SameComponent(g, comps, i, v, b);
    SameComponent(g, comps, j, v, b);
    SameComponent(g, comps, j, v, a);
    SameComponent(g, comps, i, v, a);
    LeastFirst(comps[i], b);
    LeastFirst(comps[j], a);
    if i < j {
      FirstsIncrease(g, comps, i, j);
    } else if j < i {
      FirstsIncrease(g, comps, j, i);
    }
  }

  lemma LeastFirst(c: seq<nat>, x: nat)
    requires c != [] && Increasing(c) && x in c
    ensures c[0] <= x
  {
  }

  // ------------------------------------------------------------------ exploring one component

  /** During an exploration: `members` are done, `pending` found but not yet done, `before` was seen earlier. */
  ghost predicate Exploring(g: Graph, root: nat, before: seq<bool>, seen: seq<bool>, members: seq<nat>, pending: seq<nat>) {
    && |before| == |seen| == g.n
    && (forall v: nat :: v < g.n ==> (seen[v] <==> before[v] || v in members || v in pending))
    && AllDistinct(members + pending)
    && (forall v: nat :: v in members || v in pending ==> FoundOk(g, root, before, v))
  }

  ghost predicate FoundOk(g: Graph, root: nat, before: seq<bool>, v: nat) {
    v < g.n == |before| && !before[v] && Reachable(g, root, v)
  }

  /** The first `j` neighbours of `u` have been seen. */
  ghost predicate SeenTo(g: Graph, seen: seq<bool>, u: nat, j: nat) {
    u < |g.adj| && j <= |g.adj[u]| && forall i :: 0 <= i < j ==> g.adj[u][i] < |seen| && seen[g.adj[u][i]]
  }

  ghost predicate MembersSeen(g: Graph, seen: seq<bool>, members: seq<nat>) {
    forall u: nat :: u in members ==> u < |g.adj| && SeenTo(g, seen, u, |g.adj[u]|)
  }

  ghost predicate ClosedSeen(g: Graph, seen: seq<bool>, u: nat) {
    u < |seen| && seen[u] ==> forall v: nat :: Adjacent(g, u, v) ==> v < |seen| && seen[v]
  }

  /** Marks and queues the unseen neighbours of `u`, just taken from the pending nodes. */
  method Neighbours(g: Graph, ghost root: nat, ghost before: seq<bool>, seen0: seq<bool>, ghost members: seq<nat>,
                    pending0: seq<nat>, u: nat)
    returns (seen: seq<bool>, pending: seq<nat>)
    requires WellFormed(g) && Exploring(g, root, before, seen0, members + [u], pending0) && u < g.n
    requires MembersSeen(g, seen0, members)
    ensures Exploring(g, root, before, seen, members + [u], pending)
    ensures MembersSeen(g, seen, members + [u])
    ensures forall x :: 0 <= x < g.n && seen0[x] ==> seen[x]
  {
    seen, pending := seen0, pending0;
    for j := 0 to |g.adj[u]|
      invariant |seen| == g.n && forall x :: 0 <= x < g.n && seen0[x] ==> seen[x]
      invariant Exploring(g, root, before, seen, members + [u], pending)
      invariant MembersSeen(g, seen, members) && SeenTo(g, seen, u, j)
    {
      var w := g.adj[u][j];
      AdjacentFacts(g, u, w);
      if !seen[w] {
        Discovered(g, root, before, seen, members + [u], pending, u, w);
        ghost var earlier := seen;
        seen, pending := seen[w := true], pending + [w];
        forall x: nat | x in members ensures x < |g.adj| && SeenTo(g, seen, x, |g.adj[x]|) {
          assert SeenTo(g, earlier, x, |g.adj[x]|);
        }
      }
    }
    forall x: nat | x in members + [u] ensures x < |g.adj| && SeenTo(g, seen, x, |g.adj[x]|) {
    }
  }

  lemma Discovered(g: Graph, root: nat, before: seq<bool>, seen: seq<bool>, members: seq<nat>, pending: seq<nat>, u: nat, w: nat)
    requires Exploring(g, root, before, seen, members, pending) && u in members && Adjacent(g, u, w) && w < g.n && !seen[w]
    ensures Exploring(g, root, before, seen[w := true], members, pending + [w])
  {
    assert FoundOk(g, root, before, u);
    ReachOn(g, root, u, w);
    var all := members + (pending + [w]);
    assert all == (members + pending) + [w];
    forall i, j | 0 <= i < j < |all| ensures all[i] != all[j] {
      if j == |all| - 1 {
        assert all[i] in members || all[i] in pending;
      }
    }
  }

  lemma MoveFirst(g: Graph, root: nat, before: seq<bool>, seen: seq<bool>, members: seq<nat>, pending: seq<nat>, k: nat)
    requires Exploring(g, root, before, seen, members, pending) && k < |pending|
    ensures Exploring(g, root, before, seen, members + [pending[k]], RemoveAt(pending, k))
  {
    var u, rest := pending[k], RemoveAt(pending, k);
    var all, moved := members + pending, (members + [u]) + rest;
    forall x ensures x in pending <==> x == u || x in rest {
      Split(pending, k, x);
    }
    forall i, j | 0 <= i < j < |moved| ensures moved[i] != moved[j] {
      Moved(members, pending, k, i);
      Moved(members, pending, k, j);
    }
  }

  lemma Split(pending: seq<nat>, k: nat, x: nat)
    requires k < |pending|
    ensures x in pending <==> x == pending[k] || x in RemoveAt(pending, k)
  {
    assert pending == pending[..k] + [pending[k]] + pending[k + 1..];
  }

  /** Where entry `i` of the rearranged list stood before; different entries stood in different places. */
  lemma Moved(members: seq<nat>, pending: seq<nat>, k: nat, i: nat)
    requires k < |pending| && i < |members| + |pending|
    ensures var rest := RemoveAt(pending, k);
      ((members + [pending[k]]) + rest)[i] == (members + pending)[WasAt(|members|, k, i)]
  {
  }

  ghost function WasAt(m: nat, k: nat, i: nat): nat {
    if i < m then i else if i == m then m + k else if i - 1 < m + k then i - 1 else i
  }

  /** When nothing is pending, the members are the whole class of the root. */
  lemma Explored(g: Graph, root: nat, before: seq<bool>, seen: seq<bool>, members: seq<nat>)
    requires WellFormed(g) && Exploring(g, root, before, seen, members, []) && MembersSeen(g, seen, members)
    requires root in members && forall u: nat :: ClosedSeen(g, before, u)
    ensures IsClass(g, members, root) && forall u: nat :: ClosedSeen(g, seen, u)
  {
    forall u: nat ensures ClosedAt(g, members, u) {
      if u in members {
        forall v: nat | Adjacent(g, u, v) ensures v in members {
          MemberNeighbour(g, root, before, seen, members, u, v);
        }
      }
    }
    forall v: nat ensures v in members <==> v < g.n && Reachable(g, root, v) {
      if v in members {
        assert FoundOk(g, root, before, v);
      }
      if v < g.n && Reachable(g, root, v) {
        var p :| IsPath(g, p, root, v);
        ClosedReach(g, members, p, root, v);
      }
    }
    forall u: nat ensures ClosedSeen(g, seen, u) {
      assert ClosedSeen(g, before, u) && ClosedAt(g, members, u);
      if u < |seen| && seen[u] {
        forall v: nat | Adjacent(g, u, v) ensures v < |seen| && seen[v] {
          AdjacentFacts(g, u, v);
        }
      }
    }
  }

  lemma MemberNeighbour(g: Graph, root: nat, before: seq<bool>, seen: seq<bool>, members: seq<nat>, u: nat, v: nat)
    requires WellFormed(g) && Exploring(g, root, before, seen, members, []) && MembersSeen(g, seen, members)
    requires u in members && Adjacent(g, u, v) && forall x: nat :: ClosedSeen(g, before, x)
    ensures v in members
  {
    AdjacentFacts(g, u, v);
    assert SeenTo(g, seen, u, |g.adj[u]|);
    assert FoundOk(g, root, before, u);
    assert ClosedSeen(g, before, v);
  }

  lemma Begun(g: Graph, root: nat, before: seq<bool>)
    requires |before| == g.n && root < g.n && !before[root]
    ensures Exploring(g, root, before, before[root := true], [], [root])
    ensures MembersSeen(g, before[root := true], [])
  {
    ReachSelf(g, root);
    assert [] + [root] == [root];
  }

  lemma Bounded(g: Graph, root: nat, before: seq<bool>, seen: seq<bool>, members: seq<nat>, pending: seq<nat>)
    requires Exploring(g, root, before, seen, members, pending)
    ensures |members| + |pending| <= g.n
  {
    var all := members + pending;
    forall i | 0 <= i < |all| ensures all[i] < g.n {
      assert all[i] in members || all[i] in pending;
      assert FoundOk(g, root, before, all[i]);
    }
    Pigeonhole(all, g.n);
  }

  // ------------------------------------------------------------------ sorting

  function Sort(s: seq<nat>): (r: seq<nat>)
    ensures |r| == |s| && forall x :: x in r <==> x in s
    ensures AllDistinct(s) ==> Increasing(r)
  {
    if s == [] then []
    else
      assert forall x :: x in s <==> x == s[0] || x in s[1..];
      assert AllDistinct(s) ==> AllDistinct(s[1..]) && s[0] !in s[1..];
      PlaceIn(Sort(s[1..]), s[0])
  }

  function PlaceIn(s: seq<nat>, x: nat): (r: seq<nat>)
    ensures |r| == |s| + 1 && forall y :: y in r <==> y in s || y == x
    ensures Increasing(s) && x !in s ==> Increasing(r)
  {
    if s == [] || x <= s[0] then [x] + s
    else
      var t := PlaceIn(s[1..], x);
      assert forall y :: y in s <==> y == s[0] || y in s[1..];
      FirstBelow(s, x, t);
      [s[0]] + t
  }

  lemma FirstBelow(s: seq<nat>, x: nat, t: seq<nat>)
    requires s != [] && s[0] < x && forall y :: y in t <==> y in s[1..] || y == x
    ensures Increasing(s) && x !in s && Increasing(t) ==> Increasing([s[0]] + t)
  {
    if Increasing(s) {
      forall i | 0 <= i < |t| ensures s[0] < t[i] {
        assert t[i] in t;
        if t[i] != x {
          NotAgain(s, t[i]);
          LeastFirst(s, t[i]);
        }
      }
    }
  }

  // ------------------------------------------------------------------ the two routines

  /** Takes the `k`-th pending node and marks its neighbours. */
  method Visit(g: Graph, ghost root: nat, ghost before: seq<bool>, seen0: seq<bool>, ghost members: seq<nat>,
               pending0: seq<nat>, k: nat)
    returns (seen: seq<bool>, pending: seq<nat>)
    requires WellFormed(g) && Exploring(g, root, before, seen0, members, pending0) && k < |pending0|
    requires MembersSeen(g, seen0, members)
    ensures Exploring(g, root, before, seen, members + [pending0[k]], pending)
    ensures MembersSeen(g, seen, members + [pending0[k]]) && |members| < g.n
    ensures forall x :: 0 <= x < g.n && seen0[x] ==> seen[x]
  {
    Bounded(g, root, before, seen0, members, pending0);
    MoveFirst(g, root, before, seen0, members, pending0, k);
    assert FoundOk(g, root, before, pending0[k]);
    seen, pending := Neighbours(g, root, before, seen0, members, RemoveAt(pending0, k), pending0[k]);
  }

  /** Rust: depth first, from a stack. */
  method ExploreRust(g: Graph, root: nat, before: seq<bool>) returns (members: seq<nat>, seen: seq<bool>)
    requires WellFormed(g) && |before| == g.n && root < g.n && !before[root]
    requires forall u: nat :: ClosedSeen(g, before, u)
    ensures Exploring(g, root, before, seen, members, []) && IsClass(g, members, root)
    ensures forall u: nat :: ClosedSeen(g, seen, u)
  {
    seen, members := before[root := true], [];
    var stack := [root];
    Begun(g, root, before);
    while |stack| > 0
      invariant Exploring(g, root, before, seen, members, stack) && MembersSeen(g, seen, members) && seen[root]
      decreases g.n - |members|
    {
      var v := stack[|stack| - 1];
      seen, stack := Visit(g, root, before, seen, members, stack, |stack| - 1);
      members := members + [v];
    }
    Explored(g, root, before, seen, members);
  }

  /** Python: breadth first, from a queue. */
  method ExplorePython(g: Graph, root: nat, before: seq<bool>) returns (members: seq<nat>, seen: seq<bool>)
    requires WellFormed(g) && |before| == g.n && root < g.n && !before[root]
    requires forall u: nat :: ClosedSeen(g, before, u)
    ensures Exploring(g, root, before, seen, members, []) && IsClass(g, members, root)
    ensures forall u: nat :: ClosedSeen(g, seen, u)
  {
    seen, members := before[root := true], [];
    var queue := [root];
    Begun(g, root, before);
    while |queue| > 0
      invariant Exploring(g, root, before, seen, members, queue) && MembersSeen(g, seen, members) && seen[root]
      decreases g.n - |members|
    {
      var cur := queue[0];
      seen, queue := Visit(g, root, before, seen, members, queue, 0);
      members := members + [cur];
    }
    Explored(g, root, before, seen, members);
  }

  /** The outer loop: what is seen is what the components so far cover. */
  ghost predicate Collected(g: Graph, comps: seq<seq<nat>>, seen: seq<bool>, root: nat) {
    && |seen| == g.n && root <= g.n
    && (forall i: nat :: i < |comps| ==> ComponentAt(g, comps, i))
    && (forall v: nat :: v < g.n ==> SeenIsCovered(comps, seen, v))
    && (forall v: nat :: v < root ==> Covered(comps, v))
    && (forall u: nat :: ClosedSeen(g, seen, u))
    && (comps != [] ==> comps[|comps| - 1] != [] && comps[|comps| - 1][0] < root)
  }

  ghost predicate SeenIsCovered(comps: seq<seq<nat>>, seen: seq<bool>, v: nat)
    requires v < |seen|
  {
    seen[v] <==> Covered(comps, v)
  }

  lemma CoveredGrows(comps: seq<seq<nat>>, c: seq<nat>, v: nat)
    ensures Covered(comps + [c], v) <==> Covered(comps, v) || v in c
  {
    var more := comps + [c];
    if Covered(comps, v) {
      var i :| 0 <= i < |comps| && v in comps[i];
      assert v in more[i];
    }
    if v in c {
      assert v in more[|comps|];
    }
    if Covered(more, v) {
      var i :| 0 <= i < |more| && v in more[i];
      assert i < |comps| ==> v in comps[i];
    }
  }

  lemma NotEarlier(g: Graph, comps: seq<seq<nat>>, before: seq<bool>, root: nat, v: nat)
    requires Collected(g, comps, before, root) && v < g.n && !before[v]
    ensures root <= v
  {
    assert SeenIsCovered(comps, before, v);
  }

  /** The component just explored goes behind the others. */
  lemma Collect(g: Graph, comps: seq<seq<nat>>, before: seq<bool>, seen: seq<bool>, root: nat, members: seq<nat>)
    requires WellFormed(g) && Collected(g, comps, before, root) && root < g.n && !before[root]
    requires Exploring(g, root, before, seen, members, []) && IsClass(g, members, root)
    requires forall u: nat :: ClosedSeen(g, seen, u)
    ensures Collected(g, comps + [Sort(members)], seen, root + 1)
  {
    var c := Sort(members);
    var more := comps + [c];
    ReachSelf(g, root);
    assert members + [] == members;
    assert root in c;
    assert c[0] in members;
    assert FoundOk(g, root, before, c[0]);
    NotEarlier(g, comps, before, root, c[0]);
    LeastFirst(c, root);
    forall i: nat | i < |more| ensures ComponentAt(g, more, i) {
      if i < |comps| {
        assert ComponentAt(g, comps, i);
      }
    }
    forall v: nat | v < g.n ensures SeenIsCovered(more, seen, v) {
      assert SeenIsCovered(comps, before, v);
      CoveredGrows(comps, c, v);
    }
    forall v: nat | v < root + 1 ensures Covered(more, v) {
      CoveredGrows(comps, c, v);
    }
  }

  lemma Skip(g: Graph, comps: seq<seq<nat>>, seen: seq<bool>, root: nat)
    requires Collected(g, comps, seen, root) && root < g.n && seen[root]
    ensures Collected(g, comps, seen, root + 1)
  {
    assert SeenIsCovered(comps, seen, root);
  }

  lemma NothingCollected(g: Graph, seen: seq<bool>)
    requires |seen| == g.n && forall v :: 0 <= v < g.n ==> !seen[v]
    ensures Collected(g, [], seen, 0)
  {
  }

  method ConnectedComponentsRust(g: Graph) returns (comps: seq<seq<nat>>)
    requires WellFormed(g)
    ensures AreComponents(g, comps)
  {
    var seen: seq<bool> := seq(g.n, _ => false);
    comps := [];
    NothingCollected(g, seen);
    for root := 0 to g.n
      invariant Collected(g, comps, seen, root)
    {
      if seen[root] {
        Skip(g, comps, seen, root);
        continue;
      }
      ghost var before := seen;
      var members;
      members, seen := ExploreRust(g, root, seen);
      Collect(g, comps, before, seen, root, members);
      comps := comps + [Sort(members)];
    }
  }

  /** The Python fallback, before it reorders the components by size. */
  method ConnectedComponentsPython(g: Graph) returns (comps: seq<seq<nat>>)
    requires WellFormed(g)
    ensures AreComponents(g, comps)
  {
    var seen: seq<bool> := seq(g.n, _ => false);
    comps := [];
    NothingCollected(g, seen);
    for start := 0 to g.n
      invariant Collected(g, comps, seen, start)
    {
      if seen[start] {
        Skip(g, comps, seen, start);
        continue;
      }
      ghost var before := seen;
      var comp;
      comp, seen := ExplorePython(g, start, seen);
      Collect(g, comps, before, seen, start, comp);
      comps := comps + [Sort(comp)];
    }
  }

  // ------------------------------------------------------------------ agreement

  lemma {:induction false} IncreasingUnique(a: seq<nat>, b: seq<nat>)
    requires Increasing(a) && Increasing(b) && forall x: nat :: x in a <==> x in b
    ensures a == b
    decreases |a|
  {
    assert a != [] ==> a[0] in a;
    assert b != [] ==> b[0] in b;
    if a != [] && b != [] {
      LeastFirst(a, b[0]);
      LeastFirst(b, a[0]);
      forall x: nat ensures x in a[1..] <==> x in b[1..] {
        assert x in a <==> x == a[0] || x in a[1..];
        assert x in b <==> x == b[0] || x in b[1..];
        NotAgain(a, x);
        NotAgain(b, x);
      }
      IncreasingUnique(a[1..], b[1..]);
      assert a == [a[0]] + a[1..] && b == [b[0]] + b[1..];
    }
  }

  lemma NotAgain(s: seq<nat>, x: nat)
    requires Increasing(s) && s != []
    ensures x in s[1..] ==> x != s[0]
  {
  }

  /** The `i`-th component of one division starts no earlier than that of another that agrees before it. */
  lemma NextAfter(g: Graph, a: seq<seq<nat>>, b: seq<seq<nat>>, i: nat) returns (j: nat)
    requires WellFormed(g) && AreComponents(g, a) && AreComponents(g, b) && i < |a| && i <= |b| && a[..i] == b[..i]
    ensures i <= j < |b| && a[i] == b[j]
  {
    assert ComponentAt(g, a, i);
    var x := a[i][0];
    assert x in a[i];
    assert Covered(b, x);
    var k :| 0 <= k < |b| && x in b[k];
    j := k;
    if j < i {
      assert a[..i][j] == b[..i][j];
      Disjoint(g, a, i, j, x);
    }
    assert ComponentAt(g, b, j);
    forall v: nat ensures v in a[i] <==> v in b[j] {
      if v < g.n {
        SameComponent(g, a, i, x, v);
        SameComponent(g, b, j, x, v);
      }
    }
    IncreasingUnique(a[i], b[j]);
  }

  lemma {:induction false} SamePrefix(g: Graph, a: seq<seq<nat>>, b: seq<seq<nat>>, i: nat)
    requires WellFormed(g) && AreComponents(g, a) && AreComponents(g, b) && i <= |a| && i <= |b|
    ensures a[..i] == b[..i]
  {
    if i > 0 {
      var k := i - 1;
      SamePrefix(g, a, b, k);
      var j := NextAfter(g, a, b, k);
      var l := NextAfter(g, b, a, k);
      if k < j && k < l {
        FirstsIncrease(g, b, k, j);
        FirstsIncrease(g, a, k, l);
      }
      assert a[k] == b[k];
      assert a[..i] == a[..k] + [a[k]] && b[..i] == b[..k] + [b[k]];
    }
  }

  /** There is only one division into components. */
  lemma ComponentsUnique(g: Graph, a: seq<seq<nat>>, b: seq<seq<nat>>)
    requires WellFormed(g) && AreComponents(g, a) && AreComponents(g, b)
    ensures a == b
  {
    var m := if |a| <= |b| then |a| else |b|;
    SamePrefix(g, a, b, m);
    if |a| < |b| {
      var j := NextAfter(g, b, a, m);
    } else if |b| < |a| {
      var j := NextAfter(g, a, b, m);
    }
    assert a[..m] == a && b[..m] == b;
  }

  // ------------------------------------------------------------------ the order they are returned in

  /** Largest first; equally large ones by their first members. */
  predicate NotAfter(a: seq<nat>, b: seq<nat>) {
    |a| > |b| || (|a| == |b| && (a == [] || a[0] <= b[0]))
  }

  ghost predicate LargestFirst(comps: seq<seq<nat>>) {
    forall i, j :: 0 <= i < j < |comps| ==>
      |comps[i]| > |comps[j]| || (|comps[i]| == |comps[j]| && (comps[i] == [] || comps[i][0] <= comps[j][0]))
  }

  /** The sort by `(-len(c), c[0])`. */
  function BySize(comps: seq<seq<nat>>): (r: seq<seq<nat>>)
    ensures LargestFirst(r) && multiset(r) == multiset(comps)
  {
    if comps == [] then []
    else
      assert comps == [comps[0]] + comps[1..];
      PlaceBySize(BySize(comps[1..]), comps[0])
  }

  function PlaceBySize(comps: seq<seq<nat>>, c: seq<nat>): (r: seq<seq<nat>>)
    requires LargestFirst(comps)
    ensures LargestFirst(r) && multiset(r) == multiset(comps) + multiset{c}
  {
    if comps == [] || NotAfter(c, comps[0]) then [c] + comps
    else
      var t := PlaceBySize(comps[1..], c);
      assert comps == [comps[0]] + comps[1..];
      FirstStays(comps, c, t);
      [comps[0]] + t
  }

  lemma FirstStays(comps: seq<seq<nat>>, c: seq<nat>, t: seq<seq<nat>>)
    requires comps != [] && LargestFirst(comps) && !NotAfter(c, comps[0])
    requires LargestFirst(t) && multiset(t) == multiset(comps[1..]) + multiset{c}
    ensures LargestFirst([comps[0]] + t)
  {
    forall j | 0 <= j < |t| ensures NotAfter(comps[0], t[j]) {
      assert t[j] in multiset(t);
      if t[j] != c {
        assert t[j] in comps[1..];
        var k :| 1 <= k < |comps| && comps[k] == t[j];
      }
    }
  }

  /** The components in that order; `native` says which engine found them. */
  method ConnectedComponents(g: Graph, native: bool) returns (comps: seq<seq<nat>>, ghost found: seq<seq<nat>>)
    requires WellFormed(g)
    ensures AreComponents(g, found) && comps == BySize(found)
  {
    if g.n == 0 {
      return [], [];
    }
    var groups;
    if native {
      groups := ConnectedComponentsRust(g);
    } else {
      groups := ConnectedComponentsPython(g);
    }
    comps, found := BySize(groups), groups;
  }

  /** Both engines lead to the same list. */
  method BothComponents(g: Graph) returns (rust: seq<seq<nat>>, python: seq<seq<nat>>)
    requires WellFormed(g)
    ensures rust == python && LargestFirst(rust)
    ensures forall v: nat :: v < g.n ==> Covered(rust, v)
    ensures forall c :: c in rust ==> c != [] && Increasing(c) && IsClass(g, c, c[0])
  {
    ghost var one, other;
    rust, one := ConnectedComponents(g, true);
    python, other := ConnectedComponents(g, false);
    ComponentsUnique(g, one, other);
    StillComponents(g, one);
  }

  /** Reordering loses no component and adds none. */
  lemma StillComponents(g: Graph, found: seq<seq<nat>>)
    requires AreComponents(g, found)
    ensures forall v: nat :: v < g.n ==> Covered(BySize(found), v)
    ensures forall c :: c in BySize(found) ==> c != [] && Increasing(c) && IsClass(g, c, c[0])
  {
    var r := BySize(found);
    forall v: nat | v < g.n ensures Covered(r, v) {
      assert Covered(found, v);
      var i :| 0 <= i < |found| && v in found[i];
      assert found[i] in multiset(r);
      var j :| 0 <= j < |r| && r[j] == found[i];
    }
    forall c | c in r ensures c != [] && Increasing(c) && IsClass(g, c, c[0]) {
      assert c in multiset(found);
      var i: nat :| i < |found| && found[i] == c;
      assert ComponentAt(g, found, i);
    }
  }
}
