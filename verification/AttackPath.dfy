/** `find_attack_path`: the path of least resistance, by Dijkstra with stale-entry skipping. */
module AttackPath {
  import opened Options
  import opened Graphs
  import opened Sequences

  datatype Meta = Meta(kind: Option<string>, name: Option<string>)

  /** The asset graph as the engine reads it; `lower` stands for the string lower-casing. */
  datatype Net = Net(nodes: map<string, Meta>, adj: map<string, set<string>>, lower: string -> string)

  datatype Entry = Entry(cost: real, node: string, path: seq<string>)

  const SERVICE_COSTS: map<string, real> :=
    map["http" := 2.0, "https" := 2.5, "ftp" := 3.0, "ssh" := 5.0, "mysql" := 4.0,
        "postgresql" := 4.0, "rdp" := 4.5, "unknown" := 3.0]

  function Get(o: Option<string>, default: string): string {
    match o case Some(x) => x case None => default
  }

  /** The cost of entering node `v`. */
  function StepCost(g: Net, v: string): (c: real)
    requires v in g.nodes
    ensures c > 0.0
  {
    var name := g.lower(Get(g.nodes[v].name, "unknown"));
    if Get(g.nodes[v].kind, "unknown") == "service" then
      if name in SERVICE_COSTS then SERVICE_COSTS[name] else 2.0
    else 1.0
  }

  /** One may move from `u` to `v`: `v` is a recorded neighbour and a known node. */
  predicate CanStep(g: Net, u: string, v: string) {
    u in g.adj && v in g.adj[u] && v in g.nodes
  }

  function Neighbours(g: Net, u: string): set<string> {
    if u in g.adj then g.adj[u] else {}
  }

  /** A walk from `s` to `t`, of any length, with repeated nodes allowed. */
  ghost predicate IsWalk(g: Net, p: seq<string>, s: string, t: string) {
    && p != [] && p[0] == s && p[|p| - 1] == t
    && forall i: nat :: i + 1 < |p| ==> StepAt(g, p, i)
  }

  ghost predicate StepAt(g: Net, p: seq<string>, i: nat)
    requires i + 1 < |p|
  {
    CanStep(g, p[i], p[i + 1])
  }

  /** Entering each node after the first is paid for. */
  ghost function WalkCost(g: Net, p: seq<string>): (c: real)
    ensures c >= 0.0
  {
    if |p| <= 1 || p[|p| - 1] !in g.nodes then 0.0
    else WalkCost(g, p[..|p| - 1]) + StepCost(g, p[|p| - 1])
  }

  lemma ExtendWalk(g: Net, p: seq<string>, s: string, u: string, v: string)
    requires IsWalk(g, p, s, u) && CanStep(g, u, v)
    ensures IsWalk(g, p + [v], s, v)
    ensures WalkCost(g, p + [v]) == WalkCost(g, p) + StepCost(g, v)
  {
    var q := p + [v];
    assert q[..|q| - 1] == p;
    forall i: nat | i + 1 < |q| ensures StepAt(g, q, i) {
      if i + 1 < |p| {
        assert StepAt(g, p, i);
      }
    }
  }

  // ------------------------------------------------------------------ the search state

  /** A queued entry carries a real walk of its cost, no cheaper than the best known one. */
  ghost predicate EntryOk(g: Net, s: string, visited: map<string, real>, done: seq<string>, e: Entry) {
    && IsWalk(g, e.path, s, e.node) && WalkCost(g, e.path) == e.cost
    && e.node in visited
    && (if e.node in done then visited[e.node] < e.cost else visited[e.node] <= e.cost)
  }

  ghost predicate EntriesOk(g: Net, s: string, visited: map<string, real>, done: seq<string>, pq: seq<Entry>) {
    forall e :: e in pq ==> EntryOk(g, s, visited, done, e)
  }

  /** Two entries of one node differ in cost. */
  ghost predicate Apart(pq: seq<Entry>, i: nat, j: nat)
    requires i < j < |pq|
  {
    pq[i].node == pq[j].node ==> pq[i].cost != pq[j].cost
  }

  ghost predicate AllApart(pq: seq<Entry>) {
    forall i: nat, j: nat :: i < j < |pq| ==> Apart(pq, i, j)
  }

  /** A visited node not yet expanded waits in the queue at its best cost. */
  ghost predicate Waits(visited: map<string, real>, done: seq<string>, pq: seq<Entry>, v: string) {
    v in visited && v !in done ==> exists e :: e in pq && e.node == v && e.cost == visited[v]
  }

  ghost predicate AllWait(visited: map<string, real>, done: seq<string>, pq: seq<Entry>) {
    forall v :: Waits(visited, done, pq, v)
  }

  /** If `u` is expanded, its edge into `v` has been relaxed, except from `open` into `todo`. */
  ghost predicate Relaxed(g: Net, visited: map<string, real>, done: seq<string>, open: string, todo: set<string>,
                          u: string, v: string) {
    u in done && (u != open || v !in todo) && u in visited && CanStep(g, u, v) ==>
      v in visited && visited[v] <= visited[u] + StepCost(g, v)
  }

  ghost predicate AllRelaxed(g: Net, visited: map<string, real>, done: seq<string>, open: string, todo: set<string>) {
    forall u, v :: Relaxed(g, visited, done, open, todo, u, v)
  }

  /** Expanded nodes are known nodes no farther than `level`; queued ones are no nearer. */
  ghost predicate Levelled(visited: map<string, real>, done: seq<string>, pq: seq<Entry>, level: real) {
    && (forall u :: u in done ==> WithinLevel(visited, level, u))
    && (forall e :: e in pq ==> level <= e.cost)
  }

  ghost predicate WithinLevel(visited: map<string, real>, level: real, u: string) {
    u in visited && visited[u] <= level
  }

  ghost predicate Inv(g: Net, s: string, goal: string, visited: map<string, real>, done: seq<string>, pq: seq<Entry>,
                      level: real, open: string, todo: set<string>) {
    && s in visited && visited[s] <= 0.0
    && visited.Keys <= g.nodes.Keys
    && EntriesOk(g, s, visited, done, pq) && AllApart(pq)
    && AllWait(visited, done, pq)
    && AllRelaxed(g, visited, done, open, todo)
    && Levelled(visited, done, pq, level)
    && AllDistinct(done) && goal !in done
  }

  /** Every walk is either matched by the best known cost of its end or undercut by a queued entry. */
  lemma {:induction false} LowerBound(g: Net, s: string, goal: string, visited: map<string, real>, done: seq<string>,
                                      pq: seq<Entry>, level: real, open: string, q: seq<string>, t: string)
    requires Inv(g, s, goal, visited, done, pq, level, open, {}) && IsWalk(g, q, s, t)
    ensures (t in visited && visited[t] <= WalkCost(g, q)) || exists e :: e in pq && e.cost <= WalkCost(g, q)
    decreases |q|
  {
    if |q| > 1 {
      var p, u := q[..|q| - 1], q[|q| - 2];
      assert StepAt(g, q, |q| - 2);
      forall i: nat | i + 1 < |p| ensures StepAt(g, p, i) {
        assert StepAt(g, q, i);
      }
      LowerBound(g, s, goal, visited, done, pq, level, open, p, u);
      if u in visited && visited[u] <= WalkCost(g, p) {
        if u in done {
          assert Relaxed(g, visited, done, open, {}, u, t);
        } else {
          assert Waits(visited, done, pq, u);
        }
      }
    }
  }

  /** So a queue head at the goal is optimal, and an empty queue leaves the goal unreachable. */
  lemma GoalBound(g: Net, s: string, goal: string, visited: map<string, real>, done: seq<string>,
                  pq: seq<Entry>, level: real, open: string, q: seq<string>)
    requires Inv(g, s, goal, visited, done, pq, level, open, {}) && IsWalk(g, q, s, goal)
    ensures exists e :: e in pq && e.cost <= WalkCost(g, q)
  {
    LowerBound(g, s, goal, visited, done, pq, level, open, q, goal);
    if goal in visited {
      assert Waits(visited, done, pq, goal);
    }
  }

  // ------------------------------------------------------------------ its steps

  /** `heapq.heappop`: some entry of least cost; how ties are broken does not matter. */
  method PopMin(pq: seq<Entry>) returns (e: Entry, ghost at: nat, rest: seq<Entry>)
    requires pq != []
    ensures at < |pq| && pq[at] == e && rest == RemoveAt(pq, at)
    ensures forall x :: x in pq ==> e.cost <= x.cost
  {
    var best := 0;
    for i := 1 to |pq|
      invariant 0 <= best < |pq|
      invariant forall j :: 0 <= j < i ==> pq[best].cost <= pq[j].cost
    {
      if pq[i].cost < pq[best].cost {
        best := i;
      }
    }
    e, at, rest := pq[best], best, RemoveAt(pq, best);
  }

  lemma Removed(pq: seq<Entry>, at: nat)
    requires at < |pq| && AllApart(pq)
    ensures var rest := RemoveAt(pq, at);
      && AllApart(rest)
      && (forall x :: x in rest ==> x in pq && (x.node == pq[at].node ==> x.cost != pq[at].cost))
      && (forall x :: x in pq ==> x == pq[at] || x in rest)
  {
    var rest := RemoveAt(pq, at);
    forall i: nat, j: nat | i < j < |rest| ensures Apart(rest, i, j) {
      assert Apart(pq, if i < at then i else i + 1, if j < at then j else j + 1);
    }
    forall x | x in rest ensures x in pq && (x.node == pq[at].node ==> x.cost != pq[at].cost) {
      var k: nat :| k < |rest| && rest[k] == x;
      assert if k < at then Apart(pq, k, at) else Apart(pq, at, k + 1);
    }
    forall x | x in pq ensures x == pq[at] || x in rest {
      var k: nat :| k < |pq| && pq[k] == x;
      assert k < at ==> rest[k] == x;
      assert k > at ==> rest[k - 1] == x;
    }
  }

  /** A stale entry is dropped without loss. */
  lemma Stale(g: Net, s: string, goal: string, visited: map<string, real>, done: seq<string>, pq: seq<Entry>,
              level: real, open: string, at: nat)
    requires Inv(g, s, goal, visited, done, pq, level, open, {}) && at < |pq|
    requires pq[at].node in visited ==> pq[at].cost > visited[pq[at].node]
    requires forall x :: x in pq ==> pq[at].cost <= x.cost
    ensures Inv(g, s, goal, visited, done, RemoveAt(pq, at), pq[at].cost, open, {})
    ensures level <= pq[at].cost
  {
    Removed(pq, at);
    var rest := RemoveAt(pq, at);
    forall v ensures Waits(visited, done, rest, v) {
      assert Waits(visited, done, pq, v);
    }
    assert pq[at] in pq;
  }

  /** A node just added is wholly open. */
  lemma StartRelaxed(g: Net, visited: map<string, real>, done: seq<string>, open: string, node: string)
    requires AllRelaxed(g, visited, done, open, {})
    ensures AllRelaxed(g, visited, done + [node], node, Neighbours(g, node))
  {
    forall u, v ensures Relaxed(g, visited, done + [node], node, Neighbours(g, node), u, v) {
      assert Relaxed(g, visited, done, open, {}, u, v);
    }
  }

  /** A live entry is its node's cheapest: the node is new, and expanding it starts. */
  lemma Live(g: Net, s: string, goal: string, visited: map<string, real>, done: seq<string>, pq: seq<Entry>,
             level: real, open: string, at: nat)
    requires Inv(g, s, goal, visited, done, pq, level, open, {}) && at < |pq|
    requires pq[at].node in visited && pq[at].cost <= visited[pq[at].node]
    requires pq[at].node != goal
    requires forall x :: x in pq ==> pq[at].cost <= x.cost
    ensures var node := pq[at].node;
      && node !in done && visited[node] == pq[at].cost && level <= pq[at].cost
      && Inv(g, s, goal, visited, done + [node], RemoveAt(pq, at), pq[at].cost, node, Neighbours(g, node))
  {
    var e, rest, node := pq[at], RemoveAt(pq, at), pq[at].node;
    assert e in pq;
    assert node in done ==> WithinLevel(visited, level, node);
    assert EntryOk(g, s, visited, done, e);
    Removed(pq, at);
    var more := done + [node];
    forall x | x in rest ensures EntryOk(g, s, visited, more, x) {
      assert EntryOk(g, s, visited, done, x);
    }
    forall v ensures Waits(visited, more, rest, v) {
      assert Waits(visited, done, pq, v);
    }
    StartRelaxed(g, visited, done, open, node);
  }

  /** Queueing a cheaper entry for `v` keeps every entry sound... */
  lemma ImproveEntries(g: Net, s: string, visited: map<string, real>, done: seq<string>, pq: seq<Entry>, e: Entry)
    requires EntriesOk(g, s, visited, done, pq) && AllApart(pq)
    requires IsWalk(g, e.path, s, e.node) && WalkCost(g, e.path) == e.cost
    requires e.node !in done && (e.node in visited ==> e.cost < visited[e.node])
    ensures EntriesOk(g, s, visited[e.node := e.cost], done, pq + [e]) && AllApart(pq + [e])
  {
    var better, queue := visited[e.node := e.cost], pq + [e];
    forall x | x in queue ensures EntryOk(g, s, better, done, x) {
      if x in pq {
        assert EntryOk(g, s, visited, done, x);
      }
    }
    forall i: nat, j: nat | i < j < |queue| ensures Apart(queue, i, j) {
      if j < |pq| {
        assert Apart(pq, i, j);
      } else {
        assert pq[i] in pq;
        assert EntryOk(g, s, visited, done, pq[i]);
      }
    }
  }

  /** ...keeps every visited node waiting... */
  lemma ImproveWait(visited: map<string, real>, done: seq<string>, pq: seq<Entry>, e: Entry)
    requires AllWait(visited, done, pq)
    ensures AllWait(visited[e.node := e.cost], done, pq + [e])
  {
    var better, queue := visited[e.node := e.cost], pq + [e];
    assert e in queue;
    forall w ensures Waits(better, done, queue, w) {
      if w != e.node {
        assert Waits(visited, done, pq, w);
      }
    }
  }

  /** ...and relaxes the edge it came through. */
  lemma ImproveRelaxed(g: Net, visited: map<string, real>, done: seq<string>, open: string, todo: set<string>, v: string)
    requires AllRelaxed(g, visited, done, open, todo) && open in visited && v in g.nodes && v !in done && v != open
    requires v in visited ==> visited[open] + StepCost(g, v) < visited[v]
    ensures AllRelaxed(g, visited[v := visited[open] + StepCost(g, v)], done, open, todo - {v})
  {
    var better := visited[v := visited[open] + StepCost(g, v)];
    forall u, w ensures Relaxed(g, better, done, open, todo - {v}, u, w) {
      assert Relaxed(g, visited, done, open, todo, u, w);
    }
  }

  lemma ImproveLevelled(visited: map<string, real>, done: seq<string>, pq: seq<Entry>, level: real, e: Entry)
    requires Levelled(visited, done, pq, level) && e.node !in done && level <= e.cost
    ensures Levelled(visited[e.node := e.cost], done, pq + [e], level)
  {
    forall u | u in done ensures WithinLevel(visited[e.node := e.cost], level, u) {
      assert WithinLevel(visited, level, u);
    }
  }

  /** Lowering (or first setting) a node's best cost and queueing it there. */
  lemma Improve(g: Net, s: string, goal: string, visited: map<string, real>, done: seq<string>, pq: seq<Entry>,
                level: real, open: string, todo: set<string>, v: string, path: seq<string>)
    requires Inv(g, s, goal, visited, done, pq, level, open, todo) && open in done && visited[open] == level
    requires IsWalk(g, path, s, open) && WalkCost(g, path) == level
    requires CanStep(g, open, v)
    requires v in visited ==> level + StepCost(g, v) < visited[v]
    ensures v != open
    ensures var c := level + StepCost(g, v);
      Inv(g, s, goal, visited[v := c], done, pq + [Entry(c, v, path + [v])], level, open, todo - {v})
  {
    ExtendWalk(g, path, s, open, v);
    var e := Entry(level + StepCost(g, v), v, path + [v]);
    assert v in done ==> WithinLevel(visited, level, v);
    ImproveLevelled(visited, done, pq, level, e);
    ImproveEntries(g, s, visited, done, pq, e);
    ImproveWait(visited, done, pq, e);
    ImproveRelaxed(g, visited, done, open, todo, v);
  }

  /** An edge that does not improve its end was already relaxed. */
  lemma KeepRelaxed(g: Net, visited: map<string, real>, done: seq<string>, open: string, todo: set<string>, v: string)
    requires AllRelaxed(g, visited, done, open, todo) && open in visited
    requires v in g.nodes ==> v in visited && visited[v] <= visited[open] + StepCost(g, v)
    ensures AllRelaxed(g, visited, done, open, todo - {v})
  {
    forall u, w ensures Relaxed(g, visited, done, open, todo - {v}, u, w) {
      assert Relaxed(g, visited, done, open, todo, u, w);
    }
  }

  /** One turn of the inner loop: relaxes the edge into `v`. */
  method RelaxEdge(g: Net, ghost s: string, ghost goal: string, visited: map<string, real>, ghost done: seq<string>,
                   pq: seq<Entry>, e: Entry, ghost todo: set<string>, v: string)
    returns (best: map<string, real>, queue: seq<Entry>)
    requires Inv(g, s, goal, visited, done, pq, e.cost, e.node, todo)
    requires e.node in done && visited[e.node] == e.cost
    requires IsWalk(g, e.path, s, e.node) && WalkCost(g, e.path) == e.cost
    requires v in Neighbours(g, e.node)
    ensures Inv(g, s, goal, best, done, queue, e.cost, e.node, todo - {v})
    ensures e.node in best && best[e.node] == e.cost
  {
    best, queue := visited, pq;
    if v in g.nodes {
      var c := e.cost + StepCost(g, v);
      if v !in best || c < best[v] {
        Improve(g, s, goal, visited, done, pq, e.cost, e.node, todo, v, e.path);
        best, queue := best[v := c], queue + [Entry(c, v, e.path + [v])];
        return;
      }
    }
    KeepRelaxed(g, visited, done, e.node, todo, v);
  }

  /** The inner loop: relaxes the edges of the node just popped, in any order. */
  method Expand(g: Net, ghost s: string, ghost goal: string, visited: map<string, real>, ghost done: seq<string>,
                pq: seq<Entry>, e: Entry, neighbours: set<string>)
    returns (best: map<string, real>, queue: seq<Entry>)
    requires Inv(g, s, goal, visited, done, pq, e.cost, e.node, neighbours)
    requires e.node in done && visited[e.node] == e.cost
    requires IsWalk(g, e.path, s, e.node) && WalkCost(g, e.path) == e.cost
    requires neighbours == Neighbours(g, e.node)
    ensures Inv(g, s, goal, best, done, queue, e.cost, e.node, {})
  {
    best, queue := visited, pq;
    var todo := neighbours;
    while todo != {}
      invariant todo <= neighbours
      invariant Inv(g, s, goal, best, done, queue, e.cost, e.node, todo)
      invariant e.node in best && best[e.node] == e.cost
      decreases |todo|
    {
      var v :| v in todo;
      best, queue := RelaxEdge(g, s, goal, best, done, queue, e, todo, v);
      todo := todo - {v};
    }
  }

  // ------------------------------------------------------------------ the search

  ghost predicate NonDecreasing(s: seq<real>) {
    forall i, j :: 0 <= i <= j < |s| ==> s[i] <= s[j]
  }

  lemma Appended(s: seq<real>, level: real, next: real)
    requires NonDecreasing(s) && (forall c :: c in s ==> c <= level) && level <= next
    ensures NonDecreasing(s + [next]) && forall c :: c in s + [next] ==> c <= next
  {
    var t := s + [next];
    forall i, j | 0 <= i <= j < |t| ensures t[i] <= t[j] {
      if i < |s| <= j {
        assert s[i] in s;
      }
    }
  }

  lemma {:induction false} DistinctWithin(done: seq<string>, nodes: set<string>)
    requires AllDistinct(done) && forall u :: u in done ==> u in nodes
    ensures |done| <= |nodes|
    decreases |done|
  {
    if done != [] {
      var last := done[|done| - 1];
      assert last in done;
      forall u | u in done[..|done| - 1] ensures u in nodes - {last} {
        assert u in done;
      }
      DistinctWithin(done[..|done| - 1], nodes - {last});
    }
  }

  lemma Started(g: Net, s: string, goal: string)
    requires s in g.nodes
    ensures Inv(g, s, goal, map[s := 0.0], [], [Entry(0.0, s, [s])], 0.0, s, {})
  {
    var pq := [Entry(0.0, s, [s])];
    assert Entry(0.0, s, [s]) in pq;
    assert Waits(map[s := 0.0], [], pq, s);
  }

  /** The answer: the cheapest of all walks, or nothing when there is no walk at all. */
  ghost predicate Cheapest(g: Net, s: string, goal: string, path: seq<string>, cost: Option<real>) {
    if path == [] then
      && cost == None
      && (s in g.nodes && goal in g.nodes ==> forall q :: !IsWalk(g, q, s, goal))
    else
      && s in g.nodes && goal in g.nodes
      && IsWalk(g, path, s, goal) && cost == Some(WalkCost(g, path))
      && forall q :: IsWalk(g, q, s, goal) ==> WalkCost(g, path) <= WalkCost(g, q)
  }

  /**
   * Least-resistance search. `expanded` are the nodes whose edges were relaxed and
   * `popped` the costs taken off the queue, in order.
   */
  method FindAttackPath(g: Net, entry: string, goal: string)
    returns (path: seq<string>, cost: Option<real>, ghost expanded: seq<string>, ghost popped: seq<real>)
    ensures Cheapest(g, entry, goal, path, cost)
    ensures AllDistinct(expanded) && NonDecreasing(popped)
    ensures forall u :: u in expanded ==> u in g.nodes && u != goal
  {
    expanded, popped := [], [];
    if entry !in g.nodes || goal !in g.nodes {
      return [], None, expanded, popped;
    }
    var pq, visited := [Entry(0.0, entry, [entry])], map[entry := 0.0];
    ghost var level, open := 0.0, entry;
    Started(g, entry, goal);
    while pq != []
      invariant Inv(g, entry, goal, visited, expanded, pq, level, open, {})
      invariant NonDecreasing(popped) && forall c :: c in popped ==> c <= level
      decreases |g.nodes.Keys| - |expanded|, |pq|
    {
      var e, at, rest := PopMin(pq);
      ghost var before := expanded;
      assert e in pq;
      assert EntryOk(g, entry, visited, expanded, e);
      assert level <= e.cost;
      Appended(popped, level, e.cost);
      popped := popped + [e.cost];
      if e.node == goal {
        forall q | IsWalk(g, q, entry, goal) ensures e.cost <= WalkCost(g, q) {
          GoalBound(g, entry, goal, visited, expanded, pq, level, open, q);
        }
        return e.path, Some(e.cost), expanded, popped;
      }
      if e.node in visited && e.cost > visited[e.node] {
        Stale(g, entry, goal, visited, expanded, pq, level, open, at);
        pq, level := rest, e.cost;
        continue;
      }
      Live(g, entry, goal, visited, expanded, pq, level, open, at);
      expanded, level, open := expanded + [e.node], e.cost, e.node;
      visited, pq := Expand(g, entry, goal, visited, expanded, rest, e, Neighbours(g, e.node));
      DistinctWithin(expanded, g.nodes.Keys);
    }
    forall q ensures !IsWalk(g, q, entry, goal) {
      if IsWalk(g, q, entry, goal) {
        GoalBound(g, entry, goal, visited, expanded, pq, level, open, q);
      }
    }
    path, cost := [], None;
  }
}
