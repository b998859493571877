/**
 * Sorted edge lists, failure links and output lists over a trie: the tables that
 * the Rust and the C automaton both maintain, and what makes them right.
 */
module EdgeTable {
  import opened Options
  import opened Bytes
  import opened Sequences
  import opened Trie

  /** Edges are kept sorted by symbol; no edge leads to the root. */
  datatype Edge = Edge(symbol: byte, to: nat)

  /** The edge list of every node. */
  type Links = seq<seq<Edge>>

  predicate SortedEdges(edges: seq<Edge>) {
    forall i, j :: 0 <= i < j < |edges| ==> edges[i].symbol < edges[j].symbol
  }

  /** Where a symbol is, or where it would have to be inserted. */
  datatype Search = Found(idx: nat) | Missing(idx: nat)

  function BinarySearch(edges: seq<Edge>, b: byte): (r: Search)
    requires SortedEdges(edges)
    ensures r.idx <= |edges|
    ensures r.Found? ==> r.idx < |edges| && edges[r.idx].symbol == b
    ensures r.Missing? ==> forall i :: 0 <= i < |edges| ==> if i < r.idx then edges[i].symbol < b else b < edges[i].symbol
  {
    SearchBetween(edges, b, 0, |edges|)
  }

  /** The search once it is down to positions `lo` to `hi`. */
  function SearchBetween(edges: seq<Edge>, b: byte, lo: nat, hi: nat): (r: Search)
    requires SortedEdges(edges) && lo <= hi <= |edges|
    requires forall i :: 0 <= i < lo ==> edges[i].symbol < b
    requires forall i :: hi <= i < |edges| ==> b < edges[i].symbol
    ensures lo <= r.idx <= hi
    ensures r.Found? ==> r.idx < hi && edges[r.idx].symbol == b
    ensures r.Missing? ==> forall i :: 0 <= i < |edges| ==> if i < r.idx then edges[i].symbol < b else b < edges[i].symbol
    decreases hi - lo
  {
    if lo == hi then Missing(lo)
    else
      var mid := (lo + hi) / 2;
      if edges[mid].symbol == b then Found(mid)
      else if edges[mid].symbol < b then SearchBetween(edges, b, mid + 1, hi)
      else SearchBetween(edges, b, lo, mid)
  }

  function Lookup(edges: seq<Edge>, b: byte): (r: Option<nat>)
    requires SortedEdges(edges)
    ensures r.Some? ==> Edge(b, r.value) in edges
    ensures r.None? ==> forall i :: 0 <= i < |edges| ==> edges[i].symbol != b
  {
    match BinarySearch(edges, b)
    case Found(i) => assert edges[i] == Edge(b, edges[i].to); Some(edges[i].to)
    case Missing(_) => None
  }

  ghost predicate NodeLinked(links: Links, words: Words, u: nat)
    requires |links| == |words| && u < |links|
  {
    && SortedEdges(links[u])
    && forall k :: 0 <= k < |links[u]| ==>
         links[u][k].to < |words| && words[links[u][k].to] == words[u] + [links[u][k].symbol]
  }

  ghost predicate IsParent(links: Links, words: Words, p: nat, c: nat)
    requires |links| == |words| && c < |words|
  {
    && p < |links| && IsChild(words, p, c)
    && Edge(words[c][|words[p]|], c) in links[p]
  }

  ghost predicate HasParent(links: Links, words: Words, c: nat)
    requires |links| == |words| && c < |words|
  {
    exists p: nat :: IsParent(links, words, p, c)
  }

  /** Edges extend words by their symbol, and every node but the root has one leading to it. */
  ghost predicate Linked(links: Links, words: Words) {
    && |links| == |words|
    && (forall u: nat :: u < |links| ==> NodeLinked(links, words, u))
    && (forall c: nat :: 0 < c < |links| ==> HasParent(links, words, c))
  }

  lemma ChildHasEdge(links: Links, words: Words, u: nat, c: nat)
    requires IsTrie(words) && Linked(links, words) && u < |links| && IsChild(words, u, c)
    ensures Edge(words[c][|words[u]|], c) in links[u]
  {
    assert HasParent(links, words, c);
    var p: nat :| IsParent(links, words, p, c);
    OneParent(words, p, u, c);
  }

  /** A lookup finds the extended word exactly when the trie contains it. */
  lemma LookupFinds(links: Links, words: Words, u: nat, b: byte)
    requires IsTrie(words) && Linked(links, words) && u < |links|
    ensures NodeLinked(links, words, u)
    ensures match Lookup(links[u], b)
            case Some(v) => 0 < v < |words| && words[v] == words[u] + [b]
            case None => words[u] + [b] !in words
  {
    assert NodeLinked(links, words, u);
    if words[u] + [b] in words {
      var c :| 0 <= c < |words| && words[c] == words[u] + [b];
      ChildHasEdge(links, words, u, c);
    }
  }

  function Targets(edges: seq<Edge>): (r: seq<nat>)
    ensures |r| == |edges| && forall k :: 0 <= k < |edges| ==> r[k] == edges[k].to
  {
    seq(|edges|, k requires 0 <= k < |edges| => edges[k].to)
  }

  /** The targets of a node's edges are its children in the trie, each once. */
  lemma TargetsAreChildren(links: Links, words: Words, u: nat)
    requires IsTrie(words) && Linked(links, words) && u < |links|
    ensures AreChildren(words, u, Targets(links[u]))
  {
    var kids := Targets(links[u]);
    assert NodeLinked(links, words, u);
    forall k | 0 <= k < |kids|
      ensures IsChild(words, u, kids[k]) && words[kids[k]][|words[u]|] == links[u][k].symbol
    {
    }
    forall c: nat | IsChild(words, u, c) ensures c in kids {
      ChildHasEdge(links, words, u, c);
      var k :| 0 <= k < |links[u]| && links[u][k] == Edge(words[c][|words[u]|], c);
      assert kids[k] == c;
    }
  }

  /** The `k`-th child of `u` is reached by its edge and not yet queued when its turn comes. */
  ghost predicate FreshChild(links: Links, words: Words, queue: seq<nat>, u: nat, k: nat)
    requires |links| == |words| && u < |links| && k < |links[u]|
  {
    var v := links[u][k].to;
    && 0 < v < |words|
    && words[v] == words[u] + [links[u][k].symbol]
    && v !in queue + Targets(links[u])[..k]
  }

  lemma ChildrenAreFresh(links: Links, words: Words, queue: seq<nat>, head: nat, k: nat)
    requires IsTrie(words) && Linked(links, words)
    requires Expanded(words, queue, head) && head < |queue| && k < |links[queue[head]]|
    ensures FreshChild(links, words, queue, queue[head], k)
  {
    var u := queue[head];
    TargetsAreChildren(links, words, u);
    assert NodeLinked(links, words, u);
    var v := Targets(links[u])[k];
    ChildrenAreNew(words, queue, head, v);
  }

  // ------------------------------------------------------------------ growing the trie

  function InsertAt<T>(s: seq<T>, i: nat, x: T): (r: seq<T>)
    requires i <= |s|
    ensures |r| == |s| + 1 && r[i] == x
    ensures forall k :: 0 <= k < i ==> r[k] == s[k]
    ensures forall k :: i < k < |r| ==> r[k] == s[k - 1]
  {
    s[..i] + [x] + s[i..]
  }

  lemma GrowWords(words: Words, u: nat, b: byte)
    requires IsTrie(words) && u < |words| && words[u] + [b] !in words
    ensures IsTrie(words + [words[u] + [b]])
  {
    var w := words + [words[u] + [b]];
    forall c: nat | c < |w| ensures HasPrefix(w, c) {
      if c == |words| {
        assert w[c][..|w[c]| - 1] == w[u];
      } else {
        assert HasPrefix(words, c);
      }
    }
    forall i: nat, j: nat | i < |w| && j < |w| ensures Distinct(w, i, j) {
      if i < |words| && j < |words| {
        assert Distinct(words, i, j);
      }
    }
  }

  /** The edge lists after a fresh leaf child of `u` is appended for byte `b`. */
  ghost function WithLeaf(links: Links, u: nat, idx: nat, b: byte): (r: Links)
    requires u < |links| && idx <= |links[u]|
    ensures |r| == |links| + 1 && r[|links|] == []
    ensures forall x :: 0 <= x < |links| && x != u ==> r[x] == links[x]
    ensures r[u] == InsertAt(links[u], idx, Edge(b, |links|))
  {
    links[u := InsertAt(links[u], idx, Edge(b, |links|))] + [[]]
  }

  lemma InsertSortedEdge(edges: seq<Edge>, b: byte, idx: nat, to: nat)
    requires SortedEdges(edges) && idx <= |edges|
    requires forall i :: 0 <= i < |edges| ==> if i < idx then edges[i].symbol < b else b < edges[i].symbol
    ensures SortedEdges(InsertAt(edges, idx, Edge(b, to)))
  {
    var e := InsertAt(edges, idx, Edge(b, to));
    assert e[idx].symbol == b;
    forall i, j | 0 <= i < j < |e| ensures e[i].symbol < e[j].symbol {
      if j < idx {
      } else if i < idx <= j {
        assert e[i] == edges[i] && (j == idx || e[j] == edges[j - 1]);
      } else {
        assert e[j] == edges[j - 1] && (i == idx || e[i] == edges[i - 1]);
      }
    }
  }

  lemma GrowNodeLinked(links: Links, words: Words, u: nat, b: byte, idx: nat)
    requires |links| == |words| && u < |links| && NodeLinked(links, words, u)
    requires BinarySearch(links[u], b) == Missing(idx)
    ensures NodeLinked(WithLeaf(links, u, idx, b), words + [words[u] + [b]], u)
  {
    var l: Links := WithLeaf(links, u, idx, b);
    var w := words + [words[u] + [b]];
    InsertSortedEdge(links[u], b, idx, |links|);
    forall k | 0 <= k < |l[u]| ensures l[u][k].to < |w| && w[l[u][k].to] == w[u] + [l[u][k].symbol] {
      if k == idx {
      } else if k < idx {
        assert l[u][k] == links[u][k];
      } else {
        assert l[u][k] == links[u][k - 1];
      }
    }
  }

  lemma GrowHasParent(links: Links, words: Words, u: nat, b: byte, idx: nat, c: nat)
    requires Linked(links, words) && u < |links| && idx <= |links[u]|
    requires 0 < c <= |links|
    ensures HasParent(WithLeaf(links, u, idx, b), words + [words[u] + [b]], c)
  {
    var l: Links := WithLeaf(links, u, idx, b);
    var w := words + [words[u] + [b]];
    if c == |links| {
      assert l[u][idx] == Edge(b, c);
      assert w[c][..|w[u]|] == w[u];
      assert IsParent(l, w, u, c);
    } else {
      assert HasParent(links, words, c);
      var p: nat :| IsParent(links, words, p, c);
      if p == u {
        var k :| 0 <= k < |links[u]| && links[u][k] == Edge(words[c][|words[p]|], c);
        assert if k < idx then l[u][k] == links[u][k] else l[u][k + 1] == links[u][k];
      }
      assert IsParent(l, w, p, c);
    }
  }

  lemma GrowLinked(links: Links, words: Words, u: nat, b: byte, idx: nat)
    requires IsTrie(words) && Linked(links, words) && u < |links|
    requires SortedEdges(links[u]) && BinarySearch(links[u], b) == Missing(idx)
    ensures words[u] + [b] !in words
    ensures IsTrie(words + [words[u] + [b]])
    ensures Linked(WithLeaf(links, u, idx, b), words + [words[u] + [b]])
  {
    LookupFinds(links, words, u, b);
    GrowWords(words, u, b);
    var l: Links := WithLeaf(links, u, idx, b);
    var w := words + [words[u] + [b]];
    forall x: nat | x < |l| ensures NodeLinked(l, w, x) {
      if x == u {
        GrowNodeLinked(links, words, u, b, idx);
      } else if x < |links| {
        assert NodeLinked(links, words, x);
      }
    }
    forall c: nat | 0 < c < |l| ensures HasParent(l, w, c) {
      GrowHasParent(links, words, u, b, idx, c);
    }
  }

  // ------------------------------------------------------------------ failure links

  /** At all times a failure link leads to a shorter suffix, so every walk along the links ends at the root. */
  ghost predicate Shortens(words: Words, fails: seq<nat>, u: nat)
    requires |fails| == |words| && u < |words|
  {
    fails[u] < |words| && IsSuffix(words[fails[u]], words[u]) && (u != 0 ==> |words[fails[u]]| < |words[u]|)
  }

  ghost predicate Descends(words: Words, fails: seq<nat>) {
    && |fails| == |words|
    && forall u: nat :: u < |words| ==> Shortens(words, fails, u)
  }

  lemma RootIsSuffix(words: Words, s: seq<byte>)
    requires IsTrie(words)
    ensures IsSuffix(words[0], s)
  {
    assert s[|s|..] == [];
  }

  /** Setting the link of one node to a shorter suffix. */
  lemma LinkDescends(words: Words, fails: seq<nat>, v: nat, link: nat)
    requires IsTrie(words) && Descends(words, fails) && 0 < v < |words| && link < |words|
    requires IsSuffix(words[link], words[v]) && |words[link]| < |words[v]|
    ensures Descends(words, fails[v := link])
  {
    var f := fails[v := link];
    forall u: nat | u < |words| ensures Shortens(words, f, u) {
      assert Shortens(words, fails, u);
    }
  }

  lemma RootLinksDescend(words: Words, fails: seq<nat>)
    requires IsTrie(words) && |fails| == |words| && forall u :: 0 <= u < |fails| ==> fails[u] == 0
    ensures Descends(words, fails)
  {
    forall u: nat | u < |words| ensures Shortens(words, fails, u) {
      NonRootNonEmpty(words, u);
      RootIsSuffix(words, words[u]);
    }
  }

  /** A right failure link is a shorter suffix. */
  lemma FailIsSuffix(words: Words, u: nat, f: nat)
    requires IsTrie(words) && 0 < u < |words| && IsFail(words, u, f)
    ensures f < |words| && IsSuffix(words[f], words[u]) && |words[f]| < |words[u]|
  {
    FailIsShorter(words, u, f);
    SuffixTail(words, u);
    SuffixTrans(words[f], words[u][1..], words[u]);
  }

  // ------------------------------------------------------------------ reading between builds

  /** The node's word ends the text: what a scan keeps whatever the state of the links. */
  ghost predicate Reading(words: Words, s: seq<byte>, u: nat) {
    u < |words| && IsSuffix(words[u], s)
  }

  lemma ReadBack(words: Words, fails: seq<nat>, s: seq<byte>, u: nat)
    requires Descends(words, fails) && Reading(words, s, u)
    ensures Reading(words, s, fails[u])
  {
    assert Shortens(words, fails, u);
    SuffixTrans(words[fails[u]], words[u], s);
  }

  lemma ReadOn(links: Links, words: Words, s: seq<byte>, b: byte, u: nat)
    requires IsTrie(words) && Linked(links, words) && Reading(words, s, u) && SortedEdges(links[u])
    ensures Reading(words, s + [b], match Lookup(links[u], b) case Some(next) => next case None => 0)
  {
    LookupFinds(links, words, u, b);
    match Lookup(links[u], b)
    case Some(next) =>
      SuffixSnoc(words[next], s, b);
      assert words[next][..|words[next]| - 1] == words[u];
    case None =>
      RootIsSuffix(words, s + [b]);
  }

  /** What ends where such a word ends does end in the text. */
  lemma EndsInText(words: Words, needles: Needles, s: seq<byte>, u: nat, p: nat)
    requires Reading(words, s, u) && Ends(needles, words[u], p)
    ensures Ends(needles, s, p)
  {
    SuffixTrans(needles[p], words[u], s);
  }

  // ------------------------------------------------------------------ growing the links

  /** A new node starts with its link at the root. */
  lemma GrowDescends(words: Words, fails: seq<nat>, word: seq<byte>)
    requires IsTrie(words) && Descends(words, fails) && word != []
    ensures Descends(words + [word], fails + [0])
  {
    RootIsSuffix(words, word);
    forall x: nat | x <= |words| ensures Shortens(words + [word], fails + [0], x) {
      if x < |words| {
        assert Shortens(words, fails, x);
      }
    }
  }

  ghost predicate FailAt(words: Words, fails: seq<nat>, u: nat)
    requires IsTrie(words) && |fails| == |words| && u < |words|
  {
    0 < u ==> IsFail(words, u, fails[u])
  }

  /** The failure links of all nodes of depth at most `d` are right. */
  ghost predicate FailsUpTo(words: Words, fails: seq<nat>, d: int)
    requires IsTrie(words) && |fails| == |words|
  {
    forall u: nat {:trigger FailAt(words, fails, u)} :: u < |words| && |words[u]| <= d ==> FailAt(words, fails, u)
  }

  ghost predicate AllFails(words: Words, fails: seq<nat>)
    requires IsTrie(words) && |fails| == |words|
  {
    forall u: nat :: u < |words| ==> FailAt(words, fails, u)
  }

  lemma AllFailsUpTo(words: Words, fails: seq<nat>, d: int)
    requires IsTrie(words) && |fails| == |words| && AllFails(words, fails)
    ensures FailsUpTo(words, fails, d)
  {
  }

  ghost predicate FailsOf(words: Words, fails: seq<nat>, queue: seq<nat>)
    requires IsTrie(words) && |fails| == |words|
  {
    forall i :: 0 <= i < |queue| ==> queue[i] < |words| && FailAt(words, fails, queue[i])
  }

  lemma QueuedFails(words: Words, fails: seq<nat>, queue: seq<nat>, head: nat)
    requires IsTrie(words) && |fails| == |words|
    requires Expanded(words, queue, head) && head < |queue| && FailsOf(words, fails, queue)
    ensures FailsUpTo(words, fails, |words[queue[head]]|)
  {
    forall u: nat | u < |words| && |words[u]| <= |words[queue[head]]| ensures FailAt(words, fails, u) {
      if 0 < u {
        ShallowQueued(words, queue, head, u);
      }
    }
  }

  /** A failure node has been expanded before its own turn in the queue comes. */
  lemma FailIsProcessed(words: Words, fails: seq<nat>, queue: seq<nat>, head: nat)
    requires IsTrie(words) && Descends(words, fails) && Expanded(words, queue, head) && head < |queue|
    ensures queue[head] < |words| && fails[queue[head]] < |words|
    ensures fails[queue[head]] == 0 || exists i :: 0 <= i < head && queue[i] == fails[queue[head]]
  {
    var f := fails[queue[head]];
    assert Shortens(words, fails, queue[head]);
    if f != 0 {
      ShallowQueued(words, queue, head, f);
      var i :| 0 <= i < |queue| && queue[i] == f;
      QueueOrder(words, queue, i, head);
    }
  }

  /** Setting the link of a fresh, deeper node leaves the others right. */
  lemma LinkOneMore(words: Words, fails: seq<nat>, queue: seq<nat>, v: nat, link: nat, d: int)
    requires IsTrie(words) && |fails| == |words| && 0 < v < |words| && v !in queue && d < |words[v]|
    requires FailsOf(words, fails, queue) && FailsUpTo(words, fails, d)
    requires FailAt(words, fails[v := link], v)
    ensures FailsOf(words, fails[v := link], queue + [v])
    ensures FailsUpTo(words, fails[v := link], d)
  {
    var f := fails[v := link];
    forall i | 0 <= i < |queue| ensures FailAt(words, f, queue[i]) {
      assert FailAt(words, fails, queue[i]);
    }
    forall u: nat | u < |words| && |words[u]| <= d ensures FailAt(words, f, u) {
      assert FailAt(words, fails, u);
    }
  }

  lemma FinishedFails(words: Words, fails: seq<nat>, queue: seq<nat>)
    requires IsTrie(words) && |fails| == |words|
    requires Expanded(words, queue, |queue|) && FailsOf(words, fails, queue)
    ensures AllFails(words, fails)
  {
    forall u: nat | u < |words| ensures FailAt(words, fails, u) {
      if 0 < u {
        ShallowQueued(words, queue, |queue|, u);
      }
    }
  }

  /** The root's children start the queue, with the root as their failure node. */
  lemma RootChildren(links: Links, words: Words, fails: seq<nat>)
    requires IsTrie(words) && Linked(links, words) && |fails| == |words|
    requires forall u :: u in Targets(links[0]) && u < |fails| ==> fails[u] == 0
    ensures Expanded(words, Targets(links[0]), 0) && FailsOf(words, fails, Targets(links[0]))
  {
    var kids := Targets(links[0]);
    TargetsAreChildren(links, words, 0);
    ExpandRoot(words, kids);
    forall i | 0 <= i < |kids| ensures FailAt(words, fails, kids[i]) {
      assert IsChild(words, 0, kids[i]);
      assert words[kids[i]][1..] == [];
      StartState(words);
    }
  }

  /** What one turn of the breadth-first loop needs and reaches. */
  lemma ChildrenStep(links: Links, words: Words, queue: seq<nat>, head: nat)
    requires IsTrie(words) && Linked(links, words) && Expanded(words, queue, head) && head < |queue|
    ensures 0 < queue[head] < |links|
    ensures forall k: nat :: k < |links[queue[head]]| ==> FreshChild(links, words, queue, queue[head], k)
    ensures Expanded(words, queue + Targets(links[queue[head]]), head + 1)
    ensures head < |words|
  {
    TargetsAreChildren(links, words, queue[head]);
    ExpandNext(words, queue, head, Targets(links[queue[head]]));
    forall k: nat | k < |links[queue[head]]| ensures FreshChild(links, words, queue, queue[head], k) {
      ChildrenAreFresh(links, words, queue, head, k);
    }
    Pigeonhole(queue, |words|);
  }

  /** Where a finished failure walk arrives over `b`. */
  lemma Arrive(links: Links, words: Words, s: seq<byte>, b: byte, f: nat)
    requires IsTrie(words) && Linked(links, words) && Walking(words, s, b, f)
    requires SortedEdges(links[f]) && (f == 0 || Lookup(links[f], b).Some?)
    ensures IsState(words, s + [b], match Lookup(links[f], b) case Some(next) => next case None => 0)
  {
    LookupFinds(links, words, f, b);
    match Lookup(links[f], b)
    case Some(next) => WalkFound(words, s, b, f, next);
    case None => WalkStuck(words, s, b);
  }

  /** One step of the failure walk. */
  lemma Retreat(links: Links, words: Words, fails: seq<nat>, s: seq<byte>, b: byte, f: nat)
    requires IsTrie(words) && Linked(links, words) && |fails| == |words|
    requires Walking(words, s, b, f) && f != 0 && FailAt(words, fails, f)
    requires SortedEdges(links[f]) && Lookup(links[f], b).None?
    ensures Walking(words, s, b, fails[f])
  {
    LookupFinds(links, words, f, b);
    WalkFollow(words, s, b, f, fails[f]);
  }

  // ------------------------------------------------------------------ outputs

  type Needles = seq<seq<byte>>

  ghost predicate NeedleOk(words: Words, needles: Needles, p: nat)
    requires p < |needles|
  {
    needles[p] != [] && needles[p] in words
  }

  ghost predicate NeedlesOk(words: Words, needles: Needles) {
    forall p: nat :: p < |needles| ==> NeedleOk(words, needles, p)
  }

  /** The patterns whose needle is exactly `word`. */
  ghost predicate IsOwn(needles: Needles, word: seq<byte>, p: nat) {
    p < |needles| && needles[p] == word
  }

  /** The patterns that end where `word` ends: those whose needle is a suffix of it. */
  ghost predicate Ends(needles: Needles, word: seq<byte>, p: nat) {
    p < |needles| && IsSuffix(needles[p], word)
  }

  /** What ends at a node is its own patterns and what ends at its failure node. */
  lemma EndsByFail(words: Words, needles: Needles, u: nat, f: nat, p: nat)
    requires IsTrie(words) && NeedlesOk(words, needles) && 0 < u < |words| && IsFail(words, u, f)
    ensures Ends(needles, words[u], p) <==> IsOwn(needles, words[u], p) || Ends(needles, words[f], p)
  {
    if p < |needles| {
      assert NeedleOk(words, needles, p);
      FailCarriesSuffixes(words, u, f, needles[p]);
    }
  }

  lemma NothingEndsAtRoot(words: Words, needles: Needles, p: nat)
    requires IsTrie(words) && NeedlesOk(words, needles)
    ensures !Ends(needles, words[0], p) && !IsOwn(needles, words[0], p)
  {
    if p < |needles| {
      assert NeedleOk(words, needles, p);
    }
  }

  /** In state `u` for the text read so far, what ends at `u` is what ends in the text. */
  lemma EndsByState(words: Words, needles: Needles, s: seq<byte>, u: nat, p: nat)
    requires NeedlesOk(words, needles) && IsState(words, s, u)
    ensures Ends(needles, words[u], p) <==> Ends(needles, s, p)
  {
    if p < |needles| {
      assert NeedleOk(words, needles, p);
      StateCarriesSuffixes(words, s, u, needles[p]);
    }
  }

  lemma StartState(words: Words)
    requires IsTrie(words)
    ensures IsState(words, [], 0)
  {
  }
}
