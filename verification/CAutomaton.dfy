/**
 * The C Aho-Corasick automaton. It differs from the Rust one in three ways that
 * matter: edges are parallel arrays searched by an explicit binary search, outputs
 * are inherited into the same list that holds a node's own patterns, and a rebuild
 * after further additions never clears what an earlier build inherited.
 */
module CAutomaton {
  import opened Options
  import opened Bytes
  import opened Utf8
  import opened Sequences
  import opened Trie
  import opened EdgeTable

  datatype Status = OK | ERR_NULL | ERR_EMPTY | ERR_STATE | ERR_DUP

  /** A C string: its bytes before the terminating NUL. */
  type CStr = s: seq<byte> | 0 !in s

  /** `bytes` and `children` are the parallel edge arrays of a node. */
  datatype Node = Node(bytes: seq<byte>, children: seq<nat>, fail: nat, outputs: seq<nat>)

  const ZEROED := Node([], [], 0, [])

  datatype Match = Match(name: CStr, pattern: CStr, position: nat)

  // ------------------------------------------------------------------ columns

  ghost function EdgesOf(n: Node): (r: seq<Edge>)
    requires |n.bytes| == |n.children|
    ensures |r| == |n.bytes| && forall k :: 0 <= k < |r| ==> r[k] == Edge(n.bytes[k], n.children[k])
  {
    seq(|n.bytes|, k requires 0 <= k < |n.bytes| => Edge(n.bytes[k], n.children[k]))
  }

  ghost predicate Parallel(nodes: seq<Node>) {
    forall u :: 0 <= u < |nodes| ==> |nodes[u].bytes| == |nodes[u].children|
  }

  ghost function LinksOf(nodes: seq<Node>): (r: Links)
    requires Parallel(nodes)
    ensures |r| == |nodes| && forall u :: 0 <= u < |nodes| ==> r[u] == EdgesOf(nodes[u])
  {
    seq(|nodes|, u requires 0 <= u < |nodes| => EdgesOf(nodes[u]))
  }

  ghost function FailsIn(nodes: seq<Node>): (r: seq<nat>)
    ensures |r| == |nodes| && forall u :: 0 <= u < |nodes| ==> r[u] == nodes[u].fail
  {
    seq(|nodes|, u requires 0 <= u < |nodes| => nodes[u].fail)
  }

  ghost function NeedlesOf(patterns: seq<CStr>): (r: Needles)
    ensures |r| == |patterns| && forall p :: 0 <= p < |patterns| ==> r[p] == Fold(patterns[p])
  {
    seq(|patterns|, p requires 0 <= p < |patterns| => Fold(patterns[p]))
  }

  // ------------------------------------------------------------------ invariants

  /** At all times: own patterns are listed, and whatever is listed does end here. */
  ghost predicate ListedAt(nodes: seq<Node>, words: Words, needles: Needles, u: nat)
    requires |nodes| == |words| && u < |nodes|
  {
    && AllDistinct(nodes[u].outputs)
    && (forall p: nat :: p in nodes[u].outputs ==> Ends(needles, words[u], p))
    && (forall p: nat :: IsOwn(needles, words[u], p) ==> p in nodes[u].outputs)
  }

  /** After a build: exactly the patterns that end here are listed. */
  ghost predicate FullAt(nodes: seq<Node>, words: Words, needles: Needles, u: nat)
    requires |nodes| == |words| && u < |nodes|
  {
    forall p: nat :: Ends(needles, words[u], p) ==> p in nodes[u].outputs
  }

  ghost predicate Listed(nodes: seq<Node>, words: Words, needles: Needles) {
    && |nodes| == |words|
    && forall u: nat :: u < |nodes| ==> ListedAt(nodes, words, needles, u)
  }

  ghost predicate Represents(nodes: seq<Node>, words: Words, needles: Needles) {
    && Parallel(nodes)
    && IsTrie(words)
    && Linked(LinksOf(nodes), words)
    && Descends(words, FailsIn(nodes))
    && NeedlesOk(words, needles)
    && Listed(nodes, words, needles)
  }

  ghost predicate Compiled(nodes: seq<Node>, words: Words, needles: Needles)
    requires IsTrie(words) && |nodes| == |words|
  {
    && AllFails(words, FailsIn(nodes))
    && forall u: nat :: u < |nodes| ==> FullAt(nodes, words, needles, u)
  }

  ghost predicate DifferentSignatures(names: seq<CStr>, patterns: seq<CStr>, p: nat, q: nat)
    requires |names| == |patterns| && p < |names| && q < |names|
  {
    names[p] == names[q] && patterns[p] == patterns[q] ==> p == q
  }

  ghost predicate SignaturesOk(names: seq<CStr>, patterns: seq<CStr>) {
    && |names| == |patterns|
    && forall p: nat, q: nat :: p < |names| && q < |names| ==> DifferentSignatures(names, patterns, p, q)
  }

  // ------------------------------------------------------------------ edge access

  /** `edge_find`: binary search over the sorted labels. */
  method EdgeFind(n: Node, b: byte) returns (child: Option<nat>)
    requires |n.bytes| == |n.children| && SortedEdges(EdgesOf(n))
    ensures child == Lookup(EdgesOf(n), b)
  {
    ghost var edges := EdgesOf(n);
    LookupUnique(edges, b);
    var lo, hi := 0, |n.bytes|;
    while lo < hi
      invariant 0 <= lo <= hi <= |n.bytes|
      invariant forall i :: 0 <= i < lo ==> edges[i].symbol < b
      invariant forall i :: hi <= i < |edges| ==> b < edges[i].symbol
    {
      var mid := lo + (hi - lo) / 2;
      assert edges[mid] == Edge(n.bytes[mid], n.children[mid]);
      if n.bytes[mid] == b {
        return Some(n.children[mid]);
      }
      if n.bytes[mid] < b {
        lo := mid + 1;
      } else {
        hi := mid;
      }
    }
    child := None;
  }

  lemma LookupUnique(edges: seq<Edge>, b: byte)
    requires SortedEdges(edges)
    ensures forall i :: 0 <= i < |edges| && edges[i].symbol == b ==> Lookup(edges, b) == Some(edges[i].to)
    ensures (forall i :: 0 <= i < |edges| ==> edges[i].symbol != b) ==> Lookup(edges, b) == None
  {
  }

  /** `edge_insert`: finds the slot by a linear scan and shifts both arrays. */
  method EdgeInsert(n: Node, b: byte, child: nat) returns (r: Node)
    requires |n.bytes| == |n.children| && SortedEdges(EdgesOf(n)) && Lookup(EdgesOf(n), b) == None
    ensures |r.bytes| == |r.children| && r.fail == n.fail && r.outputs == n.outputs
    ensures BinarySearch(EdgesOf(n), b).Missing?
    ensures EdgesOf(r) == InsertAt(EdgesOf(n), BinarySearch(EdgesOf(n), b).idx, Edge(b, child))
  {
    ghost var edges := EdgesOf(n);
    var pos := 0;
    while pos < |n.bytes| && n.bytes[pos] < b
      invariant 0 <= pos <= |n.bytes|
      invariant forall i :: 0 <= i < pos ==> edges[i].symbol < b
    {
      pos := pos + 1;
    }
    ghost var idx := BinarySearch(edges, b).idx;
    assert pos < |edges| ==> edges[pos].symbol == n.bytes[pos];
    assert idx < |edges| ==> b < edges[idx].symbol;
    assert pos == idx;
    r := n.(bytes := InsertAt(n.bytes, pos, b), children := InsertAt(n.children, pos, child));
    assert EdgesOf(r) == InsertAt(edges, pos, Edge(b, child));
  }

  /** `node_outputs_push`: appends unless already listed. */
  method OutputsPush(n: Node, p: nat) returns (r: Node)
    requires AllDistinct(n.outputs)
    ensures r == n.(outputs := r.outputs) && AllDistinct(r.outputs)
    ensures forall x :: x in r.outputs <==> x in n.outputs || x == p
  {
    for i := 0 to |n.outputs|
      invariant p !in n.outputs[..i]
    {
      if n.outputs[i] == p {
        return n;
      }
    }
    assert n.outputs[..|n.outputs|] == n.outputs;
    r := n.(outputs := n.outputs + [p]);
  }

  // ------------------------------------------------------------------ growing

  lemma GrowListed(nodes: seq<Node>, words: Words, needles: Needles, grown: seq<Node>, u: nat, b: byte)
    requires Listed(nodes, words, needles) && NeedlesOk(words, needles) && u < |nodes|
    requires words[u] + [b] !in words
    requires |grown| == |nodes| + 1 && grown[|nodes|].outputs == []
    requires forall x :: 0 <= x < |nodes| ==> grown[x].outputs == nodes[x].outputs
    ensures NeedlesOk(words + [words[u] + [b]], needles)
    ensures Listed(grown, words + [words[u] + [b]], needles)
  {
    var w := words + [words[u] + [b]];
    forall p: nat | p < |needles| ensures NeedleOk(w, needles, p) && needles[p] in words {
      assert NeedleOk(words, needles, p);
    }
    forall x: nat | x < |grown| ensures ListedAt(grown, w, needles, x) {
      if x < |nodes| {
        assert ListedAt(nodes, words, needles, x);
      }
    }
  }

  /** Appending a fresh node and linking it from `u`. */
  lemma Grow(nodes: seq<Node>, words: Words, needles: Needles, u: nat, b: byte, parent: Node)
    requires Represents(nodes, words, needles) && u < |nodes| && SortedEdges(EdgesOf(nodes[u]))
    requires Lookup(EdgesOf(nodes[u]), b) == None
    requires |parent.bytes| == |parent.children| && parent.fail == nodes[u].fail && parent.outputs == nodes[u].outputs
    requires BinarySearch(EdgesOf(nodes[u]), b).Missing?
    requires EdgesOf(parent) == InsertAt(EdgesOf(nodes[u]), BinarySearch(EdgesOf(nodes[u]), b).idx, Edge(b, |nodes|))
    ensures Represents(nodes[u := parent] + [ZEROED], words + [words[u] + [b]], needles)
  {
    var n := nodes[u := parent] + [ZEROED];
    var idx := BinarySearch(EdgesOf(nodes[u]), b).idx;
    GrowLinked(LinksOf(nodes), words, u, b, idx);
    GrowListed(nodes, words, needles, n, u, b);
    GrowDescends(words, FailsIn(nodes), words[u] + [b]);
    assert LinksOf(n) == WithLeaf(LinksOf(nodes), u, idx, b);
    assert FailsIn(n) == FailsIn(nodes) + [0];
  }

  /** Only links and outputs differ. */
  ghost predicate SameTrie(a: seq<Node>, b: seq<Node>) {
    && |a| == |b|
    && forall u :: 0 <= u < |a| ==> a[u].bytes == b[u].bytes && a[u].children == b[u].children
  }

  lemma SameTrieRepresents(a: seq<Node>, b: seq<Node>, words: Words, before: Needles, needles: Needles)
    requires Represents(a, words, before) && SameTrie(a, b) && Descends(words, FailsIn(b))
    requires NeedlesOk(words, needles) && Listed(b, words, needles)
    ensures Parallel(b) && LinksOf(a) == LinksOf(b) && Represents(b, words, needles)
  {
    forall u | 0 <= u < |b| ensures |b[u].bytes| == |b[u].children| {
      assert a[u].bytes == b[u].bytes;
    }
    forall u | 0 <= u < |b| ensures EdgesOf(a[u]) == EdgesOf(b[u]) {
      assert a[u].bytes == b[u].bytes;
    }
    assert LinksOf(a) == LinksOf(b);
  }

  /** Registering a further pattern that ends at node `u`. */
  lemma Register(nodes: seq<Node>, words: Words, needles: Needles, u: nat, sealed: Node)
    requires Represents(nodes, words, needles) && 0 < u < |nodes|
    requires sealed == nodes[u].(outputs := sealed.outputs) && AllDistinct(sealed.outputs)
    requires forall x :: x in sealed.outputs <==> x in nodes[u].outputs || x == |needles|
    ensures Represents(nodes[u := sealed], words, needles + [words[u]])
  {
    var n, ns := nodes[u := sealed], needles + [words[u]];
    NonRootNonEmpty(words, u);
    forall p: nat | p < |ns| ensures NeedleOk(words, ns, p) {
      if p < |needles| { assert NeedleOk(words, needles, p); }
    }
    assert words[u][0..] == words[u];
    forall x: nat | x < |n| ensures ListedAt(n, words, ns, x) {
      assert ListedAt(nodes, words, needles, x);
      assert Distinct(words, x, u);
      forall p: nat | p in n[x].outputs ensures Ends(ns, words[x], p) {
        assert p in nodes[x].outputs ==> Ends(needles, words[x], p);
      }
      forall p: nat | IsOwn(ns, words[x], p) ensures p in n[x].outputs {
        assert IsOwn(needles, words[x], p) ==> p in nodes[x].outputs;
      }
    }
    assert FailsIn(n) == FailsIn(nodes);
    SameTrieRepresents(nodes, n, words, needles, ns);
  }

  // ------------------------------------------------------------------ inheriting

  /** The queue members before `k`, and the root, list everything that ends at them. */
  ghost predicate FullTo(nodes: seq<Node>, words: Words, needles: Needles, queue: seq<nat>, k: nat)
    requires |nodes| == |words| > 0
  {
    && FullAt(nodes, words, needles, 0)
    && forall i :: 0 <= i < k && i < |queue| ==> queue[i] < |nodes| && FullAt(nodes, words, needles, queue[i])
  }

  /** Pushes every output of the failure node. */
  method Inherit(n: Node, inherited: seq<nat>) returns (r: Node)
    requires AllDistinct(n.outputs)
    ensures r == n.(outputs := r.outputs) && AllDistinct(r.outputs)
    ensures forall x :: x in r.outputs <==> x in n.outputs || x in inherited
  {
    r := n;
    for k := 0 to |inherited|
      invariant r == n.(outputs := r.outputs) && AllDistinct(r.outputs)
      invariant forall x :: x in r.outputs <==> x in n.outputs || x in inherited[..k]
    {
      r := OutputsPush(r, inherited[k]);
      assert inherited[..k + 1] == inherited[..k] + [inherited[k]];
    }
    assert inherited[..|inherited|] == inherited;
  }

  /** Inheriting keeps every list sound and makes this node's complete. */
  lemma InheritStep(nodes: seq<Node>, words: Words, needles: Needles, u: nat, r: Node)
    requires Represents(nodes, words, needles) && 0 < u < |nodes| && nodes[u].fail < |nodes|
    requires FailAt(words, FailsIn(nodes), u) && FullAt(nodes, words, needles, nodes[u].fail)
    requires r == nodes[u].(outputs := r.outputs) && AllDistinct(r.outputs)
    requires forall x :: x in r.outputs <==> x in nodes[u].outputs || x in nodes[nodes[u].fail].outputs
    ensures SameTrie(nodes, nodes[u := r]) && FailsIn(nodes[u := r]) == FailsIn(nodes)
    ensures Represents(nodes[u := r], words, needles)
    ensures FullAt(nodes[u := r], words, needles, u)
  {
    var n := nodes[u := r];
    var f := nodes[u].fail;
    assert ListedAt(nodes, words, needles, u) && ListedAt(nodes, words, needles, f);
    forall p: nat
      ensures p in r.outputs ==> Ends(needles, words[u], p)
      ensures Ends(needles, words[u], p) ==> p in r.outputs
    {
      EndsByFail(words, needles, u, f, p);
      assert p in nodes[u].outputs ==> Ends(needles, words[u], p);
      assert p in nodes[f].outputs ==> Ends(needles, words[f], p);
      assert IsOwn(needles, words[u], p) ==> p in nodes[u].outputs;
      assert Ends(needles, words[f], p) ==> p in nodes[f].outputs;
    }
    forall x: nat | x < |n| ensures ListedAt(n, words, needles, x) {
      assert ListedAt(nodes, words, needles, x);
    }
    assert FailsIn(n) == FailsIn(nodes);
    SameTrieRepresents(nodes, n, words, needles, needles);
  }

  /** Completing one more queue member. */
  lemma FullStep(nodes: seq<Node>, words: Words, needles: Needles, queue: seq<nat>, k: nat, r: Node)
    requires |nodes| == |words| > 0 && k < |queue| && 0 < queue[k] < |nodes| && queue[k] !in queue[..k]
    requires FullTo(nodes, words, needles, queue, k) && FullAt(nodes[queue[k] := r], words, needles, queue[k])
    ensures FullTo(nodes[queue[k] := r], words, needles, queue, k + 1)
  {
    var n := nodes[queue[k] := r];
    assert FullAt(nodes, words, needles, 0);
    assert FullAt(n, words, needles, 0);
    forall i | 0 <= i < k ensures FullAt(n, words, needles, queue[i]) {
      assert FullAt(nodes, words, needles, queue[i]);
      assert queue[i] in queue[..k];
    }
  }

  lemma FullFrame(a: seq<Node>, b: seq<Node>, words: Words, needles: Needles, queue: seq<nat>, more: seq<nat>, k: nat)
    requires |a| == |b| == |words| > 0 && k <= |queue|
    requires forall x :: 0 <= x < |a| ==> a[x].outputs == b[x].outputs
    requires FullTo(a, words, needles, queue, k)
    ensures FullTo(b, words, needles, queue + more, k)
  {
    assert FullAt(a, words, needles, 0) && FullAt(b, words, needles, 0);
    forall i | 0 <= i < k ensures FullAt(b, words, needles, queue[i]) {
      assert FullAt(a, words, needles, queue[i]);
    }
  }

  lemma Relink(nodes: seq<Node>, words: Words, needles: Needles, v: nat, link: nat)
    requires Represents(nodes, words, needles) && 0 < v < |nodes| && link < |nodes|
    requires IsSuffix(words[link], words[v]) && |words[link]| < |words[v]|
    ensures SameTrie(nodes, nodes[v := nodes[v].(fail := link)])
    ensures Represents(nodes[v := nodes[v].(fail := link)], words, needles)
    ensures FailsIn(nodes[v := nodes[v].(fail := link)]) == FailsIn(nodes)[v := link]
  {
    var n := nodes[v := nodes[v].(fail := link)];
    assert FailsIn(n) == FailsIn(nodes)[v := link];
    LinkDescends(words, FailsIn(nodes), v, link);
    forall x: nat | x < |n| ensures ListedAt(n, words, needles, x) {
      assert ListedAt(nodes, words, needles, x);
    }
    SameTrieRepresents(nodes, n, words, needles, needles);
  }

  lemma RootIsFull(nodes: seq<Node>, words: Words, needles: Needles, queue: seq<nat>)
    requires Represents(nodes, words, needles)
    ensures FullTo(nodes, words, needles, queue, 0)
  {
    forall p: nat ensures !Ends(needles, words[0], p) {
      NothingEndsAtRoot(words, needles, p);
    }
  }

  lemma FullDone(nodes: seq<Node>, words: Words, needles: Needles, queue: seq<nat>)
    requires Represents(nodes, words, needles) && Expanded(words, queue, |queue|)
    requires FailsOf(words, FailsIn(nodes), queue) && FullTo(nodes, words, needles, queue, |queue|)
    ensures Compiled(nodes, words, needles)
  {
    FinishedFails(words, FailsIn(nodes), queue);
    forall u: nat | u < |nodes| ensures FullAt(nodes, words, needles, u) {
      if u != 0 {
        ShallowQueued(words, queue, |queue|, u);
      }
    }
  }

  /** A failure node is complete before its own turn comes. */
  lemma FailIsFull(nodes: seq<Node>, words: Words, needles: Needles, queue: seq<nat>, head: nat)
    requires Represents(nodes, words, needles) && Expanded(words, queue, head) && head < |queue|
    requires FullTo(nodes, words, needles, queue, head)
    ensures 0 < queue[head] < |nodes| && queue[head] !in queue[..head]
    ensures nodes[queue[head]].fail < |nodes| && FullAt(nodes, words, needles, nodes[queue[head]].fail)
  {
    QueueEntry(words, queue, head);
    FailIsProcessed(words, FailsIn(nodes), queue, head);
  }

  // ------------------------------------------------------------------ scanning

  /** Signature `m` is registered and its pattern occurs at `m.position`, ignoring ASCII case. */
  ghost predicate Reports(names: seq<CStr>, patterns: seq<CStr>, text: seq<byte>, m: Match) {
    && (exists k :: 0 <= k < |names| && k < |patterns| && names[k] == m.name && patterns[k] == m.pattern)
    && OccursAt(Fold(m.pattern), Fold(text), m.position)
  }

  /** Reports that end within the first `n` bytes, each once. */
  ghost predicate SoundTo(names: seq<CStr>, patterns: seq<CStr>, text: seq<byte>, out: seq<Match>, n: nat) {
    && AllDistinct(out)
    && forall m :: m in out ==> Reports(names, patterns, text, m) && m.position + |m.pattern| <= n
  }

  /** All of them. */
  ghost predicate ReportedTo(names: seq<CStr>, patterns: seq<CStr>, text: seq<byte>, out: seq<Match>, n: nat) {
    && SoundTo(names, patterns, text, out, n)
    && forall m: Match :: Reports(names, patterns, text, m) && m.position + |m.pattern| <= n ==> m in out
  }

  /** The callback arguments for one listed pattern. */
  function MatchFor(names: seq<CStr>, patterns: seq<CStr>, k: nat, end: nat): Match
    requires k < |names| == |patterns|
  {
    Match(names[k], patterns[k], if end >= |patterns[k]| then end - |patterns[k]| else 0)
  }

  ghost function MatchesAt(names: seq<CStr>, patterns: seq<CStr>, outputs: seq<nat>, end: nat): (r: seq<Match>)
    requires |names| == |patterns| && forall i :: 0 <= i < |outputs| ==> outputs[i] < |names|
    ensures |r| == |outputs| && forall i :: 0 <= i < |outputs| ==> r[i] == MatchFor(names, patterns, outputs[i], end)
  {
    seq(|outputs|, i requires 0 <= i < |outputs| => MatchFor(names, patterns, outputs[i], end))
  }

  /** A node whose word ends the text lists only patterns that end in the text. */
  lemma OutputsSound(words: Words, nodes: seq<Node>, needles: Needles, s: seq<byte>, u: nat)
    requires Represents(nodes, words, needles) && Reading(words, s, u)
    ensures AllDistinct(nodes[u].outputs) && forall p: nat :: p in nodes[u].outputs ==> Ends(needles, s, p)
  {
    assert ListedAt(nodes, words, needles, u);
    forall p: nat | p in nodes[u].outputs ensures Ends(needles, s, p) {
      EndsInText(words, needles, s, u, p);
    }
  }

  /** A compiled state lists exactly the patterns that end in the text read so far. */
  lemma OutputsEnd(words: Words, nodes: seq<Node>, needles: Needles, s: seq<byte>, u: nat)
    requires Represents(nodes, words, needles) && Compiled(nodes, words, needles) && IsState(words, s, u)
    ensures AllDistinct(nodes[u].outputs)
    ensures forall p: nat :: p in nodes[u].outputs <==> Ends(needles, s, p)
  {
    assert ListedAt(nodes, words, needles, u) && FullAt(nodes, words, needles, u);
    forall p: nat ensures p in nodes[u].outputs <==> Ends(needles, s, p) {
      EndsByState(words, needles, s, u, p);
    }
  }

  /** Listed patterns that end in the text are reports. */
  lemma OutputIsReport(names: seq<CStr>, patterns: seq<CStr>, outputs: seq<nat>, text: seq<byte>, end: nat, i: nat)
    requires |names| == |patterns| && end <= |text| && i < |outputs|
    requires Ends(NeedlesOf(patterns), Fold(text[..end]), outputs[i])
    ensures var m := MatchFor(names, patterns, outputs[i], end);
      Reports(names, patterns, text, m) && m.position + |m.pattern| == end
  {
    EndsAndStarts(Fold(patterns[outputs[i]]), text, end);
  }

  lemma OutputsAreReports(names: seq<CStr>, patterns: seq<CStr>, outputs: seq<nat>, text: seq<byte>, end: nat, m: Match)
    requires |names| == |patterns| && end <= |text|
    requires forall p: nat :: p in outputs <==> Ends(NeedlesOf(patterns), Fold(text[..end]), p)
    requires forall i :: 0 <= i < |outputs| ==> outputs[i] < |names|
    ensures m in MatchesAt(names, patterns, outputs, end)
       <==> Reports(names, patterns, text, m) && m.position + |m.pattern| == end
  {
    var ms := MatchesAt(names, patterns, outputs, end);
    if m in ms {
      var i :| 0 <= i < |ms| && ms[i] == m;
      assert outputs[i] in outputs;
      OutputIsReport(names, patterns, outputs, text, end, i);
    }
    if Reports(names, patterns, text, m) && m.position + |m.pattern| == end {
      var k :| 0 <= k < |names| && k < |patterns| && names[k] == m.name && patterns[k] == m.pattern;
      EndsAndStarts(Fold(patterns[k]), text, end);
      assert Ends(NeedlesOf(patterns), Fold(text[..end]), k);
      var i :| 0 <= i < |outputs| && outputs[i] == k;
      assert ms[i] == m;
    }
  }

  lemma MatchesDistinct(names: seq<CStr>, patterns: seq<CStr>, outputs: seq<nat>, end: nat)
    requires SignaturesOk(names, patterns) && AllDistinct(outputs)
    requires forall i :: 0 <= i < |outputs| ==> outputs[i] < |names|
    ensures AllDistinct(MatchesAt(names, patterns, outputs, end))
  {
    var ms := MatchesAt(names, patterns, outputs, end);
    forall i, j | 0 <= i < j < |ms| ensures ms[i] != ms[j] {
      assert DifferentSignatures(names, patterns, outputs[i], outputs[j]);
    }
  }

  /** One more byte of the scan, in a node whose word ends the text: nothing is reported that does not occur. */
  lemma MoreSound(names: seq<CStr>, patterns: seq<CStr>, outputs: seq<nat>, text: seq<byte>, out: seq<Match>, i: nat)
    requires SignaturesOk(names, patterns) && i < |text| && AllDistinct(outputs)
    requires forall p: nat :: p in outputs ==> Ends(NeedlesOf(patterns), Fold(text[..i + 1]), p)
    requires SoundTo(names, patterns, text, out, i)
    ensures forall k :: 0 <= k < |outputs| ==> outputs[k] < |names|
    ensures SoundTo(names, patterns, text, out + MatchesAt(names, patterns, outputs, i + 1), i + 1)
  {
    forall k | 0 <= k < |outputs| ensures outputs[k] < |names| {
      assert outputs[k] in outputs;
    }
    MatchesDistinct(names, patterns, outputs, i + 1);
    var found := MatchesAt(names, patterns, outputs, i + 1);
    forall m | m in found ensures Reports(names, patterns, text, m) && m.position + |m.pattern| == i + 1 {
      var k :| 0 <= k < |found| && found[k] == m;
      assert outputs[k] in outputs;
      OutputIsReport(names, patterns, outputs, text, i + 1, k);
    }
    JoinDistinct(out, found, i);
  }

  /** And in a compiled state everything that ends there is reported. */
  lemma MoreReports(names: seq<CStr>, patterns: seq<CStr>, outputs: seq<nat>, text: seq<byte>, out: seq<Match>, i: nat)
    requires SignaturesOk(names, patterns) && i < |text| && AllDistinct(outputs)
    requires forall p: nat :: p in outputs <==> Ends(NeedlesOf(patterns), Fold(text[..i + 1]), p)
    requires ReportedTo(names, patterns, text, out, i)
    ensures forall k :: 0 <= k < |outputs| ==> outputs[k] < |names|
    ensures ReportedTo(names, patterns, text, out + MatchesAt(names, patterns, outputs, i + 1), i + 1)
  {
    MoreSound(names, patterns, outputs, text, out, i);
    var found := MatchesAt(names, patterns, outputs, i + 1);
    forall m: Match | Reports(names, patterns, text, m) && m.position + |m.pattern| <= i + 1 ensures m in out + found {
      OutputsAreReports(names, patterns, outputs, text, i + 1, m);
    }
  }

  lemma JoinDistinct(a: seq<Match>, b: seq<Match>, n: nat)
    requires AllDistinct(a) && AllDistinct(b)
    requires forall m :: m in a ==> m.position + |m.pattern| <= n
    requires forall m :: m in b ==> m.position + |m.pattern| == n + 1
    ensures AllDistinct(a + b)
  {
    var c := a + b;
    forall i, j | 0 <= i < j < |c| ensures c[i] != c[j] {
      if i < |a| <= j {
        assert c[i] in a && c[j] in b;
      } else if |a| <= i {
        assert c[i] == b[i - |a|] && c[j] == b[j - |a|];
      }
    }
  }

  class Automaton {
    var nodes: seq<Node>
    var names: seq<CStr>
    var patterns: seq<CStr>
    var built: bool
    ghost var words: Words
    /** No pattern was added since the last build. */
    ghost var current: bool

    ghost predicate Valid()
      reads this
    {
      && Represents(nodes, words, NeedlesOf(patterns))
      && SignaturesOk(names, patterns)
      && (current ==> built && Compiled(nodes, words, NeedlesOf(patterns)))
    }

    constructor ()
      ensures Valid() && names == [] && patterns == [] && !built && !current
    {
      nodes := [ZEROED];
      names, patterns := [], [];
      built, current := false, false;
      words := [[]];
    }

    /** `ac_advance`: follows failure links until an edge for `b` exists, or stays at the root. */
    method Advance(from: nat, b: byte, ghost s: seq<byte>) returns (next: nat)
      requires Represents(nodes, words, NeedlesOf(patterns)) && from < |nodes|
      ensures next < |nodes| && |words[next]| <= |words[from]| + 1
      ensures Walking(words, s, b, from) && FailsUpTo(words, FailsIn(nodes), |words[from]|)
        ==> IsState(words, s + [b], next)
      ensures Reading(words, s, from) ==> Reading(words, s + [b], next)
    {
      var state: nat := from;
      while true
        invariant state < |nodes| && |words[state]| <= |words[from]|
        invariant Walking(words, s, b, from) && FailsUpTo(words, FailsIn(nodes), |words[from]|)
          ==> Walking(words, s, b, state)
        invariant Reading(words, s, from) ==> Reading(words, s, state)
        decreases |words[state]|
      {
        LookupFinds(LinksOf(nodes), words, state, b);
        var child := EdgeFind(nodes[state], b);
        if child.Some? || state == 0 {
          if Walking(words, s, b, state) {
            Arrive(LinksOf(nodes), words, s, b, state);
          }
          if Reading(words, s, state) {
            ReadOn(LinksOf(nodes), words, s, b, state);
          }
          return if child.Some? then child.value else 0;
        }
        assert Shortens(words, FailsIn(nodes), state);
        if Reading(words, s, state) {
          ReadBack(words, FailsIn(nodes), s, state);
        }
        if Walking(words, s, b, from) && FailsUpTo(words, FailsIn(nodes), |words[from]|) {
          assert FailAt(words, FailsIn(nodes), state);
          Retreat(LinksOf(nodes), words, FailsIn(nodes), s, b, state);
        }
        state := nodes[state].fail;
      }
    }

    /** One byte of the insertion loop of `hc_ac_add`. */
    method Descend(cur: nat, b: byte, ghost needles: Needles) returns (next: nat)
      requires Represents(nodes, words, needles) && cur < |nodes|
      modifies this`nodes, this`words
      ensures Represents(nodes, words, needles)
      ensures 0 < next < |nodes| && words[next] == old(words[cur]) + [b]
    {
      LookupFinds(LinksOf(nodes), words, cur, b);
      var child := EdgeFind(nodes[cur], b);
      if child.Some? {
        return child.value;
      }
      next := |nodes|;
      var parent := EdgeInsert(nodes[cur], b, next);
      Grow(nodes, words, needles, cur, b, parent);
      words := words + [words[cur] + [b]];
      nodes := nodes[cur := parent] + [ZEROED];
    }

    /** `hc_ac_add`; `None` stands for a NULL argument. */
    method Add(name: Option<CStr>, pattern: Option<CStr>) returns (status: Status)
      requires Valid()
      modifies this
      ensures Valid()
      ensures pattern.None? ==> status == ERR_NULL
      ensures pattern == Some([]) ==> status == ERR_EMPTY
      ensures pattern.Some? && pattern.value != [] ==>
        var n := if name.Some? && name.value != [] then name.value else pattern.value;
        if exists i :: 0 <= i < |old(names)| && old(names)[i] == n && old(patterns)[i] == pattern.value
        then status == ERR_DUP
        else status == OK && names == old(names) + [n] && patterns == old(patterns) + [pattern.value] && !current
      ensures status != OK ==> nodes == old(nodes) && names == old(names) && patterns == old(patterns) && current == old(current)
      ensures built == old(built)
    {
      if pattern.None? {
        return ERR_NULL;
      }
      var text := pattern.value;
      if |text| == 0 {
        return ERR_EMPTY;
      }
      var effective := if name.Some? && |name.value| != 0 then name.value else text;
      for i := 0 to |names|
        invariant forall j :: 0 <= j < i ==> !(names[j] == effective && patterns[j] == text)
      {
        if names[i] == effective && patterns[i] == text {
          return ERR_DUP;
        }
      }
      ghost var needles := NeedlesOf(patterns);
      var index := |patterns|;
      NewSignature(names, patterns, effective, text);
      names, patterns := names + [effective], patterns + [text];
      current := false;
      var cur := Spell(text, needles);
      assert ListedAt(nodes, words, needles, cur);
      var sealed := OutputsPush(nodes[cur], index);
      Register(nodes, words, needles, cur, sealed);
      nodes := nodes[cur := sealed];
      assert NeedlesOf(patterns) == needles + [Fold(text)];
      status := OK;
    }

    /** The insertion loop of `hc_ac_add`. */
    method Spell(text: CStr, ghost needles: Needles) returns (cur: nat)
      requires Represents(nodes, words, needles) && |text| > 0
      modifies this`nodes, this`words
      ensures Represents(nodes, words, needles)
      ensures 0 < cur < |nodes| && words[cur] == Fold(text)
    {
      cur := 0;
      for i := 0 to |text|
        invariant Represents(nodes, words, needles)
        invariant cur < |nodes| && words[cur] == Fold(text)[..i] && (i > 0 ==> cur > 0)
      {
        cur := Descend(cur, FoldByte(text[i]), needles);
        assert Fold(text)[..i + 1] == Fold(text)[..i] + [FoldByte(text[i])];
      }
      assert Fold(text)[..|text|] == Fold(text);
    }

    /** The state change of one queue turn: inherit, then link the children. */
    method InheritAt(ghost queue: seq<nat>, ghost head: nat, u: nat)
      requires Represents(nodes, words, NeedlesOf(patterns))
      requires head < |queue| && queue[head] == u && 0 < u < |nodes| && u !in queue[..head]
      requires FailAt(words, FailsIn(nodes), u)
      requires nodes[u].fail < |nodes| && FullAt(nodes, words, NeedlesOf(patterns), nodes[u].fail)
      requires FullTo(nodes, words, NeedlesOf(patterns), queue, head)
      modifies this`nodes
      ensures Represents(nodes, words, NeedlesOf(patterns)) && SameTrie(old(nodes), nodes)
      ensures FailsIn(nodes) == FailsIn(old(nodes))
      ensures FullTo(nodes, words, NeedlesOf(patterns), queue, head + 1)
    {
      assert ListedAt(nodes, words, NeedlesOf(patterns), u);
      var r := Inherit(nodes[u], nodes[nodes[u].fail].outputs);
      InheritStep(nodes, words, NeedlesOf(patterns), u, r);
      FullStep(nodes, words, NeedlesOf(patterns), queue, head, r);
      nodes := nodes[u := r];
    }

    /** One edge of the breadth-first loop. */
    method LinkChild(u: nat, b: byte, v: nat)
      requires Represents(nodes, words, NeedlesOf(patterns)) && 0 < u < |nodes| && 0 < v < |nodes|
      requires words[v] == words[u] + [b] && FailsUpTo(words, FailsIn(nodes), |words[u]|)
      modifies this`nodes
      ensures Represents(nodes, words, NeedlesOf(patterns)) && SameTrie(old(nodes), nodes)
      ensures FailsIn(nodes) == FailsIn(old(nodes))[v := nodes[v].fail] && FailAt(words, FailsIn(nodes), v)
      ensures forall x :: 0 <= x < |nodes| ==> nodes[x].outputs == old(nodes)[x].outputs
    {
      NonRootNonEmpty(words, u);
      assert FailAt(words, FailsIn(nodes), u);
      FailIsShorter(words, u, nodes[u].fail);
      WalkStart(words, words[u][1..], b, nodes[u].fail);
      var next := Advance(nodes[u].fail, b, words[u][1..]);
      assert words[v][1..] == words[u][1..] + [b];
      FailIsSuffix(words, v, next);
      Relink(nodes, words, NeedlesOf(patterns), v, next);
      nodes := nodes[v := nodes[v].(fail := next)];
    }

    /** The inner loop of `hc_ac_build`: links and enqueues the children of `u`. */
    method LinkChildren(queue: seq<nat>, u: nat) returns (grown: seq<nat>)
      requires Represents(nodes, words, NeedlesOf(patterns)) && 0 < u < |nodes|
      requires FailsOf(words, FailsIn(nodes), queue) && FailsUpTo(words, FailsIn(nodes), |words[u]|)
      requires forall k: nat :: k < |LinksOf(nodes)[u]| ==> FreshChild(LinksOf(nodes), words, queue, u, k)
      modifies this`nodes
      ensures Represents(nodes, words, NeedlesOf(patterns)) && SameTrie(old(nodes), nodes)
      ensures grown == queue + Targets(LinksOf(old(nodes))[u]) && FailsOf(words, FailsIn(nodes), grown)
      ensures forall x :: 0 <= x < |nodes| ==> nodes[x].outputs == old(nodes)[x].outputs
    {
      ghost var links := LinksOf(nodes);
      var labels, children := nodes[u].bytes, nodes[u].children;
      grown := queue;
      for k := 0 to |children|
        invariant Represents(nodes, words, NeedlesOf(patterns)) && SameTrie(old(nodes), nodes)
        invariant grown == queue + Targets(links[u])[..k] && FailsOf(words, FailsIn(nodes), grown)
        invariant FailsUpTo(words, FailsIn(nodes), |words[u]|)
        invariant forall x :: 0 <= x < |nodes| ==> nodes[x].outputs == old(nodes)[x].outputs
      {
        var v := children[k];
        assert links[u][k] == Edge(labels[k], v);
        assert FreshChild(links, words, queue, u, k);
        ghost var before := FailsIn(nodes);
        LinkChild(u, labels[k], v);
        LinkOneMore(words, before, grown, v, nodes[v].fail, |words[u]|);
        grown := grown + [v];
      }
    }

    /** Queues the root's children, with the root as their failure node. */
    method LinkRoot() returns (queue: seq<nat>)
      requires Represents(nodes, words, NeedlesOf(patterns))
      modifies this`nodes
      ensures Represents(nodes, words, NeedlesOf(patterns)) && SameTrie(old(nodes), nodes)
      ensures Expanded(words, queue, 0) && FailsOf(words, FailsIn(nodes), queue)
    {
      ghost var links := LinksOf(nodes);
      var children := nodes[0].children;
      RootLinks(links, words);
      for i := 0 to |children|
        invariant Represents(nodes, words, NeedlesOf(patterns)) && SameTrie(old(nodes), nodes)
        invariant LinksOf(nodes) == links && |nodes| == |links|
        invariant forall j :: 0 <= j < i ==> nodes[children[j]].fail == 0
      {
        assert links[0][i].to == children[i];
        NonRootNonEmpty(words, children[i]);
        RootIsSuffix(words, words[children[i]]);
        Relink(nodes, words, NeedlesOf(patterns), children[i], 0);
        ghost var linked := nodes[children[i] := nodes[children[i]].(fail := 0)];
        SameTrieRepresents(nodes, linked, words, NeedlesOf(patterns), NeedlesOf(patterns));
        nodes := nodes[children[i] := nodes[children[i]].(fail := 0)];
      }
      queue := children;
      assert queue == Targets(links[0]);
      RootChildren(links, words, FailsIn(nodes));
    }

    /** `hc_ac_build`: may be repeated after further additions. */
    method Build() returns (status: Status)
      requires Valid()
      modifies this
      ensures Valid() && names == old(names) && patterns == old(patterns)
      ensures patterns == [] ==> status == ERR_EMPTY && built == old(built) && current == old(current)
      ensures patterns != [] ==> status == OK && built && current
    {
      if |patterns| == 0 {
        return ERR_EMPTY;
      }
      current := false;
      var queue := LinkRoot();
      var head := 0;
      RootIsFull(nodes, words, NeedlesOf(patterns), queue);
      while head < |queue|
        invariant Represents(nodes, words, NeedlesOf(patterns)) && !current
        invariant Expanded(words, queue, head) && FailsOf(words, FailsIn(nodes), queue)
        invariant FullTo(nodes, words, NeedlesOf(patterns), queue, head)
        invariant names == old(names) && patterns == old(patterns)
        decreases |words| - head
      {
        queue := Turn(queue, head);
        head := head + 1;
      }
      FullDone(nodes, words, NeedlesOf(patterns), queue);
      built, current := true, true;
      status := OK;
    }

    /** One turn of the breadth-first loop. */
    method Turn(queue: seq<nat>, head: nat) returns (grown: seq<nat>)
      requires Represents(nodes, words, NeedlesOf(patterns))
      requires Expanded(words, queue, head) && head < |queue| && FailsOf(words, FailsIn(nodes), queue)
      requires FullTo(nodes, words, NeedlesOf(patterns), queue, head)
      modifies this`nodes
      ensures Represents(nodes, words, NeedlesOf(patterns))
      ensures head < |words|
      ensures Expanded(words, grown, head + 1) && FailsOf(words, FailsIn(nodes), grown)
      ensures FullTo(nodes, words, NeedlesOf(patterns), grown, head + 1)
    {
      ghost var links := LinksOf(nodes);
      ghost var needles := NeedlesOf(patterns);
      FailIsFull(nodes, words, needles, queue, head);
      QueuedFails(words, FailsIn(nodes), queue, head);
      ChildrenStep(links, words, queue, head);
      InheritAt(queue, head, queue[head]);
      SameTrieRepresents(old(nodes), nodes, words, needles, needles);
      ghost var inherited := nodes;
      grown := LinkChildren(queue, queue[head]);
      FullFrame(inherited, nodes, words, needles, queue, Targets(links[queue[head]]), head + 1);
    }

    /**
     * `hc_ac_scan`: streams the text and calls back once per match. At all times, also between an addition
     * and the next build, everything called back occurs, each once; after a build, every match is called back.
     */
    method Scan(text: Option<seq<byte>>) returns (status: Status, out: seq<Match>)
      requires Valid()
      ensures text.None? ==> status == ERR_NULL && out == []
      ensures text.Some? && !built ==> status == ERR_STATE && out == []
      ensures text.Some? && built ==> status == OK && SoundTo(names, patterns, text.value, out, |text.value|)
      ensures text.Some? && current ==> ReportedTo(names, patterns, text.value, out, |text.value|)
    {
      out := [];
      if text.None? {
        return ERR_NULL, [];
      }
      if !built {
        return ERR_STATE, [];
      }
      var t := text.value;
      status := OK;
      var cur: nat := 0;
      StartState(words);
      NothingReported(names, patterns, t, NeedlesOf(patterns), words);
      for i := 0 to |t|
        invariant ScannedTo(t, i, cur, out)
      {
        var found;
        cur, found := ScanByte(t, i, cur, out);
        out := out + found;
      }
      assert t[..|t|] == t;
    }

    /** The scan has read `i` bytes, stands at node `cur` and has called back `out`. */
    ghost predicate ScannedTo(t: seq<byte>, i: nat, cur: nat, out: seq<Match>)
      requires i <= |t|
      reads this
    {
      && Reading(words, Fold(t[..i]), cur) && SoundTo(names, patterns, t, out, i)
      && (current ==> IsState(words, Fold(t[..i]), cur) && ReportedTo(names, patterns, t, out, i))
    }

    /** The automaton's step as the scan sees it. */
    method NextState(cur: nat, b: byte, ghost s: seq<byte>) returns (next: nat)
      requires Valid() && Reading(words, s, cur) && (current ==> IsState(words, s, cur))
      ensures Reading(words, s + [b], next) && (current ==> IsState(words, s + [b], next))
    {
      if current {
        WalkStart(words, s, b, cur);
        AllFailsUpTo(words, FailsIn(nodes), |words[cur]|);
      }
      next := Advance(cur, b, s);
    }

    method ScanByte(t: seq<byte>, i: nat, cur: nat, ghost out: seq<Match>) returns (next: nat, found: seq<Match>)
      requires Valid() && i < |t| && ScannedTo(t, i, cur, out)
      ensures ScannedTo(t, i + 1, next, out + found)
    {
      assert Fold(t[..i + 1]) == Fold(t[..i]) + [FoldByte(t[i])];
      next := NextState(cur, FoldByte(t[i]), Fold(t[..i]));
      ScannedNext(t, i, next, out);
      found := Callbacks(next, i + 1);
    }

    lemma ScannedNext(t: seq<byte>, i: nat, next: nat, out: seq<Match>)
      requires Valid() && i < |t| && Reading(words, Fold(t[..i + 1]), next) && SoundTo(names, patterns, t, out, i)
      requires current ==> IsState(words, Fold(t[..i + 1]), next) && ReportedTo(names, patterns, t, out, i)
      ensures forall k :: 0 <= k < |nodes[next].outputs| ==> nodes[next].outputs[k] < |names|
      ensures ScannedTo(t, i + 1, next, out + MatchesAt(names, patterns, nodes[next].outputs, i + 1))
    {
      OutputsSound(words, nodes, NeedlesOf(patterns), Fold(t[..i + 1]), next);
      MoreSound(names, patterns, nodes[next].outputs, t, out, i);
      if current {
        OutputsEnd(words, nodes, NeedlesOf(patterns), Fold(t[..i + 1]), next);
        MoreReports(names, patterns, nodes[next].outputs, t, out, i);
      }
    }

    /** The callback loop at one text position. */
    method Callbacks(cur: nat, end: nat) returns (found: seq<Match>)
      requires Valid() && cur < |nodes|
      ensures forall k :: 0 <= k < |nodes[cur].outputs| ==> nodes[cur].outputs[k] < |names|
      ensures found == MatchesAt(names, patterns, nodes[cur].outputs, end)
    {
      var outputs := nodes[cur].outputs;
      assert ListedAt(nodes, words, NeedlesOf(patterns), cur);
      forall k | 0 <= k < |outputs| ensures outputs[k] < |names| {
        assert outputs[k] in outputs;
      }
      found := [];
      for k := 0 to |outputs|
        invariant found == MatchesAt(names, patterns, outputs, end)[..k]
      {
        found := found + [MatchFor(names, patterns, outputs[k], end)];
      }
    }
  }

  lemma RootLinks(links: Links, words: Words)
    requires IsTrie(words) && Linked(links, words)
    ensures forall k :: 0 <= k < |links[0]| ==> 0 < links[0][k].to < |links|
  {
    assert NodeLinked(links, words, 0);
  }

  lemma NothingReported(names: seq<CStr>, patterns: seq<CStr>, text: seq<byte>, needles: Needles, words: Words)
    requires SignaturesOk(names, patterns) && needles == NeedlesOf(patterns) && NeedlesOk(words, needles)
    ensures ReportedTo(names, patterns, text, [], 0)
  {
    forall m ensures !(Reports(names, patterns, text, m) && m.position + |m.pattern| <= 0) {
      if Reports(names, patterns, text, m) {
        var k :| 0 <= k < |names| && k < |patterns| && names[k] == m.name && patterns[k] == m.pattern;
        assert NeedleOk(words, needles, k);
      }
    }
  }

  lemma NewSignature(names: seq<CStr>, patterns: seq<CStr>, name: CStr, pattern: CStr)
    requires SignaturesOk(names, patterns)
    requires forall j :: 0 <= j < |names| ==> !(names[j] == name && patterns[j] == pattern)
    ensures SignaturesOk(names + [name], patterns + [pattern])
  {
    var n, q := names + [name], patterns + [pattern];
    forall i: nat, j: nat | i < |n| && j < |n| ensures DifferentSignatures(n, q, i, j) {
      if i < |names| && j < |names| {
        assert DifferentSignatures(names, patterns, i, j);
      }
    }
  }
}
