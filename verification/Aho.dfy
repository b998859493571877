/** The Rust Aho-Corasick automaton: a byte trie with failure links and merged outputs. */
module Aho {
  import opened Options
  import opened Bytes
  import opened Utf8
  import opened Sequences
  import opened Trie
  import opened EdgeTable

  datatype Pattern = Pattern(id: nat, needle: seq<byte>, name: Text)
  datatype Hit = Hit(pattern: nat, end: nat)
  datatype Node = Node(edges: seq<Edge>, fail: nat, own: seq<nat>, output: seq<nat>)

  const EMPTY_NODE := Node([], 0, [], [])

  predicate IsBlank(name: Text) {
    forall i :: 0 <= i < |name| ==> IsWhitespace(name[i])
  }

  function Needle(name: Text): seq<byte> { Fold(Encode(name)) }

  lemma NonBlankNeedle(name: Text)
    requires !IsBlank(name)
    ensures Needle(name) != []
  {
    EncodeCharShape(name[0]);
  }

  // ------------------------------------------------------------------ columns of the node vector

  ghost function LinksOf(nodes: seq<Node>): (r: Links)
    ensures |r| == |nodes| && forall u :: 0 <= u < |nodes| ==> r[u] == nodes[u].edges
  {
    seq(|nodes|, u requires 0 <= u < |nodes| => nodes[u].edges)
  }

  ghost function FailsIn(nodes: seq<Node>): (r: seq<nat>)
    ensures |r| == |nodes| && forall u :: 0 <= u < |nodes| ==> r[u] == nodes[u].fail
  {
    seq(|nodes|, u requires 0 <= u < |nodes| => nodes[u].fail)
  }

  ghost function NeedlesOf(patterns: seq<Pattern>): (r: Needles)
    ensures |r| == |patterns| && forall p :: 0 <= p < |patterns| ==> r[p] == patterns[p].needle
  {
    seq(|patterns|, p requires 0 <= p < |patterns| => patterns[p].needle)
  }

  // ------------------------------------------------------------------ invariants

  ghost predicate OwnAt(nodes: seq<Node>, words: Words, needles: Needles, u: nat)
    requires |nodes| == |words| && u < |nodes|
  {
    forall p: nat :: p in nodes[u].own <==> IsOwn(needles, words[u], p)
  }

  ghost predicate Owns(nodes: seq<Node>, words: Words, needles: Needles) {
    && |nodes| == |words|
    && forall u: nat :: u < |nodes| ==> OwnAt(nodes, words, needles, u)
  }

  /** The node vector spells `words`, links it up and owns the patterns that end in it. */
  ghost predicate Represents(nodes: seq<Node>, words: Words, needles: Needles) {
    && IsTrie(words)
    && Linked(LinksOf(nodes), words)
    && Descends(words, FailsIn(nodes))
    && NeedlesOk(words, needles)
    && Owns(nodes, words, needles)
  }

  ghost predicate PatternOk(patterns: seq<Pattern>, p: nat)
    requires p < |patterns|
  {
    && patterns[p].id == p
    && patterns[p].needle == Needle(patterns[p].name)
    && !IsBlank(patterns[p].name)
  }

  ghost predicate DifferentNeedles(patterns: seq<Pattern>, p: nat, q: nat)
    requires p < |patterns| && q < |patterns|
  {
    patterns[p].needle == patterns[q].needle ==> p == q
  }

  ghost predicate PatternsOk(patterns: seq<Pattern>) {
    && (forall p: nat :: p < |patterns| ==> PatternOk(patterns, p))
    && (forall p: nat, q: nat :: p < |patterns| && q < |patterns| ==> DifferentNeedles(patterns, p, q))
  }

  ghost predicate OutputAt(nodes: seq<Node>, words: Words, needles: Needles, u: nat)
    requires |nodes| == |words| && u < |nodes|
  {
    && Increasing(nodes[u].output)
    && forall p: nat :: p in nodes[u].output <==> Ends(needles, words[u], p)
  }

  /** At all times: outputs are sorted, and whatever is output at a node does end there. */
  ghost predicate SoundAt(nodes: seq<Node>, words: Words, needles: Needles, u: nat)
    requires |nodes| == |words| && u < |nodes|
  {
    && Increasing(nodes[u].output)
    && forall p: nat :: p in nodes[u].output ==> Ends(needles, words[u], p)
  }

  ghost predicate Sound(nodes: seq<Node>, words: Words, needles: Needles)
    requires |nodes| == |words|
  {
    forall u: nat :: u < |nodes| ==> SoundAt(nodes, words, needles, u)
  }

  /** What `build` establishes: exact failure links and exact output lists. */
  ghost predicate Compiled(nodes: seq<Node>, words: Words, needles: Needles)
    requires IsTrie(words) && |nodes| == |words|
  {
    && AllFails(words, FailsIn(nodes))
    && forall u: nat :: u < |nodes| ==> OutputAt(nodes, words, needles, u)
  }

  // ------------------------------------------------------------------ steps of `add`

  function WithChild(nodes: seq<Node>, u: nat, idx: nat, b: byte): (r: seq<Node>)
    requires u < |nodes| && idx <= |nodes[u].edges|
    ensures |r| == |nodes| + 1 && r[|nodes|] == EMPTY_NODE
    ensures forall x :: 0 <= x < |nodes| && x != u ==> r[x] == nodes[x]
    ensures r[u] == nodes[u].(edges := InsertAt(nodes[u].edges, idx, Edge(b, |nodes|)))
  {
    nodes[u := nodes[u].(edges := InsertAt(nodes[u].edges, idx, Edge(b, |nodes|)))] + [EMPTY_NODE]
  }

  lemma GrowOwns(nodes: seq<Node>, words: Words, needles: Needles, u: nat, b: byte, idx: nat)
    requires Owns(nodes, words, needles) && NeedlesOk(words, needles)
    requires u < |nodes| && idx <= |nodes[u].edges| && words[u] + [b] !in words
    ensures NeedlesOk(words + [words[u] + [b]], needles)
    ensures Owns(WithChild(nodes, u, idx, b), words + [words[u] + [b]], needles)
  {
    var n, w := WithChild(nodes, u, idx, b), words + [words[u] + [b]];
    forall p: nat | p < |needles| ensures NeedleOk(w, needles, p) && needles[p] in words {
      assert NeedleOk(words, needles, p);
    }
    forall x: nat | x < |n| ensures OwnAt(n, w, needles, x) {
      if x < |nodes| {
        assert OwnAt(nodes, words, needles, x);
      }
    }
  }

  lemma Grow(nodes: seq<Node>, words: Words, needles: Needles, u: nat, b: byte, idx: nat)
    requires Represents(nodes, words, needles) && u < |nodes| && SortedEdges(nodes[u].edges)
    requires BinarySearch(nodes[u].edges, b) == Missing(idx)
    ensures Represents(WithChild(nodes, u, idx, b), words + [words[u] + [b]], needles)
  {
    GrowLinked(LinksOf(nodes), words, u, b, idx);
    GrowOwns(nodes, words, needles, u, b, idx);
    GrowDescends(words, FailsIn(nodes), words[u] + [b]);
    assert LinksOf(WithChild(nodes, u, idx, b)) == WithLeaf(LinksOf(nodes), u, idx, b);
    assert FailsIn(WithChild(nodes, u, idx, b)) == FailsIn(nodes) + [0];
  }

  lemma GrowSound(nodes: seq<Node>, words: Words, needles: Needles, u: nat, b: byte, idx: nat)
    requires |nodes| == |words| && Sound(nodes, words, needles) && u < |nodes| && idx <= |nodes[u].edges|
    ensures Sound(WithChild(nodes, u, idx, b), words + [words[u] + [b]], needles)
  {
    var n, w := WithChild(nodes, u, idx, b), words + [words[u] + [b]];
    forall x: nat | x < |n| ensures SoundAt(n, w, needles, x) {
      if x < |nodes| {
        assert SoundAt(nodes, words, needles, x);
      }
    }
  }

  function WithOwn(nodes: seq<Node>, u: nat, id: nat): (r: seq<Node>)
    requires u < |nodes|
    ensures |r| == |nodes| && r[u] == nodes[u].(own := nodes[u].own + [id])
    ensures forall x :: 0 <= x < |nodes| && x != u ==> r[x] == nodes[x]
  {
    nodes[u := nodes[u].(own := nodes[u].own + [id])]
  }

  lemma Seal(nodes: seq<Node>, words: Words, needles: Needles, u: nat)
    requires Represents(nodes, words, needles) && 0 < u < |nodes|
    ensures Represents(WithOwn(nodes, u, |needles|), words, needles + [words[u]])
  {
    var n, ns := WithOwn(nodes, u, |needles|), needles + [words[u]];
    assert LinksOf(n) == LinksOf(nodes) && FailsIn(n) == FailsIn(nodes);
    NonRootNonEmpty(words, u);
    forall p: nat | p < |ns| ensures NeedleOk(words, ns, p) {
      if p < |needles| {
        assert NeedleOk(words, needles, p);
      }
    }
    forall x: nat | x < |n| ensures OwnAt(n, words, ns, x) {
      assert OwnAt(nodes, words, needles, x);
      assert Distinct(words, x, u);
      forall p: nat ensures p in n[x].own <==> IsOwn(ns, words[x], p) {
        assert p in nodes[x].own <==> IsOwn(needles, words[x], p);
      }
    }
  }

  lemma SealSound(nodes: seq<Node>, words: Words, needles: Needles, u: nat)
    requires |nodes| == |words| && Sound(nodes, words, needles) && u < |nodes|
    ensures Sound(WithOwn(nodes, u, |needles|), words, needles + [words[u]])
  {
    var n, ns := WithOwn(nodes, u, |needles|), needles + [words[u]];
    forall x: nat | x < |n| ensures SoundAt(n, words, ns, x) {
      assert SoundAt(nodes, words, needles, x);
      forall p: nat | p in n[x].output ensures Ends(ns, words[x], p) {
        assert Ends(needles, words[x], p);
      }
    }
  }

  lemma SealPatterns(patterns: seq<Pattern>, name: Text)
    requires PatternsOk(patterns) && !IsBlank(name) && forall p :: p in patterns ==> p.needle != Needle(name)
    ensures PatternsOk(patterns + [Pattern(|patterns|, Needle(name), name)])
  {
    var ps := patterns + [Pattern(|patterns|, Needle(name), name)];
    forall p: nat | p < |ps| ensures PatternOk(ps, p) {
      if p < |patterns| { assert PatternOk(patterns, p); }
    }
    forall p: nat, q: nat | p < |ps| && q < |ps| ensures DifferentNeedles(ps, p, q) {
      if p < |patterns| && q < |patterns| { assert DifferentNeedles(patterns, p, q); }
    }
  }

  // ------------------------------------------------------------------ steps of `build`

  /** Only links and outputs differ; the trie and the own lists do not. */
  ghost predicate SameTrie(a: seq<Node>, b: seq<Node>) {
    && |a| == |b|
    && forall u :: 0 <= u < |a| ==> a[u].edges == b[u].edges && a[u].own == b[u].own
  }

  lemma SameTrieRepresents(a: seq<Node>, b: seq<Node>, words: Words, needles: Needles)
    requires Represents(a, words, needles) && SameTrie(a, b) && Descends(words, FailsIn(b))
    ensures Represents(b, words, needles)
  {
    assert LinksOf(a) == LinksOf(b);
    forall u: nat | u < |b| ensures OwnAt(b, words, needles, u) {
      assert OwnAt(a, words, needles, u);
    }
  }

  /** Outputs are no part of the trie. */
  lemma SetOutput(nodes: seq<Node>, words: Words, needles: Needles, u: nat, merged: seq<nat>)
    requires Represents(nodes, words, needles) && u < |nodes|
    ensures var n := nodes[u := nodes[u].(output := merged)];
      Represents(n, words, needles) && SameTrie(nodes, n) && FailsIn(n) == FailsIn(nodes)
  {
    var n := nodes[u := nodes[u].(output := merged)];
    assert FailsIn(n) == FailsIn(nodes);
    SameTrieRepresents(nodes, n, words, needles);
  }

  lemma Relink(nodes: seq<Node>, words: Words, needles: Needles, v: nat, link: nat)
    requires Represents(nodes, words, needles) && 0 < v < |nodes| && link < |nodes|
    requires IsSuffix(words[link], words[v]) && |words[link]| < |words[v]|
    ensures Represents(nodes[v := nodes[v].(fail := link)], words, needles)
    ensures SameTrie(nodes, nodes[v := nodes[v].(fail := link)])
    ensures FailsIn(nodes[v := nodes[v].(fail := link)]) == FailsIn(nodes)[v := link]
  {
    var n := nodes[v := nodes[v].(fail := link)];
    assert FailsIn(n) == FailsIn(nodes)[v := link];
    LinkDescends(words, FailsIn(nodes), v, link);
    SameTrieRepresents(nodes, n, words, needles);
  }

  /** The queue members before `k`, and the root, have their final outputs. */
  ghost predicate OutputsTo(nodes: seq<Node>, words: Words, needles: Needles, queue: seq<nat>, k: nat)
    requires |nodes| == |words| > 0
  {
    && OutputAt(nodes, words, needles, 0)
    && forall i :: 0 <= i < k && i < |queue| ==> queue[i] < |nodes| && OutputAt(nodes, words, needles, queue[i])
  }

  lemma MergedOutput(nodes: seq<Node>, words: Words, needles: Needles, u: nat, merged: seq<nat>)
    requires Represents(nodes, words, needles) && 0 < u < |nodes|
    requires FailAt(words, FailsIn(nodes), u) && OutputAt(nodes, words, needles, nodes[u].fail)
    requires merged == SortDedup(nodes[u].own + nodes[nodes[u].fail].output)
    ensures OutputAt(nodes[u := nodes[u].(output := merged)], words, needles, u)
  {
    var f := nodes[u].fail;
    assert OwnAt(nodes, words, needles, u);
    forall p: nat ensures p in merged <==> Ends(needles, words[u], p) {
      EndsByFail(words, needles, u, f, p);
      assert p in nodes[u].own <==> IsOwn(needles, words[u], p);
      assert p in nodes[f].output <==> Ends(needles, words[f], p);
    }
  }

  /** A failure node's output is final before its own turn in the queue comes. */
  lemma FailIsDone(nodes: seq<Node>, words: Words, needles: Needles, queue: seq<nat>, k: nat)
    requires Represents(nodes, words, needles) && Expanded(words, queue, |queue|) && k < |queue|
    requires OutputsTo(nodes, words, needles, queue, k)
    ensures nodes[queue[k]].fail < |nodes| && OutputAt(nodes, words, needles, nodes[queue[k]].fail)
  {
    var f := nodes[queue[k]].fail;
    assert Shortens(words, FailsIn(nodes), queue[k]);
    if f != 0 {
      ShallowerIsEarlier(words, queue, k, f);
    }
  }

  /** Writing one queue member's merged output moves the frontier by one. */
  lemma OutputStep(nodes: seq<Node>, words: Words, needles: Needles, queue: seq<nat>, k: nat, merged: seq<nat>)
    requires |nodes| == |words| > 0 && k < |queue| && 0 < queue[k] < |nodes| && queue[k] !in queue[..k]
    requires OutputsTo(nodes, words, needles, queue, k)
    requires OutputAt(nodes[queue[k] := nodes[queue[k]].(output := merged)], words, needles, queue[k])
    ensures OutputsTo(nodes[queue[k] := nodes[queue[k]].(output := merged)], words, needles, queue, k + 1)
  {
    var n := nodes[queue[k] := nodes[queue[k]].(output := merged)];
    assert OutputAt(nodes, words, needles, 0);
    assert OutputAt(n, words, needles, 0);
    forall i | 0 <= i < k ensures OutputAt(n, words, needles, queue[i]) {
      assert OutputAt(nodes, words, needles, queue[i]);
      assert queue[i] in queue[..k];
    }
  }

  lemma OutputsDone(nodes: seq<Node>, words: Words, needles: Needles, queue: seq<nat>)
    requires Represents(nodes, words, needles) && Expanded(words, queue, |queue|)
    requires AllFails(words, FailsIn(nodes)) && OutputsTo(nodes, words, needles, queue, |queue|)
    ensures Compiled(nodes, words, needles)
  {
    forall u: nat | u < |nodes| ensures OutputAt(nodes, words, needles, u) {
      if u != 0 {
        ShallowQueued(words, queue, |queue|, u);
      }
    }
  }

  lemma CompiledSound(nodes: seq<Node>, words: Words, needles: Needles)
    requires IsTrie(words) && |nodes| == |words| && Compiled(nodes, words, needles)
    ensures Sound(nodes, words, needles)
  {
    forall u: nat | u < |nodes| ensures SoundAt(nodes, words, needles, u) {
      assert OutputAt(nodes, words, needles, u);
    }
  }

  lemma RootOutput(nodes: seq<Node>, words: Words, needles: Needles, queue: seq<nat>)
    requires Represents(nodes, words, needles) && nodes[0].output == []
    ensures OutputsTo(nodes, words, needles, queue, 0)
  {
    forall p: nat ensures !Ends(needles, words[0], p) {
      NothingEndsAtRoot(words, needles, p);
    }
  }

  // ------------------------------------------------------------------ scanning

  /** Pattern `p` ends at offset `end` of the text, ignoring ASCII case. */
  ghost predicate Occurs(patterns: seq<Pattern>, text: seq<byte>, h: Hit) {
    && h.pattern < |patterns| && 0 < h.end <= |text|
    && IsSuffix(patterns[h.pattern].needle, Fold(text[..h.end]))
  }

  predicate HitBefore(a: Hit, b: Hit) {
    a.end < b.end || (a.end == b.end && a.pattern < b.pattern)
  }

  /** Occurrences that end within the first `n` bytes, each once, in order. */
  ghost predicate SoundTo(patterns: seq<Pattern>, text: seq<byte>, out: seq<Hit>, n: nat) {
    && (forall i, j :: 0 <= i < j < |out| ==> HitBefore(out[i], out[j]))
    && (forall h :: h in out ==> h.end <= n && Occurs(patterns, text, h))
  }

  /** All of them. */
  ghost predicate HitsTo(patterns: seq<Pattern>, text: seq<byte>, out: seq<Hit>, n: nat) {
    && SoundTo(patterns, text, out, n)
    && (forall h: Hit :: h.end <= n && Occurs(patterns, text, h) ==> h in out)
  }

  function HitsAt(output: seq<nat>, end: nat): (r: seq<Hit>)
    ensures |r| == |output| && forall i :: 0 <= i < |output| ==> r[i] == Hit(output[i], end)
  {
    seq(|output|, i requires 0 <= i < |output| => Hit(output[i], end))
  }

  /** A node whose word ends the text read so far outputs nothing that does not occur. */
  lemma MoreSound(nodes: seq<Node>, words: Words, patterns: seq<Pattern>, text: seq<byte>, out: seq<Hit>, i: nat, cur: nat)
    requires Represents(nodes, words, NeedlesOf(patterns)) && Sound(nodes, words, NeedlesOf(patterns))
    requires i < |text| && Reading(words, Fold(text[..i + 1]), cur) && SoundTo(patterns, text, out, i)
    ensures SoundTo(patterns, text, out + HitsAt(nodes[cur].output, i + 1), i + 1)
  {
    var found := HitsAt(nodes[cur].output, i + 1);
    assert SoundAt(nodes, words, NeedlesOf(patterns), cur);
    forall h | h in found ensures h.end == i + 1 && Occurs(patterns, text, h) {
      EndsInText(words, NeedlesOf(patterns), Fold(text[..i + 1]), cur, h.pattern);
    }
    OrderedJoin(out, found, i + 1);
  }

  lemma MoreHits(nodes: seq<Node>, words: Words, patterns: seq<Pattern>, text: seq<byte>, out: seq<Hit>, i: nat, cur: nat)
    requires Represents(nodes, words, NeedlesOf(patterns)) && Compiled(nodes, words, NeedlesOf(patterns))
    requires i < |text| && IsState(words, Fold(text[..i + 1]), cur) && HitsTo(patterns, text, out, i)
    ensures HitsTo(patterns, text, out + HitsAt(nodes[cur].output, i + 1), i + 1)
  {
    var found := HitsAt(nodes[cur].output, i + 1);
    CompiledSound(nodes, words, NeedlesOf(patterns));
    MoreSound(nodes, words, patterns, text, out, i, cur);
    assert OutputAt(nodes, words, NeedlesOf(patterns), cur);
    forall h: Hit | h.end == i + 1 && Occurs(patterns, text, h) ensures h in found {
      EndsByState(words, NeedlesOf(patterns), Fold(text[..i + 1]), cur, h.pattern);
      var k :| 0 <= k < |found| && nodes[cur].output[k] == h.pattern;
      assert found[k] == h;
    }
  }

  lemma OrderedJoin(out: seq<Hit>, found: seq<Hit>, end: nat)
    requires forall i, j :: 0 <= i < j < |out| ==> HitBefore(out[i], out[j])
    requires forall i, j :: 0 <= i < j < |found| ==> HitBefore(found[i], found[j])
    requires forall h :: h in out ==> h.end < end
    requires forall h :: h in found ==> h.end == end
    ensures forall i, j :: 0 <= i < j < |out + found| ==> HitBefore((out + found)[i], (out + found)[j])
  {
    var all := out + found;
    forall i, j | 0 <= i < j < |all| ensures HitBefore(all[i], all[j]) {
      if |out| <= i {
        assert all[i] == found[i - |out|] && all[j] == found[j - |out|];
      } else if |out| <= j {
        assert all[i] in out && all[j] in found;
      }
    }
  }

  function NeedleLength(patterns: seq<Pattern>, pattern: nat): nat {
    if pattern < |patterns| then |patterns[pattern].needle| else 0
  }

  /** `end.saturating_sub(len)`. */
  function StartOffset(patterns: seq<Pattern>, pattern: nat, end: nat): nat {
    var len := NeedleLength(patterns, pattern);
    if len <= end then end - len else 0
  }

  function NameOf(patterns: seq<Pattern>, pattern: nat): Text {
    if pattern < |patterns| then patterns[pattern].name else []
  }

  /** `name` was added and its needle starts at byte `start` of the folded text. */
  ghost predicate FoundAt(patterns: seq<Pattern>, text: seq<byte>, name: Text, start: nat) {
    exists p :: p in patterns && p.name == name && OccursAt(p.needle, Fold(text), start)
  }

  lemma HitIsFound(patterns: seq<Pattern>, text: seq<byte>, h: Hit)
    requires Occurs(patterns, text, h)
    ensures FoundAt(patterns, text, NameOf(patterns, h.pattern), StartOffset(patterns, h.pattern, h.end))
  {
    EndsAndStarts(patterns[h.pattern].needle, text, h.end);
    assert patterns[h.pattern] in patterns;
  }

  lemma FoundIsHit(patterns: seq<Pattern>, text: seq<byte>, name: Text, start: nat) returns (h: Hit)
    requires FoundAt(patterns, text, name, start) && forall p :: p in patterns ==> p.needle != []
    ensures Occurs(patterns, text, h)
    ensures NameOf(patterns, h.pattern) == name && StartOffset(patterns, h.pattern, h.end) == start
  {
    var p :| p in patterns && p.name == name && OccursAt(p.needle, Fold(text), start);
    var i :| 0 <= i < |patterns| && patterns[i] == p;
    h := Hit(i, start + |p.needle|);
    EndsAndStarts(p.needle, text, h.end);
  }

  ghost predicate Located(patterns: seq<Pattern>, buffer: seq<Hit>, hits: seq<(Text, nat)>) {
    && |hits| == |buffer|
    && forall j :: 0 <= j < |hits| ==>
         hits[j] == (NameOf(patterns, buffer[j].pattern), StartOffset(patterns, buffer[j].pattern, buffer[j].end))
  }

  lemma ScanSound(patterns: seq<Pattern>, text: seq<byte>, buffer: seq<Hit>, hits: seq<(Text, nat)>)
    requires SoundTo(patterns, text, buffer, |text|) && Located(patterns, buffer, hits)
    ensures forall h :: h in hits ==> FoundAt(patterns, text, h.0, h.1)
  {
    forall h | h in hits ensures FoundAt(patterns, text, h.0, h.1) {
      var j :| 0 <= j < |hits| && hits[j] == h;
      assert buffer[j] in buffer;
      HitIsFound(patterns, text, buffer[j]);
    }
  }

  lemma ScanExact(patterns: seq<Pattern>, text: seq<byte>, buffer: seq<Hit>, hits: seq<(Text, nat)>,
                  needles: Needles, words: Words)
    requires HitsTo(patterns, text, buffer, |text|) && Located(patterns, buffer, hits)
    requires needles == NeedlesOf(patterns) && NeedlesOk(words, needles)
    ensures forall name: Text, start: nat :: (name, start) in hits <==> FoundAt(patterns, text, name, start)
  {
    ScanSound(patterns, text, buffer, hits);
    forall name: Text, start: nat | FoundAt(patterns, text, name, start) ensures (name, start) in hits {
      forall p: nat | p < |patterns| ensures patterns[p].needle != [] {
        assert NeedleOk(words, needles, p);
      }
      var h := FoundIsHit(patterns, text, name, start);
      assert h in buffer;
      var j :| 0 <= j < |buffer| && buffer[j] == h;
      assert hits[j] == (name, start);
    }
  }

  class AhoCorasick {
    var nodes: seq<Node>
    var patterns: seq<Pattern>
    var built: bool
    ghost var words: Words

    ghost predicate Valid()
      reads this
    {
      && Represents(nodes, words, NeedlesOf(patterns))
      && PatternsOk(patterns)
      && Sound(nodes, words, NeedlesOf(patterns))
      && (built ==> Compiled(nodes, words, NeedlesOf(patterns)))
    }

    constructor ()
      ensures Valid() && patterns == [] && !built
    {
      nodes := [EMPTY_NODE];
      patterns := [];
      built := false;
      words := [[]];
    }

    /** One byte of the insertion loop: follows the edge, or materialises it. */
    method Descend(cur: nat, b: byte) returns (next: nat)
      requires Represents(nodes, words, NeedlesOf(patterns)) && cur < |nodes|
      requires Sound(nodes, words, NeedlesOf(patterns))
      modifies this`nodes, this`words
      ensures Represents(nodes, words, NeedlesOf(patterns)) && Sound(nodes, words, NeedlesOf(patterns))
      ensures next < |nodes| && words[next] == old(words[cur]) + [b]
    {
      LookupFinds(LinksOf(nodes), words, cur, b);
      match BinarySearch(nodes[cur].edges, b)
      case Found(idx) =>
        next := nodes[cur].edges[idx].to;
        if next == 0 {
          assert false;
        }
      case Missing(idx) =>
        Grow(nodes, words, NeedlesOf(patterns), cur, b, idx);
        GrowSound(nodes, words, NeedlesOf(patterns), cur, b, idx);
        words := words + [words[cur] + [b]];
        nodes := WithChild(nodes, cur, idx, b);
        next := |nodes| - 1;
    }

    /** Walks the trie along `needle`, creating the nodes that are missing. */
    method Insert(needle: seq<byte>) returns (cur: nat)
      requires Represents(nodes, words, NeedlesOf(patterns)) && Sound(nodes, words, NeedlesOf(patterns))
      modifies this`nodes, this`words
      ensures Represents(nodes, words, NeedlesOf(patterns)) && Sound(nodes, words, NeedlesOf(patterns))
      ensures cur < |nodes| && words[cur] == needle
    {
      cur := 0;
      for i := 0 to |needle|
        invariant Represents(nodes, words, NeedlesOf(patterns)) && Sound(nodes, words, NeedlesOf(patterns))
        invariant cur < |nodes| && words[cur] == needle[..i]
      {
        cur := Descend(cur, needle[i]);
        assert needle[..i + 1] == needle[..i] + [needle[i]];
      }
      assert needle[..|needle|] == needle;
    }

    /** Adds a label; blank labels and repeated needles are refused. */
    method Add(name: Text) returns (added: bool)
      requires Valid()
      modifies this
      ensures Valid()
      ensures added <==> !IsBlank(name) && forall p :: p in old(patterns) ==> p.needle != Needle(name)
      ensures added ==> patterns == old(patterns) + [Pattern(|old(patterns)|, Needle(name), name)] && !built
      ensures !added ==> patterns == old(patterns) && nodes == old(nodes) && built == old(built)
    {
      if |name| == 0 || IsBlank(name) {
        return false;
      }
      var needle := Needle(name);
      if exists p :: p in patterns && p.needle == needle {
        return false;
      }
      NonBlankNeedle(name);
      var id := |patterns|;
      var cur := Insert(needle);
      Seal(nodes, words, NeedlesOf(patterns), cur);
      SealSound(nodes, words, NeedlesOf(patterns), cur);
      SealPatterns(patterns, name);
      nodes := WithOwn(nodes, cur, id);
      assert NeedlesOf(patterns) + [needle] == NeedlesOf(patterns + [Pattern(id, needle, name)]);
      patterns := patterns + [Pattern(id, needle, name)];
      built := false;
      added := true;
    }

    /** The failure walk of `build` and `find_all`: stops at the root or where `b` has an edge. */
    method Walk(from: nat, b: byte, ghost s: seq<byte>) returns (f: nat)
      requires Represents(nodes, words, NeedlesOf(patterns)) && from < |nodes|
      ensures f < |nodes| && |words[f]| <= |words[from]| && NodeLinked(LinksOf(nodes), words, f)
      ensures f == 0 || Lookup(nodes[f].edges, b).Some?
      ensures Walking(words, s, b, from) && FailsUpTo(words, FailsIn(nodes), |words[from]|) ==> Walking(words, s, b, f)
      ensures Reading(words, s, from) ==> Reading(words, s, f)
    {
      f := from;
      LookupFinds(LinksOf(nodes), words, f, b);
      while f != 0 && Lookup(nodes[f].edges, b).None?
        invariant f < |nodes| && |words[f]| <= |words[from]| && NodeLinked(LinksOf(nodes), words, f)
        invariant Walking(words, s, b, from) && FailsUpTo(words, FailsIn(nodes), |words[from]|) ==> Walking(words, s, b, f)
        invariant Reading(words, s, from) ==> Reading(words, s, f)
        decreases |words[f]|
      {
        assert Shortens(words, FailsIn(nodes), f);
        if Reading(words, s, f) {
          ReadBack(words, FailsIn(nodes), s, f);
        }
        if Walking(words, s, b, from) && FailsUpTo(words, FailsIn(nodes), |words[from]|) {
          assert FailAt(words, FailsIn(nodes), f);
          Retreat(LinksOf(nodes), words, FailsIn(nodes), s, b, f);
        }
        f := nodes[f].fail;
        LookupFinds(LinksOf(nodes), words, f, b);
      }
    }

    method ResetLinks()
      requires Represents(nodes, words, NeedlesOf(patterns))
      modifies this`nodes
      ensures Represents(nodes, words, NeedlesOf(patterns)) && SameTrie(old(nodes), nodes)
      ensures forall u :: 0 <= u < |nodes| ==> nodes[u].fail == 0 && nodes[u].output == []
    {
      for i := 0 to |nodes|
        invariant SameTrie(old(nodes), nodes)
        invariant forall u :: 0 <= u < i ==> nodes[u].fail == 0 && nodes[u].output == []
      {
        nodes := nodes[i := nodes[i].(fail := 0, output := [])];
      }
      RootLinksDescend(words, FailsIn(nodes));
      SameTrieRepresents(old(nodes), nodes, words, NeedlesOf(patterns));
    }

    /** One edge of the breadth-first loop: sets the failure link of `v`, child of `u` by `b`. */
    method LinkChild(u: nat, b: byte, v: nat)
      requires Represents(nodes, words, NeedlesOf(patterns)) && 0 < u < |nodes| && 0 < v < |nodes|
      requires words[v] == words[u] + [b]
      requires FailsUpTo(words, FailsIn(nodes), |words[u]|)
      modifies this`nodes
      ensures Represents(nodes, words, NeedlesOf(patterns)) && SameTrie(old(nodes), nodes)
      ensures FailsIn(nodes) == FailsIn(old(nodes))[v := nodes[v].fail]
      ensures forall x :: 0 <= x < |nodes| ==> nodes[x].output == old(nodes)[x].output
      ensures FailAt(words, FailsIn(nodes), v)
    {
      NonRootNonEmpty(words, u);
      ghost var s := words[u][1..];
      var f0 := nodes[u].fail;
      assert FailAt(words, FailsIn(nodes), u);
      FailIsShorter(words, u, f0);
      WalkStart(words, s, b, f0);
      var f := Walk(f0, b, s);
      assert words[v][1..] == s + [b];
      Arrive(LinksOf(nodes), words, s, b, f);
      LookupFinds(LinksOf(nodes), words, f, b);
      var link := match Lookup(nodes[f].edges, b)
        case Some(next) => (if next != v then next else 0)
        case None => 0;
      FailIsSuffix(words, v, link);
      Relink(nodes, words, NeedlesOf(patterns), v, link);
      nodes := nodes[v := nodes[v].(fail := link)];
    }

    /** The inner loop of `build`: links and enqueues the children of `u`. */
    method LinkChildren(queue: seq<nat>, u: nat) returns (grown: seq<nat>)
      requires Represents(nodes, words, NeedlesOf(patterns)) && 0 < u < |nodes|
      requires FailsOf(words, FailsIn(nodes), queue) && FailsUpTo(words, FailsIn(nodes), |words[u]|)
      requires forall k: nat :: k < |nodes[u].edges| ==> FreshChild(LinksOf(nodes), words, queue, u, k)
      modifies this`nodes
      ensures Represents(nodes, words, NeedlesOf(patterns)) && SameTrie(old(nodes), nodes)
      ensures grown == queue + Targets(nodes[u].edges) && FailsOf(words, FailsIn(nodes), grown)
      ensures forall x :: 0 <= x < |nodes| ==> nodes[x].output == old(nodes)[x].output
    {
      var edges := nodes[u].edges;
      grown := queue;
      for k := 0 to |edges|
        invariant Represents(nodes, words, NeedlesOf(patterns)) && SameTrie(old(nodes), nodes)
        invariant grown == queue + Targets(edges)[..k] && FailsOf(words, FailsIn(nodes), grown)
        invariant FailsUpTo(words, FailsIn(nodes), |words[u]|)
        invariant forall x :: 0 <= x < |nodes| ==> nodes[x].output == old(nodes)[x].output
      {
        var v := edges[k].to;
        assert FreshChild(LinksOf(old(nodes)), words, queue, u, k);
        ghost var before := FailsIn(nodes);
        LinkChild(u, edges[k].symbol, v);
        LinkOneMore(words, before, grown, v, nodes[v].fail, |words[u]|);
        grown := grown + [v];
      }
    }

    /** The breadth-first loop of `build`. */
    method LinkAll() returns (queue: seq<nat>)
      requires Represents(nodes, words, NeedlesOf(patterns))
      requires forall u :: 0 <= u < |nodes| ==> nodes[u].fail == 0
      modifies this`nodes
      ensures Represents(nodes, words, NeedlesOf(patterns)) && SameTrie(old(nodes), nodes)
      ensures Expanded(words, queue, |queue|) && AllFails(words, FailsIn(nodes))
      ensures forall x :: 0 <= x < |nodes| ==> nodes[x].output == old(nodes)[x].output
    {
      queue := Targets(nodes[0].edges);
      RootChildren(LinksOf(nodes), words, FailsIn(nodes));
      var head := 0;
      while head < |queue|
        invariant Represents(nodes, words, NeedlesOf(patterns)) && SameTrie(old(nodes), nodes)
        invariant Expanded(words, queue, head) && FailsOf(words, FailsIn(nodes), queue)
        invariant forall x :: 0 <= x < |nodes| ==> nodes[x].output == old(nodes)[x].output
        decreases |words| - head
      {
        ghost var before := queue;
        QueuedFails(words, FailsIn(nodes), queue, head);
        ChildrenStep(LinksOf(nodes), words, queue, head);
        queue := LinkChildren(queue, queue[head]);
        head := head + 1;
      }
      FinishedFails(words, FailsIn(nodes), queue);
    }

    /** One turn of the output loop: `output[u] = own[u] + output[fail[u]]`. */
    method MergeOutput(ghost queue: seq<nat>, ghost k: nat, u: nat)
      requires Represents(nodes, words, NeedlesOf(patterns)) && AllFails(words, FailsIn(nodes))
      requires k < |queue| && queue[k] == u && 0 < u < |nodes| && u !in queue[..k]
      requires OutputsTo(nodes, words, NeedlesOf(patterns), queue, k)
      requires nodes[u].fail < |nodes| && OutputAt(nodes, words, NeedlesOf(patterns), nodes[u].fail)
      modifies this`nodes
      ensures Represents(nodes, words, NeedlesOf(patterns)) && SameTrie(old(nodes), nodes)
      ensures FailsIn(nodes) == FailsIn(old(nodes))
      ensures OutputsTo(nodes, words, NeedlesOf(patterns), queue, k + 1)
    {
      var merged := SortDedup(nodes[u].own + nodes[nodes[u].fail].output);
      assert FailAt(words, FailsIn(nodes), u);
      MergedOutput(nodes, words, NeedlesOf(patterns), u, merged);
      OutputStep(nodes, words, NeedlesOf(patterns), queue, k, merged);
      SetOutput(nodes, words, NeedlesOf(patterns), u, merged);
      nodes := nodes[u := nodes[u].(output := merged)];
    }

    /** The output loop of `build`, in queue order. */
    method MergeOutputs(queue: seq<nat>)
      requires Represents(nodes, words, NeedlesOf(patterns)) && Expanded(words, queue, |queue|)
      requires AllFails(words, FailsIn(nodes)) && nodes[0].output == []
      modifies this`nodes
      ensures Represents(nodes, words, NeedlesOf(patterns)) && SameTrie(old(nodes), nodes)
      ensures Compiled(nodes, words, NeedlesOf(patterns))
    {
      RootOutput(nodes, words, NeedlesOf(patterns), queue);
      for k := 0 to |queue|
        invariant Represents(nodes, words, NeedlesOf(patterns)) && SameTrie(old(nodes), nodes)
        invariant AllFails(words, FailsIn(nodes)) && OutputsTo(nodes, words, NeedlesOf(patterns), queue, k)
      {
        FailIsDone(nodes, words, NeedlesOf(patterns), queue, k);
        QueueEntry(words, queue, k);
        MergeOutput(queue, k, queue[k]);
      }
      OutputsDone(nodes, words, NeedlesOf(patterns), queue);
    }

    /** Builds failure links and the propagated output lists. */
    method Build()
      requires Valid()
      modifies this
      ensures Valid() && built && patterns == old(patterns)
    {
      if built {
        return;
      }
      ResetLinks();
      var queue := LinkAll();
      MergeOutputs(queue);
      CompiledSound(nodes, words, NeedlesOf(patterns));
      built := true;
    }

    /**
     * Scans `text`. At all times, also between an addition and the next build, everything reported occurs,
     * each once, in order; once built, every occurrence is reported.
     */
    method FindAll(text: seq<byte>) returns (out: seq<Hit>)
      requires Valid()
      ensures SoundTo(patterns, text, out, |text|)
      ensures built ==> HitsTo(patterns, text, out, |text|)
    {
      out := [];
      if |patterns| == 0 {
        return;
      }
      var cur := 0;
      StartState(words);
      for i := 0 to |text|
        invariant Reading(words, Fold(text[..i]), cur) && SoundTo(patterns, text, out, i)
        invariant built ==> IsState(words, Fold(text[..i]), cur) && HitsTo(patterns, text, out, i)
      {
        var b := FoldByte(text[i]);
        ghost var s := Fold(text[..i]);
        assert Fold(text[..i + 1]) == s + [b];
        cur := Step(cur, b, s);
        MoreSound(nodes, words, patterns, text, out, i, cur);
        if built {
          MoreHits(nodes, words, patterns, text, out, i, cur);
        }
        out := out + HitsAt(nodes[cur].output, i + 1);
      }
      assert text[..|text|] == text;
    }

    /** One byte of the scan: walk the failure links, then follow the edge or stay at the root. */
    method Step(from: nat, b: byte, ghost s: seq<byte>) returns (cur: nat)
      requires Valid() && Reading(words, s, from)
      requires built ==> IsState(words, s, from)
      ensures Reading(words, s + [b], cur)
      ensures built ==> IsState(words, s + [b], cur)
    {
      if built {
        WalkStart(words, s, b, from);
      }
      var f := Walk(from, b, s);
      ReadOn(LinksOf(nodes), words, s, b, f);
      LookupFinds(LinksOf(nodes), words, f, b);
      if built {
        Arrive(LinksOf(nodes), words, s, b, f);
      }
      match Lookup(nodes[f].edges, b) {
        case Some(next) => cur := next;
        case None => cur := 0;
      }
    }

    /** Scans `text` and returns `(label, start offset)` pairs: never a wrong one, and once built every one. */
    method Scan(text: seq<byte>) returns (hits: seq<(Text, nat)>)
      requires Valid()
      ensures forall h :: h in hits ==> FoundAt(patterns, text, h.0, h.1)
      ensures built ==> forall name: Text, start: nat :: (name, start) in hits <==> FoundAt(patterns, text, name, start)
    {
      var buffer := FindAll(text);
      hits := [];
      for i := 0 to |buffer|
        invariant Located(patterns, buffer[..i], hits)
      {
        hits := hits + [(NameOf(patterns, buffer[i].pattern), StartOffset(patterns, buffer[i].pattern, buffer[i].end))];
      }
      assert buffer[..|buffer|] == buffer;
      ScanSound(patterns, text, buffer, hits);
      if built {
        ScanExact(patterns, text, buffer, hits, NeedlesOf(patterns), words);
      }
    }
  }
}
