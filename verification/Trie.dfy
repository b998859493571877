/**
 * The theory behind both automata, stated on the words the trie nodes spell.
 * Node `u` spells `words[u]`; node 0 is the root and spells the empty word.
 */
module Trie {
  import opened Bytes

  type Words = seq<seq<byte>>

  ghost predicate Distinct(words: Words, i: nat, j: nat)
    requires i < |words| && j < |words|
  {
    words[i] == words[j] ==> i == j
  }

  ghost predicate Injective(words: Words) {
    forall i: nat, j: nat :: i < |words| && j < |words| ==> Distinct(words, i, j)
  }

  /** Every word but the root's extends the word of some other node by one byte. */
  ghost predicate HasPrefix(words: Words, c: nat)
    requires c < |words|
  {
    words[c] != [] ==> words[c][..|words[c]| - 1] in words
  }

  ghost predicate PrefixClosed(words: Words) {
    forall c: nat :: c < |words| ==> HasPrefix(words, c)
  }

  ghost predicate IsTrie(words: Words) {
    && |words| > 0 && words[0] == []
    && Injective(words)
    && PrefixClosed(words)
  }

  lemma SameWord(words: Words, i: nat, j: nat)
    requires IsTrie(words) && i < |words| && j < |words| && words[i] == words[j]
    ensures i == j
  {
    assert Distinct(words, i, j);
  }

  lemma ParentOf(words: Words, c: nat) returns (p: nat)
    requires IsTrie(words) && c < |words| && words[c] != []
    ensures p < |words| && words[p] == words[c][..|words[c]| - 1]
    ensures words[c] == words[p] + [words[c][|words[c]| - 1]]
  {
    assert HasPrefix(words, c);
    p :| 0 <= p < |words| && words[p] == words[c][..|words[c]| - 1];
  }

  /** `u` spells the longest suffix of `s` that the trie contains. */
  ghost predicate IsState(words: Words, s: seq<byte>, u: nat) {
    && u < |words|
    && IsSuffix(words[u], s)
    && forall c: nat {:trigger IsSuffix(words[c], s)} ::
         c < |words| && IsSuffix(words[c], s) ==> |words[c]| <= |words[u]|
  }

  /** The failure link of `u`: the state of everything after the first byte. */
  ghost predicate IsFail(words: Words, u: nat, f: nat)
    requires 0 < u < |words| && IsTrie(words)
  {
    NonRootNonEmpty(words, u);
    IsState(words, words[u][1..], f)
  }

  lemma NonRootNonEmpty(words: Words, u: nat)
    requires u < |words| && IsTrie(words)
    ensures u != 0 <==> words[u] != []
  {
    assert Distinct(words, u, 0);
  }

  /** A failure link leads to a strictly shorter word. */
  lemma FailIsShorter(words: Words, u: nat, f: nat)
    requires IsTrie(words) && 0 < u < |words| && IsFail(words, u, f)
    ensures f < |words| && |words[f]| < |words[u]|
  {
    NonRootNonEmpty(words, u);
  }

  /** Loop state of the failure walk that looks for the state of `s + [b]`. */
  ghost predicate Walking(words: Words, s: seq<byte>, b: byte, f: nat) {
    && f < |words|
    && IsSuffix(words[f], s)
    && forall c: nat {:trigger IsSuffix(words[c], s + [b])} ::
         c < |words| && words[c] != [] && IsSuffix(words[c], s + [b]) ==> |words[c]| - 1 <= |words[f]|
  }

  lemma WalkStart(words: Words, s: seq<byte>, b: byte, f: nat)
    requires IsTrie(words) && IsState(words, s, f)
    ensures Walking(words, s, b, f)
  {
    forall c | 0 <= c < |words| && words[c] != [] && IsSuffix(words[c], s + [b])
      ensures |words[c]| - 1 <= |words[f]|
    {
      SuffixSnoc(words[c], s, b);
      var p := ParentOf(words, c);
    }
  }

  lemma WalkFollow(words: Words, s: seq<byte>, b: byte, f: nat, g: nat)
    requires IsTrie(words) && Walking(words, s, b, f)
    requires 0 < f && IsFail(words, f, g)
    requires words[f] + [b] !in words
    ensures Walking(words, s, b, g)
  {
    SuffixTail(words, f);
    SuffixTrans(words[g], words[f][1..], words[f]);
    SuffixTrans(words[g], words[f], s);
    forall c | 0 <= c < |words| && words[c] != [] && IsSuffix(words[c], s + [b])
      ensures |words[c]| - 1 <= |words[g]|
    {
      SuffixSnoc(words[c], s, b);
      var p := ParentOf(words, c);
      assert words[c] == words[p] + [b];
      SuffixOfSuffix(words[p], words[f], s);
      assert words[f][0..] == words[f];
      ProperSuffix(words[p], words[f]);
    }
  }

  lemma SuffixTail(words: Words, f: nat)
    requires IsTrie(words) && 0 < f < |words|
    ensures words[f] != [] && IsSuffix(words[f][1..], words[f])
  {
    NonRootNonEmpty(words, f);
  }

  lemma WalkFound(words: Words, s: seq<byte>, b: byte, f: nat, v: nat)
    requires IsTrie(words) && Walking(words, s, b, f)
    requires v < |words| && words[v] == words[f] + [b]
    ensures IsState(words, s + [b], v)
  {
    SuffixSnoc(words[v], s, b);
    assert words[v][..|words[v]| - 1] == words[f];
  }

  lemma LastByte(x: seq<byte>, s: seq<byte>, b: byte)
    requires x != [] && IsSuffix(x, s + [b])
    ensures x == x[..|x| - 1] + [b]
  {
    SuffixSnoc(x, s, b);
  }

  lemma WalkStuck(words: Words, s: seq<byte>, b: byte)
    requires IsTrie(words) && Walking(words, s, b, 0)
    requires words[0] + [b] !in words
    ensures IsState(words, s + [b], 0)
  {
    assert (s + [b])[|s + [b]|..] == [];
    forall c | 0 <= c < |words| && IsSuffix(words[c], s + [b])
      ensures |words[c]| <= 0
    {
      if words[c] != [] {
        LastByte(words[c], s, b);
        assert false;
      }
    }
  }

  /** A word of the trie is a suffix of `s` exactly when it is one of the state's. */
  lemma StateCarriesSuffixes(words: Words, s: seq<byte>, u: nat, x: seq<byte>)
    requires IsState(words, s, u) && x in words
    ensures IsSuffix(x, s) <==> IsSuffix(x, words[u])
  {
    if IsSuffix(x, s) {
      SuffixOfSuffix(x, words[u], s);
    }
    if IsSuffix(x, words[u]) {
      SuffixTrans(x, words[u], s);
    }
  }

  /** The suffixes of a node's word are that word and the suffixes of its failure node. */
  lemma FailCarriesSuffixes(words: Words, u: nat, f: nat, x: seq<byte>)
    requires IsTrie(words) && 0 < u < |words| && IsFail(words, u, f) && x in words
    ensures IsSuffix(x, words[u]) <==> x == words[u] || IsSuffix(x, words[f])
  {
    SuffixTail(words, u);
    ProperSuffix(x, words[u]);
    StateCarriesSuffixes(words, words[u][1..], f, x);
    if IsSuffix(x, words[u]) && |x| == |words[u]| {
      assert words[u][0..] == words[u];
    }
    assert words[u][|words[u]| - |words[u]|..] == words[u];
  }

  // ------------------------------------------------------------------ breadth-first order

  ghost predicate IsChild(words: Words, u: nat, c: nat)
    requires u < |words|
  {
    c < |words| && |words[c]| == |words[u]| + 1 && words[c][..|words[u]|] == words[u]
  }

  /** A queue of non-root nodes, each at most once, shallowest first. */
  ghost predicate IsQueue(words: Words, queue: seq<nat>) {
    && (forall i :: 0 <= i < |queue| ==> 0 < queue[i] < |words|)
    && (forall i, j :: 0 <= i < j < |queue| ==> queue[i] != queue[j])
    && (forall i, j :: 0 <= i < j < |queue| ==> |words[queue[i]]| <= |words[queue[j]]|)
  }

  ghost predicate ChildAt(words: Words, queue: seq<nat>, i: nat, c: nat) {
    i < |queue| && queue[i] < |words| && IsChild(words, queue[i], c)
  }

  ghost predicate ShortQueued(words: Words, queue: seq<nat>, c: nat) {
    0 < c < |words| && |words[c]| == 1 ==> c in queue
  }

  ghost predicate ChildQueued(words: Words, queue: seq<nat>, i: nat, c: nat) {
    ChildAt(words, queue, i, c) ==> c in queue
  }

  ghost predicate Justified(words: Words, queue: seq<nat>, head: nat, c: nat) {
    c in queue && c < |words| && |words[c]| != 1 ==> exists i: nat :: i < head && ChildAt(words, queue, i, c)
  }

  /** The queue holds the root's children and the children of its first `head` members. */
  ghost predicate Expanded(words: Words, queue: seq<nat>, head: nat) {
    && head <= |queue|
    && IsQueue(words, queue)
    && (forall c: nat :: ShortQueued(words, queue, c))
    && (forall i: nat, c: nat :: i < head ==> ChildQueued(words, queue, i, c))
    && (forall c: nat :: Justified(words, queue, head, c))
  }

  /** `kids` lists the children of `u`, each once. */
  ghost predicate AreChildren(words: Words, u: nat, kids: seq<nat>)
    requires u < |words|
  {
    && (forall k :: 0 <= k < |kids| ==> IsChild(words, u, kids[k]))
    && (forall j, k :: 0 <= j < k < |kids| ==> kids[j] != kids[k])
    && (forall c :: IsChild(words, u, c) ==> c in kids)
  }

  lemma ExpandRoot(words: Words, kids: seq<nat>)
    requires IsTrie(words) && AreChildren(words, 0, kids)
    ensures Expanded(words, kids, 0)
  {
    forall c: nat ensures ShortQueued(words, kids, c) {
      assert 0 < c < |words| && |words[c]| == 1 ==> IsChild(words, 0, c);
    }
  }

  /** The parent of a node is unique. */
  lemma OneParent(words: Words, u: nat, v: nat, c: nat)
    requires IsTrie(words) && u < |words| && v < |words|
    requires IsChild(words, u, c) && IsChild(words, v, c)
    ensures u == v
  {
    SameWord(words, u, v);
  }

  lemma ChildrenAreNew(words: Words, queue: seq<nat>, head: nat, c: nat)
    requires IsTrie(words) && Expanded(words, queue, head) && head < |queue|
    requires IsChild(words, queue[head], c)
    ensures 0 < c && c !in queue
  {
    NonRootNonEmpty(words, queue[head]);
    if c in queue {
      assert Justified(words, queue, head, c);
      var i: nat :| i < head && ChildAt(words, queue, i, c);
      OneParent(words, queue[i], queue[head], c);
      assert false;
    }
  }

  lemma QueueDepth(words: Words, queue: seq<nat>, head: nat, c: nat)
    requires IsTrie(words) && Expanded(words, queue, head) && head < |queue|
    requires c in queue
    ensures |words[c]| <= |words[queue[head]]| + 1
  {
    if |words[c]| != 1 {
      assert Justified(words, queue, head, c);
      var i: nat :| i < head && ChildAt(words, queue, i, c);
    }
  }

  /** Nodes of one depth may be appended when nothing queued is deeper. */
  lemma AppendLevel(words: Words, queue: seq<nat>, kids: seq<nat>, d: nat)
    requires IsQueue(words, queue)
    requires forall i :: 0 <= i < |queue| ==> |words[queue[i]]| <= d
    requires forall k :: 0 <= k < |kids| ==> 0 < kids[k] < |words| && |words[kids[k]]| == d && kids[k] !in queue
    requires forall j, k :: 0 <= j < k < |kids| ==> kids[j] != kids[k]
    ensures IsQueue(words, queue + kids)
  {
    var q := queue + kids;
    forall i | 0 <= i < |q| ensures 0 < q[i] < |words| && |words[q[i]]| <= d {
      if |queue| <= i { assert q[i] == kids[i - |queue|]; }
    }
    forall i, j | 0 <= i < j < |q| ensures q[i] != q[j] && |words[q[i]]| <= |words[q[j]]| {
      if |queue| <= j { assert q[j] == kids[j - |queue|]; }
    }
  }

  lemma QueueGrows(words: Words, queue: seq<nat>, head: nat, kids: seq<nat>)
    requires IsTrie(words) && Expanded(words, queue, head) && head < |queue|
    requires AreChildren(words, queue[head], kids)
    ensures IsQueue(words, queue + kids)
  {
    var d := |words[queue[head]]| + 1;
    forall k | 0 <= k < |kids| ensures 0 < kids[k] < |words| && |words[kids[k]]| == d && kids[k] !in queue {
      ChildrenAreNew(words, queue, head, kids[k]);
    }
    forall i | 0 <= i < |queue| ensures |words[queue[i]]| <= d {
      QueueDepth(words, queue, head, queue[i]);
    }
    AppendLevel(words, queue, kids, d);
  }

  lemma JustifiedNext(words: Words, queue: seq<nat>, head: nat, kids: seq<nat>, c: nat)
    requires head < |queue| && queue[head] < |words|
    requires Justified(words, queue, head, c) && AreChildren(words, queue[head], kids)
    ensures Justified(words, queue + kids, head + 1, c)
  {
    var q := queue + kids;
    if c in queue && c < |words| && |words[c]| != 1 {
      var i: nat :| i < head && ChildAt(words, queue, i, c);
      assert ChildAt(words, q, i, c);
    } else if c in kids {
      assert ChildAt(words, q, head, c);
    }
  }

  lemma ExpandNext(words: Words, queue: seq<nat>, head: nat, kids: seq<nat>)
    requires IsTrie(words) && Expanded(words, queue, head) && head < |queue|
    requires AreChildren(words, queue[head], kids)
    ensures Expanded(words, queue + kids, head + 1)
  {
    QueueGrows(words, queue, head, kids);
    var q := queue + kids;
    forall c: nat ensures ShortQueued(words, q, c) {
      assert ShortQueued(words, queue, c);
    }
    forall i: nat, c: nat | i < head + 1 ensures ChildQueued(words, q, i, c) {
      assert i < head ==> ChildQueued(words, queue, i, c);
    }
    var next := head + 1;
    forall c: nat ensures Justified(words, q, next, c) {
      JustifiedNext(words, queue, head, kids, c);
    }
  }

  lemma QueueOrder(words: Words, queue: seq<nat>, i: nat, j: nat)
    requires IsQueue(words, queue) && i < |queue| && j <= |queue|
    requires j < |queue| ==> |words[queue[i]]| < |words[queue[j]]|
    ensures i < j
  {
  }

  /** Every node no deeper than the next one to process is already queued. */
  lemma {:induction false} ShallowQueued(words: Words, queue: seq<nat>, head: nat, c: nat)
    requires IsTrie(words) && Expanded(words, queue, head)
    requires 0 < c < |words|
    requires head < |queue| ==> |words[c]| <= |words[queue[head]]|
    ensures c in queue
    decreases |words[c]|
  {
    NonRootNonEmpty(words, c);
    assert ShortQueued(words, queue, c);
    if |words[c]| > 1 {
      var p := ParentOf(words, c);
      assert IsChild(words, p, c);
      assert p != 0;
      ShallowQueued(words, queue, head, p);
      var i :| 0 <= i < |queue| && queue[i] == p;
      QueueOrder(words, queue, i, head);
      assert ChildQueued(words, queue, i, c);
    }
  }

  lemma QueueEntry(words: Words, queue: seq<nat>, k: nat)
    requires IsQueue(words, queue) && k < |queue|
    ensures 0 < queue[k] < |words| && queue[k] !in queue[..k]
  {
  }

  /** In a finished queue a strictly shallower node comes strictly earlier. */
  lemma ShallowerIsEarlier(words: Words, queue: seq<nat>, k: nat, c: nat)
    requires IsTrie(words) && Expanded(words, queue, |queue|) && k < |queue|
    requires 0 < c < |words| && |words[c]| < |words[queue[k]]|
    ensures exists i :: 0 <= i < k && queue[i] == c
  {
    ShallowQueued(words, queue, |queue|, c);
    var i :| 0 <= i < |queue| && queue[i] == c;
    QueueOrder(words, queue, i, k);
  }
}
