/** Facts about sequences that several components need. */
module Sequences {
  ghost predicate AllDistinct<T>(s: seq<T>) {
    forall i, j :: 0 <= i < j < |s| ==> s[i] != s[j]
  }

  ghost predicate AllBelow(s: seq<nat>, n: nat) {
    forall i :: 0 <= i < |s| ==> s[i] < n
  }

  predicate Increasing(s: seq<nat>) {
    forall i, j :: 0 <= i < j < |s| ==> s[i] < s[j]
  }

  function RemoveAt<T>(s: seq<T>, i: nat): (r: seq<T>)
    requires i < |s|
    ensures |r| == |s| - 1
    ensures forall k :: 0 <= k < |r| ==> r[k] == s[if k < i then k else k + 1]
  {
    s[..i] + s[i + 1..]
  }

  /** Different numbers below `n` are at most `n` many. */
  lemma {:induction false} Pigeonhole(s: seq<nat>, n: nat)
    requires AllDistinct(s) && AllBelow(s, n)
    ensures |s| <= n
  {
    if s == [] {
      return;
    }
    var first := s[0];
    if i :| 0 <= i < |s| && s[i] == n - 1 {
      var t := RemoveAt(s, i);
      forall k | 0 <= k < |t| ensures t[k] < n - 1 {
      }
      Pigeonhole(t, n - 1);
    } else {
      Pigeonhole(s, n - 1);
    }
  }

  /** `sort_unstable` followed by `dedup`. */
  function SortDedup(s: seq<nat>): (r: seq<nat>)
    ensures Increasing(r)
    ensures forall x :: x in r <==> x in s
  {
    if s == [] then []
    else
      assert forall x :: x in s <==> x == s[0] || x in s[1..];
      InsertSorted(SortDedup(s[1..]), s[0])
  }

  function InsertSorted(s: seq<nat>, x: nat): (r: seq<nat>)
    requires Increasing(s)
    ensures Increasing(r)
    ensures forall y :: y in r <==> y in s || y == x
    ensures s != [] && s[0] < x ==> r != [] && r[0] == s[0]
  {
    if s == [] || x < s[0] then [x] + s
    else if x == s[0] then s
    else
      var t := InsertSorted(s[1..], x);
      assert forall y :: y in s <==> y == s[0] || y in s[1..];
      assert forall i :: 0 <= i < |t| ==> t[i] in t;
      [s[0]] + t
  }

  // ------------------------------------------------------------------ picking

  /** The elements that `keep` accepts, in order. */
  function Pick<T(!new)>(s: seq<T>, keep: T -> bool): (r: seq<T>)
    ensures forall x :: x in r <==> x in s && keep(x)
    ensures |r| <= |s| && ((exists x :: x in s && !keep(x)) ==> |r| < |s|)
  {
    if s == [] then []
    else
      assert forall x :: x in s <==> x == s[0] || x in s[1..];
      if keep(s[0]) then [s[0]] + Pick(s[1..], keep) else Pick(s[1..], keep)
  }

  ghost predicate PickedAt<T>(r: seq<T>, s: seq<T>, from: seq<nat>, k: nat)
    requires k < |r| == |from|
  {
    from[k] < |s| && r[k] == s[from[k]]
  }

  ghost predicate PlaceKept<T>(s: seq<T>, keep: T -> bool, from: seq<nat>, i: nat) {
    i < |s| ==> (i in from <==> keep(s[i]))
  }

  /** `r` are the elements at the places `from`, which are those that `keep` accepts, in ascending order. */
  ghost predicate Picks<T>(r: seq<T>, s: seq<T>, keep: T -> bool, from: seq<nat>) {
    && |from| == |r| && Increasing(from)
    && (forall k: nat :: k < |r| ==> PickedAt(r, s, from, k))
    && (forall i: nat :: PlaceKept(s, keep, from, i))
  }

  function Later(from: seq<nat>): (r: seq<nat>)
    ensures |r| == |from| && forall k :: 0 <= k < |r| ==> r[k] == from[k] + 1
  {
    seq(|from|, k requires 0 <= k < |from| => from[k] + 1)
  }

  lemma LaterHas(from: seq<nat>, i: nat)
    ensures i in Later(from) <==> i > 0 && i - 1 in from
  {
    if i > 0 && i - 1 in from {
      var k :| 0 <= k < |from| && from[k] == i - 1;
      assert Later(from)[k] == i;
    }
  }

  lemma PicksOn<T>(x: T, s: seq<T>, keep: T -> bool, r: seq<T>, from: seq<nat>)
    requires Picks(r, s, keep, from)
    ensures if keep(x) then Picks([x] + r, [x] + s, keep, [0] + Later(from)) else Picks(r, [x] + s, keep, Later(from))
  {
    var all, moved := [x] + s, Later(from);
    var more, places := if keep(x) then [x] + r else r, if keep(x) then [0] + moved else moved;
    forall k: nat | k < |more| ensures PickedAt(more, all, places, k) {
      var before := if keep(x) then k - 1 else k;
      assert before >= 0 ==> PickedAt(r, s, from, before);
    }
    forall i: nat ensures PlaceKept(all, keep, places, i) {
      LaterHas(from, i);
      if i > 0 {
        assert PlaceKept(s, keep, from, i - 1);
      }
    }
  }

  lemma {:induction false} PickSelects<T(!new)>(s: seq<T>, keep: T -> bool) returns (from: seq<nat>)
    ensures Picks(Pick(s, keep), s, keep, from)
  {
    from := [];
    if s != [] {
      var rest := PickSelects(s[1..], keep);
      PicksOn(s[0], s[1..], keep, Pick(s[1..], keep), rest);
      assert [s[0]] + s[1..] == s;
      from := if keep(s[0]) then [0] + Later(rest) else Later(rest);
    }
  }

  // ------------------------------------------------------------------ first occurrences

  /** The first occurrence of each number, in order. */
  function Firsts(s: seq<int>): (r: seq<int>)
    ensures forall p :: p in r <==> p in s
  {
    if s == [] then []
    else
      var r, last := Firsts(s[..|s| - 1]), s[|s| - 1];
      assert s == s[..|s| - 1] + [last];
      if last in r then r else r + [last]
  }

  /** `x` comes first in the list, and `y` only after that. */
  ghost predicate FirstBefore(s: seq<int>, x: int, y: int) {
    exists a: nat :: a < |s| && s[a] == x && y !in s[..a + 1]
  }

  /** The first occurrences keep their order. */
  lemma {:induction false} FirstsInOrder(s: seq<int>, i: nat, j: nat)
    requires i < j < |Firsts(s)|
    ensures FirstBefore(s, Firsts(s)[i], Firsts(s)[j])
  {
    var front, last := s[..|s| - 1], s[|s| - 1];
    var r := Firsts(front);
    if j < |r| {
      FirstsInOrder(front, i, j);
      var a: nat :| a < |front| && front[a] == r[i] && r[j] !in front[..a + 1];
      assert s[..a + 1] == front[..a + 1];
    } else {
      assert r[i] in r && r[i] in front;
      var a: nat :| a < |front| && front[a] == r[i];
      assert s[..a + 1] <= front;
      assert forall x :: x in s[..a + 1] ==> x in front;
    }
  }

  // ------------------------------------------------------------------ lexicographic order

  /** `b` and `c` differ first at position `d`, where `b` is smaller. */
  ghost predicate LexAt(b: seq<nat>, c: seq<nat>, d: nat) {
    d < |b| && d < |c| && b[..d] == c[..d] && b[d] < c[d]
  }

  ghost predicate Earlier(b: seq<nat>, c: seq<nat>) {
    exists d: nat :: LexAt(b, c, d)
  }

  lemma EarlierTrans(a: seq<nat>, b: seq<nat>, c: seq<nat>)
    requires Earlier(a, b) && Earlier(b, c)
    ensures Earlier(a, c)
  {
    var d: nat :| LexAt(a, b, d);
    var e: nat :| LexAt(b, c, e);
    var f := if d <= e then d else e;
    assert a[..f] == b[..f] == c[..f] by {
      assert a[..d][..f] == b[..d][..f] && b[..e][..f] == c[..e][..f];
    }
    assert d < e ==> b[..e][d] == c[..e][d];
    assert e < d ==> a[..d][e] == b[..d][e];
    assert LexAt(a, c, f);
  }

  /** What precedes a part precedes all that continues it. */
  lemma EarlierThanRest(b: seq<nat>, a: seq<nat>, c: seq<nat>)
    requires Earlier(b, a) && a <= c
    ensures Earlier(b, c)
  {
    var d: nat :| LexAt(b, a, d);
    assert c[..d] == a[..d];
    assert LexAt(b, c, d);
  }
}
