/** `_brute`: depth-first search over assignments, pruned and with equal-load workers skipped. */
module Brute {
  import opened Options
  import opened Sequences
  import opened Loads

  /** Bucket `i` lists, in ascending order, the jobs that `a` gives to worker `i`. */
  ghost function IndexBuckets(a: seq<nat>, m: nat): (r: seq<seq<nat>>)
    requires Assigns(a, m)
    ensures |r| == m
  {
    if a == [] then seq(m, _ => [])
    else
      var k := |a| - 1;
      var before := IndexBuckets(a[..k], m);
      before[a[k] := before[a[k]] + [k]]
  }

  /** `c` is a complete assignment that continues the partial one `a`. */
  ghost predicate Completes(ws: seq<real>, m: nat, a: seq<nat>, c: seq<nat>) {
    |c| == |ws| && Assigns(c, m) && a <= c
  }

  /** `b` is better than `c`, or as good and no later in lexicographic order. */
  ghost predicate Leads(ws: seq<real>, m: nat, b: seq<nat>, c: seq<nat>)
    requires m > 0 && |b| <= |ws| && |c| <= |ws|
  {
    Makespan(ws, b, m) < Makespan(ws, c, m) || (Makespan(ws, b, m) == Makespan(ws, c, m) && (b == c || Earlier(b, c)))
  }

  lemma LeadsTrans(ws: seq<real>, m: nat, a: seq<nat>, b: seq<nat>, c: seq<nat>)
    requires m > 0 && |a| <= |ws| && |b| <= |ws| && |c| <= |ws| && Leads(ws, m, a, b) && Leads(ws, m, b, c)
    ensures Leads(ws, m, a, c)
  {
    if Earlier(a, b) && Earlier(b, c) {
      EarlierTrans(a, b, c);
    }
  }

  /** `best` is a complete assignment, if there is one yet. */
  ghost predicate Whole(ws: seq<real>, m: nat, best: Option<seq<nat>>) {
    best.Some? ==> Completes(ws, m, [], best.value)
  }

  /** `best` leads every completion of `a`. */
  ghost predicate Beats(ws: seq<real>, m: nat, a: seq<nat>, best: Option<seq<nat>>)
    requires m > 0
  {
    best.Some? && |best.value| <= |ws| && forall c :: Completes(ws, m, a, c) ==> Leads(ws, m, best.value, c)
  }

  ghost predicate NoWorse(ws: seq<real>, m: nat, before: Option<seq<nat>>, after: Option<seq<nat>>)
    requires m > 0 && Whole(ws, m, before) && Whole(ws, m, after)
  {
    before.Some? ==> after.Some? && Leads(ws, m, after.value, before.value)
  }

  // ------------------------------------------------------------------ why pruning loses nothing

  ghost predicate NonNegativeFrom(ws: seq<real>, k: nat) {
    forall j :: k <= j < |ws| ==> ws[j] >= 0.0
  }

  /** With one worker, or no negative weight behind the first two, the cut does no harm. */
  ghost predicate Harmless(ws: seq<real>, m: nat) {
    m == 1 || NonNegativeFrom(ws, 2)
  }

  lemma {:induction false} LoadOfPart(ws: seq<real>, a: seq<nat>, c: seq<nat>, i: nat)
    requires NonNegativeFrom(ws, |a|) && a <= c && |c| <= |ws|
    ensures Load(ws, a, i) <= Load(ws, c, i)
    decreases |c|
  {
    if |a| < |c| {
      LoadOfPart(ws, a, c[..|c| - 1], i);
    } else {
      assert a == c;
    }
  }

  /** A completion's makespan is at least that of the partial assignment. */
  lemma PartialMakespan(ws: seq<real>, m: nat, a: seq<nat>, c: seq<nat>)
    requires m > 0 && NonNegativeFrom(ws, |a|) && Completes(ws, m, a, c)
    ensures Max(LoadsOf(ws, a, m)) <= Makespan(ws, c, m)
  {
    var i :| 0 <= i < m && LoadsOf(ws, a, m)[i] == Max(LoadsOf(ws, a, m));
    LoadOfPart(ws, a, c, i);
    assert LoadsOf(ws, c, m)[i] <= Makespan(ws, c, m);
  }

  // ------------------------------------------------------------------ why symmetry loses nothing

  ghost function Swap(v: nat, w: nat, x: nat): nat {
    if x == v then w else if x == w then v else x
  }

  ghost function SwapAll(v: nat, w: nat, d: seq<nat>): (r: seq<nat>)
    ensures |r| == |d| && forall j :: 0 <= j < |d| ==> r[j] == Swap(v, w, d[j])
  {
    seq(|d|, j requires 0 <= j < |d| => Swap(v, w, d[j]))
  }

  /** From equal loads, exchanging two workers in the rest exchanges their final loads. */
  lemma {:induction false} SwappedLoad(ws: seq<real>, a: seq<nat>, d: seq<nat>, v: nat, w: nat, x: nat)
    requires |a| + |d| <= |ws| && Load(ws, a, v) == Load(ws, a, w)
    ensures Load(ws, a + SwapAll(v, w, d), x) == Load(ws, a + d, Swap(v, w, x))
  {
    if d == [] {
      assert a + d == a && a + SwapAll(v, w, d) == a;
    } else {
      var e := d[..|d| - 1];
      SwappedLoad(ws, a, e, v, w, x);
      assert (a + d)[..|a + d| - 1] == a + e;
      assert (a + SwapAll(v, w, d))[..|a + d| - 1] == a + SwapAll(v, w, e);
    }
  }

  lemma MaxUnderSwap(loads: seq<real>, swapped: seq<real>, v: nat, w: nat)
    requires loads != [] && |swapped| == |loads| && v < |loads| && w < |loads|
    requires forall x: nat :: x < |loads| ==> swapped[x] == loads[Swap(v, w, x)]
    ensures Max(swapped) == Max(loads)
  {
    var i :| 0 <= i < |loads| && loads[i] == Max(loads);
    assert swapped[Swap(v, w, i)] == loads[i];
    var k :| 0 <= k < |loads| && swapped[k] == Max(swapped);
  }

  /** So every completion over a skipped worker has an equal one over the worker tried before. */
  lemma SwappedMakespan(ws: seq<real>, m: nat, a: seq<nat>, v: nat, w: nat, d: seq<nat>)
    requires m > 0 && v < m && w < m && |a| + |d| <= |ws| && Load(ws, a, v) == Load(ws, a, w)
    ensures Makespan(ws, a + SwapAll(v, w, d), m) == Makespan(ws, a + d, m)
  {
    var loads, swapped := LoadsOf(ws, a + d, m), LoadsOf(ws, a + SwapAll(v, w, d), m);
    forall x: nat | x < m ensures swapped[x] == loads[Swap(v, w, x)] {
      SwappedLoad(ws, a, d, v, w, x);
    }
    MaxUnderSwap(loads, swapped, v, w);
  }

  lemma SwapCompletes(ws: seq<real>, m: nat, a: seq<nat>, v: nat, w: nat, d: seq<nat>)
    requires m > 0 && v < m && w < m && d != [] && d[0] == w && Completes(ws, m, a + [w], a + d)
    ensures Completes(ws, m, a + [v], a + SwapAll(v, w, d))
  {
    var c, e := a + d, a + SwapAll(v, w, d);
    forall j | 0 <= j < |e| ensures e[j] < m {
      assert c[j] < m;
    }
    assert e[..|a| + 1] == a + [v];
  }

  /** And that equal one comes first in lexicographic order. */
  lemma EqualCompletion(ws: seq<real>, m: nat, a: seq<nat>, v: nat, w: nat, c: seq<nat>) returns (e: seq<nat>)
    requires m > 0 && v < w < m && |a| < |ws| && Load(ws, a, v) == Load(ws, a, w)
    requires Completes(ws, m, a + [w], c)
    ensures Completes(ws, m, a + [v], e) && Leads(ws, m, e, c)
  {
    var d := c[|a|..];
    assert c == a + d && d[0] == w;
    SwapCompletes(ws, m, a, v, w, d);
    SwappedMakespan(ws, m, a, v, w, d);
    e := a + SwapAll(v, w, d);
    assert e[..|a|] == a == c[..|a|];
    assert LexAt(e, c, |a|);
  }

  /** What holds of the worker tried before holds of the skipped one. */
  lemma SkippedIsCovered(ws: seq<real>, m: nat, a: seq<nat>, v: nat, w: nat, best: Option<seq<nat>>)
    requires m > 0 && v < w < m && |a| < |ws| && Load(ws, a, v) == Load(ws, a, w)
    requires Beats(ws, m, a + [v], best)
    ensures Beats(ws, m, a + [w], best)
  {
    forall c | Completes(ws, m, a + [w], c) ensures Leads(ws, m, best.value, c) {
      var e := EqualCompletion(ws, m, a, v, w, c);
      LeadsTrans(ws, m, best.value, e, c);
    }
  }

  /** Every way of continuing `a` with a worker below `k` has been beaten. */
  ghost predicate Tried(ws: seq<real>, m: nat, a: seq<nat>, k: nat, best: Option<seq<nat>>)
    requires m > 0
  {
    forall v: nat :: v < k ==> Beats(ws, m, a + [v], best)
  }

  lemma BeatsOn(ws: seq<real>, m: nat, a: seq<nat>, before: Option<seq<nat>>, after: Option<seq<nat>>)
    requires m > 0 && Whole(ws, m, before) && Whole(ws, m, after)
    requires Beats(ws, m, a, before) && NoWorse(ws, m, before, after)
    ensures Beats(ws, m, a, after)
  {
    forall c | Completes(ws, m, a, c) ensures Leads(ws, m, after.value, c) {
      LeadsTrans(ws, m, after.value, before.value, c);
    }
  }

  lemma TriedMore(ws: seq<real>, m: nat, a: seq<nat>, k: nat, before: Option<seq<nat>>, after: Option<seq<nat>>)
    requires m > 0 && Whole(ws, m, before) && Whole(ws, m, after)
    requires Tried(ws, m, a, k, before) && NoWorse(ws, m, before, after) && Beats(ws, m, a + [k], after)
    ensures Tried(ws, m, a, k + 1, after)
  {
    forall v: nat | v < k + 1 ensures Beats(ws, m, a + [v], after) {
      if v < k {
        BeatsOn(ws, m, a + [v], before, after);
      }
    }
  }

  lemma SkipTried(ws: seq<real>, m: nat, a: seq<nat>, v: nat, w: nat, best: Option<seq<nat>>)
    requires m > 0 && v < w < m && |a| < |ws| && Load(ws, a, v) == Load(ws, a, w)
    requires Tried(ws, m, a, w, best)
    ensures Tried(ws, m, a, w + 1, best)
  {
    assert Beats(ws, m, a + [v], best);
    SkippedIsCovered(ws, m, a, v, w, best);
  }

  /** Trying every worker for the next job covers all completions. */
  lemma AllWorkersTried(ws: seq<real>, m: nat, a: seq<nat>, best: Option<seq<nat>>)
    requires m > 0 && |a| < |ws| && best.Some? && |best.value| <= |ws|
    requires Tried(ws, m, a, m, best)
    ensures Beats(ws, m, a, best)
  {
    forall c | Completes(ws, m, a, c) ensures Leads(ws, m, best.value, c) {
      var w := c[|a|];
      assert Completes(ws, m, a + [w], c);
      assert Beats(ws, m, a + [w], best);
    }
  }

  /** A complete assignment is its own only completion. */
  lemma LeafBeats(ws: seq<real>, m: nat, a: seq<nat>, best: Option<seq<nat>>)
    requires m > 0 && |a| == |ws| && best.Some? && |best.value| <= |ws| && Leads(ws, m, best.value, a)
    ensures Beats(ws, m, a, best)
  {
    forall c | Completes(ws, m, a, c) ensures c == a {
    }
  }

  /** The cut: nothing below can improve on an earlier `best`. */
  lemma PruneBeats(ws: seq<real>, m: nat, a: seq<nat>, best: seq<nat>)
    requires m > 0 && |a| <= |ws| && |best| <= |ws| && NonNegativeFrom(ws, |a|) && Earlier(best, a)
    requires Max(LoadsOf(ws, a, m)) >= Makespan(ws, best, m)
    ensures Beats(ws, m, a, Some(best))
  {
    forall c | Completes(ws, m, a, c) ensures Leads(ws, m, best, c) {
      PartialMakespan(ws, m, a, c);
      EarlierThanRest(best, a, c);
    }
  }

  // ------------------------------------------------------------------ the search as a function

  /** The best assignment after searching below `a`. */
  ghost function Below(ws: seq<real>, m: nat, a: seq<nat>, best: Option<seq<nat>>): (r: Option<seq<nat>>)
    requires m > 0 && |a| <= |ws| && Assigns(a, m) && Whole(ws, m, best)
    ensures Whole(ws, m, r)
    decreases |ws| - |a|, 1, 0
  {
    if |a| == |ws| then (if best.None? || Makespan(ws, a, m) < Makespan(ws, best.value, m) then Some(a) else best)
    else if best.Some? && Max(LoadsOf(ws, a, m)) >= Makespan(ws, best.value, m) then best
    else Across(ws, m, a, 0, {}, best)
  }

  /** The loop over workers from `w` on. */
  ghost function Across(ws: seq<real>, m: nat, a: seq<nat>, w: nat, seen: set<real>, best: Option<seq<nat>>)
    : (r: Option<seq<nat>>)
    requires m > 0 && |a| < |ws| && Assigns(a, m) && Whole(ws, m, best) && w <= m
    ensures Whole(ws, m, r)
    decreases |ws| - |a|, 0, m - w
  {
    if w == m then best
    else if Load(ws, a, w) in seen then Across(ws, m, a, w + 1, seen, best)
    else Across(ws, m, a, w + 1, seen + {Load(ws, a, w)}, Below(ws, m, a + [w], best))
  }

  /** `seen` holds only loads of workers below `k`. */
  ghost predicate SeenBelow(ws: seq<real>, a: seq<nat>, k: nat, seen: set<real>)
    requires |a| <= |ws|
  {
    forall x :: x in seen ==> exists v: nat :: v < k && Load(ws, a, v) == x
  }

  /** What the search ends with is what it had, or lies below `a`. */
  ghost predicate From(a: seq<nat>, before: Option<seq<nat>>, after: Option<seq<nat>>) {
    after == before || (after.Some? && a <= after.value)
  }

  /** The search never worsens its best, and ends with one. */
  lemma {:induction false} BelowImproves(ws: seq<real>, m: nat, a: seq<nat>, best: Option<seq<nat>>)
    requires m > 0 && |a| <= |ws| && Assigns(a, m) && Whole(ws, m, best)
    ensures var r := Below(ws, m, a, best);
      r.Some? && NoWorse(ws, m, best, r) && From(a, best, r)
    decreases |ws| - |a|, 1, 0
  {
    if |a| < |ws| {
      AcrossImproves(ws, m, a, 0, {}, best);
    }
  }

  lemma {:induction false} AcrossImproves(ws: seq<real>, m: nat, a: seq<nat>, w: nat, seen: set<real>, best: Option<seq<nat>>)
    requires m > 0 && |a| < |ws| && Assigns(a, m) && Whole(ws, m, best) && w <= m && (best.None? ==> w < m && seen == {})
    ensures var r := Across(ws, m, a, w, seen, best);
      r.Some? && NoWorse(ws, m, best, r) && From(a, best, r)
    decreases |ws| - |a|, 0, m - w
  {
    if w < m {
      if Load(ws, a, w) in seen {
        AcrossImproves(ws, m, a, w + 1, seen, best);
      } else {
        var next := Below(ws, m, a + [w], best);
        BelowImproves(ws, m, a + [w], best);
        AcrossImproves(ws, m, a, w + 1, seen + {Load(ws, a, w)}, next);
        var r := Across(ws, m, a, w, seen, best);
        assert a <= a + [w];
        if best.Some? {
          LeadsTrans(ws, m, r.value, next.value, best.value);
        }
      }
    }
  }

  /** The search enters its first two levels, and with one worker every level, only without a best. */
  ghost predicate Enters(m: nat, a: seq<nat>, best: Option<seq<nat>>) {
    best.None? || (m > 1 && |a| >= 2 && Earlier(best.value, a))
  }

  /** So it leads every completion whenever negative weights are harmless. */
  lemma {:induction false} BelowBeats(ws: seq<real>, m: nat, a: seq<nat>, best: Option<seq<nat>>)
    requires m > 0 && |a| <= |ws| && Assigns(a, m) && Whole(ws, m, best) && Harmless(ws, m) && Enters(m, a, best)
    ensures Beats(ws, m, a, Below(ws, m, a, best))
    decreases |ws| - |a|, 1, 0
  {
    var result := Below(ws, m, a, best);
    if |a| == |ws| {
      if best.Some? {
        EarlierThanRest(best.value, a, a);
      }
      LeafBeats(ws, m, a, result);
    } else if best.Some? && Max(LoadsOf(ws, a, m)) >= Makespan(ws, best.value, m) {
      PruneBeats(ws, m, a, best.value);
    } else {
      AcrossImproves(ws, m, a, 0, {}, best);
      if best.Some? {
        EarlierThanRest(best.value, a, a + [0]);
      }
      AcrossBeats(ws, m, a, 0, {}, best);
      AllWorkersTried(ws, m, a, result);
    }
  }

  /** What was found by way of a worker below `w` comes before everything by way of `w`. */
  lemma NextEarlier(a: seq<nat>, w: nat, before: Option<seq<nat>>, after: Option<seq<nat>>)
    requires (before.Some? ==> Earlier(before.value, a + [w])) && From(a + [w], before, after)
    ensures after.Some? ==> Earlier(after.value, a + [w + 1])
  {
    var here, next := a + [w], a + [w + 1];
    assert here[..|a|] == a == next[..|a|];
    if after.Some? {
      if after == before {
        var d: nat :| LexAt(after.value, here, d);
        assert next[..d] == here[..d];
        assert LexAt(after.value, next, d);
      } else {
        assert after.value[..|a|] == here[..|a|] && after.value[|a|] == here[|a|];
        assert LexAt(after.value, next, |a|);
      }
    }
  }

  /** The loop stands before worker `w`, and what it has found so far came earlier. */
  ghost predicate Passed(ws: seq<real>, m: nat, a: seq<nat>, w: nat, seen: set<real>, best: Option<seq<nat>>)
    requires m > 0 && |a| <= |ws|
  {
    && Tried(ws, m, a, w, best) && SeenBelow(ws, a, w, seen)
    && (best.Some? ==> Earlier(best.value, a + [w]))
    && (if w == 0 then best.None? || (m > 1 && |a| >= 2) else best.Some? && (a == [] ==> 0.0 in seen))
  }

  lemma {:induction false} AcrossBeats(ws: seq<real>, m: nat, a: seq<nat>, w: nat, seen: set<real>, best: Option<seq<nat>>)
    requires m > 0 && |a| < |ws| && Assigns(a, m) && Whole(ws, m, best) && w <= m && Harmless(ws, m)
    requires Passed(ws, m, a, w, seen, best)
    ensures Tried(ws, m, a, m, Across(ws, m, a, w, seen, best))
    decreases |ws| - |a|, 0, m - w
  {
    if w < m {
      var load := Load(ws, a, w);
      if load in seen {
        var v: nat :| v < w && Load(ws, a, v) == load;
        SkipTried(ws, m, a, v, w, best);
        NextEarlier(a, w, best, best);
        AcrossBeats(ws, m, a, w + 1, seen, best);
      } else {
        var next := Below(ws, m, a + [w], best);
        BelowImproves(ws, m, a + [w], best);
        BelowBeats(ws, m, a + [w], best);
        TriedMore(ws, m, a, w, best, next);
        NextEarlier(a, w, best, next);
        AcrossBeats(ws, m, a, w + 1, seen + {load}, next);
      }
    }
  }

  // ------------------------------------------------------------------ the search

  class Search {
    const weights: seq<real>
    const workers: nat
    var buckets: seq<seq<nat>>
    var loads: seq<real>
    var best: Option<LoadResult>
    /** The assignment whose buckets `best` holds. */
    ghost var chosen: Option<seq<nat>>

    /** The mutable lists hold the partial assignment `a`. */
    ghost predicate At(a: seq<nat>)
      reads this
    {
      && workers > 0 && |a| <= |weights| && Assigns(a, workers)
      && buckets == IndexBuckets(a, workers)
      && loads == LoadsOf(weights, a, workers)
    }

    ghost predicate Holds()
      requires workers > 0
      reads this
    {
      && Whole(weights, workers, chosen)
      && best == if chosen.None? then None else Some(ResultOf(weights, workers, chosen.value))
    }

    constructor (weights: seq<real>, workers: nat)
      requires workers > 0
      ensures this.weights == weights && this.workers == workers && At([]) && Holds() && chosen == None
    {
      this.weights := weights;
      this.workers := workers;
      buckets := seq(workers, _ => []);
      loads := seq(workers, _ => 0.0);
      best, chosen := None, None;
      new;
      assert loads == LoadsOf(weights, [], workers);
    }

    /** Places job `i` on worker `w`. */
    method Place(ghost a: seq<nat>, i: nat, w: nat)
      requires At(a) && i == |a| < |weights| && w < workers
      modifies this`buckets, this`loads
      ensures At(a + [w])
    {
      assert (a + [w])[..|a|] == a;
      buckets := buckets[w := buckets[w] + [i]];
      loads := loads[w := loads[w] + weights[i]];
      assert loads == LoadsOf(weights, a + [w], workers);
    }

    /** Takes it back. */
    method Unplace(ghost a: seq<nat>, i: nat, w: nat)
      requires At(a + [w]) && i == |a| && w < workers
      modifies this`buckets, this`loads
      ensures At(a)
    {
      assert (a + [w])[..|a|] == a;
      loads := loads[w := loads[w] - weights[i]];
      buckets := buckets[w := buckets[w][..|buckets[w]| - 1]];
      assert loads == LoadsOf(weights, a, workers);
      assert buckets == IndexBuckets(a, workers);
    }

    /** A complete assignment replaces `best` when it is strictly better. */
    method Leaf(ghost a: seq<nat>)
      requires At(a) && |a| == |weights| && Holds()
      modifies this`best, this`chosen
      ensures Holds() && chosen == Below(weights, workers, a, old(chosen))
    {
      var mk := Max(loads);
      if best.None? || mk < best.value.makespan {
        best := Some(LoadResult(buckets, mk));
        chosen := Some(a);
      }
    }

    /** Places job `i` on `w`, searches below, and takes the job back. */
    method Try(ghost a: seq<nat>, i: nat, w: nat)
      requires At(a) && i == |a| < |weights| && w < workers && Holds()
      modifies this
      ensures At(a) && Holds() && chosen.Some? && chosen == Below(weights, workers, a + [w], old(chosen))
      decreases |weights| - i, 0, 0
    {
      Place(a, i, w);
      Dfs(a + [w], i + 1);
      Unplace(a, i, w);
    }

    /** The recursive search below the partial assignment `a` of the first `i` jobs. */
    method Dfs(ghost a: seq<nat>, i: nat)
      requires At(a) && i == |a| && Holds()
      modifies this
      ensures At(a) && Holds() && chosen == Below(weights, workers, a, old(chosen))
      ensures chosen.Some? && NoWorse(weights, workers, old(chosen), chosen)
      ensures Harmless(weights, workers) && Enters(workers, a, old(chosen)) ==> Beats(weights, workers, a, chosen)
      decreases |weights| - i, 1, 0
    {
      ghost var before := chosen;
      BelowImproves(weights, workers, a, before);
      if Harmless(weights, workers) && Enters(workers, a, before) {
        BelowBeats(weights, workers, a, before);
      }
      if i == |weights| {
        Leaf(a);
        return;
      }
      if best.Some? && Max(loads) >= best.value.makespan {
        return;
      }
      TryAll(a, i);
    }

    /** The loop over workers. */
    method TryAll(ghost a: seq<nat>, i: nat)
      requires At(a) && i == |a| < |weights| && Holds()
      modifies this
      ensures At(a) && Holds() && chosen == Across(weights, workers, a, 0, {}, old(chosen))
      decreases |weights| - i, 0, 2
    {
      var seen: set<real> := {};
      for w := 0 to workers
        invariant At(a) && Holds()
        invariant Across(weights, workers, a, w, seen, chosen) == Across(weights, workers, a, 0, {}, old(chosen))
      {
        seen := Consider(a, i, w, seen);
      }
    }

    /** One turn of the loop over workers: skip a load that was tried, or try it. */
    method Consider(ghost a: seq<nat>, i: nat, w: nat, seen: set<real>) returns (more: set<real>)
      requires At(a) && i == |a| < |weights| && w < workers && Holds()
      modifies this
      ensures At(a) && Holds()
      ensures Across(weights, workers, a, w, seen, old(chosen)) == Across(weights, workers, a, w + 1, more, chosen)
      decreases |weights| - i, 0, 1
    {
      more := seen;
      if loads[w] !in seen {
        more := more + {loads[w]};
        Try(a, i, w);
      }
    }
  }

  ghost function ResultOf(ws: seq<real>, m: nat, c: seq<nat>): LoadResult
    requires m > 0 && Completes(ws, m, [], c)
  {
    LoadResult(IndexBuckets(c, m), Makespan(ws, c, m))
  }

  /** The search's answer is the least makespan of all assignments. */
  ghost predicate Optimal(ws: seq<real>, m: nat)
    requires m > 0
  {
    var best := Below(ws, m, [], None);
    best.Some? && forall c :: Completes(ws, m, [], c) ==> Makespan(ws, best.value, m) <= Makespan(ws, c, m)
  }

  /**
   * What the search finds: whenever negative weights are harmless the optimum, and of all optimal assignments the
   * first in lexicographic order. The LPT fallback is never needed. `c` is the assignment found.
   */
  method BruteBalance(weights: seq<real>, workers: int) returns (r: Result<LoadResult>, ghost c: seq<nat>)
    ensures workers <= 0 ==> r == if weights == [] then Success(LoadResult([], 0.0)) else ValueError
    ensures workers > 0 ==> Completes(weights, workers, [], c) && r == Success(ResultOf(weights, workers, c))
    ensures workers > 0 ==> Below(weights, workers, [], None) == Some(c)
    ensures workers > 0 ==> |r.value.buckets| == workers && ListsOnce(r.value.buckets, |weights|)
    ensures workers > 0 ==> forall i :: 0 <= i < workers ==> BucketIs(weights, r.value, c, i)
    ensures workers > 0 && Harmless(weights, workers) ==>
      forall b :: |b| == |weights| && Assigns(b, workers) ==> Leads(weights, workers, c, b)
  {
    c := [];
    if workers <= 0 {
      r := if |weights| == 0 then Success(LoadResult([], 0.0)) else ValueError;
      return;
    }
    var search := new Search(weights, workers);
    search.Dfs([], 0);
    if search.best.None? {
      assert false;
    }
    r, c := Success(search.best.value), search.chosen.value;
    IndexBucketsList(c, workers);
    forall i | 0 <= i < workers ensures BucketIs(weights, r.value, c, i) {
      IndexBucketIs(weights, c, workers, i);
    }
    if Harmless(weights, workers) {
      forall b | |b| == |weights| && Assigns(b, workers) ensures Leads(weights, workers, c, b) {
        assert Completes(weights, workers, [], b);
      }
    }
  }

  /** Bucket `i` holds, in ascending order, the jobs that `c` gives to worker `i`, and weighs no more than the makespan. */
  ghost predicate BucketIs(ws: seq<real>, r: LoadResult, c: seq<nat>, i: nat)
    requires i < |r.buckets|
  {
    && Increasing(r.buckets[i])
    && (forall x: nat :: x in r.buckets[i] <==> x < |c| && c[x] == i)
    && AllBelow(r.buckets[i], |ws|)
    && BucketLoad(ws, r.buckets[i]) <= r.makespan
  }

  lemma {:induction false} IndexBucketsList(c: seq<nat>, m: nat)
    requires Assigns(c, m)
    ensures ListsOnce(IndexBuckets(c, m), |c|)
  {
    if c == [] {
      NoneListed(IndexBuckets(c, m));
    } else {
      var k := |c| - 1;
      IndexBucketsList(c[..k], m);
      ListMore(IndexBuckets(c[..k], m), c[k], k);
      OnceMore(Listed(IndexBuckets(c[..k], m)), k);
    }
  }

  lemma IndexBucketsStep(c: seq<nat>, m: nat, i: nat)
    requires c != [] && Assigns(c, m) && i < m
    ensures var k := |c| - 1; IndexBuckets(c, m)[i] == IndexBuckets(c[..k], m)[i] + (if c[k] == i then [k] else [])
  {
  }

  lemma IncreasingSnoc(s: seq<nat>, k: nat)
    requires Increasing(s) && AllBelow(s, k)
    ensures Increasing(s + [k]) && AllBelow(s + [k], k + 1)
  {
  }

  lemma {:induction false} IndexBucketHolds(c: seq<nat>, m: nat, i: nat)
    requires Assigns(c, m) && i < m
    ensures var b := IndexBuckets(c, m)[i];
      Increasing(b) && AllBelow(b, |c|) && (forall x: nat :: x in b <==> x < |c| && c[x] == i)
  {
    if c != [] {
      var k := |c| - 1;
      IndexBucketHolds(c[..k], m, i);
      IndexBucketsStep(c, m, i);
      IncreasingSnoc(IndexBuckets(c[..k], m)[i], k);
    }
  }

  lemma {:induction false} IndexBucketWeighs(ws: seq<real>, c: seq<nat>, m: nat, i: nat)
    requires Assigns(c, m) && i < m && |c| <= |ws|
    ensures AllBelow(IndexBuckets(c, m)[i], |ws|) && BucketLoad(ws, IndexBuckets(c, m)[i]) == Load(ws, c, i)
  {
    if c != [] {
      var k := |c| - 1;
      IndexBucketWeighs(ws, c[..k], m, i);
      IndexBucketsStep(c, m, i);
      BucketLoadSnoc(ws, IndexBuckets(c[..k], m)[i], k);
    }
  }

  lemma IndexBucketIs(ws: seq<real>, c: seq<nat>, m: nat, i: nat)
    requires i < m && Completes(ws, m, [], c)
    ensures BucketIs(ws, ResultOf(ws, m, c), c, i)
  {
    IndexBucketHolds(c, m, i);
    IndexBucketWeighs(ws, c, m, i);
    assert LoadsOf(ws, c, m)[i] <= Makespan(ws, c, m);
  }

  // ------------------------------------------------------------------ negative weights

  /** 2 and 10, then nothing but -9 at position `j`. */
  ghost function Losing(n: nat, j: nat): (ws: seq<real>)
    requires 2 <= j < n
    ensures |ws| == n && ws[0] == 2.0 && ws[1] == 10.0 && ws[j] == -9.0
    ensures forall k :: 2 <= k < n && k != j ==> ws[k] == 0.0
  {
    seq(n, k requires 0 <= k < n => if k == 0 then 2.0 else if k == 1 then 10.0 else if k == j then -9.0 else 0.0)
  }

  /** What each of the first two jobs, and the negative one, adds to worker `i`. */
  lemma {:induction false} LosingLoad(n: nat, j: nat, a: seq<nat>, i: nat)
    requires 2 <= j < n && |a| <= n
    ensures Load(Losing(n, j), a, i) == (if |a| > 0 && a[0] == i then 2.0 else 0.0)
                                        + (if |a| > 1 && a[1] == i then 10.0 else 0.0)
                                        + (if |a| > j && a[j] == i then -9.0 else 0.0)
    decreases |a|
  {
    if a != [] {
      LosingLoad(n, j, a[..|a| - 1], i);
    }
  }

  /** The first leaf found below `a` gives everything else to worker 0. */
  ghost function Zeros(n: nat): (z: seq<nat>)
    ensures |z| == n && forall k :: 0 <= k < n ==> z[k] == 0
  {
    seq(n, _ => 0)
  }

  lemma {:induction false} FirstLeaf(ws: seq<real>, m: nat, a: seq<nat>)
    requires m > 0 && |a| <= |ws| && Assigns(a, m)
    ensures var b := Below(ws, m, a, None);
      b.Some? && a <= b.value && Makespan(ws, b.value, m) <= Makespan(ws, a + Zeros(|ws| - |a|), m)
    decreases |ws| - |a|
  {
    BelowImproves(ws, m, a, None);
    if |a| == |ws| {
      assert a + Zeros(0) == a;
    } else {
      FirstLeaf(ws, m, a + [0]);
      assert (a + [0]) + Zeros(|ws| - |a| - 1) == a + Zeros(|ws| - |a|);
      AcrossImproves(ws, m, a, 1, {} + {Load(ws, a, 0)}, Below(ws, m, a + [0], None));
    }
  }

  /** Workers whose loads were all tried change nothing. */
  lemma {:induction false} AllSeen(ws: seq<real>, m: nat, a: seq<nat>, w: nat, seen: set<real>, best: Option<seq<nat>>)
    requires m > 0 && |a| < |ws| && Assigns(a, m) && Whole(ws, m, best) && w <= m
    requires forall v: nat :: w <= v < m ==> Load(ws, a, v) in seen
    ensures Across(ws, m, a, w, seen, best) == best
    decreases m - w
  {
    if w < m {
      AllSeen(ws, m, a, w + 1, seen, best);
    }
  }

  /** With the first two jobs on one worker the search finds 3. */
  lemma LosingTogether(n: nat, j: nat, m: nat) returns (c: seq<nat>)
    requires 2 <= j < n && m >= 2
    ensures Completes(Losing(n, j), m, [0, 0], c) && Below(Losing(n, j), m, [0, 0], None) == Some(c)
    ensures Makespan(Losing(n, j), c, m) == 3.0
  {
    var ws, z := Losing(n, j), [0, 0] + Zeros(n - 2);
    FirstLeaf(ws, m, [0, 0]);
    c := Below(ws, m, [0, 0], None).value;
    forall i: nat | i < m ensures LoadsOf(ws, z, m)[i] <= 3.0 {
      LosingLoad(n, j, z, i);
    }
    assert Makespan(ws, z, m) in LoadsOf(ws, z, m);
    assert c[0] == [0, 0][0] && c[1] == [0, 0][1];
    LosingLoad(n, j, c, 0);
    assert LoadsOf(ws, c, m)[0] <= Makespan(ws, c, m);
  }

  /** With 2 and 10 apart it is cut off at once. */
  lemma LosingApart(n: nat, j: nat, m: nat, c: seq<nat>)
    requires 2 <= j < n && m >= 2 && Completes(Losing(n, j), m, [], c) && Makespan(Losing(n, j), c, m) == 3.0
    ensures Below(Losing(n, j), m, [0, 1], Some(c)) == Some(c)
  {
    LosingLoad(n, j, [0, 1], 1);
    assert LoadsOf(Losing(n, j), [0, 1], m)[1] == 10.0;
  }

  lemma LosingFirst(n: nat, j: nat, m: nat) returns (c: seq<nat>)
    requires 2 <= j < n && m >= 2
    ensures Completes(Losing(n, j), m, [], c) && Below(Losing(n, j), m, [0], None) == Some(c)
    ensures Makespan(Losing(n, j), c, m) == 3.0
  {
    var ws := Losing(n, j);
    c := LosingTogether(n, j, m);
    LosingApart(n, j, m, c);
    assert [0] + [0] == [0, 0] && [0] + [1] == [0, 1];
    forall v: nat ensures Load(ws, [0], v) == if v == 0 then 2.0 else 0.0 {
      LosingLoad(n, j, [0], v);
    }
    var none: set<real> := {};
    AllSeen(ws, m, [0], 2, none + {2.0} + {0.0}, Some(c));
    assert Load(ws, [0], 1) == 0.0 && 0.0 !in none + {2.0};
    assert Across(ws, m, [0], 1, none + {2.0}, Some(c)) == Some(c);
    assert Across(ws, m, [0], 0, none, None) == Some(c);
  }

  /** The search settles for 3. */
  lemma LosingAnswer(n: nat, j: nat, m: nat) returns (c: seq<nat>)
    requires 2 <= j < n && m >= 2
    ensures Completes(Losing(n, j), m, [], c) && Below(Losing(n, j), m, [], None) == Some(c)
    ensures Makespan(Losing(n, j), c, m) == 3.0
  {
    var ws := Losing(n, j);
    c := LosingFirst(n, j, m);
    assert [] + [0] == [0];
    forall v: nat ensures Load(ws, [], v) == 0.0 {
    }
    var none: set<real> := {};
    AllSeen(ws, m, [], 1, none + {0.0}, Some(c));
    assert Across(ws, m, [], 0, none, None) == Some(c);
  }

  /** One negative weight anywhere behind the first two, on two workers or more: the search settles for 3 where 2 is possible. */
  lemma NegativeWeightsLose(n: nat, j: nat, m: nat) returns (c: seq<nat>, b: seq<nat>)
    requires 2 <= j < n && m >= 2
    ensures Completes(Losing(n, j), m, [], c) && Below(Losing(n, j), m, [], None) == Some(c)
    ensures Makespan(Losing(n, j), c, m) == 3.0
    ensures |b| == n && Assigns(b, m) && Makespan(Losing(n, j), b, m) == 2.0
    ensures !Optimal(Losing(n, j), m)
  {
    var ws := Losing(n, j);
    c := LosingAnswer(n, j, m);
    b := seq(n, k requires 0 <= k < n => if k == 0 then 0 else 1);
    forall i: nat ensures Load(ws, b, i) == if i == 0 then 2.0 else if i == 1 then 1.0 else 0.0 {
      LosingLoad(n, j, b, i);
    }
    var loads := LoadsOf(ws, b, m);
    assert loads[0] == 2.0 && Max(loads) in loads;
    assert Completes(ws, m, [], b);
  }

  /** Negative weights stand only at positions in `at`. */
  ghost predicate NegativesIn(ws: seq<real>, at: set<nat>) {
    forall j: nat :: j < |ws| && ws[j] < 0.0 ==> j in at
  }

  ghost predicate AlwaysOptimal(n: nat, m: nat, at: set<nat>)
    requires m > 0
  {
    forall ws: seq<real> :: |ws| == n && NegativesIn(ws, at) ==> Optimal(ws, m)
  }

  /**
   * Exactly when the search is optimal: with one worker always; with more, for all lists whose negative
   * weights stand at given positions if and only if those positions are among the first two.
   */
  lemma OptimalExact(n: nat, m: nat, at: set<nat>)
    requires m > 0
    ensures AlwaysOptimal(n, m, at) <==> m == 1 || forall j: nat :: j in at && j < n ==> j < 2
  {
    if m == 1 || forall j: nat :: j in at && j < n ==> j < 2 {
      forall ws: seq<real> | |ws| == n && NegativesIn(ws, at) ensures Optimal(ws, m) {
        BelowBeats(ws, m, [], None);
      }
    } else {
      var j: nat :| j in at && 2 <= j < n;
      assert NegativesIn(Losing(n, j), at);
      var c, b := NegativeWeightsLose(n, j, m);
    }
  }
}
