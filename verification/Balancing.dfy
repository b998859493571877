/** `_lpt` and the scanner's fallback `_lpt_idx`: index buckets over stably sorted jobs. */
module Balancing {
  import opened Sequences
  import opened Loads
  import opened Lpt

  // ------------------------------------------------------------------ the stable descending sort

  /** The place for `idx`: behind everything at least as heavy. */
  function Slot(weights: seq<real>, order: seq<nat>, idx: nat): (p: nat)
    requires idx < |weights| && AllBelow(order, |weights|)
    ensures p <= |order|
    ensures forall j :: 0 <= j < p ==> weights[order[j]] >= weights[idx]
    ensures p < |order| ==> weights[order[p]] < weights[idx]
  {
    if order == [] || weights[order[0]] < weights[idx] then 0
    else Slot(weights, order[1..], idx) + 1
  }

  /** Heavier first; equal weights keep their index order. */
  predicate Ahead(weights: seq<real>, i: nat, j: nat)
    requires i < |weights| && j < |weights|
  {
    weights[i] > weights[j] || (weights[i] == weights[j] && i < j)
  }

  ghost predicate StablySorted(weights: seq<real>, order: seq<nat>)
    requires AllBelow(order, |weights|)
  {
    forall i, j {:trigger Ahead(weights, order[i], order[j])} ::
      0 <= i < j < |order| ==> Ahead(weights, order[i], order[j])
  }

  /** `idx` put into its place among the lower indices. */
  function Insert(weights: seq<real>, order: seq<nat>, idx: nat): (r: seq<nat>)
    requires idx < |weights| && AllBelow(order, idx) && AllBelow(order, |weights|) && StablySorted(weights, order)
    ensures |r| == |order| + 1 && AllBelow(r, idx + 1) && AllBelow(r, |weights|) && StablySorted(weights, r)
    ensures multiset(r) == multiset(order) + multiset{idx}
  {
    var p := Slot(weights, order, idx);
    PlaceKeepsOrder(weights, order, idx, p);
    PlaceLists(order, idx, p);
    order[..p] + [idx] + order[p..]
  }

  /** The first `k` indices sorted by descending weight, stably. */
  function SortTo(weights: seq<real>, k: nat): (order: seq<nat>)
    requires k <= |weights|
    ensures |order| == k && AllBelow(order, k) && AllBelow(order, |weights|) && StablySorted(weights, order)
    ensures OnceBelow(multiset(order), k)
  {
    if k == 0 then []
    else
      var last: nat := k - 1;
      var before := SortTo(weights, last);
      OnceMore(multiset(before), last);
      Insert(weights, before, last)
  }

  lemma PlaceLists(order: seq<nat>, idx: nat, p: nat)
    requires p <= |order|
    ensures multiset(order[..p] + [idx] + order[p..]) == multiset(order) + multiset{idx}
  {
    assert order == order[..p] + order[p..];
  }

  lemma PlaceKeepsOrder(weights: seq<real>, order: seq<nat>, idx: nat, p: nat)
    requires idx < |weights| && p <= |order| && AllBelow(order, idx) && AllBelow(order, |weights|)
    requires StablySorted(weights, order)
    requires forall j :: 0 <= j < p ==> weights[order[j]] >= weights[idx]
    requires p < |order| ==> weights[order[p]] < weights[idx]
    ensures var r := order[..p] + [idx] + order[p..];
      AllBelow(r, idx + 1) && AllBelow(r, |weights|) && StablySorted(weights, r)
  {
    var r := order[..p] + [idx] + order[p..];
    forall i, j | 0 <= i < j < |r| ensures Ahead(weights, r[i], r[j]) {
      assert i < p ==> r[i] == order[i];
      assert p < i ==> r[i] == order[i - 1];
      assert j < p ==> r[j] == order[j];
      assert p < j ==> r[j] == order[j - 1];
      if i == p && p < j - 1 {
        assert Ahead(weights, order[p], order[j - 1]);
      }
    }
  }

  function SortDescending(weights: seq<real>): seq<nat> {
    SortTo(weights, |weights|)
  }

  /** A list reordered by `order`. */
  ghost function Permuted<T>(s: seq<T>, order: seq<nat>): (r: seq<T>)
    requires AllBelow(order, |s|)
    ensures |r| == |order| && forall j :: 0 <= j < |order| ==> r[j] == s[order[j]]
  {
    seq(|order|, j requires 0 <= j < |order| => s[order[j]])
  }

  /** The weight on worker `i` of the listed indices. */
  ghost function ListLoad(weights: seq<real>, b: seq<nat>, order: seq<nat>, i: nat): real
    requires |b| == |weights| && AllBelow(order, |weights|)
  {
    if order == [] then 0.0
    else
      ListLoad(weights, b, order[..|order| - 1], i)
      + (if b[order[|order| - 1]] == i then weights[order[|order| - 1]] else 0.0)
  }

  lemma {:induction false} ListLoadConcat(weights: seq<real>, b: seq<nat>, x: seq<nat>, y: seq<nat>, i: nat)
    requires |b| == |weights|
    requires AllBelow(x, |weights|)
    requires AllBelow(y, |weights|)
    ensures ListLoad(weights, b, x + y, i) == ListLoad(weights, b, x, i) + ListLoad(weights, b, y, i)
  {
    if y == [] {
      assert x + y == x;
    } else {
      assert (x + y)[..|x + y| - 1] == x + y[..|y| - 1];
      ListLoadConcat(weights, b, x, y[..|y| - 1], i);
    }
  }

  lemma InsertLoad(weights: seq<real>, b: seq<nat>, order: seq<nat>, p: nat, idx: nat, i: nat)
    requires |b| == |weights| && p <= |order| && idx < |weights|
    requires AllBelow(order, |weights|)
    ensures ListLoad(weights, b, order[..p] + [idx] + order[p..], i)
         == ListLoad(weights, b, order, i) + (if b[idx] == i then weights[idx] else 0.0)
  {
    ListLoadConcat(weights, b, order[..p], order[p..], i);
    assert order[..p] + order[p..] == order;
    ListLoadConcat(weights, b, order[..p] + [idx], order[p..], i);
    ListLoadConcat(weights, b, order[..p], [idx], i);
    assert [idx][..0] == [];
    assert ListLoad(weights, b, [], i) == 0.0;
  }

  lemma InsertedLoad(weights: seq<real>, b: seq<nat>, order: seq<nat>, idx: nat, i: nat)
    requires |b| == |weights| && idx < |weights| && AllBelow(order, idx) && AllBelow(order, |weights|)
    requires StablySorted(weights, order)
    requires ListLoad(weights, b, order, i) == Load(weights, b[..idx], i)
    ensures ListLoad(weights, b, Insert(weights, order, idx), i) == Load(weights, b[..idx + 1], i)
  {
    InsertLoad(weights, b, order, Slot(weights, order, idx), idx, i);
    LoadStep(weights, b, idx, i);
  }

  /** Sorting does not change what an assignment puts on a worker. */
  lemma {:induction false} SortKeepsLoad(weights: seq<real>, b: seq<nat>, k: nat, i: nat)
    requires |b| == |weights| && k <= |weights|
    ensures ListLoad(weights, b, SortTo(weights, k), i) == Load(weights, b[..k], i)
  {
    if k > 0 {
      SortKeepsLoad(weights, b, k - 1, i);
      InsertedLoad(weights, b, SortTo(weights, k - 1), k - 1, i);
      SortStep(weights, k);
    }
  }

  lemma SortStep(weights: seq<real>, k: nat)
    requires 0 < k <= |weights|
    ensures SortTo(weights, k) == Insert(weights, SortTo(weights, k - 1), k - 1)
  {
  }

  lemma {:induction false} PermutedLoad(weights: seq<real>, b: seq<nat>, order: seq<nat>, i: nat)
    requires |b| == |weights| && AllBelow(order, |weights|)
    ensures Load(Permuted(weights, order), Permuted(b, order), i) == ListLoad(weights, b, order, i)
  {
    if order != [] {
      var k := |order| - 1;
      PermutedLoad(weights, b, order[..k], i);
      assert Permuted(b, order)[..k] == Permuted(b, order[..k]);
      LoadOfPrefix(Permuted(weights, order), Permuted(weights, order[..k]), Permuted(b, order[..k]), i);
    }
  }

  lemma {:induction false} LoadOfPrefix(ws: seq<real>, vs: seq<real>, a: seq<nat>, i: nat)
    requires |a| <= |ws| && |a| <= |vs| && forall j :: 0 <= j < |a| ==> ws[j] == vs[j]
    ensures Load(ws, a, i) == Load(vs, a, i)
  {
    if a != [] {
      LoadOfPrefix(ws, vs, a[..|a| - 1], i);
    }
  }

  // ------------------------------------------------------------------ buckets

  /** The indices each worker receives, in placement order. */
  ghost function BucketsOf(order: seq<nat>, a: seq<nat>, m: nat): (r: seq<seq<nat>>)
    requires |a| <= |order| && Assigns(a, m)
    ensures |r| == m
  {
    if a == [] then seq(m, _ => [])
    else
      var k := |a| - 1;
      var before := BucketsOf(order, a[..k], m);
      before[a[k] := before[a[k]] + [order[k]]]
  }

  predicate IsFull(bucket: seq<nat>) {
    bucket != []
  }

  /** `[b for b in buckets if b]`. */
  function NonEmpty(buckets: seq<seq<nat>>): (r: seq<seq<nat>>)
    ensures forall b :: b in r <==> b in buckets && b != []
  {
    Pick(buckets, IsFull)
  }

  lemma {:induction false} NonEmptyLists(buckets: seq<seq<nat>>)
    ensures Listed(NonEmpty(buckets)) == Listed(buckets)
  {
    if buckets != [] {
      NonEmptyLists(buckets[1..]);
    }
  }

  /**
   * The buckets divide the jobs among at most so many workers: each index is listed once among them all, no
   * bucket is empty, and each lists its jobs heaviest first, equal ones by index.
   */
  ghost predicate Divides(weights: seq<real>, buckets: seq<seq<nat>>, workers: nat) {
    && |buckets| <= workers && ListsOnce(buckets, |weights|)
    && forall b :: b in buckets ==> b != [] && AllBelow(b, |weights|) && StablySorted(weights, b)
  }

  /** The makespan is the greatest weight of a bucket, or 0 if a worker is left without one and that is more. */
  ghost predicate GreatestWeight(weights: seq<real>, buckets: seq<seq<nat>>, workers: nat, makespan: real)
    requires forall b :: b in buckets ==> AllBelow(b, |weights|)
  {
    && (forall b :: b in buckets ==> BucketLoad(weights, b) <= makespan)
    && (|buckets| < workers ==> 0.0 <= makespan)
    && ((exists b :: b in buckets && BucketLoad(weights, b) == makespan) || (|buckets| < workers && makespan == 0.0))
  }

  /** Bucket `i` lists, once each and in order, the jobs that worker `i` was given. */
  ghost predicate BucketOk(order: seq<nat>, a: seq<nat>, bucket: seq<nat>, i: nat)
    requires |a| <= |order|
  {
    && (forall x :: x in bucket <==> exists j :: 0 <= j < |a| && a[j] == i && order[j] == x)
    && AllDistinct(bucket)
  }

  lemma {:induction false} BucketsPartition(order: seq<nat>, a: seq<nat>, m: nat, i: nat)
    requires |a| <= |order| && Assigns(a, m) && i < m
    requires AllDistinct(order)
    ensures BucketOk(order, a, BucketsOf(order, a, m)[i], i)
  {
    if a != [] {
      var k := |a| - 1;
      var c := a[..k];
      BucketsPartition(order, c, m, i);
      var before, after := BucketsOf(order, c, m)[i], BucketsOf(order, a, m)[i];
      forall x ensures x in after <==> exists j :: 0 <= j < |a| && a[j] == i && order[j] == x {
        if a[k] == i && x == order[k] {
          assert after[|after| - 1] == x;
        }
        if x in before {
          var j :| 0 <= j < |c| && c[j] == i && order[j] == x;
          assert a[j] == i;
        }
        if j :| 0 <= j < |a| && a[j] == i && order[j] == x {
          assert j == k || c[j] == i;
        }
      }
      assert order[k] !in before;
    }
  }

  lemma {:induction false} BucketLoads(weights: seq<real>, order: seq<nat>, a: seq<nat>, m: nat, i: nat)
    requires |a| <= |order| && Assigns(a, m) && i < m && AllBelow(order, |weights|)
    ensures AllBelow(BucketsOf(order, a, m)[i], |weights|)
    ensures BucketLoad(weights, BucketsOf(order, a, m)[i]) == Load(Permuted(weights, order), a, i)
  {
    if a != [] {
      var k := |a| - 1;
      BucketLoads(weights, order, a[..k], m, i);
      BucketLoadSnoc(weights, BucketsOf(order, a[..k], m)[i], order[k]);
      assert Permuted(weights, order)[k] == weights[order[k]];
    }
  }

  // ------------------------------------------------------------------ the two methods

  /** The sorted weights and where LPT puts them. */
  ghost function SortedWeights(weights: seq<real>): seq<real> {
    Permuted(weights, SortDescending(weights))
  }

  ghost function LptPlacement(weights: seq<real>, m: nat): seq<nat>
    requires m > 0
  {
    Greedy(SortedWeights(weights), m, |weights|)
  }

  ghost function LptBuckets(weights: seq<real>, m: nat): (r: seq<seq<nat>>)
    requires m > 0
    ensures |r| == m
  {
    BucketsOf(SortDescending(weights), LptPlacement(weights, m), m)
  }

  /** The variables after the first `k` jobs of `order` are placed. */
  ghost predicate Placed(order: seq<nat>, ws: seq<real>, m: nat, k: nat, buckets: seq<seq<nat>>, loads: seq<real>)
    requires m > 0 && |order| == |ws|
  {
    && k <= |ws|
    && buckets == BucketsOf(order, Greedy(ws, m, k), m)
    && loads == LoadsOf(ws, Greedy(ws, m, k), m)
  }

  lemma NothingPlaced(order: seq<nat>, ws: seq<real>, m: nat, buckets: seq<seq<nat>>, loads: seq<real>)
    requires m > 0 && |order| == |ws| && buckets == seq(m, _ => []) && loads == seq(m, _ => 0.0)
    ensures Placed(order, ws, m, 0, buckets, loads)
  {
    assert loads == LoadsOf(ws, [], m);
  }

  lemma LoadsAppend(ws: seq<real>, a: seq<nat>, i: nat, m: nat)
    requires |a| < |ws| && i < m
    ensures LoadsOf(ws, a + [i], m) == LoadsOf(ws, a, m)[i := LoadsOf(ws, a, m)[i] + ws[|a|]]
  {
    assert (a + [i])[..|a|] == a;
    var before, after := LoadsOf(ws, a, m), LoadsOf(ws, a + [i], m);
    forall w: nat | w < m ensures after[w] == before[w] + (if w == i then ws[|a|] else 0.0) {
    }
    assert after == before[i := before[i] + ws[|a|]];
  }

  lemma BucketsAppend(order: seq<nat>, a: seq<nat>, i: nat, m: nat)
    requires |a| < |order| && i < m && Assigns(a, m) && Assigns(a + [i], m)
    ensures BucketsOf(order, a + [i], m) == BucketsOf(order, a, m)[i := BucketsOf(order, a, m)[i] + [order[|a|]]]
  {
    assert (a + [i])[..|a|] == a;
  }

  /** One placement: the least loaded worker takes the next job. */
  lemma PlaceNext(order: seq<nat>, ws: seq<real>, m: nat, k: nat, buckets: seq<seq<nat>>, loads: seq<real>)
    requires m > 0 && |order| == |ws| && k < |ws| && Placed(order, ws, m, k, buckets, loads)
    ensures |loads| == |buckets| == m
    ensures var i := ArgMin(loads);
      Placed(order, ws, m, k + 1, buckets[i := buckets[i] + [order[k]]], loads[i := loads[i] + ws[k]])
  {
    var i := ArgMin(loads);
    NextLoads(ws, m, k, loads);
    NextBuckets(order, ws, m, k, buckets, i);
  }

  lemma NextLoads(ws: seq<real>, m: nat, k: nat, loads: seq<real>)
    requires m > 0 && k < |ws| && loads == LoadsOf(ws, Greedy(ws, m, k), m)
    ensures Greedy(ws, m, k + 1) == Greedy(ws, m, k) + [ArgMin(loads)]
    ensures loads[ArgMin(loads) := loads[ArgMin(loads)] + ws[k]] == LoadsOf(ws, Greedy(ws, m, k + 1), m)
  {
    NextGreedy(ws, m, k, loads);
    LoadsAppend(ws, Greedy(ws, m, k), ArgMin(loads), m);
  }

  lemma NextBuckets(order: seq<nat>, ws: seq<real>, m: nat, k: nat, buckets: seq<seq<nat>>, i: nat)
    requires i < m && k < |ws| == |order| && buckets == BucketsOf(order, Greedy(ws, m, k), m)
    requires Greedy(ws, m, k + 1) == Greedy(ws, m, k) + [i]
    ensures buckets[i := buckets[i] + [order[k]]] == BucketsOf(order, Greedy(ws, m, k + 1), m)
  {
    BucketsAppend(order, Greedy(ws, m, k), i, m);
  }

  lemma NextGreedy(ws: seq<real>, m: nat, k: nat, loads: seq<real>)
    requires m > 0 && k < |ws| && loads == LoadsOf(ws, Greedy(ws, m, k), m)
    ensures Greedy(ws, m, k + 1) == Greedy(ws, m, k) + [ArgMin(loads)]
  {
  }

  /** `sorted(enumerate(weights), ...)`: the pairs in the order of the stable sort. */
  function Indexed(weights: seq<real>, order: seq<nat>): (r: seq<(nat, real)>)
    requires AllBelow(order, |weights|)
    ensures |r| == |order| && forall j :: 0 <= j < |r| ==> r[j] == (order[j], weights[order[j]])
  {
    seq(|order|, j requires 0 <= j < |order| => (order[j], weights[order[j]]))
  }

  /** The placement loop of `_lpt`: each pair in turn to the least loaded worker. */
  method PlacePairs(indexed: seq<(nat, real)>, m: nat, ghost weights: seq<real>, ghost order: seq<nat>)
    returns (buckets: seq<seq<nat>>, loads: seq<real>)
    requires m > 0 && AllBelow(order, |weights|) && indexed == Indexed(weights, order)
    ensures Placed(order, Permuted(weights, order), m, |order|, buckets, loads)
  {
    buckets := seq(m, _ => []);
    loads := seq(m, _ => 0.0);
    ghost var ws := Permuted(weights, order);
    NothingPlaced(order, ws, m, buckets, loads);
    for k := 0 to |indexed|
      invariant Placed(order, ws, m, k, buckets, loads)
    {
      PlaceNext(order, ws, m, k, buckets, loads);
      var (idx, w) := indexed[k];
      var i := ArgMin(loads);
      buckets := buckets[i := buckets[i] + [idx]];
      loads := loads[i := loads[i] + w];
    }
  }

  /** The placement loop of `_lpt_idx`: each index in turn, its weight looked up. */
  method PlaceInOrder(weights: seq<real>, order: seq<nat>, m: nat, ghost ws: seq<real>)
    returns (buckets: seq<seq<nat>>, loads: seq<real>)
    requires m > 0 && AllBelow(order, |weights|) && ws == Permuted(weights, order)
    ensures Placed(order, ws, m, |order|, buckets, loads)
  {
    buckets := seq(m, _ => []);
    loads := seq(m, _ => 0.0);
    NothingPlaced(order, ws, m, buckets, loads);
    for k := 0 to |order|
      invariant Placed(order, ws, m, k, buckets, loads)
    {
      PlaceNext(order, ws, m, k, buckets, loads);
      var idx, i := order[k], ArgMin(loads);
      buckets := buckets[i := buckets[i] + [idx]];
      loads := loads[i := loads[i] + weights[idx]];
    }
  }

  /** Greedy LPT over `(index, weight)` pairs. */
  method LptBalance(weights: seq<real>, workers: int) returns (r: Result<LoadResult>)
    ensures workers > 0 ==> r.Success? && Divides(weights, r.value.buckets, workers)
    ensures workers > 0 ==> GreatestWeight(weights, r.value.buckets, workers, r.value.makespan)
    ensures workers <= 0 ==> r == if weights == [] then Success(LoadResult([], 0.0)) else ValueError
    ensures workers > 0 ==> r.Success? && r.value.buckets == NonEmpty(LptBuckets(weights, workers))
    ensures workers > 0 ==> r.value.makespan == Makespan(SortedWeights(weights), LptPlacement(weights, workers), workers)
  {
    if workers <= 0 {
      return if |weights| == 0 then Success(LoadResult([], 0.0)) else ValueError;
    }
    var order := SortDescending(weights);
    var buckets, loads := PlacePairs(Indexed(weights, order), workers, weights, order);
    r := Success(LoadResult(NonEmpty(buckets), Max(loads)));
    LptDivides(weights, workers);
    LptWeighs(weights, workers);
  }

  /** The scanner's fallback: the same buckets. */
  method LptIdx(weights: seq<real>, workers: int) returns (r: Result<seq<seq<nat>>>)
    ensures workers > 0 ==> r.Success? && Divides(weights, r.value, workers)
    ensures workers <= 0 ==> r == if weights == [] then Success([]) else ValueError
    ensures workers > 0 ==> r == Success(NonEmpty(LptBuckets(weights, workers)))
  {
    if workers <= 0 {
      return if |weights| == 0 then Success([]) else ValueError;
    }
    var buckets, loads := PlaceInOrder(weights, SortDescending(weights), workers, SortedWeights(weights));
    r := Success(NonEmpty(buckets));
    LptDivides(weights, workers);
  }

  // ------------------------------------------------------------------ what LPT guarantees

  lemma TakeMore(order: seq<nat>, k: nat)
    requires k < |order|
    ensures multiset(order[..k + 1]) == multiset(order[..k]) + multiset{order[k]}
  {
    assert order[..k + 1] == order[..k] + [order[k]];
  }

  lemma {:induction false} BucketsList(order: seq<nat>, a: seq<nat>, m: nat)
    requires |a| <= |order| && Assigns(a, m)
    ensures Listed(BucketsOf(order, a, m)) == multiset(order[..|a|])
  {
    if a == [] {
      NoneListed(BucketsOf(order, a, m));
    } else {
      var k := |a| - 1;
      BucketsList(order, a[..k], m);
      ListMore(BucketsOf(order, a[..k], m), a[k], order[k]);
      TakeMore(order, k);
    }
  }

  /** A bucket keeps the order in which its jobs were placed. */
  lemma {:induction false} BucketSorted(weights: seq<real>, order: seq<nat>, a: seq<nat>, m: nat, i: nat)
    requires |a| <= |order| && Assigns(a, m) && i < m && AllBelow(order, |weights|) && StablySorted(weights, order)
    ensures var b := BucketsOf(order, a, m)[i];
      AllBelow(b, |weights|) && StablySorted(weights, b) && forall x :: x in b ==> x in order[..|a|]
  {
    if a != [] {
      var k := |a| - 1;
      BucketSorted(weights, order, a[..k], m, i);
      var before, after := BucketsOf(order, a[..k], m)[i], BucketsOf(order, a, m)[i];
      assert after == before + (if a[k] == i then [order[k]] else []);
      assert order[..|a|] == order[..k] + [order[k]];
      forall p | 0 <= p < |before| ensures Ahead(weights, before[p], order[k]) {
        assert before[p] in order[..k];
        var q :| 0 <= q < k && order[q] == before[p];
        assert Ahead(weights, order[q], order[k]);
      }
    }
  }

  /** What is returned divides the jobs. */
  lemma LptDivides(weights: seq<real>, m: nat)
    requires m > 0
    ensures Divides(weights, NonEmpty(LptBuckets(weights, m)), m)
  {
    var order, a, all := SortDescending(weights), LptPlacement(weights, m), LptBuckets(weights, m);
    var from := PickSelects(all, IsFull);
    forall k: nat | k < |from| ensures from[k] < m {
      assert PickedAt(NonEmpty(all), all, from, k);
    }
    Pigeonhole(from, m);
    NonEmptyLists(all);
    BucketsList(order, a, m);
    assert order[..|a|] == order;
    forall b | b in NonEmpty(all) ensures b != [] && AllBelow(b, |weights|) && StablySorted(weights, b) {
      var i :| 0 <= i < |all| && all[i] == b;
      BucketSorted(weights, order, a, m, i);
    }
  }

  lemma LptLoads(weights: seq<real>, m: nat)
    requires m > 0
    ensures forall i: nat :: i < m ==>
              LoadIs(weights, LptBuckets(weights, m)[i], SortedWeights(weights), LptPlacement(weights, m), i)
  {
    forall i: nat | i < m
      ensures LoadIs(weights, LptBuckets(weights, m)[i], SortedWeights(weights), LptPlacement(weights, m), i)
    {
      BucketLoads(weights, SortDescending(weights), LptPlacement(weights, m), m, i);
    }
  }

  ghost predicate LoadIs(weights: seq<real>, bucket: seq<nat>, ws: seq<real>, a: seq<nat>, i: nat)
    requires |a| <= |ws|
  {
    AllBelow(bucket, |weights|) && BucketLoad(weights, bucket) == Load(ws, a, i)
  }

  /** And the makespan returned is what its heaviest bucket weighs. */
  lemma LptWeighs(weights: seq<real>, m: nat)
    requires m > 0 && Divides(weights, NonEmpty(LptBuckets(weights, m)), m)
    ensures GreatestWeight(weights, NonEmpty(LptBuckets(weights, m)), m,
                           Makespan(SortedWeights(weights), LptPlacement(weights, m), m))
  {
    var order, a, all := SortDescending(weights), LptPlacement(weights, m), LptBuckets(weights, m);
    var loads := LoadsOf(SortedWeights(weights), a, m);
    var from := PickSelects(all, IsFull);
    LptLoads(weights, m);
    forall k: nat | k < |from| ensures from[k] < m && all[from[k]] in NonEmpty(all) {
      assert PickedAt(NonEmpty(all), all, from, k);
    }
    if |NonEmpty(all)| < m {
      var i := MissingWorker(from, 0, m);
      assert PlaceKept(all, IsFull, from, i);
      assert loads[i] == BucketLoad(weights, []);
    }
    var i: nat :| i < m && loads[i] == Max(loads);
    if i !in from {
      assert PlaceKept(all, IsFull, from, i);
      SomeMissing(from, m, i);
    }
  }

  lemma SomeMissing(from: seq<nat>, m: nat, i: nat)
    requires Increasing(from) && AllBelow(from, m) && i < m && i !in from
    ensures |from| < m
  {
    var more := from + [i];
    forall j, k | 0 <= j < k < |more| ensures more[j] != more[k] {
      assert k == |from| ==> more[j] in from;
    }
    Pigeonhole(more, m);
  }

  lemma SortedOnce(weights: seq<real>)
    ensures AllDistinct(SortDescending(weights))
    ensures forall x: nat :: x in SortDescending(weights) <==> x < |weights|
  {
    var order := SortDescending(weights);
    forall p, q | 0 <= p < q < |order| ensures order[p] != order[q] {
      assert Ahead(weights, order[p], order[q]);
    }
    forall x: nat ensures x in order <==> x < |weights| {
      assert x in order <==> multiset(order)[x] > 0;
    }
  }

  /** Every index is in exactly one bucket, once, and the buckets weigh what the loads say. */
  lemma LptPartitions(weights: seq<real>, m: nat, x: nat) returns (i: nat)
    requires m > 0 && x < |weights|
    ensures i < m && x in LptBuckets(weights, m)[i]
    ensures forall k: nat :: k < m && x in LptBuckets(weights, m)[k] ==> k == i
    ensures AllDistinct(LptBuckets(weights, m)[i])
    ensures AllBelow(LptBuckets(weights, m)[i], |weights|)
    ensures BucketLoad(weights, LptBuckets(weights, m)[i]) == Load(SortedWeights(weights), LptPlacement(weights, m), i)
  {
    var order, a := SortDescending(weights), LptPlacement(weights, m);
    SortedOnce(weights);
    assert x in order;
    var j :| 0 <= j < |order| && order[j] == x;
    i := a[j];
    forall k: nat | k < m ensures BucketOk(order, a, LptBuckets(weights, m)[k], k) {
      BucketsPartition(order, a, m, k);
    }
    assert BucketOk(order, a, LptBuckets(weights, m)[i], i);
    BucketLoads(weights, order, a, m, i);
    forall k: nat | k < m && x in LptBuckets(weights, m)[k] ensures k == i {
      assert BucketOk(order, a, LptBuckets(weights, m)[k], k);
      var l :| 0 <= l < |a| && a[l] == k && order[l] == x;
    }
  }

  /** The makespan is at most `4/3 - 1/(3m)` times that of any assignment of the original jobs. */
  lemma LptBound(weights: seq<real>, m: nat, b: seq<nat>)
    requires m > 0 && NonNegative(weights) && |b| == |weights| && Assigns(b, m)
    ensures GrahamOk(m, Makespan(SortedWeights(weights), LptPlacement(weights, m), m), Makespan(weights, b, m))
  {
    var order, ws := SortDescending(weights), SortedWeights(weights);
    var c := Permuted(b, order);
    var bound := Makespan(weights, b, m);
    assert b[..|b|] == b;
    forall w: nat | w < m ensures Load(ws, c, w) <= bound {
      SortKeepsLoad(weights, b, |weights|, w);
      PermutedLoad(weights, b, order, w);
      assert LoadsOf(weights, b, m)[w] <= bound;
    }
    forall p, q | 0 <= p <= q < |ws| ensures ws[p] >= ws[q] {
      assert p < q ==> Ahead(weights, order[p], order[q]);
    }
    var loads := LoadsOf(ws, LptPlacement(weights, m), m);
    var i :| 0 <= i < m && loads[i] == Max(loads);
    GrahamBound(ws, m, c, bound, i);
  }
}
