/** Jobs on workers: loads, makespans and counting arguments shared by both balancers. */
module Loads {
  import opened Sequences

  datatype Result<+T> = Success(value: T) | ValueError

  datatype LoadResult = LoadResult(buckets: seq<seq<nat>>, makespan: real)

  /** The load of worker `i` when job `j` goes to worker `a[j]`, over the jobs assigned so far. */
  ghost function Load(ws: seq<real>, a: seq<nat>, i: nat): real
    requires |a| <= |ws|
  {
    if a == [] then 0.0
    else Load(ws, a[..|a| - 1], i) + (if a[|a| - 1] == i then ws[|a| - 1] else 0.0)
  }

  ghost predicate Assigns(a: seq<nat>, m: nat) {
    forall j :: 0 <= j < |a| ==> a[j] < m
  }

  /** No worker carries more than `bound`. */
  ghost predicate Within(ws: seq<real>, a: seq<nat>, m: nat, bound: real)
    requires |a| <= |ws|
  {
    forall i: nat :: i < m ==> Load(ws, a, i) <= bound
  }

  ghost predicate NonNegative(ws: seq<real>) {
    forall j :: 0 <= j < |ws| ==> ws[j] >= 0.0
  }

  /** `max(loads)`. */
  function Max(loads: seq<real>): (r: real)
    requires loads != []
    ensures r in loads
    ensures forall i :: 0 <= i < |loads| ==> loads[i] <= r
  {
    if |loads| == 1 then loads[0]
    else
      var rest := Max(loads[..|loads| - 1]);
      assert forall i :: 0 <= i < |loads| - 1 ==> loads[i] == loads[..|loads| - 1][i];
      if loads[|loads| - 1] > rest then loads[|loads| - 1] else rest
  }

  ghost function LoadsOf(ws: seq<real>, a: seq<nat>, m: nat): (r: seq<real>)
    requires |a| <= |ws|
    ensures |r| == m && forall i :: 0 <= i < m ==> r[i] == Load(ws, a, i)
  {
    seq(m, i requires 0 <= i < m => Load(ws, a, i))
  }

  /** The makespan of an assignment. */
  ghost function Makespan(ws: seq<real>, a: seq<nat>, m: nat): real
    requires |a| <= |ws| && m > 0
  {
    Max(LoadsOf(ws, a, m))
  }

  lemma LoadStep(ws: seq<real>, a: seq<nat>, k: nat, i: nat)
    requires k < |a| <= |ws|
    ensures Load(ws, a[..k + 1], i) == Load(ws, a[..k], i) + (if a[k] == i then ws[k] else 0.0)
  {
    assert a[..k + 1][..k] == a[..k];
  }

  /** Later jobs only add to a load. */
  lemma {:induction false} LoadGrows(ws: seq<real>, a: seq<nat>, j: nat, k: nat, i: nat)
    requires j <= k <= |a| <= |ws| && NonNegative(ws)
    ensures Load(ws, a[..j], i) <= Load(ws, a[..k], i)
  {
    if j < k {
      LoadGrows(ws, a, j, k - 1, i);
      LoadStep(ws, a, k - 1, i);
    }
  }

  lemma {:induction false} LoadNonNegative(ws: seq<real>, a: seq<nat>, k: nat, i: nat)
    requires k <= |a| <= |ws| && NonNegative(ws)
    ensures Load(ws, a[..k], i) >= 0.0
  {
    if k > 0 {
      LoadNonNegative(ws, a, k - 1, i);
      LoadStep(ws, a, k - 1, i);
    }
  }

  /** Two jobs on one worker both weigh on it. */
  lemma {:induction false} TwoJobs(ws: seq<real>, a: seq<nat>, k: nat, p: nat, q: nat)
    requires k <= |a| <= |ws| && NonNegative(ws) && p < q < k && a[p] == a[q]
    ensures ws[p] + ws[q] <= Load(ws, a[..k], a[p])
  {
    OneJob(ws, a, q, p);
    LoadStep(ws, a, q, a[p]);
    LoadGrows(ws, a, q + 1, k, a[p]);
  }

  lemma {:induction false} OneJob(ws: seq<real>, a: seq<nat>, k: nat, p: nat)
    requires k <= |a| <= |ws| && NonNegative(ws) && p < k
    ensures ws[p] <= Load(ws, a[..k], a[p])
  {
    LoadNonNegative(ws, a, p, a[p]);
    LoadStep(ws, a, p, a[p]);
    LoadGrows(ws, a, p + 1, k, a[p]);
  }

  // ------------------------------------------------------------------ buckets

  /** What a bucket of jobs weighs. */
  ghost function BucketLoad(weights: seq<real>, bucket: seq<nat>): real
    requires AllBelow(bucket, |weights|)
  {
    if bucket == [] then 0.0
    else BucketLoad(weights, bucket[..|bucket| - 1]) + weights[bucket[|bucket| - 1]]
  }

  lemma BucketLoadSnoc(weights: seq<real>, bucket: seq<nat>, x: nat)
    requires AllBelow(bucket, |weights|) && x < |weights|
    ensures AllBelow(bucket + [x], |weights|)
    ensures BucketLoad(weights, bucket + [x]) == BucketLoad(weights, bucket) + weights[x]
  {
    assert (bucket + [x])[..|bucket|] == bucket;
  }

  /** Everything the buckets list, with repetitions. */
  ghost function Listed(buckets: seq<seq<nat>>): multiset<nat> {
    if buckets == [] then multiset{} else multiset(buckets[0]) + Listed(buckets[1..])
  }

  /** Among all buckets together each number below `n` is listed once, and nothing else is. */
  ghost predicate ListsOnce(buckets: seq<seq<nat>>, n: nat) {
    OnceBelow(Listed(buckets), n)
  }

  ghost predicate OnceBelow(s: multiset<nat>, n: nat) {
    forall x: nat :: s[x] == if x < n then 1 else 0
  }

  lemma OnceMore(s: multiset<nat>, n: nat)
    requires OnceBelow(s, n)
    ensures OnceBelow(s + multiset{n}, n + 1)
  {
  }

  lemma {:induction false} NoneListed(buckets: seq<seq<nat>>)
    requires forall i :: 0 <= i < |buckets| ==> buckets[i] == []
    ensures Listed(buckets) == multiset{}
  {
    if buckets != [] {
      NoneListed(buckets[1..]);
    }
  }

  lemma {:induction false} ListMore(buckets: seq<seq<nat>>, i: nat, x: nat)
    requires i < |buckets|
    ensures Listed(buckets[i := buckets[i] + [x]]) == Listed(buckets) + multiset{x}
  {
    var more := buckets[i := buckets[i] + [x]];
    if i == 0 {
      assert more[1..] == buckets[1..];
    } else {
      ListMore(buckets[1..], i - 1, x);
      assert more[1..] == buckets[1..][i - 1 := buckets[i] + [x]];
    }
  }

  // ------------------------------------------------------------------ totals

  ghost function Total(ws: seq<real>, k: nat): real
    requires k <= |ws|
  {
    if k == 0 then 0.0 else Total(ws, k - 1) + ws[k - 1]
  }

  /** The loads of workers below `m`, added up. */
  ghost function TotalLoad(ws: seq<real>, a: seq<nat>, m: nat): real
    requires |a| <= |ws|
  {
    if m == 0 then 0.0 else TotalLoad(ws, a, m - 1) + Load(ws, a, m - 1)
  }

  lemma {:induction false} TotalLoadStep(ws: seq<real>, a: seq<nat>, k: nat, m: nat)
    requires k < |a| <= |ws|
    ensures TotalLoad(ws, a[..k + 1], m) == TotalLoad(ws, a[..k], m) + (if a[k] < m then ws[k] else 0.0)
  {
    if m > 0 {
      TotalLoadStep(ws, a, k, m - 1);
      LoadStep(ws, a, k, m - 1);
    }
  }

  lemma {:induction false} EmptyTotal(ws: seq<real>, m: nat)
    ensures TotalLoad(ws, [], m) == 0.0
  {
    if m > 0 { EmptyTotal(ws, m - 1); }
  }

  /** Work is conserved: the loads add up to the weights. */
  lemma {:induction false} Conservation(ws: seq<real>, a: seq<nat>, k: nat, m: nat)
    requires k <= |a| <= |ws| && Assigns(a, m)
    ensures TotalLoad(ws, a[..k], m) == Total(ws, k)
  {
    if k == 0 {
      EmptyTotal(ws, m);
    } else {
      Conservation(ws, a, k - 1, m);
      TotalLoadStep(ws, a, k - 1, m);
    }
  }

  /** `x` added up `m` times. */
  ghost function Repeated(m: nat, x: real): real {
    if m == 0 then 0.0 else Repeated(m - 1, x) + x
  }

  lemma {:induction false} RepeatedIsProduct(m: nat, x: real)
    ensures Repeated(m, x) == m as real * x
  {
    if m > 0 {
      RepeatedIsProduct(m - 1, x);
      assert m as real * x == (m - 1) as real * x + x;
    }
  }

  lemma {:induction false} TotalAtLeast(ws: seq<real>, a: seq<nat>, m: nat, low: real)
    requires |a| <= |ws| && forall i: nat :: i < m ==> low <= Load(ws, a, i)
    ensures Repeated(m, low) <= TotalLoad(ws, a, m)
  {
    if m > 0 { TotalAtLeast(ws, a, m - 1, low); }
  }

  lemma {:induction false} TotalAtMost(ws: seq<real>, a: seq<nat>, m: nat, high: real)
    requires |a| <= |ws| && forall i: nat :: i < m ==> Load(ws, a, i) <= high
    ensures TotalLoad(ws, a, m) <= Repeated(m, high)
  {
    if m > 0 { TotalAtMost(ws, a, m - 1, high); }
  }

  // ------------------------------------------------------------------ counting

  /** How many entries of `a` are `i`. */
  ghost function Jobs(a: seq<nat>, i: nat): nat {
    if a == [] then 0 else Jobs(a[..|a| - 1], i) + (if a[|a| - 1] == i then 1 else 0)
  }

  ghost function AllJobs(a: seq<nat>, m: nat): nat {
    if m == 0 then 0 else AllJobs(a, m - 1) + Jobs(a, m - 1)
  }

  lemma {:induction false} AllJobsStep(a: seq<nat>, m: nat)
    requires a != []
    ensures AllJobs(a, m) == AllJobs(a[..|a| - 1], m) + (if a[|a| - 1] < m then 1 else 0)
  {
    if m > 0 { AllJobsStep(a, m - 1); }
  }

  lemma {:induction false} NoJobs(m: nat)
    ensures AllJobs([], m) == 0
  {
    if m > 0 { NoJobs(m - 1); }
  }

  /** Every job is on exactly one worker. */
  lemma {:induction false} JobsConserved(a: seq<nat>, m: nat)
    requires Assigns(a, m)
    ensures AllJobs(a, m) == |a|
  {
    if a == [] {
      NoJobs(m);
    } else {
      JobsConserved(a[..|a| - 1], m);
      AllJobsStep(a, m);
    }
  }

  lemma {:induction false} JobsBound(a: seq<nat>, b: seq<nat>, m: nat, c: nat)
    requires forall i: nat :: i < m ==> Jobs(a, i) + Jobs(b, i) <= c
    ensures AllJobs(a, m) + AllJobs(b, m) <= c * m
  {
    if m > 0 {
      JobsBound(a, b, m - 1, c);
      assert c * m == c * (m - 1) + c;
    }
  }

  lemma {:induction false} SomeJob(a: seq<nat>, i: nat) returns (p: nat)
    requires Jobs(a, i) >= 1
    ensures p < |a| && a[p] == i
  {
    if a[|a| - 1] == i {
      p := |a| - 1;
    } else {
      p := SomeJob(a[..|a| - 1], i);
    }
  }

  /** A worker's last job before position `k`. */
  lemma {:induction false} JobBefore(a: seq<nat>, i: nat, n: nat) returns (p: nat)
    requires Jobs(a, i) >= n >= 1
    ensures p < |a| && a[p] == i && Jobs(a[..p], i) >= n - 1
    decreases |a|
  {
    if a[|a| - 1] == i {
      p := |a| - 1;
    } else {
      p := JobBefore(a[..|a| - 1], i, n);
      assert a[..|a| - 1][..p] == a[..p];
    }
  }

  /** Fewer entries than candidates: one candidate is missing. */
  lemma {:induction false} MissingWorker(s: seq<nat>, lo: nat, hi: nat) returns (i: nat)
    requires lo <= hi && |s| < hi - lo
    ensures lo <= i < hi && i !in s
    decreases hi - lo
  {
    if hi - 1 !in s {
      i := hi - 1;
    } else {
      var k :| 0 <= k < |s| && s[k] == hi - 1;
      var rest := s[..k] + s[k + 1..];
      i := MissingWorker(rest, lo, hi - 1);
      assert s == s[..k] + [s[k]] + s[k + 1..];
    }
  }
}
