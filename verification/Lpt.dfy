/** Longest-processing-time balancing and Graham's bound for it. */
module Lpt {
  import opened Loads

  // ------------------------------------------------------------------ the greedy rule

  /** `min(range(workers), key=...)`: the first of the least loaded workers. */
  function ArgMin(loads: seq<real>): (i: nat)
    requires loads != []
    ensures i < |loads|
    ensures forall k :: 0 <= k < |loads| ==> loads[i] <= loads[k]
    ensures forall k :: 0 <= k < i ==> loads[i] < loads[k]
  {
    if |loads| == 1 then 0
    else
      var k := ArgMin(loads[..|loads| - 1]);
      assert forall j :: 0 <= j < |loads| - 1 ==> loads[j] == loads[..|loads| - 1][j];
      if loads[|loads| - 1] < loads[k] then |loads| - 1 else k
  }

  /** Where the first `k` jobs go, in the order given. */
  ghost function Greedy(ws: seq<real>, m: nat, k: nat): (a: seq<nat>)
    requires k <= |ws| && m > 0
    ensures |a| == k && Assigns(a, m)
  {
    if k == 0 then []
    else
      var a := Greedy(ws, m, k - 1);
      a + [ArgMin(LoadsOf(ws, a, m))]
  }

  lemma {:induction false} GreedyPrefix(ws: seq<real>, m: nat, j: nat, k: nat)
    requires j <= k <= |ws| && m > 0
    ensures Greedy(ws, m, k)[..j] == Greedy(ws, m, j)
  {
    if j < k {
      GreedyPrefix(ws, m, j, k - 1);
      assert Greedy(ws, m, k)[..j] == Greedy(ws, m, k - 1)[..j];
    }
  }

  /** Each job goes to a worker that is least loaded at that moment. */
  lemma GreedyChoice(ws: seq<real>, m: nat, k: nat, n: nat)
    requires k < n <= |ws| && m > 0
    ensures var a := Greedy(ws, m, n);
      && a[..k] == Greedy(ws, m, k) && a[k] == ArgMin(LoadsOf(ws, a[..k], m))
      && forall i: nat :: i < m ==> Load(ws, a[..k], a[k]) <= Load(ws, a[..k], i)
  {
    GreedyPrefix(ws, m, k, n);
    GreedyPrefix(ws, m, k + 1, n);
    var a := Greedy(ws, m, n);
    assert a[k] == a[..k + 1][k];
    forall i: nat | i < m ensures Load(ws, a[..k], a[k]) <= Load(ws, a[..k], i) {
      var loads := LoadsOf(ws, a[..k], m);
      assert loads[a[k]] <= loads[i];
    }
  }

  // ------------------------------------------------------------------ Graham's bound

  ghost predicate Descending(ws: seq<real>) {
    forall i, j :: 0 <= i <= j < |ws| ==> ws[i] >= ws[j]
  }

  /** A worker's last job: nothing later is added to its load. */
  lemma {:induction false} LastJob(ws: seq<real>, a: seq<nat>, k: nat, i: nat) returns (j: nat)
    requires k <= |a| <= |ws| && Load(ws, a[..k], i) != 0.0
    ensures j < k && a[j] == i && Load(ws, a[..j + 1], i) == Load(ws, a[..k], i)
    decreases k
  {
    LoadStep(ws, a, k - 1, i);
    if a[k - 1] == i {
      j := k - 1;
    } else {
      j := LastJob(ws, a, k - 1, i);
    }
  }

  /** While an empty worker remains, the least load is not positive. */
  lemma {:induction false} IdleLoad(ws: seq<real>, a: seq<nat>, k: nat, i: nat)
    requires k <= |a| <= |ws| && i !in a[..k]
    ensures Load(ws, a[..k], i) == 0.0
  {
    if k > 0 {
      assert a[..k][k - 1] == a[k - 1];
      assert a[..k - 1] == a[..k][..k - 1];
      IdleLoad(ws, a, k - 1, i);
      LoadStep(ws, a, k - 1, i);
    }
  }

  /** After `k` jobs in turn: one job on each of the first `k` workers. */
  ghost predicate InTurn(ws: seq<real>, a: seq<nat>, k: nat, i: nat)
    requires k <= |a| <= |ws|
  {
    Load(ws, a[..k], i) == if i < k then ws[i] else 0.0
  }

  /** The first `m` positive jobs go to workers 0, 1, 2, ... in turn. */
  lemma {:induction false} FirstRound(ws: seq<real>, m: nat, n: nat, k: nat)
    requires k <= m && k <= n <= |ws| && m > 0
    requires forall j :: 0 <= j < k ==> ws[j] > 0.0
    ensures forall i: nat :: i < m ==> InTurn(ws, Greedy(ws, m, n), k, i)
  {
    var a := Greedy(ws, m, n);
    if k > 0 {
      FirstRound(ws, m, n, k - 1);
      NextInTurn(ws, m, n, k - 1);
      var next := k;
      forall i: nat | i < m ensures InTurn(ws, a, next, i) {
        assert InTurn(ws, a, k - 1, i);
        LoadStep(ws, a, k - 1, i);
      }
    }
  }

  lemma NextInTurn(ws: seq<real>, m: nat, n: nat, k: nat)
    requires k < m && k < n <= |ws| && m > 0
    requires forall j :: 0 <= j < k ==> ws[j] > 0.0
    requires forall i: nat :: i < m ==> InTurn(ws, Greedy(ws, m, n), k, i)
    ensures Greedy(ws, m, n)[k] == k
  {
    var a := Greedy(ws, m, n);
    GreedyChoice(ws, m, k, n);
    var loads := LoadsOf(ws, a[..k], m);
    assert InTurn(ws, a, k, k) && InTurn(ws, a, k, a[k]);
    assert loads[k] == 0.0;
    assert loads[a[k]] <= loads[k];
  }

  /** A worker that gets nothing between `j` and `k` keeps its load. */
  lemma {:induction false} Untouched(ws: seq<real>, a: seq<nat>, j: nat, k: nat, i: nat)
    requires j <= k <= |a| <= |ws| && i !in a[j..k]
    ensures Load(ws, a[..k], i) == Load(ws, a[..j], i)
  {
    if j < k {
      assert a[j..k][k - 1 - j] == a[k - 1];
      assert a[j..k - 1] == a[j..k][..k - 1 - j];
      Untouched(ws, a, j, k - 1, i);
      LoadStep(ws, a, k - 1, i);
    }
  }

  lemma ThreeJobs(ws: seq<real>, b: seq<nat>, p: nat, q: nat, r: nat)
    requires |b| <= |ws| && NonNegative(ws) && p < q < r < |b| && b[p] == b[q] == b[r]
    ensures ws[p] + ws[q] + ws[r] <= Load(ws, b, b[r])
  {
    TwoJobs(ws, b, r, p, q);
    LoadStep(ws, b, r, b[r]);
    LoadGrows(ws, b, r + 1, |b|, b[r]);
    assert b[..|b|] == b;
  }

  /** Among jobs heavier than a third of `bound`, no worker holds three. */
  lemma AtMostTwo(ws: seq<real>, b: seq<nat>, k: nat, m: nat, bound: real, i: nat)
    requires k < |b| <= |ws| && NonNegative(ws) && Descending(ws) && 3.0 * ws[k] > bound
    requires Assigns(b, m) && Within(ws, b, m, bound) && i < m
    ensures Jobs(b[..k + 1], i) <= 2
  {
    var c := b[..k + 1];
    if Jobs(c, i) >= 3 {
      var r := JobBefore(c, i, 3);
      var q := JobBefore(c[..r], i, 2);
      var p := SomeJob(c[..r][..q], i);
      ThreeJobs(ws, b, p, q, r);
    }
  }

  lemma {:induction false} JobsPrefix(a: seq<nat>, j: nat, i: nat)
    requires j <= |a|
    ensures Jobs(a[..j], i) <= Jobs(a, i)
  {
    if j == |a| {
      assert a[..j] == a;
    } else {
      JobsPrefix(a[..|a| - 1], j, i);
      assert a[..|a| - 1][..j] == a[..j];
    }
  }

  /** Of the `2m - k` heaviest jobs some shares its worker with another of the first `k + 1`. */
  lemma SharedWorker(all: seq<nat>, k: nat, m: nat) returns (p: nat, q: nat)
    requires |all| == k + 1 && Assigns(all, m) && m <= k
    requires forall i: nat :: i < m ==> Jobs(all, i) <= 2
    ensures k < 2 * m && p < 2 * m - k && q <= k && p != q && all[p] == all[q]
  {
    JobsBoundOne(all, m);
    JobsConserved(all, m);
    var heavy := all[..2 * m - k];
    if i: nat :| i < m && Jobs(all, i) + Jobs(heavy, i) > 2 {
      JobsPrefix(all, 2 * m - k, i);
      p := SomeJob(heavy, i);
      var r := JobBefore(all, i, 2);
      if r != p {
        q := r;
      } else {
        q := SomeJob(all[..r], i);
      }
    } else {
      JobsBound(all, heavy, m, 2);
      JobsConserved(heavy, m);
      assert false;
    }
  }

  lemma JobsBoundOne(a: seq<nat>, m: nat)
    requires forall i: nat :: i < m ==> Jobs(a, i) <= 2
    ensures AllJobs(a, m) <= 2 * m
  {
    forall i: nat | i < m ensures Jobs(a, i) + Jobs([], i) <= 2 {
    }
    JobsBound(a, [], m, 2);
  }

  /** `load` is at most `4/3 - 1/(3m)` times `bound`. */
  ghost predicate GrahamOk(m: nat, load: real, bound: real) {
    3.0 * m as real * load <= (4.0 * m as real - 1.0) * bound
  }

  /** The least load before job `k` is at most average. */
  lemma AverageLoad(ws: seq<real>, m: nat, k: nat)
    requires m > 0 && k < |ws|
    ensures var a := Greedy(ws, m, |ws|); Repeated(m, Load(ws, a[..k], a[k])) <= Total(ws, k)
  {
    var a := Greedy(ws, m, |ws|);
    GreedyChoice(ws, m, k, |ws|);
    TotalAtLeast(ws, a[..k], m, Load(ws, a[..k], a[k]));
    Conservation(ws, a, k, m);
  }

  /** All the work fits under `bound`. */
  lemma WorkFits(ws: seq<real>, m: nat, k: nat, b: seq<nat>, bound: real)
    requires k < |ws| == |b| && NonNegative(ws) && Assigns(b, m) && Within(ws, b, m, bound)
    ensures Total(ws, k) + ws[k] <= Repeated(m, bound)
  {
    assert b[..|b|] == b;
    Conservation(ws, b, |b|, m);
    TotalAtMost(ws, b, m, bound);
    TotalGrows(ws, k + 1, |ws|);
  }

  /** A light last job: the average argument. */
  lemma LightLast(ws: seq<real>, m: nat, k: nat, b: seq<nat>, bound: real)
    requires m > 0 && k < |ws| == |b| && NonNegative(ws) && Assigns(b, m) && Within(ws, b, m, bound)
    requires 3.0 * ws[k] <= bound
    ensures GrahamOk(m, Load(ws, Greedy(ws, m, |ws|)[..k], Greedy(ws, m, |ws|)[k]) + ws[k], bound)
  {
    AverageLoad(ws, m, k);
    WorkFits(ws, m, k, b, bound);
    AverageArgument(m, Load(ws, Greedy(ws, m, |ws|)[..k], Greedy(ws, m, |ws|)[k]), Total(ws, k), ws[k], bound);
  }

  lemma MulMonotone(x: real, a: real, b: real)
    requires x >= 0.0 && a <= b
    ensures x * a <= x * b
  {
    assert x * (b - a) >= 0.0;
    assert x * (b - a) == x * b - x * a;
  }

  lemma AverageArgument(m: nat, least: real, total: real, w: real, bound: real)
    requires m >= 1 && Repeated(m, least) <= total && total + w <= Repeated(m, bound) && 3.0 * w <= bound
    ensures GrahamOk(m, least + w, bound)
  {
    RepeatedIsProduct(m, least);
    RepeatedIsProduct(m, bound);
    MulMonotone(m as real - 1.0, 3.0 * w, bound);
    ScaledLoad(m as real, least, w);
    ScaledBound(m as real, bound);
  }

  lemma ScaledLoad(r: real, least: real, w: real)
    ensures 3.0 * r * (least + w) == 3.0 * (r * least + w) + (r - 1.0) * (3.0 * w)
  {
    assert r * (least + w) == r * least + r * w;
    assert (r - 1.0) * (3.0 * w) == 3.0 * (r * w) - 3.0 * w;
  }

  lemma ScaledBound(r: real, bound: real)
    ensures (4.0 * r - 1.0) * bound == 3.0 * (r * bound) + (r - 1.0) * bound
  {
  }

  lemma {:induction false} TotalGrows(ws: seq<real>, j: nat, k: nat)
    requires j <= k <= |ws| && NonNegative(ws)
    ensures Total(ws, j) <= Total(ws, k)
  {
    if j < k { TotalGrows(ws, j, k - 1); }
  }

  /** A heavy last job within the first round is alone. */
  lemma HeavyFirstRound(ws: seq<real>, m: nat, k: nat, b: seq<nat>, bound: real)
    requires m > 0 && k < |ws| == |b| && k < m && NonNegative(ws) && Assigns(b, m) && Within(ws, b, m, bound)
    ensures var a := Greedy(ws, m, |ws|); Load(ws, a[..k], a[k]) + ws[k] <= bound
  {
    var a := Greedy(ws, m, |ws|);
    GreedyChoice(ws, m, k, |ws|);
    var i := MissingWorker(a[..k], 0, m);
    IdleLoad(ws, a, k, i);
    OneJob(ws, b, |b|, k);
    assert b[..|b|] == b;
  }

  /** A heavy last job after the first round: some pair in any assignment weighs as much. */
  lemma HeavyLaterRound(ws: seq<real>, m: nat, k: nat, b: seq<nat>, bound: real)
    requires m > 0 && k < |ws| == |b| && m <= k && NonNegative(ws) && Descending(ws)
    requires Assigns(b, m) && Within(ws, b, m, bound) && bound >= 0.0 && 3.0 * ws[k] > bound
    ensures var a := Greedy(ws, m, |ws|); Load(ws, a[..k], a[k]) + ws[k] <= bound
  {
    var all := b[..k + 1];
    forall i: nat | i < m ensures Jobs(all, i) <= 2 {
      AtMostTwo(ws, b, k, m, bound, i);
    }
    var p, q := SharedWorker(all, k, m);
    PairWeight(ws, b, p, q, m, bound);
    var h := 2 * m - k - 1;
    LightWorker(ws, m, k, h);
    assert ws[p] >= ws[h] && ws[q] >= ws[k];
  }

  lemma PairWeight(ws: seq<real>, b: seq<nat>, p: nat, q: nat, m: nat, bound: real)
    requires p < |b| && q < |b| == |ws| && p != q && b[p] == b[q] && NonNegative(ws) && Assigns(b, m) && Within(ws, b, m, bound)
    ensures ws[p] + ws[q] <= bound
  {
    assert b[..|b|] == b;
    if p < q {
      TwoJobs(ws, b, |b|, p, q);
    } else {
      TwoJobs(ws, b, |b|, q, p);
    }
  }

  /** Some worker that started with one of the jobs `h..m` has received nothing since. */
  lemma LightWorker(ws: seq<real>, m: nat, k: nat, h: nat)
    requires m > 0 && k < |ws| && m <= k && h == 2 * m - k - 1 && Descending(ws) && ws[k] > 0.0
    ensures var a := Greedy(ws, m, |ws|); Load(ws, a[..k], a[k]) <= ws[h]
  {
    var a := Greedy(ws, m, |ws|);
    assert forall j :: 0 <= j < m ==> ws[j] >= ws[k];
    FirstRound(ws, m, |ws|, m);
    var i := MissingWorker(a[m..k], h, m);
    Untouched(ws, a, m, k, i);
    assert InTurn(ws, a, m, i);
    GreedyChoice(ws, m, k, |ws|);
  }

  /** Graham's bound for jobs in descending order, against any bound another assignment meets. */
  lemma GrahamBound(ws: seq<real>, m: nat, b: seq<nat>, bound: real, i: nat)
    requires m > 0 && |b| == |ws| && NonNegative(ws) && Descending(ws) && Assigns(b, m) && Within(ws, b, m, bound) && i < m
    ensures GrahamOk(m, Load(ws, Greedy(ws, m, |ws|), i), bound)
  {
    var a := Greedy(ws, m, |ws|);
    assert a[..|a|] == a && b[..|b|] == b;
    LoadNonNegative(ws, b, |b|, 0);
    if Load(ws, a, i) == 0.0 {
      WithinBound(m, 0.0, bound);
    } else {
      var k := LastJob(ws, a, |a|, i);
      LoadStep(ws, a, k, i);
      if 3.0 * ws[k] <= bound {
        LightLast(ws, m, k, b, bound);
      } else {
        HeavyLast(ws, m, k, b, bound);
        WithinBound(m, Load(ws, a, i), bound);
      }
    }
  }

  lemma HeavyLast(ws: seq<real>, m: nat, k: nat, b: seq<nat>, bound: real)
    requires m > 0 && k < |ws| == |b| && NonNegative(ws) && Descending(ws)
    requires Assigns(b, m) && Within(ws, b, m, bound) && bound >= 0.0 && 3.0 * ws[k] > bound
    ensures var a := Greedy(ws, m, |ws|); Load(ws, a[..k], a[k]) + ws[k] <= bound
  {
    if k < m {
      HeavyFirstRound(ws, m, k, b, bound);
    } else {
      HeavyLaterRound(ws, m, k, b, bound);
    }
  }

  lemma WithinBound(m: nat, load: real, bound: real)
    requires m >= 1 && load <= bound && bound >= 0.0
    ensures GrahamOk(m, load, bound)
  {
    var r := m as real;
    assert 3.0 * r * load <= 3.0 * r * bound;
    assert (r - 1.0) * bound >= 0.0;
  }
}
