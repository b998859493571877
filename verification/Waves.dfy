/** `Planner.schedule`: steps into waves of bounded size, dependencies first. */
module Waves {
  import opened Sequences
  import opened PlanSteps

  // ------------------------------------------------------------------ vocabulary

  predicate Ready(done: set<int>, s: PlanStep) {
    forall d :: d in s.dependsOn ==> d in done
  }

  ghost function IdsOf(s: seq<PlanStep>): set<int> {
    set x | x in s :: x.id
  }

  ghost function Flat(waves: seq<seq<PlanStep>>): seq<PlanStep> {
    if waves == [] then [] else Flat(waves[..|waves| - 1]) + waves[|waves| - 1]
  }

  lemma FlatSnoc(waves: seq<seq<PlanStep>>, w: seq<PlanStep>)
    ensures Flat(waves + [w]) == Flat(waves) + w
  {
    assert (waves + [w])[..|waves|] == waves;
  }

  /** A dictionary keyed by id, in insertion order: a later step replaces an earlier one in place. */
  function Put(dict: seq<PlanStep>, s: PlanStep): seq<PlanStep> {
    if dict == [] then [s]
    else if dict[0].id == s.id then [s] + dict[1..]
    else [dict[0]] + Put(dict[1..], s)
  }

  /** The last step listed with its id. */
  ghost predicate IsLast(steps: seq<PlanStep>, s: PlanStep) {
    exists k: nat :: LastAt(steps, s, k)
  }

  ghost predicate LastAt(steps: seq<PlanStep>, s: PlanStep, k: nat) {
    k < |steps| && steps[k] == s && forall j :: k < j < |steps| ==> steps[j].id != s.id
  }

  lemma LastSnoc(steps: seq<PlanStep>, x: PlanStep, s: PlanStep)
    ensures IsLast(steps + [x], s) <==> s == x || (s.id != x.id && IsLast(steps, s))
  {
    var more := steps + [x];
    if s == x {
      assert LastAt(more, s, |steps|);
    }
    if s.id != x.id && IsLast(steps, s) {
      var k: nat :| LastAt(steps, s, k);
      assert LastAt(more, s, k);
    }
    if IsLast(more, s) && s != x {
      var k: nat :| LastAt(more, s, k);
      assert more[|steps|] == x;
      forall j | k < j < |steps| ensures steps[j].id != s.id {
        assert more[j] == steps[j];
      }
      assert LastAt(steps, s, k);
    }
  }

  lemma {:induction false} PutFacts(dict: seq<PlanStep>, s: PlanStep)
    requires DistinctIds(dict)
    ensures DistinctIds(Put(dict, s))
    ensures forall x :: x in Put(dict, s) <==> x == s || (x in dict && x.id != s.id)
    decreases |dict|
  {
    if dict != [] {
      var head, tail := dict[0], dict[1..];
      TailDistinct(dict);
      if head.id == s.id {
        ConsDistinct(s, tail);
      } else {
        PutFacts(tail, s);
        ConsDistinct(head, Put(tail, s));
      }
    }
  }

  lemma TailDistinct(dict: seq<PlanStep>)
    requires DistinctIds(dict) && dict != []
    ensures DistinctIds(dict[1..]) && forall x :: x in dict[1..] ==> x.id != dict[0].id
    ensures forall x :: x in dict <==> x == dict[0] || x in dict[1..]
  {
    var tail := dict[1..];
    forall i: nat, j: nat | i < j < |tail| ensures Different(tail, i, j) {
      assert Different(dict, i + 1, j + 1);
    }
    forall x | x in tail ensures x.id != dict[0].id {
      var j: nat :| j < |tail| && tail[j] == x;
      assert Different(dict, 0, j + 1);
    }
  }

  lemma ConsDistinct(head: PlanStep, tail: seq<PlanStep>)
    requires DistinctIds(tail) && forall x :: x in tail ==> x.id != head.id
    ensures DistinctIds([head] + tail)
  {
    forall i: nat, j: nat | i < j < |[head] + tail| ensures Different([head] + tail, i, j) {
      assert i > 0 ==> Different(tail, i - 1, j - 1);
    }
  }

  lemma ConcatDistinct(a: seq<PlanStep>, b: seq<PlanStep>)
    requires DistinctIds(a) && DistinctIds(b) && IdsOf(a) !! IdsOf(b)
    ensures DistinctIds(a + b)
  {
    forall i: nat, j: nat | i < j < |a + b| ensures Different(a + b, i, j) {
      if j < |a| {
        assert Different(a, i, j);
      } else if i >= |a| {
        assert Different(b, i - |a|, j - |a|);
      } else {
        assert a[i].id in IdsOf(a) && b[j - |a|].id in IdsOf(b);
      }
    }
  }

  lemma {:induction false} PickDistinct(s: seq<PlanStep>, keep: PlanStep -> bool)
    requires DistinctIds(s)
    ensures DistinctIds(Pick(s, keep))
    decreases |s|
  {
    if s != [] {
      TailDistinct(s);
      PickDistinct(s[1..], keep);
      ConsDistinct(s[0], Pick(s[1..], keep));
    }
  }

  /** The steps whose dependencies are done. */
  function ReadyOf(s: seq<PlanStep>, done: set<int>): (r: seq<PlanStep>)
    ensures forall x :: x in r <==> x in s && Ready(done, x)
  {
    Pick(s, x => Ready(done, x))
  }

  /** `del remaining[id]`. */
  function Without(s: seq<PlanStep>, id: int): (r: seq<PlanStep>)
    ensures forall x :: x in r <==> x in s && x.id != id
    ensures |r| <= |s| && (HasId(s, id) ==> |r| < |s|)
  {
    Pick(s, (x: PlanStep) => x.id != id)
  }

  /** What is not done yet. */
  function Rest(s: seq<PlanStep>, done: set<int>): seq<PlanStep> {
    Pick(s, (x: PlanStep) => x.id !in done)
  }

  lemma {:induction false} RestWithout(s: seq<PlanStep>, done: set<int>, id: int)
    ensures Without(Rest(s, done), id) == Rest(s, done + {id})
    decreases |s|
  {
    if s != [] {
      RestWithout(s[1..], done, id);
      var tail := Rest(s[1..], done);
      if s[0].id !in done {
        assert ([s[0]] + tail)[1..] == tail;
      }
    }
  }

  lemma {:induction false} RestAll(s: seq<PlanStep>)
    ensures Rest(s, {}) == s
    decreases |s|
  {
    if s != [] {
      RestAll(s[1..]);
      assert [s[0]] + s[1..] == s;
    }
  }

  /** The dictionary of a list of steps. */
  function DictOf(steps: seq<PlanStep>): seq<PlanStep> {
    if steps == [] then [] else Put(DictOf(steps[..|steps| - 1]), steps[|steps| - 1])
  }

  ghost function IdsInOrder(s: seq<PlanStep>): (r: seq<int>)
    ensures |r| == |s| && forall i :: 0 <= i < |s| ==> r[i] == s[i].id
  {
    seq(|s|, i requires 0 <= i < |s| => s[i].id)
  }

  lemma {:induction false} PutIds(dict: seq<PlanStep>, s: PlanStep)
    ensures IdsInOrder(Put(dict, s)) == IdsInOrder(dict) + if s.id in IdsInOrder(dict) then [] else [s.id]
    decreases |dict|
  {
    if dict != [] {
      var head, tail := dict[0], dict[1..];
      IdsCons(head, tail);
      assert dict == [head] + tail;
      if head.id == s.id {
        IdsCons(s, tail);
        assert IdsInOrder(dict)[0] == s.id;
      } else {
        PutIds(tail, s);
        IdsCons(head, Put(tail, s));
      }
    }
  }

  lemma IdsCons(head: PlanStep, tail: seq<PlanStep>)
    ensures IdsInOrder([head] + tail) == [head.id] + IdsInOrder(tail)
  {
  }

  /** The dictionary keeps each id where it first came, with the step that came last. */
  lemma {:induction false} DictIds(steps: seq<PlanStep>)
    ensures IdsInOrder(DictOf(steps)) == Firsts(IdsInOrder(steps))
    decreases |steps|
  {
    if steps != [] {
      var front, last := steps[..|steps| - 1], steps[|steps| - 1];
      DictIds(front);
      PutIds(DictOf(front), last);
      assert IdsInOrder(steps)[..|steps| - 1] == IdsInOrder(front);
    }
  }

  /** `min(..., key=lambda s: s.step_id)`. */
  function Least(s: seq<PlanStep>): (m: PlanStep)
    requires s != []
    ensures m in s && forall x :: x in s ==> m.id <= x.id
  {
    if |s| == 1 then s[0]
    else
      var m := Least(s[1..]);
      if m.id < s[0].id then m else s[0]
  }

  // ------------------------------------------------------------------ what a schedule must be

  /** The ids placed before wave `i`. */
  ghost function DoneBefore(waves: seq<seq<PlanStep>>, i: nat): set<int>
    requires i <= |waves|
  {
    IdsOf(Flat(waves[..i]))
  }

  /** Some step not yet placed has all its dependencies placed. */
  ghost predicate SomeReady(all: seq<PlanStep>, done: set<int>) {
    exists s :: Pending(all, done, s) && Ready(done, s)
  }

  ghost predicate Pending(all: seq<PlanStep>, done: set<int>, s: PlanStep) {
    s in all && s.id !in done
  }

  /**
   * The wave that must be formed when `done` are placed. If any step is ready: ready ones only, the
   * most urgent first, as many as fit. Otherwise the cycle is broken at the least id.
   */
  ghost predicate WaveOk(all: seq<PlanStep>, done: set<int>, w: seq<PlanStep>, cap: nat) {
    && 1 <= |w| <= cap && Sorted(w)
    && (forall s :: s in w ==> Pending(all, done, s))
    && if SomeReady(all, done) then
         && (forall s :: s in w ==> Ready(done, s))
         && (forall s :: Pending(all, done, s) && Ready(done, s) && s !in w ==>
               |w| == cap && w[cap - 1].priority <= s.priority)
       else
         |w| == 1 && forall s :: Pending(all, done, s) ==> w[0].id <= s.id
  }

  ghost predicate WaveAt(all: seq<PlanStep>, waves: seq<seq<PlanStep>>, i: nat, cap: nat)
    requires i < |waves|
  {
    WaveOk(all, DoneBefore(waves, i), waves[i], cap)
  }

  /** Every step is placed exactly once, in waves formed as they must be. */
  ghost predicate IsSchedule(steps: seq<PlanStep>, waves: seq<seq<PlanStep>>, cap: nat) {
    && (forall s :: s in Flat(waves) <==> IsLast(steps, s))
    && DistinctIds(Flat(waves))
    && forall i: nat :: i < |waves| ==> WaveAt(Flat(waves), waves, i, cap)
  }

  // ------------------------------------------------------------------ the algorithm

  /** `wave[:k]` for any `k`. */
  function Take(w: seq<PlanStep>, k: int): (r: seq<PlanStep>)
    ensures r <= w
    ensures k >= 0 ==> |r| == if k <= |w| then k else |w|
  {
    if k >= 0 then (if k <= |w| then w[..k] else w)
    else if |w| + k >= 0 then w[..|w| + k] else []
  }

  /** What one turn of the loop places. */
  function NextWave(remaining: seq<PlanStep>, done: set<int>, cap: int): seq<PlanStep>
    requires remaining != []
  {
    var ready := ReadyOf(remaining, done);
    Take(SortByPriority(if ready == [] then [Least(remaining)] else ready), cap)
  }

  /** Wave `i` is what one turn forms from what is left of the dictionary, in its order. */
  ghost predicate WaveExact(dict: seq<PlanStep>, waves: seq<seq<PlanStep>>, i: nat, cap: int)
    requires i < |waves|
  {
    var done := DoneBefore(waves, i);
    Rest(dict, done) != [] && waves[i] == NextWave(Rest(dict, done), done, cap)
  }

  /** The state between turns: `all` splits into what is placed and what remains. */
  ghost predicate Split(all: seq<PlanStep>, placed: seq<PlanStep>, done: set<int>, remaining: seq<PlanStep>) {
    && DistinctIds(placed) && DistinctIds(remaining)
    && done == IdsOf(placed) && done !! IdsOf(remaining)
    && forall s :: s in all <==> s in placed || s in remaining
  }

  lemma PrefixDistinct(w: seq<PlanStep>, r: seq<PlanStep>)
    requires DistinctIds(w) && r <= w
    ensures DistinctIds(r)
  {
    forall i: nat, j: nat | i < j < |r| ensures Different(r, i, j) {
      assert Different(w, i, j);
    }
  }

  lemma PrefixSorted(w: seq<PlanStep>, r: seq<PlanStep>)
    requires Sorted(w) && r <= w
    ensures Sorted(r)
  {
    forall i: nat, j: nat | i < j < |r| ensures InOrder(r, i, j) {
      assert InOrder(w, i, j);
    }
  }

  lemma NotInPrefix(w: seq<PlanStep>, r: seq<PlanStep>, j: nat)
    requires r <= w && j < |w| && w[j] !in r
    ensures |r| <= j
  {
  }

  lemma NextWaveDistinct(remaining: seq<PlanStep>, done: set<int>, cap: int)
    requires remaining != [] && DistinctIds(remaining)
    ensures DistinctIds(NextWave(remaining, done, cap))
    ensures forall s :: s in NextWave(remaining, done, cap) ==> s in remaining
  {
    var ready := ReadyOf(remaining, done);
    PickDistinct(remaining, x => Ready(done, x));
    var first := if ready == [] then [Least(remaining)] else ready;
    SortDistinct(first);
    PrefixDistinct(SortByPriority(first), NextWave(remaining, done, cap));
  }

  lemma PendingSplit(all: seq<PlanStep>, placed: seq<PlanStep>, done: set<int>, remaining: seq<PlanStep>, s: PlanStep)
    requires Split(all, placed, done, remaining)
    ensures Pending(all, done, s) <==> s in remaining
  {
    if s in remaining {
      assert s.id in IdsOf(remaining);
    }
    if s in placed {
      assert s.id in IdsOf(placed);
    }
  }

  lemma NextWaveOk(all: seq<PlanStep>, placed: seq<PlanStep>, done: set<int>, remaining: seq<PlanStep>, cap: nat)
    requires Split(all, placed, done, remaining) && remaining != [] && cap >= 1
    ensures WaveOk(all, done, NextWave(remaining, done, cap), cap)
  {
    var ready := ReadyOf(remaining, done);
    var first := if ready == [] then [Least(remaining)] else ready;
    var sorted, w := SortByPriority(first), NextWave(remaining, done, cap);
    PrefixSorted(sorted, w);
    assert sorted[0] in sorted;
    forall s ensures Pending(all, done, s) <==> s in remaining {
      PendingSplit(all, placed, done, remaining, s);
    }
    if ready != [] {
      assert ready[0] in remaining && Ready(done, ready[0]);
      assert Pending(all, done, ready[0]);
      forall s | Pending(all, done, s) && Ready(done, s) && s !in w
        ensures |w| == cap && w[cap - 1].priority <= s.priority {
        assert s in sorted;
        var j: nat :| j < |sorted| && sorted[j] == s;
        NotInPrefix(sorted, w, j);
        assert InOrder(sorted, cap - 1, j);
      }
    } else {
      assert w == sorted == first by {
        assert |sorted| == 1;
      }
      forall s ensures !(Pending(all, done, s) && Ready(done, s)) {
        assert s !in ready;
      }
    }
  }

  /** Moving one step from `remaining` to `placed`. */
  lemma PlaceOne(all: seq<PlanStep>, placed: seq<PlanStep>, done: set<int>, remaining: seq<PlanStep>, s: PlanStep)
    requires Split(all, placed, done, remaining) && s in remaining
    ensures Split(all, placed + [s], done + {s.id}, Without(remaining, s.id))
    ensures |Without(remaining, s.id)| < |remaining|
    ensures forall x :: x in remaining && x.id != s.id ==> x in Without(remaining, s.id)
  {
    PickDistinct(remaining, (x: PlanStep) => x.id != s.id);
    assert HasId(remaining, s.id);
    assert s.id in IdsOf(remaining);
    ConcatDistinct(placed, [s]);
    forall x ensures x in all <==> x in placed + [s] || x in Without(remaining, s.id) {
      if x in remaining && x.id == s.id {
        SameId(remaining, x, s);
      }
    }
  }

  lemma SameId(s: seq<PlanStep>, x: PlanStep, y: PlanStep)
    requires DistinctIds(s) && x in s && y in s && x.id == y.id
    ensures x == y
  {
    var i: nat :| i < |s| && s[i] == x;
    var j: nat :| j < |s| && s[j] == y;
    assert i < j ==> Different(s, i, j);
    assert j < i ==> Different(s, j, i);
  }

  /** The inner loop: marks the wave's steps done and deletes them. */
  method Place(ghost all: seq<PlanStep>, ghost placed: seq<PlanStep>, done: set<int>, remaining: seq<PlanStep>,
               wave: seq<PlanStep>)
    returns (finished: set<int>, left: seq<PlanStep>)
    requires Split(all, placed, done, remaining) && DistinctIds(wave)
    requires forall s :: s in wave ==> s in remaining
    ensures Split(all, placed + wave, finished, left)
    ensures wave != [] ==> |left| < |remaining|
    ensures forall s: seq<PlanStep> :: remaining == Rest(s, done) ==> left == Rest(s, finished)
  {
    finished, left := done, remaining;
    assert placed + wave[..0] == placed;
    for i := 0 to |wave|
      invariant Split(all, placed + wave[..i], finished, left)
      invariant forall j: nat :: i <= j < |wave| ==> wave[j] in left
      invariant |left| <= |remaining| && (i > 0 ==> |left| < |remaining|)
      invariant forall s: seq<PlanStep> :: remaining == Rest(s, done) ==> left == Rest(s, finished)
    {
      var s := wave[i];
      forall t: seq<PlanStep> | remaining == Rest(t, done) ensures Without(left, s.id) == Rest(t, finished + {s.id}) {
        RestWithout(t, finished, s.id);
      }
      PlaceOne(all, placed + wave[..i], finished, left, s);
      forall j: nat | i + 1 <= j < |wave| ensures wave[j] in Without(left, s.id) {
        assert Different(wave, i, j);
      }
      assert placed + wave[..i + 1] == placed + wave[..i] + [s];
      finished, left := finished + {s.id}, Without(left, s.id);
    }
    assert wave[..|wave|] == wave;
  }

  method Dictionary(steps: seq<PlanStep>) returns (dict: seq<PlanStep>)
    ensures dict == DictOf(steps) && DistinctIds(dict) && forall s :: s in dict <==> IsLast(steps, s)
  {
    dict := [];
    for i := 0 to |steps|
      invariant dict == DictOf(steps[..i])
      invariant DistinctIds(dict) && forall s :: s in dict <==> IsLast(steps[..i], s)
    {
      PutFacts(dict, steps[i]);
      assert steps[..i + 1][..i] == steps[..i];
      forall s ensures IsLast(steps[..i + 1], s) <==> s == steps[i] || (s.id != steps[i].id && IsLast(steps[..i], s)) {
        LastSnoc(steps[..i], steps[i], s);
        assert steps[..i + 1] == steps[..i] + [steps[i]];
      }
      dict := Put(dict, steps[i]);
    }
    assert steps[..|steps|] == steps;
  }

  lemma WavesGrow(all: seq<PlanStep>, waves: seq<seq<PlanStep>>, done: set<int>, w: seq<PlanStep>, cap: nat)
    requires forall i: nat :: i < |waves| ==> WaveAt(all, waves, i, cap)
    requires done == IdsOf(Flat(waves)) && WaveOk(all, done, w, cap)
    ensures forall i: nat :: i < |waves + [w]| ==> WaveAt(all, waves + [w], i, cap)
  {
    var more := waves + [w];
    forall i: nat | i < |more| ensures WaveAt(all, more, i, cap) {
      DoneStays(waves, w, i);
      assert i < |waves| ==> WaveAt(all, waves, i, cap);
    }
  }

  lemma ExactGrows(all: seq<PlanStep>, waves: seq<seq<PlanStep>>, done: set<int>, w: seq<PlanStep>, cap: int)
    requires forall i: nat :: i < |waves| ==> WaveExact(all, waves, i, cap)
    requires done == IdsOf(Flat(waves)) && Rest(all, done) != [] && w == NextWave(Rest(all, done), done, cap)
    ensures forall i: nat :: i < |waves + [w]| ==> WaveExact(all, waves + [w], i, cap)
  {
    var more := waves + [w];
    forall i: nat | i < |more| ensures WaveExact(all, more, i, cap) {
      DoneStays(waves, w, i);
      assert i < |waves| ==> WaveExact(all, waves, i, cap);
    }
  }

  lemma DoneStays(waves: seq<seq<PlanStep>>, w: seq<PlanStep>, i: nat)
    requires i <= |waves|
    ensures DoneBefore(waves + [w], i) == if i < |waves| then DoneBefore(waves, i) else IdsOf(Flat(waves))
  {
    assert (waves + [w])[..i] == waves[..i];
    assert waves[..|waves|] == waves;
  }

  /** Distributes the steps into waves, whatever their dependencies. */
  method Schedule(steps: seq<PlanStep>, cap: nat) returns (waves: seq<seq<PlanStep>>)
    requires cap >= 1
    ensures IsSchedule(steps, waves, cap)
    ensures forall i: nat :: i < |waves| ==> WaveExact(DictOf(steps), waves, i, cap)
  {
    var dict := Dictionary(steps);
    var done: set<int>, remaining := {}, dict;
    waves := [];
    RestAll(dict);
    while remaining != []
      invariant remaining == Rest(dict, done)
      invariant forall i: nat :: i < |waves| ==> WaveExact(dict, waves, i, cap)
      invariant Split(dict, Flat(waves), done, remaining)
      invariant forall i: nat :: i < |waves| ==> WaveAt(dict, waves, i, cap)
      decreases |remaining|
    {
      var wave := NextWave(remaining, done, cap);
      NextWaveOk(dict, Flat(waves), done, remaining, cap);
      NextWaveDistinct(remaining, done, cap);
      WavesGrow(dict, waves, done, wave, cap);
      ExactGrows(dict, waves, done, wave, cap);
      FlatSnoc(waves, wave);
      done, remaining := Place(dict, Flat(waves), done, remaining, wave);
      waves := waves + [wave];
    }
    SameAll(dict, Flat(waves), waves, cap);
  }

  /** Only membership in `all` matters. */
  lemma SameAll(all: seq<PlanStep>, other: seq<PlanStep>, waves: seq<seq<PlanStep>>, cap: nat)
    requires forall s :: s in all <==> s in other
    requires forall i: nat :: i < |waves| ==> WaveAt(all, waves, i, cap)
    ensures forall i: nat :: i < |waves| ==> WaveAt(other, waves, i, cap)
  {
    forall i: nat | i < |waves| ensures WaveAt(other, waves, i, cap) {
      assert WaveAt(all, waves, i, cap);
      var done := DoneBefore(waves, i);
      forall s ensures Pending(all, done, s) == Pending(other, done, s) {
      }
      if SomeReady(other, done) {
        var s :| Pending(other, done, s) && Ready(done, s);
        assert Pending(all, done, s);
      }
      if SomeReady(all, done) {
        var s :| Pending(all, done, s) && Ready(done, s);
        assert Pending(other, done, s);
      }
    }
  }

  // ------------------------------------------------------------------ when no cycle is broken

  /** Every step runs only after its dependencies. */
  ghost predicate AllEarlier(waves: seq<seq<PlanStep>>) {
    forall i: nat :: i < |waves| ==> EarlierAt(waves, i)
  }

  ghost predicate EarlierAt(waves: seq<seq<PlanStep>>, i: nat)
    requires i < |waves|
  {
    forall s :: s in waves[i] ==> Ready(DoneBefore(waves, i), s)
  }

  /** The dependencies are all listed and go down in rank: no cycle, nothing dangling. */
  ghost predicate Ranked(all: seq<PlanStep>, rank: map<int, int>) {
    forall s :: s in all ==> RankedStep(all, rank, s)
  }

  ghost predicate RankedStep(all: seq<PlanStep>, rank: map<int, int>, s: PlanStep) {
    s.id in rank && 0 <= rank[s.id] &&
    forall d :: d in s.dependsOn ==> HasId(all, d) && d in rank && rank[d] < rank[s.id]
  }

  lemma {:induction false} LowestRank(all: seq<PlanStep>, rank: map<int, int>, done: set<int>, s: PlanStep)
    requires Ranked(all, rank) && Pending(all, done, s) && s.id in rank && 0 <= rank[s.id]
    requires forall x :: x in all && x.id in done ==> x.id in rank
    ensures SomeReady(all, done)
    decreases rank[s.id]
  {
    assert RankedStep(all, rank, s);
    if !Ready(done, s) {
      var d :| d in s.dependsOn && d !in done;
      var t :| t in all && t.id == d;
      assert RankedStep(all, rank, t);
      LowestRank(all, rank, done, t);
    }
  }

  lemma RankedNeverBreaks(steps: seq<PlanStep>, waves: seq<seq<PlanStep>>, cap: nat, rank: map<int, int>)
    requires IsSchedule(steps, waves, cap) && Ranked(Flat(waves), rank)
    ensures AllEarlier(waves)
  {
    forall i: nat | i < |waves| ensures EarlierAt(waves, i) {
      var all, done := Flat(waves), DoneBefore(waves, i);
      assert WaveAt(all, waves, i, cap);
      var s := waves[i][0];
      assert s in waves[i];
      assert Pending(all, done, s);
      assert RankedStep(all, rank, s);
      forall x | x in all && x.id in done ensures x.id in rank {
        assert RankedStep(all, rank, x);
      }
      LowestRank(all, rank, done, s);
    }
  }

  /** The number of the wave that places each id. */
  ghost function WaveNumbers(waves: seq<seq<PlanStep>>): (m: map<int, int>)
    ensures m.Keys == IdsOf(Flat(waves))
    ensures forall id :: id in m ==> 0 <= m[id] < |waves|
  {
    if waves == [] then map[]
    else
      var n, last := |waves| - 1, waves[|waves| - 1];
      var m := WaveNumbers(waves[..n]);
      assert IdsOf(Flat(waves)) == IdsOf(Flat(waves[..n])) + IdsOf(last);
      (map id | id in IdsOf(last) :: n) + m
  }

  lemma {:induction false} EarlierRanked(waves: seq<seq<PlanStep>>)
    requires AllEarlier(waves) && DistinctIds(Flat(waves))
    ensures Ranked(Flat(waves), WaveNumbers(waves))
    decreases |waves|
  {
    if waves != [] {
      var n, last := |waves| - 1, waves[|waves| - 1];
      var fewer, before, m := waves[..n], Flat(waves[..n]), WaveNumbers(waves[..n]);
      PrefixDistinct(Flat(waves), before);
      forall i: nat | i < n ensures EarlierAt(fewer, i) {
        assert EarlierAt(waves, i);
        assert fewer[..i] == waves[..i];
      }
      EarlierRanked(fewer);
      assert EarlierAt(waves, n);
      forall s | s in Flat(waves) ensures RankedStep(Flat(waves), WaveNumbers(waves), s) {
        if s in before {
          assert RankedStep(before, m, s);
          forall d | d in s.dependsOn ensures HasId(Flat(waves), d) {
            var t :| t in before && t.id == d;
          }
        } else {
          LastRanked(waves, s);
        }
      }
    }
  }

  lemma LastRanked(waves: seq<seq<PlanStep>>, s: PlanStep)
    requires waves != [] && EarlierAt(waves, |waves| - 1) && DistinctIds(Flat(waves))
    requires s in waves[|waves| - 1] && s !in Flat(waves[..|waves| - 1])
    ensures RankedStep(Flat(waves), WaveNumbers(waves), s)
  {
    var n := |waves| - 1;
    var before, m := Flat(waves[..n]), WaveNumbers(waves[..n]);
    if s.id in m {
      var t :| t in before && t.id == s.id;
      SameId(Flat(waves), s, t);
    }
    assert s.id in IdsOf(waves[n]);
    forall d | d in s.dependsOn ensures HasId(Flat(waves), d) && d in m && m[d] < n {
      assert d in IdsOf(before);
      var t :| t in before && t.id == d;
    }
  }

  /** All dependencies are listed, and there is no cycle among them. */
  ghost predicate Acyclic(all: seq<PlanStep>) {
    exists rank: map<int, int> :: Ranked(all, rank)
  }

  /** No cycle is ever broken exactly when the dependencies are all listed and without cycles. */
  lemma NeverBreaksExact(steps: seq<PlanStep>, waves: seq<seq<PlanStep>>, cap: nat)
    requires IsSchedule(steps, waves, cap)
    ensures AllEarlier(waves) <==> Acyclic(Flat(waves))
  {
    if AllEarlier(waves) {
      EarlierRanked(waves);
    }
    if Acyclic(Flat(waves)) {
      var rank: map<int, int> :| Ranked(Flat(waves), rank);
      RankedNeverBreaks(steps, waves, cap, rank);
    }
  }

  // ------------------------------------------------------------------ a limit that is not positive

  /** What remains after one turn. */
  ghost function Left(remaining: seq<PlanStep>, done: set<int>, cap: int): seq<PlanStep>
    requires remaining != []
  {
    var ids := IdsOf(NextWave(remaining, done, cap));
    Pick(remaining, (x: PlanStep) => x.id !in ids)
  }

  /** `turns` are what remains, and what is done, before each turn of a run of the loop. */
  ghost predicate TurnAt(turns: seq<(seq<PlanStep>, set<int>)>, cap: int, i: nat)
    requires i + 1 < |turns|
  {
    var (remaining, done) := turns[i];
    && remaining != []
    && turns[i + 1] == (Left(remaining, done, cap), done + IdsOf(NextWave(remaining, done, cap)))
  }

  ghost predicate IsRun(turns: seq<(seq<PlanStep>, set<int>)>, cap: int) {
    turns != [] && forall i: nat :: i + 1 < |turns| ==> TurnAt(turns, cap, i)
  }

  /** Some remaining step is left out of the wave. */
  lemma LeavesOne(remaining: seq<PlanStep>, done: set<int>, cap: int)
    requires cap <= 0 && remaining != [] && DistinctIds(remaining)
    ensures Left(remaining, done, cap) != [] && DistinctIds(Left(remaining, done, cap))
  {
    var ready := ReadyOf(remaining, done);
    var first := if ready == [] then [Least(remaining)] else ready;
    var sorted, wave := SortByPriority(first), NextWave(remaining, done, cap);
    PickDistinct(remaining, x => Ready(done, x));
    SortDistinct(first);
    var last := sorted[|sorted| - 1];
    assert last in sorted;
    forall x | x in wave ensures x.id != last.id {
      var i: nat :| i < |wave| && wave[i] == x;
      assert Different(sorted, i, |sorted| - 1);
    }
    assert last in Left(remaining, done, cap);
    var ids := IdsOf(wave);
    PickDistinct(remaining, (x: PlanStep) => x.id !in ids);
  }

  lemma LeavesSome(turns: seq<(seq<PlanStep>, set<int>)>, cap: int, i: nat)
    requires cap <= 0 && i + 1 < |turns| && IsRun(turns, cap) && DistinctIds(turns[i].0)
    ensures turns[i + 1].0 != [] && DistinctIds(turns[i + 1].0)
  {
    assert TurnAt(turns, cap, i);
    LeavesOne(turns[i].0, turns[i].1, cap);
  }

  /** With a limit below one no turn places every remaining step: however long it runs, steps remain. */
  lemma {:induction false} NeverEnds(turns: seq<(seq<PlanStep>, set<int>)>, cap: int, n: nat)
    requires cap <= 0 && IsRun(turns, cap) && turns[0].0 != [] && DistinctIds(turns[0].0) && n < |turns|
    ensures turns[n].0 != [] && DistinctIds(turns[n].0)
  {
    if n > 0 {
      NeverEnds(turns, cap, n - 1);
      LeavesSome(turns, cap, n - 1);
    }
  }
}
