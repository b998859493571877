/** `startScan`: the worker pool as a state machine, one action per step of one goroutine. */
module WorkerPool {
  datatype Result = Result(port: int, open: bool)

  datatype Phase = Filling | Adding | Spawning | Returned

  datatype Closer = Unborn | Waiting | Finished

  /**
   * Workers have no identity, so they are counted by where they are: at the head of their loop, in a
   * dial (one entry of `scanning` each), about to call `wg.Done`, or gone.
   */
  datatype State = State(
    phase: Phase, unfilled: seq<int>,
    work: seq<int>, workClosed: bool,
    unspawned: nat, fetching: nat, scanning: seq<int>, leaving: nat, exited: nat,
    waitGroup: int, closer: Closer,
    results: seq<Result>, resultsClosed: bool, taken: seq<Result>)

  datatype Action =
    | Fill                          // work <- p
    | CloseWork                     // close(work)
    | AddWorkers                    // wg.Add(workers)
    | Spawn                         // go func() of a worker
    | StartCloser                   // go func() of the closer
    | Take                          // one turn of `for port := range work`
    | Report(k: nat, open: bool)    // results <- of the k-th running dial
    | Leave                         // wg.Done()
    | CloseResults                  // wg.Wait(); close(resultsChan)
    | Receive                       // <-resultsChan by the consumer

  const MAX_WORKERS: nat := 300

  function MaxWorkersFor(ports: nat): (w: nat)
    ensures w <= ports && w <= MAX_WORKERS && (w == ports || w == MAX_WORKERS)
  {
    if ports < MAX_WORKERS then ports else MAX_WORKERS
  }

  function PortsOf(rs: seq<Result>): (r: seq<int>)
    ensures |r| == |rs|
  {
    seq(|rs|, i requires 0 <= i < |rs| => rs[i].port)
  }

  /** With nothing to scan the stream is closed up front. */
  ghost function Start(ports: seq<int>): State {
    if ports == [] then State(Returned, [], [], true, 0, 0, [], 0, 0, 0, Finished, [], true, [])
    else State(Filling, ports, [], false, MaxWorkersFor(|ports|), 0, [], 0, 0, 0, Unborn, [], false, [])
  }

  // ------------------------------------------------------------------ the actions

  /** Some goroutine is at this action. */
  ghost predicate At(s: State, a: Action) {
    match a
    case Fill => s.phase == Filling && s.unfilled != []
    case CloseWork => s.phase == Filling && s.unfilled == []
    case AddWorkers => s.phase == Adding
    case Spawn => s.phase == Spawning && s.unspawned > 0
    case StartCloser => s.phase == Spawning && s.unspawned == 0
    case Take => s.fetching > 0
    case Report(k, _) => k < |s.scanning|
    case Leave => s.leaving > 0
    case CloseResults => s.closer == Waiting
    case Receive => true
  }

  /** The action has to wait; both channels hold `n` items. */
  ghost predicate Blocked(n: nat, s: State, a: Action) {
    match a
    case Fill => |s.work| >= n
    case Take => s.work == [] && !s.workClosed
    case Report(_, _) => |s.results| >= n
    case CloseResults => s.waitGroup > 0
    case Receive => s.results == []
    case _ => false
  }

  /** The Go runtime would panic: a send on, or close of, a closed channel, or a negative counter. */
  ghost predicate Panics(s: State, a: Action) {
    match a
    case Fill => s.workClosed
    case CloseWork => s.workClosed
    case Report(_, _) => s.resultsClosed
    case Leave => s.waitGroup <= 0
    case CloseResults => s.resultsClosed
    case _ => false
  }

  ghost function Do(ports: seq<int>, s: State, a: Action): State
    requires At(s, a) && !Blocked(|ports|, s, a)
  {
    match a
    case Fill => s.(work := s.work + [s.unfilled[0]], unfilled := s.unfilled[1..])
    case CloseWork => s.(workClosed := true, phase := Adding)
    case AddWorkers => s.(waitGroup := s.waitGroup + MaxWorkersFor(|ports|), phase := Spawning)
    case Spawn => s.(unspawned := s.unspawned - 1, fetching := s.fetching + 1)
    case StartCloser => s.(closer := Waiting, phase := Returned)
    case Take =>
      if s.work == [] then s.(fetching := s.fetching - 1, leaving := s.leaving + 1)
      else s.(fetching := s.fetching - 1, scanning := s.scanning + [s.work[0]], work := s.work[1..])
    case Report(k, open) =>
      s.(scanning := s.scanning[..k] + s.scanning[k + 1..], fetching := s.fetching + 1,
         results := s.results + [Result(s.scanning[k], open)])
    case Leave => s.(leaving := s.leaving - 1, exited := s.exited + 1, waitGroup := s.waitGroup - 1)
    case CloseResults => s.(resultsClosed := true, closer := Finished)
    case Receive => s.(taken := s.taken + [s.results[0]], results := s.results[1..])
  }

  ghost predicate Enabled(n: nat, s: State, a: Action) {
    At(s, a) && !Blocked(n, s, a)
  }

  ghost predicate StepAt(ports: seq<int>, run: seq<State>, actions: seq<Action>, i: nat)
    requires i < |actions| && |run| == |actions| + 1
  {
    Enabled(|ports|, run[i], actions[i]) && run[i + 1] == Do(ports, run[i], actions[i])
  }

  /** Any interleaving, with the consumer reading as much or as little as it likes. */
  ghost predicate IsRun(ports: seq<int>, run: seq<State>, actions: seq<Action>) {
    && |run| == |actions| + 1 && run[0] == Start(ports)
    && forall i: nat :: i < |actions| ==> StepAt(ports, run, actions, i)
  }

  // ------------------------------------------------------------------ the invariant

  /** Where every list entry is. */
  ghost function Everywhere(s: State): multiset<int> {
    multiset(s.unfilled) + multiset(s.work) + multiset(s.scanning) + multiset(PortsOf(s.results)) + multiset(PortsOf(s.taken))
  }

  ghost predicate Inv(ports: seq<int>, s: State) {
    Everywhere(s) == multiset(ports) && Counted(ports, s) && Phased(ports, s)
  }

  /** Every list entry and every worker is somewhere. */
  ghost predicate Counted(ports: seq<int>, s: State) {
    && |s.unfilled| + |s.work| + |s.scanning| + |s.results| + |s.taken| == |ports|
    && s.unspawned + s.fetching + |s.scanning| + s.leaving + s.exited == MaxWorkersFor(|ports|)
  }

  /** What each phase has done and has yet to do. */
  ghost predicate Phased(ports: seq<int>, s: State) {
    && (s.phase == Filling ==> !s.workClosed && s.waitGroup == 0)
    && (s.phase != Filling ==> s.workClosed && s.unfilled == [])
    && (s.phase == Filling || s.phase == Adding ==> s.unspawned == MaxWorkersFor(|ports|) && s.waitGroup == 0)
    && (s.phase == Spawning || s.phase == Returned ==> s.waitGroup == MaxWorkersFor(|ports|) - s.exited)
    && (s.phase == Returned ==> s.unspawned == 0)
    && (s.closer == Unborn <==> s.phase != Returned)
    && (s.resultsClosed <==> s.closer == Finished)
    && (s.resultsClosed ==> s.waitGroup == 0)
    && (s.leaving + s.exited > 0 ==> s.work == [])
  }

  lemma StartInv(ports: seq<int>)
    ensures Inv(ports, Start(ports))
  {
    assert PortsOf([]) == [];
  }

  lemma MoveHead(s: seq<int>)
    requires s != []
    ensures multiset(s) == multiset{s[0]} + multiset(s[1..])
  {
    assert s == [s[0]] + s[1..];
  }

  lemma TakeOut(s: seq<int>, k: nat)
    requires k < |s|
    ensures multiset(s) == multiset{s[k]} + multiset(s[..k] + s[k + 1..])
  {
    assert s == s[..k] + [s[k]] + s[k + 1..];
  }

  lemma PortsSnoc(rs: seq<Result>, r: Result)
    ensures PortsOf(rs + [r]) == PortsOf(rs) + [r.port]
  {
  }

  lemma PortsHead(rs: seq<Result>)
    requires rs != []
    ensures PortsOf(rs) == [rs[0].port] + PortsOf(rs[1..])
  {
  }

  lemma WorkMoves(work: seq<int>, scanning: seq<int>)
    requires work != []
    ensures multiset(work[1..]) + multiset(scanning + [work[0]]) == multiset(work) + multiset(scanning)
  {
    MoveHead(work);
  }

  lemma RegroupMiddle(a: multiset<int>, b: multiset<int>, c: multiset<int>, d: multiset<int>, e: multiset<int>)
    ensures a + b + c + d + e == a + (b + c) + d + e
  {
  }

  lemma TakeConserves(ports: seq<int>, s: State)
    requires Enabled(|ports|, s, Take)
    ensures Everywhere(Do(ports, s, Take)) == Everywhere(s)
  {
    if s.work != [] {
      var d := Do(ports, s, Take);
      WorkMoves(s.work, s.scanning);
      var a, x, y := multiset(s.unfilled), multiset(PortsOf(s.results)), multiset(PortsOf(s.taken));
      RegroupMiddle(a, multiset(s.work), multiset(s.scanning), x, y);
      RegroupMiddle(a, multiset(d.work), multiset(d.scanning), x, y);
    }
  }

  lemma ReportMoves(scanning: seq<int>, k: nat, results: seq<Result>, open: bool)
    requires k < |scanning|
    ensures multiset(scanning[..k] + scanning[k + 1..]) + multiset(PortsOf(results + [Result(scanning[k], open)])) ==
            multiset(scanning) + multiset(PortsOf(results))
  {
    TakeOut(scanning, k);
    PortsSnoc(results, Result(scanning[k], open));
  }

  lemma Regroup(a: multiset<int>, b: multiset<int>, c: multiset<int>, d: multiset<int>, e: multiset<int>)
    ensures a + b + c + d + e == a + b + (c + d) + e
  {
  }

  lemma ReportConserves(ports: seq<int>, s: State, k: nat, open: bool)
    requires Enabled(|ports|, s, Report(k, open))
    ensures Everywhere(Do(ports, s, Report(k, open))) == Everywhere(s)
  {
    var d := Do(ports, s, Report(k, open));
    ReportMoves(s.scanning, k, s.results, open);
    var a, b, e := multiset(s.unfilled), multiset(s.work), multiset(PortsOf(s.taken));
    Regroup(a, b, multiset(s.scanning), multiset(PortsOf(s.results)), e);
    Regroup(a, b, multiset(d.scanning), multiset(PortsOf(d.results)), e);
  }

  lemma HeadMoves(results: seq<Result>, taken: seq<Result>)
    requires results != []
    ensures multiset(PortsOf(results[1..])) + multiset(PortsOf(taken + [results[0]]))
         == multiset(PortsOf(results)) + multiset(PortsOf(taken))
  {
    PortsHead(results);
    PortsSnoc(taken, results[0]);
  }

  lemma RegroupEnd(a: multiset<int>, b: multiset<int>, c: multiset<int>, d: multiset<int>, e: multiset<int>)
    ensures a + b + c + d + e == a + b + c + (d + e)
  {
  }

  lemma ReceiveConserves(ports: seq<int>, s: State)
    requires Enabled(|ports|, s, Receive)
    ensures Everywhere(Do(ports, s, Receive)) == Everywhere(s)
  {
    var d := Do(ports, s, Receive);
    HeadMoves(s.results, s.taken);
    var a, b, c := multiset(s.unfilled), multiset(s.work), multiset(s.scanning);
    RegroupEnd(a, b, c, multiset(PortsOf(s.results)), multiset(PortsOf(s.taken)));
    RegroupEnd(a, b, c, multiset(PortsOf(d.results)), multiset(PortsOf(d.taken)));
  }

  /** No action loses or duplicates a list entry. */
  lemma Conserved(ports: seq<int>, s: State, a: Action)
    requires Enabled(|ports|, s, a)
    ensures Everywhere(Do(ports, s, a)) == Everywhere(s)
  {
    match a
    case Fill => MoveHead(s.unfilled);
    case Take => TakeConserves(ports, s);
    case Report(k, open) => ReportConserves(ports, s, k, open);
    case Receive => ReceiveConserves(ports, s);
    case _ =>
  }

  lemma StepCounted(ports: seq<int>, s: State, a: Action)
    requires Counted(ports, s) && Phased(ports, s) && Enabled(|ports|, s, a)
    ensures Counted(ports, Do(ports, s, a))
  {
  }

  lemma StepPhased(ports: seq<int>, s: State, a: Action)
    requires Counted(ports, s) && Phased(ports, s) && Enabled(|ports|, s, a)
    ensures Phased(ports, Do(ports, s, a))
  {
  }

  lemma StepInv(ports: seq<int>, s: State, a: Action)
    requires Inv(ports, s) && Enabled(|ports|, s, a)
    ensures Inv(ports, Do(ports, s, a))
  {
    Conserved(ports, s, a);
    StepCounted(ports, s, a);
    StepPhased(ports, s, a);
  }

  lemma {:induction false} RunInv(ports: seq<int>, run: seq<State>, actions: seq<Action>, i: nat)
    requires IsRun(ports, run, actions) && i < |run|
    ensures Inv(ports, run[i])
  {
    if i == 0 {
      StartInv(ports);
    } else {
      RunInv(ports, run, actions, i - 1);
      assert StepAt(ports, run, actions, i - 1);
      StepInv(ports, run[i - 1], actions[i - 1]);
    }
  }

  // ------------------------------------------------------------------ safety

  /**
   * In every interleaving: no goroutine ever panics, no send ever blocks (even with no consumer),
   * and never more workers are alive than the pool size.
   */
  lemma Safe(ports: seq<int>, run: seq<State>, actions: seq<Action>, i: nat, a: Action)
    requires IsRun(ports, run, actions) && i < |run| && At(run[i], a)
    ensures !Panics(run[i], a)
    ensures a.Fill? || a.Report? ==> !Blocked(|ports|, run[i], a)
    ensures run[i].fetching + |run[i].scanning| + run[i].leaving <= MaxWorkersFor(|ports|)
  {
    RunInv(ports, run, actions, i);
  }

  /** Once the result channel is closed, every list entry has exactly one result, and nothing is still to be sent. */
  lemma ClosedComplete(ports: seq<int>, run: seq<State>, actions: seq<Action>, i: nat)
    requires IsRun(ports, run, actions) && i < |run| && run[i].resultsClosed
    ensures multiset(PortsOf(run[i].taken)) + multiset(PortsOf(run[i].results)) == multiset(ports)
    ensures run[i].scanning == [] && run[i].work == [] && run[i].fetching == 0
  {
    RunInv(ports, run, actions, i);
  }

  /** What the dials of the first `i` actions answered, in order: each report names the port its worker held. */
  ghost function Answers(run: seq<State>, actions: seq<Action>, i: nat): seq<Result>
    requires i <= |actions| && i < |run|
  {
    if i == 0 then []
    else
      var before, a := Answers(run, actions, i - 1), actions[i - 1];
      if a.Report? && a.k < |run[i - 1].scanning| then before + [Result(run[i - 1].scanning[a.k], a.open)] else before
  }

  lemma AnswerStep(ports: seq<int>, s: State, a: Action)
    requires Enabled(|ports|, s, a)
    ensures var d := Do(ports, s, a);
      d.taken + d.results ==
        s.taken + s.results + if a.Report? && a.k < |s.scanning| then [Result(s.scanning[a.k], a.open)] else []
  {
    if a.Receive? {
      assert s.results == [s.results[0]] + s.results[1..];
    }
  }

  /** At all times the results, taken or waiting, are exactly what the dials have answered, in the order they did. */
  lemma {:induction false} ResultsAreAnswers(ports: seq<int>, run: seq<State>, actions: seq<Action>, i: nat)
    requires IsRun(ports, run, actions) && i < |run|
    ensures run[i].taken + run[i].results == Answers(run, actions, i)
  {
    if i > 0 {
      ResultsAreAnswers(ports, run, actions, i - 1);
      assert StepAt(ports, run, actions, i - 1);
      AnswerStep(ports, run[i - 1], actions[i - 1]);
    }
  }

  /** Results never outnumber the list entries they answer, at any time. */
  lemma AtMostOneEach(ports: seq<int>, run: seq<State>, actions: seq<Action>, i: nat, p: int)
    requires IsRun(ports, run, actions) && i < |run|
    ensures multiset(PortsOf(run[i].taken))[p] + multiset(PortsOf(run[i].results))[p] <= multiset(ports)[p]
  {
    RunInv(ports, run, actions, i);
    assert Everywhere(run[i])[p] == multiset(ports)[p];
  }

  // ------------------------------------------------------------------ every run ends

  function PhaseWeight(p: Phase): nat {
    match p case Filling => 4 case Adding => 3 case Spawning => 2 case Returned => 0
  }

  function CloserWeight(c: Closer): nat {
    match c case Unborn => 1 case Waiting => 1 case Finished => 0
  }

  ghost function Measure(s: State): nat {
    4 * |s.unfilled| + 3 * |s.work| + 2 * |s.scanning| + |s.results|
    + 3 * s.unspawned + 2 * (s.fetching + |s.scanning|) + s.leaving
    + PhaseWeight(s.phase) + CloserWeight(s.closer)
  }

  lemma StepDecreases(ports: seq<int>, s: State, a: Action)
    requires Enabled(|ports|, s, a)
    ensures Measure(Do(ports, s, a)) < Measure(s)
  {
  }

  lemma {:induction false} MeasureFalls(ports: seq<int>, run: seq<State>, actions: seq<Action>, i: nat)
    requires IsRun(ports, run, actions) && i < |run|
    ensures Measure(run[i]) + i <= Measure(run[0])
  {
    if i > 0 {
      MeasureFalls(ports, run, actions, i - 1);
      assert StepAt(ports, run, actions, i - 1);
      StepDecreases(ports, run[i - 1], actions[i - 1]);
    }
  }

  /** No run is longer than seven steps per list entry and five more. */
  lemma RunsEnd(ports: seq<int>, run: seq<State>, actions: seq<Action>)
    requires IsRun(ports, run, actions)
    ensures |actions| <= 7 * |ports| + 5
  {
    MeasureFalls(ports, run, actions, |actions|);
  }

  /** The pool is done: it has returned, all workers have left and the stream is closed. */
  ghost predicate Final(ports: seq<int>, s: State) {
    s.phase == Returned && s.exited == MaxWorkersFor(|ports|) && s.resultsClosed
  }

  /** Until then something other than the consumer can always move: there is no deadlock. */
  lemma NoDeadlock(ports: seq<int>, run: seq<State>, actions: seq<Action>, i: nat)
    requires IsRun(ports, run, actions) && i < |run|
    ensures Final(ports, run[i]) || exists a: Action :: a != Receive && Enabled(|ports|, run[i], a)
  {
    RunInv(ports, run, actions, i);
    var s, n := run[i], |ports|;
    if s.phase == Filling {
      assert Enabled(n, s, if s.unfilled == [] then CloseWork else Fill);
    } else if s.phase == Adding {
      assert Enabled(n, s, AddWorkers);
    } else if s.phase == Spawning {
      assert Enabled(n, s, if s.unspawned > 0 then Spawn else StartCloser);
    } else if s.scanning != [] {
      assert Enabled(n, s, Report(0, true));
    } else if s.fetching > 0 {
      assert Enabled(n, s, Take);
    } else if s.leaving > 0 {
      assert Enabled(n, s, Leave);
    } else if s.closer == Waiting {
      assert Enabled(n, s, CloseResults);
    }
  }

  /** So a run that can go no further without the consumer has every result waiting or taken. */
  lemma StuckIsComplete(ports: seq<int>, run: seq<State>, actions: seq<Action>)
    requires IsRun(ports, run, actions)
    requires forall a: Action :: a != Receive ==> !Enabled(|ports|, run[|actions|], a)
    ensures Final(ports, run[|actions|])
    ensures var s := run[|actions|];
      multiset(PortsOf(s.taken)) + multiset(PortsOf(s.results)) == multiset(ports)
  {
    NoDeadlock(ports, run, actions, |actions|);
    ClosedComplete(ports, run, actions, |actions|);
  }
}
