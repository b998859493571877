/** `Planner.plan`: intelligence items into a list of steps with dependencies. */
module Planner {
  import opened Options
  import opened Sequences
  import opened PlanSteps
  import opened Waves

  /** One item of intelligence; a missing key is `None`. */
  datatype Item = Item(kind: Option<string>, action: Option<string>, priority: Option<int>, params: map<string, string>)

  function Get<T>(o: Option<T>, default: T): T {
    match o case Some(x) => x case None => default
  }

  /** Maps retired module names onto their current ones. */
  function Canonical(it: Item): Item {
    if it.kind == Some("exfil") then it.(kind := Some("collector")) else it
  }

  predicate IsExtra(it: Item) {
    it.kind !in {Some("discovery"), Some("asset"), Some("recon"), Some("stealth"), Some("collector")}
  }

  function HasKind(kind: string): Item -> bool {
    (it: Item) => it.kind == Some(kind)
  }

  function OfKind(items: seq<Item>, kind: string): seq<Item> {
    Pick(items, HasKind(kind))
  }

  // ------------------------------------------------------------------ what a plan must be

  /** A step before it has an id and dependencies. */
  datatype Draft = Draft(kind: string, action: string, priority: int, params: map<string, string>)

  ghost function ToDraft(it: Item, kind: string, action: string, priority: int, params: map<string, string>): Draft {
    Draft(kind, Get(it.action, action), Get(it.priority, priority), params)
  }

  ghost function Stealths(items: seq<Item>): seq<Draft> {
    var s := OfKind(items, "stealth");
    seq(|s|, i requires 0 <= i < |s| => ToDraft(s[i], "stealth", "pace", 5, s[i].params))
  }

  /** Discovery is always there. */
  ghost function Discoveries(items: seq<Item>): seq<Draft> {
    var s := OfKind(items, "discovery");
    if s == [] then [Draft("discovery", "scan", 10, map[])]
    else seq(|s|, i requires 0 <= i < |s| => ToDraft(s[i], "discovery", "scan", 10, map[]))
  }

  ghost function Assets(items: seq<Item>): seq<Draft> {
    var s := OfKind(items, "asset");
    if s == [] then [Draft("asset", "discover", 15, map[])]
    else seq(|s|, i requires 0 <= i < |s| => ToDraft(s[i], "asset", "discover", 15, s[i].params))
  }

  ghost function Recons(items: seq<Item>): seq<Draft> {
    var s := OfKind(items, "recon");
    seq(|s|, i requires 0 <= i < |s| => ToDraft(s[i], "recon", "fingerprint", 20, map[]))
  }

  ghost function Extras(items: seq<Item>): seq<Draft> {
    var s := Pick(items, IsExtra);
    seq(|s|, i requires 0 <= i < |s| => ToDraft(s[i], Get(s[i].kind, ""), "run", 25, map[]))
  }

  /** The ids of the first `n` steps after id `start`. */
  function Ids(start: int, n: nat): (r: seq<int>)
    ensures |r| == n && forall i :: 0 <= i < n ==> r[i] == start + 1 + i
  {
    seq(n, i requires 0 <= i < n => start + 1 + i)
  }

  /** The first `roots` steps depend on nothing, the next `assets` on exactly those, the rest on all before them. */
  ghost function DepsOf(start: int, k: nat, roots: nat, assets: nat): seq<int> {
    if k < roots then [] else if k < roots + assets then Ids(start, roots) else Ids(start, k)
  }

  ghost function StepsOf(drafts: seq<Draft>, start: int, target: string, roots: nat, assets: nat): (r: seq<PlanStep>)
    ensures |r| == |drafts|
  {
    seq(|drafts|, k requires 0 <= k < |drafts| =>
      PlanStep(start + 1 + k, drafts[k].kind, drafts[k].action, target, drafts[k].priority,
               DepsOf(start, k, roots, assets), drafts[k].params))
  }

  /** The steps of a plan, in the order of their ids. */
  ghost function PlanOf(items: seq<Item>, start: int, target: string): seq<PlanStep> {
    var roots := Stealths(items) + Discoveries(items);
    var all := roots + Assets(items) + Recons(items) + Extras(items) + [Draft("collector", "collect", 40, map[])];
    StepsOf(all, start, target, |roots|, |Assets(items)|)
  }

  lemma StepsOfSnoc(drafts: seq<Draft>, d: Draft, start: int, target: string, roots: nat, assets: nat)
    ensures StepsOf(drafts + [d], start, target, roots, assets) ==
            StepsOf(drafts, start, target, roots, assets) +
            [PlanStep(start + 1 + |drafts|, d.kind, d.action, target, d.priority,
                      DepsOf(start, |drafts|, roots, assets), d.params)]
  {
  }

  /** The bounds only matter for steps at or beyond them. */
  lemma StepsOfBounds(drafts: seq<Draft>, start: int, target: string, roots: nat, assets: nat, roots': nat, assets': nat)
    requires |drafts| <= roots && |drafts| <= roots'
    ensures StepsOf(drafts, start, target, roots, assets) == StepsOf(drafts, start, target, roots', assets')
  {
  }

  /** Where a missing module name makes planning fail. */
  ghost predicate Nameless(items: seq<Item>) {
    exists it :: it in items && it.kind == None
  }

  class PlannerState {
    const maxConcurrency: int
    var stepCounter: int

    constructor (maxConcurrency: int)
      ensures this.maxConcurrency == maxConcurrency && stepCounter == 0
    {
      this.maxConcurrency := maxConcurrency;
      stepCounter := 0;
    }

    method Make(kind: string, action: string, target: string, priority: int, dependsOn: seq<int>, params: map<string, string>)
      returns (s: PlanStep)
      modifies this
      ensures stepCounter == old(stepCounter) + 1
      ensures s == PlanStep(stepCounter, kind, action, target, priority, dependsOn, params)
    {
      stepCounter := stepCounter + 1;
      s := PlanStep(stepCounter, kind, action, target, priority, dependsOn, params);
    }

    /** Pacing steps. */
    method PlanStealths(items: seq<Item>, target: string, ghost roots: nat) returns (steps: seq<PlanStep>)
      requires |Stealths(items)| <= roots
      modifies this
      ensures steps == StepsOf(Stealths(items), old(stepCounter), target, roots, 0)
      ensures stepCounter == old(stepCounter) + |Stealths(items)|
    {
      ghost var start, a := stepCounter, Stealths(items);
      steps := [];
      var s := OfKind(items, "stealth");
      for i := 0 to |s|
        invariant steps == StepsOf(a[..i], start, target, roots, 0) && stepCounter == start + i
      {
        StepsOfSnoc(a[..i], a[i], start, target, roots, 0);
        assert a[..i + 1] == a[..i] + [a[i]];
        var step := Make("stealth", Get(s[i].action, "pace"), target, Get(s[i].priority, 5), [], s[i].params);
        steps := steps + [step];
      }
      assert a[..|s|] == a;
    }

    /** Pacing and discovery steps. */
    method PlanRoots(items: seq<Item>, target: string) returns (steps: seq<PlanStep>)
      modifies this
      ensures var drafts := Stealths(items) + Discoveries(items);
        && steps == StepsOf(drafts, old(stepCounter), target, |drafts|, 0)
        && stepCounter == old(stepCounter) + |drafts|
    {
      ghost var start, a, b := stepCounter, Stealths(items), Discoveries(items);
      ghost var roots := |a + b|;
      steps := PlanStealths(items, target, roots);
      assert a + b[..0] == a;
      var d := OfKind(items, "discovery");
      if d == [] {
        StepsOfSnoc(a, b[0], start, target, roots, 0);
        var step := Make("discovery", "scan", target, 10, [], map[]);
        steps := steps + [step];
        return;
      }
      for i := 0 to |d|
        invariant steps == StepsOf(a + b[..i], start, target, roots, 0) && stepCounter == start + |a| + i
      {
        StepsOfSnoc(a + b[..i], b[i], start, target, roots, 0);
        assert a + b[..i + 1] == (a + b[..i]) + [b[i]];
        var step := Make("discovery", Get(d[i].action, "scan"), target, Get(d[i].priority, 10), [], map[]);
        steps := steps + [step];
      }
      assert b[..|d|] == b;
    }

    /** Asset steps: each depends on the steps so far. */
    method PlanAssets(items: seq<Item>, target: string, ghost start: int, ghost roots: seq<Draft>, before: seq<PlanStep>)
      returns (steps: seq<PlanStep>)
      requires stepCounter == start + |roots| && before == StepsOf(roots, start, target, |roots|, |Assets(items)|)
      modifies this
      ensures steps == StepsOf(roots + Assets(items), start, target, |roots|, |Assets(items)|)
      ensures stepCounter == start + |roots| + |Assets(items)|
    {
      steps := before;
      ghost var b, n, m := Assets(items), |roots|, |Assets(items)|;
      var deps := IdsIn(steps, start);
      assert roots + b[..0] == roots;
      var d := OfKind(items, "asset");
      if d == [] {
        StepsOfSnoc(roots, b[0], start, target, n, m);
        var step := Make("asset", "discover", target, 15, deps, map[]);
        steps := steps + [step];
        return;
      }
      for i := 0 to |d|
        invariant steps == StepsOf(roots + b[..i], start, target, n, m)
        invariant stepCounter == start + |roots| + i
      {
        StepsOfSnoc(roots + b[..i], b[i], start, target, n, m);
        assert roots + b[..i + 1] == (roots + b[..i]) + [b[i]];
        var step := Make("asset", Get(d[i].action, "discover"), target, Get(d[i].priority, 15), deps, d[i].params);
        steps := steps + [step];
      }
      assert b[..|d|] == b;
    }

    /** One step that depends on everything planned so far. */
    method PlanLater(d: Draft, target: string, ghost start: int, ghost drafts: seq<Draft>, ghost n: nat, ghost m: nat,
                     before: seq<PlanStep>) returns (steps: seq<PlanStep>)
      requires n + m <= |drafts| && stepCounter == start + |drafts| && before == StepsOf(drafts, start, target, n, m)
      modifies this
      ensures steps == StepsOf(drafts + [d], start, target, n, m)
      ensures stepCounter == start + |drafts| + 1
    {
      var deps := IdsIn(before, start);
      StepsOfSnoc(drafts, d, start, target, n, m);
      var step := Make(d.kind, d.action, target, d.priority, deps, d.params);
      steps := before + [step];
    }

    /** `[s.step_id for s in steps]`. */
    static method IdsIn(steps: seq<PlanStep>, ghost start: int) returns (ids: seq<int>)
      requires forall i :: 0 <= i < |steps| ==> steps[i].id == start + 1 + i
      ensures ids == Ids(start, |steps|)
    {
      ids := seq(|steps|, i requires 0 <= i < |steps| => steps[i].id);
    }

    method PlanRecons(items: seq<Item>, target: string, ghost start: int, ghost drafts: seq<Draft>, ghost n: nat,
                      ghost m: nat, before: seq<PlanStep>) returns (steps: seq<PlanStep>)
      requires n + m <= |drafts| && stepCounter == start + |drafts| && before == StepsOf(drafts, start, target, n, m)
      modifies this
      ensures steps == StepsOf(drafts + Recons(items), start, target, n, m)
      ensures stepCounter == start + |drafts + Recons(items)|
    {
      steps := before;
      var recons := OfKind(items, "recon");
      ghost var rs := Recons(items);
      assert drafts + rs[..0] == drafts;
      for i := 0 to |recons|
        invariant steps == StepsOf(drafts + rs[..i], start, target, n, m) && stepCounter == start + |drafts| + i
      {
        assert drafts + rs[..i + 1] == (drafts + rs[..i]) + [rs[i]];
        var d := Draft("recon", Get(recons[i].action, "fingerprint"), Get(recons[i].priority, 20), map[]);
        steps := PlanLater(d, target, start, drafts + rs[..i], n, m, steps);
      }
      assert rs[..|recons|] == rs;
    }

    method PlanExtras(items: seq<Item>, target: string, ghost start: int, ghost drafts: seq<Draft>, ghost n: nat,
                      ghost m: nat, before: seq<PlanStep>) returns (r: Option<seq<PlanStep>>)
      requires n + m <= |drafts| && stepCounter == start + |drafts| && before == StepsOf(drafts, start, target, n, m)
      modifies this
      ensures r.None? <==> Nameless(items)
      ensures r.Some? ==> r.value == StepsOf(drafts + Extras(items), start, target, n, m)
      ensures r.Some? ==> stepCounter == start + |drafts + Extras(items)|
      ensures stepCounter >= old(stepCounter)
    {
      var steps, extras := before, Pick(items, IsExtra);
      ghost var es := Extras(items);
      assert drafts + es[..0] == drafts;
      for i := 0 to |extras|
        invariant steps == StepsOf(drafts + es[..i], start, target, n, m) && stepCounter == start + |drafts| + i
        invariant forall j :: 0 <= j < i ==> extras[j].kind != None
      {
        if extras[i].kind == None {
          assert extras[i] in items;
          return None;
        }
        assert drafts + es[..i + 1] == (drafts + es[..i]) + [es[i]];
        var d := Draft(extras[i].kind.value, Get(extras[i].action, "run"), Get(extras[i].priority, 25), map[]);
        steps := PlanLater(d, target, start, drafts + es[..i], n, m, steps);
      }
      assert es[..|extras|] == es;
      NoneNameless(items, extras);
      r := Some(steps);
    }

    /** Plans the whole campaign; an extra item without a module name raises. */
    method Plan(intelligence: seq<Item>, target: string) returns (r: Option<seq<PlanStep>>)
      modifies this
      ensures r.None? <==> Nameless(intelligence)
      ensures stepCounter > old(stepCounter)
      ensures r.Some? ==>
        var plan := PlanOf(CanonicalAll(intelligence), old(stepCounter), target);
        r.value == SortByPriority(plan) && stepCounter == old(stepCounter) + |plan|
      ensures r.Some? ==> forall s :: s in r.value ==> DependsRight(r.value, s) && s.kind != "exfil"
    {
      ghost var start := stepCounter;
      var items := seq(|intelligence|, i requires 0 <= i < |intelligence| => Canonical(intelligence[i]));
      NamelessCanonical(intelligence);
      assert items == CanonicalAll(intelligence);
      ghost var roots, n, m := Stealths(items) + Discoveries(items), |Stealths(items) + Discoveries(items)|, |Assets(items)|;
      var steps := PlanRoots(items, target);
      StepsOfBounds(roots, start, target, n, 0, n, m);
      steps := PlanAssets(items, target, start, roots, steps);
      steps := PlanRecons(items, target, start, roots + Assets(items), n, m, steps);
      var all := PlanExtras(items, target, start, roots + Assets(items) + Recons(items), n, m, steps);
      if all.None? {
        return None;
      }
      steps := PlanLater(Draft("collector", "collect", 40, map[]), target, start,
                         roots + Assets(items) + Recons(items) + Extras(items), n, m, all.value);
      r := Some(SortByPriority(steps));
      Returned(intelligence, start, target);
    }
  }

  ghost function CanonicalAll(items: seq<Item>): seq<Item> {
    seq(|items|, i requires 0 <= i < |items| => Canonical(items[i]))
  }

  lemma NamelessCanonical(items: seq<Item>)
    ensures Nameless(CanonicalAll(items)) <==> Nameless(items)
  {
    var all := CanonicalAll(items);
    if Nameless(all) {
      var i :| 0 <= i < |all| && all[i].kind == None;
      assert items[i] in items;
    }
    if Nameless(items) {
      var i :| 0 <= i < |items| && items[i].kind == None;
      assert all[i] in all;
    }
  }

  lemma NoneNameless(items: seq<Item>, extras: seq<Item>)
    requires extras == Pick(items, IsExtra)
    requires forall j :: 0 <= j < |extras| ==> extras[j].kind != None
    ensures !Nameless(items)
  {
    forall it | it in items ensures it.kind != None {
      assert it.kind == None ==> IsExtra(it);
      assert IsExtra(it) ==> it in extras;
    }
  }

  // ------------------------------------------------------------------ what a plan holds

  predicate IsRoot(s: PlanStep) {
    s.kind == "stealth" || s.kind == "discovery"
  }

  /** Step `s` has to wait for step `t`. */
  ghost predicate WaitsFor(s: PlanStep, t: PlanStep) {
    if IsRoot(s) then false
    else if s.kind == "asset" then IsRoot(t)
    else if s.kind == "collector" then t.id != s.id
    else t.id < s.id
  }

  ghost predicate DependsRight(plan: seq<PlanStep>, s: PlanStep) {
    forall d :: d in s.dependsOn <==> exists t :: t in plan && t.id == d && WaitsFor(s, t)
  }

  /** `MODULE_PRIORITY`, with 25 for every other module. */
  function PriorityOf(kind: string): int {
    if kind == "stealth" then 5 else if kind == "discovery" then 10 else if kind == "asset" then 15
    else if kind == "recon" then 20 else 25
  }

  function ActionOf(kind: string): string {
    if kind == "stealth" then "pace" else if kind == "discovery" then "scan" else if kind == "asset" then "discover"
    else if kind == "recon" then "fingerprint" else "run"
  }

  predicate Named(it: Item, kind: string) {
    it.kind == Some(kind)
  }

  function Shape(s: PlanStep): Draft {
    Draft(s.kind, s.action, s.priority, s.params)
  }

  /** Item `it` asks for a step of this shape. */
  ghost predicate Asked(it: Item, d: Draft) {
    var kind := Get(it.kind, "");
    && d.kind == kind && kind != "collector"
    && d.action == Get(it.action, ActionOf(kind)) && d.priority == Get(it.priority, PriorityOf(kind))
    && d.params == if kind == "stealth" || kind == "asset" then it.params else map[]
  }

  ghost predicate NoneNamed(items: seq<Item>, kind: string) {
    forall it :: it in items ==> !Named(it, kind)
  }

  /** A step that is there without an item asking for it. */
  ghost predicate Standing(items: seq<Item>, d: Draft) {
    || (NoneNamed(items, "discovery") && d == Draft("discovery", "scan", 10, map[]))
    || (NoneNamed(items, "asset") && d == Draft("asset", "discover", 15, map[]))
    || d == Draft("collector", "collect", 40, map[])
  }

  /** How many items `keep` accepts. */
  ghost function Count(items: seq<Item>, keep: Item -> bool): nat {
    if items == [] then 0 else (if keep(items[0]) then 1 else 0) + Count(items[1..], keep)
  }

  lemma {:induction false} PickCount(items: seq<Item>, keep: Item -> bool)
    ensures |Pick(items, keep)| == Count(items, keep)
  {
    if items != [] {
      PickCount(items[1..], keep);
    }
  }

  // ---- the drafts by their places

  ghost function DraftsOf(items: seq<Item>): seq<Draft> {
    Stealths(items) + Discoveries(items) + Assets(items) + Recons(items) + Extras(items)
    + [Draft("collector", "collect", 40, map[])]
  }

  ghost predicate RootKind(kind: string) {
    kind == "stealth" || kind == "discovery"
  }

  /** Which kinds stand where: first the roots, then the assets, then the others, and the collector at the end. */
  lemma KindAt(items: seq<Item>, k: nat)
    requires k < |DraftsOf(items)|
    ensures var n, m, kind := |Stealths(items) + Discoveries(items)|, |Assets(items)|, DraftsOf(items)[k].kind;
      && n + m < |DraftsOf(items)|
      && (k < n <==> RootKind(kind)) && (n <= k < n + m <==> kind == "asset")
      && (k == |DraftsOf(items)| - 1 <==> kind == "collector")
  {
    var a, b := Stealths(items) + Discoveries(items), Assets(items);
    var c, d := Recons(items), Extras(items);
    var all := DraftsOf(items);
    assert all == a + (b + (c + (d + [Draft("collector", "collect", 40, map[])])));
    if |a| + |b| + |c| <= k < |all| - 1 {
      var s := Pick(items, IsExtra);
      var it := s[k - |a| - |b| - |c|];
      assert it in s;
      assert all[k] == d[k - |a| - |b| - |c|];
    }
  }

  lemma PlanAt(items: seq<Item>, start: int, target: string, k: nat)
    requires k < |DraftsOf(items)|
    ensures var plan, d := PlanOf(items, start, target), DraftsOf(items)[k];
      && |plan| == |DraftsOf(items)|
      && plan[k] == PlanStep(start + 1 + k, d.kind, d.action, target, d.priority,
                             DepsOf(start, k, |Stealths(items) + Discoveries(items)|, |Assets(items)|), d.params)
  {
  }

  /** Stealth and discovery wait for nothing, assets for exactly those, the collector for all others, the rest for all before. */
  lemma PlanDepends(items: seq<Item>, start: int, target: string, s: PlanStep)
    requires s in PlanOf(items, start, target)
    ensures DependsRight(PlanOf(items, start, target), s)
  {
    var plan := PlanOf(items, start, target);
    var k: nat :| k < |plan| && plan[k] == s;
    forall j: nat | j < |plan| ensures plan[j].id == start + 1 + j {
      PlanAt(items, start, target, j);
    }
    forall d ensures d in s.dependsOn <==> exists t :: t in plan && t.id == d && WaitsFor(s, t) {
      DependsAt(items, start, target, k, d);
      ByPlace(plan, start, s, d);
    }
  }

  /** In a list whose ids count up, the step with an id stands at its place. */
  lemma ByPlace(plan: seq<PlanStep>, start: int, s: PlanStep, d: int)
    requires forall j: nat :: j < |plan| ==> plan[j].id == start + 1 + j
    ensures (exists t :: t in plan && t.id == d && WaitsFor(s, t))
       <==> start < d <= start + |plan| && WaitsFor(s, plan[d - start - 1])
  {
    if start < d <= start + |plan| {
      assert plan[d - start - 1] in plan;
    }
    if t :| t in plan && t.id == d && WaitsFor(s, t) {
      var j: nat :| j < |plan| && plan[j] == t;
    }
  }

  lemma DependsAt(items: seq<Item>, start: int, target: string, k: nat, d: int)
    requires k < |PlanOf(items, start, target)|
    ensures var plan := PlanOf(items, start, target);
      d in plan[k].dependsOn <==> start < d <= start + |plan| && WaitsFor(plan[k], plan[d - start - 1])
  {
    var plan := PlanOf(items, start, target);
    var n, m := |Stealths(items) + Discoveries(items)|, |Assets(items)|;
    KindAt(items, k);
    PlanAt(items, start, target, k);
    IdsHold(start, n, d);
    IdsHold(start, k, d);
    if start < d <= start + |plan| {
      var j: nat := d - start - 1;
      KindAt(items, j);
      PlanAt(items, start, target, j);
    }
  }

  lemma IdsHold(start: int, n: nat, d: int)
    ensures d in Ids(start, n) <==> start < d <= start + n
  {
    if start < d <= start + n {
      assert Ids(start, n)[d - start - 1] == d;
    }
  }

  lemma NotRetired(intelligence: seq<Item>, start: int, target: string, s: PlanStep)
    requires s in PlanOf(CanonicalAll(intelligence), start, target)
    ensures s.kind != "exfil"
  {
    var items := CanonicalAll(intelligence);
    var k: nat :| k < |PlanOf(items, start, target)| && PlanOf(items, start, target)[k] == s;
    PlanAt(items, start, target, k);
    DraftAsked(items, DraftsOf(items)[k]);
  }

  lemma DependsSame(plan: seq<PlanStep>, other: seq<PlanStep>, s: PlanStep)
    requires DependsRight(plan, s) && forall t :: t in other <==> t in plan
    ensures DependsRight(other, s)
  {
  }

  /** Sorting the plan changes no dependency, and no step bears a retired name. */
  lemma Returned(intelligence: seq<Item>, start: int, target: string)
    ensures var plan := SortByPriority(PlanOf(CanonicalAll(intelligence), start, target));
      forall s :: s in plan ==> DependsRight(plan, s) && s.kind != "exfil"
  {
    var plan := PlanOf(CanonicalAll(intelligence), start, target);
    var sorted := SortByPriority(plan);
    forall s | s in sorted ensures DependsRight(sorted, s) && s.kind != "exfil" {
      PlanDepends(CanonicalAll(intelligence), start, target, s);
      DependsSame(plan, sorted, s);
      NotRetired(intelligence, start, target, s);
    }
  }

  // ---- the drafts by the items that ask for them

  /** `part` is some of the drafts. */
  lemma PartIn(items: seq<Item>, d: Draft)
    ensures d in DraftsOf(items) <==>
            d in Stealths(items) || d in Discoveries(items) || d in Assets(items) || d in Recons(items) || d in Extras(items)
            || d == Draft("collector", "collect", 40, map[])
  {
  }

  lemma DraftAsked(items: seq<Item>, d: Draft)
    requires d in DraftsOf(items)
    ensures Standing(items, d) || exists it :: it in items && Asked(it, d)
  {
    PartIn(items, d);
    if d in Stealths(items) {
      var i :| 0 <= i < |Stealths(items)| && Stealths(items)[i] == d;
      FromKind(items, "stealth", i, d);
    } else if d in Recons(items) {
      var i :| 0 <= i < |Recons(items)| && Recons(items)[i] == d;
      FromKind(items, "recon", i, d);
    } else if d in Extras(items) {
      ExtraAsked(items, d);
    } else if d in Discoveries(items) && OfKind(items, "discovery") != [] {
      var i :| 0 <= i < |Discoveries(items)| && Discoveries(items)[i] == d;
      FromKind(items, "discovery", i, d);
    } else if d in Assets(items) && OfKind(items, "asset") != [] {
      var i :| 0 <= i < |Assets(items)| && Assets(items)[i] == d;
      FromKind(items, "asset", i, d);
    } else {
      NoneOf(items, "discovery");
      NoneOf(items, "asset");
    }
  }

  lemma NoneOf(items: seq<Item>, kind: string)
    ensures OfKind(items, kind) == [] ==> NoneNamed(items, kind)
  {
    forall it | it in items && Named(it, kind) ensures it in OfKind(items, kind) {
    }
  }

  lemma ExtraAsked(items: seq<Item>, d: Draft)
    requires d in Extras(items)
    ensures exists it :: it in items && Asked(it, d)
  {
    var s := Pick(items, IsExtra);
    var i :| 0 <= i < |Extras(items)| && Extras(items)[i] == d;
    assert s[i] in s;
    assert Asked(s[i], d);
  }

  lemma FromKind(items: seq<Item>, kind: string, i: nat, d: Draft)
    requires i < |OfKind(items, kind)| && (Named(OfKind(items, kind)[i], kind) ==> Asked(OfKind(items, kind)[i], d))
    ensures exists it :: it in items && Asked(it, d)
  {
    var s := OfKind(items, kind);
    assert s[i] in s;
  }

  /** Every item but a collector gets the draft it asks for. */
  lemma AskedDraft(items: seq<Item>, it: Item) returns (d: Draft)
    requires it in items && !Named(it, "collector")
    ensures d in DraftsOf(items) && Asked(it, d)
  {
    var kind := Get(it.kind, "");
    d := Draft(kind, Get(it.action, ActionOf(kind)), Get(it.priority, PriorityOf(kind)),
               if kind == "stealth" || kind == "asset" then it.params else map[]);
    PartIn(items, d);
    if IsExtra(it) {
      ExtraDraft(items, it, d);
    } else {
      NamedDraft(items, it, d);
    }
  }

  lemma ExtraDraft(items: seq<Item>, it: Item, d: Draft)
    requires it in items && IsExtra(it) && Asked(it, d)
    ensures d in Extras(items)
  {
    var s := Pick(items, IsExtra);
    assert it in s;
    var i :| 0 <= i < |s| && s[i] == it;
    assert Extras(items)[i] in Extras(items);
  }

  lemma NamedDraft(items: seq<Item>, it: Item, d: Draft)
    requires it in items && !IsExtra(it) && !Named(it, "collector") && Asked(it, d)
    ensures d in Stealths(items) || d in Discoveries(items) || d in Assets(items) || d in Recons(items)
  {
    var kind := Get(it.kind, "");
    var s := OfKind(items, kind);
    assert it in s;
    var i :| 0 <= i < |s| && s[i] == it;
    if kind == "stealth" {
      assert Stealths(items)[i] in Stealths(items);
    } else if kind == "discovery" {
      assert Discoveries(items)[i] in Discoveries(items);
    } else if kind == "asset" {
      assert Assets(items)[i] in Assets(items);
    } else {
      assert Recons(items)[i] in Recons(items);
    }
  }

  predicate Kept(it: Item) {
    !Named(it, "collector")
  }

  /** The plan answers what is asked: a step for every item but collectors, and none that is neither asked for nor standing. */
  lemma PlanAnswers(items: seq<Item>, start: int, target: string)
    ensures var plan := PlanOf(items, start, target);
      && (forall it :: it in items && Kept(it) ==> exists s :: s in plan && Asked(it, Shape(s)))
      && (forall s :: s in plan ==> Standing(items, Shape(s)) || exists it :: it in items && Asked(it, Shape(s)))
      && (exists s :: s in plan && s.kind == "discovery") && (exists s :: s in plan && s.kind == "asset")
      && (forall k: nat :: k < |plan| ==> plan[k].target == target && plan[k].id == start + 1 + k)
  {
    var plan, all := PlanOf(items, start, target), DraftsOf(items);
    forall it | it in items && Kept(it) ensures exists s :: s in plan && Asked(it, Shape(s)) {
      var d := AskedDraft(items, it);
      var k :| 0 <= k < |all| && all[k] == d;
      PlanAt(items, start, target, k);
      assert plan[k] in plan && Shape(plan[k]) == d;
    }
    forall s | s in plan ensures Standing(items, Shape(s)) || exists it :: it in items && Asked(it, Shape(s)) {
      var k :| 0 <= k < |plan| && plan[k] == s;
      PlanAt(items, start, target, k);
      DraftAsked(items, Shape(s));
    }
    var n := |Stealths(items)|;
    assert all[n] == Discoveries(items)[0] && all[n + |Discoveries(items)|] == Assets(items)[0];
    PlanAt(items, start, target, n);
    PlanAt(items, start, target, n + |Discoveries(items)|);
    assert plan[n] in plan && plan[n + |Discoveries(items)|] in plan;
  }

  lemma {:induction false} CountKinds(items: seq<Item>)
    ensures Count(items, Kept) == Count(items, HasKind("stealth")) + Count(items, HasKind("discovery"))
                                  + Count(items, HasKind("asset")) + Count(items, HasKind("recon")) + Count(items, IsExtra)
  {
    if items != [] {
      CountKinds(items[1..]);
    }
  }

  /** A plan has one step for each item but collectors, a discovery and an asset step if none was asked for, and the collector. */
  lemma PlanSize(items: seq<Item>, start: int, target: string)
    ensures |PlanOf(items, start, target)| ==
            Count(items, Kept) + (if Count(items, HasKind("discovery")) == 0 then 1 else 0)
            + (if Count(items, HasKind("asset")) == 0 then 1 else 0) + 1
  {
    PickCount(items, HasKind("stealth"));
    PickCount(items, HasKind("discovery"));
    PickCount(items, HasKind("asset"));
    PickCount(items, HasKind("recon"));
    PickCount(items, IsExtra);
    CountKinds(items);
  }

  // ------------------------------------------------------------------ plans schedule without breaking a cycle

  /** Lower priority value first, then lower id. */
  ghost predicate LexBefore(s: seq<PlanStep>, i: nat, j: nat)
    requires i < j < |s|
  {
    s[i].priority < s[j].priority || (s[i].priority == s[j].priority && s[i].id < s[j].id)
  }

  ghost predicate LexSorted(s: seq<PlanStep>) {
    forall i: nat, j: nat :: i < j < |s| ==> LexBefore(s, i, j)
  }

  lemma InsertLex(s: seq<PlanStep>, x: PlanStep)
    requires LexSorted(s) && forall y :: y in s ==> y.id < x.id
    ensures LexSorted(Insert(s, x))
  {
    var r := Insert(s, x);
    forall i: nat, j: nat | i < j < |r| ensures LexBefore(r, i, j) {
      InsertPair(s, x, i, j);
    }
  }

  lemma InsertPair(s: seq<PlanStep>, x: PlanStep, i: nat, j: nat)
    requires LexSorted(s) && (forall y :: y in s ==> y.id < x.id) && i < j < |Insert(s, x)|
    ensures LexBefore(Insert(s, x), i, j)
  {
    var k := Slot(s, x.priority);
    InsertPlace(s, x, i);
    InsertPlace(s, x, j);
    if i != k && j != k {
      assert LexBefore(s, if i < k then i else i - 1, if j < k then j else j - 1);
    } else if j == k {
      assert s[i] in s;
      assert i < k - 1 ==> LexBefore(s, i, k - 1);
    }
  }

  lemma InsertPlace(s: seq<PlanStep>, x: PlanStep, i: nat)
    requires i <= |s|
    ensures |Insert(s, x)| == |s| + 1
    ensures var k := Slot(s, x.priority); Insert(s, x)[i] == if i < k then s[i] else if i == k then x else s[i - 1]
  {
  }

  ghost predicate Ascending(s: seq<PlanStep>, start: int) {
    forall k :: 0 <= k < |s| ==> s[k].id == start + 1 + k
  }

  /** Sorting steps listed by id sorts them by priority, then id. */
  lemma {:induction false} SortLex(s: seq<PlanStep>, start: int)
    requires Ascending(s, start)
    ensures LexSorted(SortByPriority(s)) && DistinctIds(SortByPriority(s))
    decreases |s|
  {
    if s != [] {
      var t, x := s[..|s| - 1], s[|s| - 1];
      SortLex(t, start);
      forall y | y in SortByPriority(t) ensures y.id < x.id {
        assert y in t;
      }
      InsertLex(SortByPriority(t), x);
      InsertDistinct(SortByPriority(t), x);
    }
  }

  lemma PlanIsSorted(items: seq<Item>, start: int, target: string)
    ensures LexSorted(SortByPriority(PlanOf(items, start, target)))
    ensures DistinctIds(SortByPriority(PlanOf(items, start, target)))
  {
    SortLex(PlanOf(items, start, target), start);
  }

  /** Dependencies always have smaller ids. */
  lemma PlanAcyclic(items: seq<Item>, start: int, target: string, all: seq<PlanStep>)
    requires forall s :: s in all <==> s in PlanOf(items, start, target)
    ensures Acyclic(all)
  {
    var plan := PlanOf(items, start, target);
    var rank: map<int, int> := map id | id in IdsOf(plan) :: id - start;
    forall s | s in all ensures RankedStep(all, rank, s) {
      var k: nat :| k < |plan| && plan[k] == s;
      forall d | d in s.dependsOn ensures HasId(all, d) && d in rank && rank[d] < rank[s.id] {
        assert start < d <= start + k;
        assert plan[d - start - 1] in plan && plan[d - start - 1].id == d;
      }
    }
    assert Ranked(all, rank);
  }

  lemma DistinctAllLast(steps: seq<PlanStep>, s: PlanStep)
    requires DistinctIds(steps)
    ensures IsLast(steps, s) <==> s in steps
  {
    if s in steps {
      var k: nat :| k < |steps| && steps[k] == s;
      forall j | k < j < |steps| ensures steps[j].id != s.id {
        assert Different(steps, k, j);
      }
      assert LastAt(steps, s, k);
    }
    if IsLast(steps, s) {
      var k: nat :| LastAt(steps, s, k);
    }
  }

  /** Whatever schedule is made of a plan places every step, each after all it depends on. */
  lemma PlansNeverBreak(items: seq<Item>, start: int, target: string, waves: seq<seq<PlanStep>>, cap: nat)
    requires IsSchedule(SortByPriority(PlanOf(items, start, target)), waves, cap)
    ensures AllEarlier(waves)
    ensures forall s :: s in Flat(waves) <==> s in PlanOf(items, start, target)
  {
    var steps := SortByPriority(PlanOf(items, start, target));
    PlanIsSorted(items, start, target);
    forall s ensures s in Flat(waves) <==> s in PlanOf(items, start, target) {
      DistinctAllLast(steps, s);
    }
    PlanAcyclic(items, start, target, Flat(waves));
    NeverBreaksExact(steps, waves, cap);
  }

  lemma {:induction false} FlatHas(waves: seq<seq<PlanStep>>, s: PlanStep)
    ensures s in Flat(waves) <==> exists i: nat :: i < |waves| && s in waves[i]
  {
    if waves != [] {
      FlatHas(waves[..|waves| - 1], s);
      if s in waves[|waves| - 1] {
        assert waves[|waves| - 1] == waves[|waves| - 1];
      }
    }
  }

  /** Every other step is placed in a wave before the collector's. */
  lemma BeforeCollector(items: seq<Item>, start: int, target: string, waves: seq<seq<PlanStep>>, cap: nat, i: nat, c: PlanStep,
                        s: PlanStep)
    requires IsSchedule(SortByPriority(PlanOf(items, start, target)), waves, cap)
    requires i < |waves| && c in waves[i] && c.kind == "collector" && s in PlanOf(items, start, target) && s.id != c.id
    ensures s.id in DoneBefore(waves, i)
  {
    PlansNeverBreak(items, start, target, waves, cap);
    FlatHas(waves, c);
    CollectorNeeds(items, start, target, c, s);
    assert EarlierAt(waves, i);
  }

  lemma CollectorNeeds(items: seq<Item>, start: int, target: string, c: PlanStep, s: PlanStep)
    requires c in PlanOf(items, start, target) && s in PlanOf(items, start, target) && c.kind == "collector" && s.id != c.id
    ensures s.id in c.dependsOn
  {
    PlanDepends(items, start, target, c);
    assert WaitsFor(c, s);
  }

  lemma OneCollector(items: seq<Item>, start: int, target: string) returns (c: PlanStep)
    ensures c in PlanOf(items, start, target) && c.kind == "collector"
  {
    var plan, k := PlanOf(items, start, target), |DraftsOf(items)| - 1;
    PlanAt(items, start, target, k);
    KindAt(items, k);
    c := plan[k];
    assert c in plan;
  }

  lemma LastIsCollector(items: seq<Item>, start: int, target: string, waves: seq<seq<PlanStep>>, cap: nat, i: nat, c: PlanStep,
                        s: PlanStep)
    requires IsSchedule(SortByPriority(PlanOf(items, start, target)), waves, cap)
    requires i < |waves| && c in waves[i] && c.kind == "collector" && s in waves[|waves| - 1]
    ensures s == c
  {
    var last := |waves| - 1;
    PlansNeverBreak(items, start, target, waves, cap);
    FlatHas(waves, s);
    FlatHas(waves, c);
    assert WaveAt(Flat(waves), waves, last, cap);
    assert Pending(Flat(waves), DoneBefore(waves, last), s);
    if s.id != c.id {
      BeforeCollector(items, start, target, waves, cap, i, c, s);
      DoneGrows(waves, i, last);
      assert false;
    }
    SameStep(Flat(waves), s, c);
  }

  /** In every schedule of a plan the last wave is the collector alone. */
  lemma CollectorLast(items: seq<Item>, start: int, target: string, waves: seq<seq<PlanStep>>, cap: nat)
    requires IsSchedule(SortByPriority(PlanOf(items, start, target)), waves, cap)
    ensures waves != [] && |waves[|waves| - 1]| == 1 && waves[|waves| - 1][0].kind == "collector"
  {
    var c := OneCollector(items, start, target);
    PlansNeverBreak(items, start, target, waves, cap);
    FlatHas(waves, c);
    var i: nat :| i < |waves| && c in waves[i];
    var last := waves[|waves| - 1];
    assert WaveAt(Flat(waves), waves, |waves| - 1, cap);
    forall p | 0 <= p < |last| ensures last[p] == c {
      LastIsCollector(items, start, target, waves, cap, i, c, last[p]);
    }
    AloneInWave(waves, |waves| - 1, c);
  }

  lemma AloneInWave(waves: seq<seq<PlanStep>>, i: nat, c: PlanStep)
    requires DistinctIds(Flat(waves)) && i < |waves| && forall p :: 0 <= p < |waves[i]| ==> waves[i][p] == c
    ensures |waves[i]| <= 1
  {
    if |waves[i]| > 1 {
      WaveDistinct(waves, i, 0, 1);
    }
  }

  lemma SameStep(all: seq<PlanStep>, s: PlanStep, t: PlanStep)
    requires DistinctIds(all) && s in all && t in all && s.id == t.id
    ensures s == t
  {
    forall p: nat, q: nat | p < q < |all| ensures all[p].id != all[q].id {
      assert Different(all, p, q);
    }
    var i: nat :| i < |all| && all[i] == s;
    var j: nat :| j < |all| && all[j] == t;
  }

  lemma {:induction false} DoneGrows(waves: seq<seq<PlanStep>>, i: nat, j: nat)
    requires i <= j <= |waves|
    ensures DoneBefore(waves, i) <= DoneBefore(waves, j)
  {
    if i < j {
      DoneGrows(waves, i, j - 1);
      assert waves[..j][..j - 1] == waves[..j - 1];
    }
  }

  /** The steps of one wave have different ids. */
  lemma WaveDistinct(waves: seq<seq<PlanStep>>, i: nat, p: nat, q: nat)
    requires DistinctIds(Flat(waves)) && i < |waves| && p < q < |waves[i]|
    ensures waves[i][p].id != waves[i][q].id
    decreases |waves|
  {
    var front := waves[..|waves| - 1];
    if i == |waves| - 1 {
      assert Different(Flat(waves), |Flat(front)| + p, |Flat(front)| + q);
    } else {
      forall a: nat, b: nat | a < b < |Flat(front)| ensures Different(Flat(front), a, b) {
        assert Different(Flat(waves), a, b);
      }
      WaveDistinct(front, i, p, q);
    }
  }
}
