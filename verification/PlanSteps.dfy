/** Plan steps and their stable ordering by priority. */
module PlanSteps {
  datatype PlanStep = PlanStep(id: int, kind: string, action: string, target: string, priority: int,
                               dependsOn: seq<int>, params: map<string, string>)

  ghost predicate Different(s: seq<PlanStep>, i: nat, j: nat)
    requires i < j < |s|
  {
    s[i].id != s[j].id
  }

  ghost predicate DistinctIds(s: seq<PlanStep>) {
    forall i: nat, j: nat :: i < j < |s| ==> Different(s, i, j)
  }

  ghost predicate HasId(s: seq<PlanStep>, id: int) {
    exists x :: x in s && x.id == id
  }

  ghost predicate InOrder(s: seq<PlanStep>, i: nat, j: nat)
    requires i < j < |s|
  {
    s[i].priority <= s[j].priority
  }

  ghost predicate Sorted(s: seq<PlanStep>) {
    forall i: nat, j: nat :: i < j < |s| ==> InOrder(s, i, j)
  }

  /** The steps of one priority, in order. */
  ghost function Only(s: seq<PlanStep>, p: int): seq<PlanStep> {
    if s == [] then []
    else Only(s[..|s| - 1], p) + if s[|s| - 1].priority == p then [s[|s| - 1]] else []
  }

  lemma {:induction false} OnlyConcat(s: seq<PlanStep>, t: seq<PlanStep>, p: int)
    ensures Only(s + t, p) == Only(s, p) + Only(t, p)
    decreases |t|
  {
    if t == [] {
      assert s + t == s;
    } else {
      OnlyConcat(s, t[..|t| - 1], p);
      assert (s + t)[..|s + t| - 1] == s + t[..|t| - 1];
    }
  }

  lemma {:induction false} OnlyNone(s: seq<PlanStep>, p: int)
    requires forall x :: x in s ==> x.priority != p
    ensures Only(s, p) == []
  {
    if s != [] {
      assert s[|s| - 1] in s;
      OnlyNone(s[..|s| - 1], p);
    }
  }

  /** How many leading steps go before a later step of priority `p`. */
  function Slot(s: seq<PlanStep>, p: int): (k: nat)
    ensures k <= |s|
    ensures k > 0 ==> s[k - 1].priority <= p
    ensures forall j :: k <= j < |s| ==> s[j].priority > p
  {
    if s == [] || s[|s| - 1].priority <= p then |s| else Slot(s[..|s| - 1], p)
  }

  function Insert(s: seq<PlanStep>, x: PlanStep): seq<PlanStep> {
    var k := Slot(s, x.priority);
    s[..k] + [x] + s[k..]
  }

  lemma InsertSorted(s: seq<PlanStep>, x: PlanStep)
    requires Sorted(s)
    ensures Sorted(Insert(s, x))
  {
    var k, r := Slot(s, x.priority), Insert(s, x);
    forall i: nat, j: nat | i < j < |r| ensures InOrder(r, i, j) {
      if i != k && j != k {
        assert InOrder(s, if i < k then i else i - 1, if j < k then j else j - 1);
      } else if j == k && i < k - 1 {
        assert InOrder(s, i, k - 1);
      }
    }
  }

  lemma OnlyThree(a: seq<PlanStep>, x: seq<PlanStep>, b: seq<PlanStep>, p: int)
    ensures Only(a + x + b, p) == Only(a, p) + Only(x, p) + Only(b, p)
    ensures Only(a + b, p) + Only(x, p) == Only(a, p) + Only(b, p) + Only(x, p)
  {
    OnlyConcat(a, x, p);
    OnlyConcat(a + x, b, p);
    OnlyConcat(a, b, p);
  }

  lemma OnlyMoves(a: seq<PlanStep>, x: PlanStep, b: seq<PlanStep>, p: int)
    requires forall y :: y in b ==> y.priority > x.priority
    ensures Only(a + [x] + b, p) == Only(a + b, p) + Only([x], p)
  {
    OnlyThree(a, [x], b, p);
    if p == x.priority {
      OnlyNone(b, p);
    } else {
      OnlyNone([x], p);
    }
  }

  lemma InsertOnly(s: seq<PlanStep>, x: PlanStep, p: int)
    ensures Only(Insert(s, x), p) == Only(s, p) + Only([x], p)
  {
    var k := Slot(s, x.priority);
    assert s == s[..k] + s[k..];
    OnlyMoves(s[..k], x, s[k..], p);
  }

  lemma InsertMembers(s: seq<PlanStep>, x: PlanStep)
    ensures forall y :: y in Insert(s, x) <==> y in s || y == x
  {
    var k := Slot(s, x.priority);
    assert s == s[..k] + s[k..];
  }

  lemma InsertDistinct(s: seq<PlanStep>, x: PlanStep)
    requires DistinctIds(s) && !HasId(s, x.id)
    ensures DistinctIds(Insert(s, x))
  {
    var k, r := Slot(s, x.priority), Insert(s, x);
    forall i: nat, j: nat | i < j < |r| ensures Different(r, i, j) {
      if i != k && j != k {
        assert Different(s, if i < k then i else i - 1, if j < k then j else j - 1);
      } else {
        assert (if i == k then s[j - 1] else s[i]) in s;
      }
    }
  }

  /** `sort(key=lambda s: s.priority)`: sorted, and steps of equal priority keep their order. */
  function SortByPriority(s: seq<PlanStep>): (r: seq<PlanStep>)
    ensures Sorted(r)
    ensures forall p :: Only(r, p) == Only(s, p)
    ensures forall y :: y in r <==> y in s
    ensures |r| == |s|
  {
    if s == [] then []
    else
      var t, x := s[..|s| - 1], s[|s| - 1];
      var r := SortByPriority(t);
      InsertSorted(r, x);
      InsertMembers(r, x);
      SameOnly(s, r);
      assert s == t + [x];
      Insert(r, x)
  }

  lemma SameOnly(s: seq<PlanStep>, r: seq<PlanStep>)
    requires s != [] && forall p :: Only(r, p) == Only(s[..|s| - 1], p)
    ensures forall p :: Only(Insert(r, s[|s| - 1]), p) == Only(s, p)
  {
    var t, x := s[..|s| - 1], s[|s| - 1];
    forall p ensures Only(Insert(r, x), p) == Only(s, p) {
      InsertOnly(r, x, p);
      OnlyConcat(t, [x], p);
      assert s == t + [x];
    }
  }

  lemma {:induction false} SortDistinct(s: seq<PlanStep>)
    requires DistinctIds(s)
    ensures DistinctIds(SortByPriority(s))
    decreases |s|
  {
    if s != [] {
      var t, x := s[..|s| - 1], s[|s| - 1];
      forall i: nat, j: nat | i < j < |t| ensures Different(t, i, j) {
        assert Different(s, i, j);
      }
      SortDistinct(t);
      forall y | y in SortByPriority(t) ensures y.id != x.id {
        assert y in t;
        var i: nat :| i < |t| && t[i] == y;
        assert Different(s, i, |s| - 1);
      }
      InsertDistinct(SortByPriority(t), x);
    }
  }
}
