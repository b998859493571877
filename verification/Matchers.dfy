/**
 * The signature-matching contract: the Rust automaton behind its C ABI and the
 * character-level Python fallback, compared through the normalised result.
 */
module Matchers {
  import opened Options
  import opened Bytes
  import opened Utf8
  import opened Sequences
  import opened Aho

  const NEWLINE: byte := 10
  const MAX_INPUT_BYTES := 1_048_576
  const MAX_PATTERNS := 65_536

  datatype Match = Match(signature: Text, position: nat)

  // ------------------------------------------------------------------ the Python fallback

  /** `str.find` from an offset: the least occurrence, or none. */
  function Find(t: Text, p: Text, from: nat): (r: Option<nat>)
    ensures r.Some? ==> from <= r.value && OccursAt(p, t, r.value)
    ensures forall i :: from <= i < (if r.Some? then r.value else |t| + 1) ==> !OccursAt(p, t, i)
    decreases |t| + 1 - from
  {
    if from + |p| > |t| then None
    else if t[from..from + |p|] == p then Some(from)
    else Find(t, p, from + 1)
  }

  /** Every character index at which `p` occurs, overlaps included, in order. */
  method FindAllOccurrences(t: Text, p: Text) returns (found: seq<nat>)
    ensures forall i, j :: 0 <= i < j < |found| ==> found[i] < found[j]
    ensures forall i: nat :: i in found <==> p != [] && OccursAt(p, t, i)
  {
    found := [];
    if |p| == 0 {
      return;
    }
    var start := Find(t, p, 0);
    while start.Some?
      invariant forall i, j :: 0 <= i < j < |found| ==> found[i] < found[j]
      invariant start.Some? ==> OccursAt(p, t, start.value)
      invariant start.Some? ==> forall j :: 0 <= j < |found| ==> found[j] < start.value
      invariant forall i: nat :: i in found <==> OccursAt(p, t, i) && (start.Some? ==> i < start.value)
      decreases if start.Some? then |t| + 1 - start.value else 0
    {
      found := found + [start.value];
      start := Find(t, p, start.value + 1);
    }
  }

  /** What the character-level fallback reports: byte offsets into the text itself. */
  ghost predicate PythonReports(patterns: seq<Text>, text: Text, m: Match) {
    && m.signature in patterns && m.signature != []
    && exists i :: 0 <= i <= |text| && OccursAt(FoldText(m.signature), FoldText(text), i)
                   && ByteOffset(text, i) == m.position
  }

  function MatchesOf(p: Text, folded: Text, found: seq<nat>): (r: seq<Match>)
    requires forall j :: 0 <= j < |found| ==> found[j] <= |folded|
    ensures |r| == |found| && forall j :: 0 <= j < |found| ==> r[j] == Match(p, ByteOffset(folded, found[j]))
  {
    seq(|found|, j requires 0 <= j < |found| => Match(p, ByteOffset(folded, found[j])))
  }

  lemma MatchesExact(p: Text, text: Text, found: seq<nat>, m: Match)
    requires p != [] && forall i: nat :: i in found <==> OccursAt(FoldText(p), FoldText(text), i)
    requires forall j :: 0 <= j < |found| ==> found[j] <= |text|
    ensures m in MatchesOf(p, FoldText(text), found) <==> PythonReports([p], text, m)
  {
    var ms := MatchesOf(p, FoldText(text), found);
    if m in ms {
      var j :| 0 <= j < |ms| && ms[j] == m;
      assert found[j] in found;
      assert [p][0] == m.signature;
      FoldKeepsOffset(text, found[j]);
    }
    if PythonReports([p], text, m) {
      var c :| 0 <= c <= |text| && OccursAt(FoldText(m.signature), FoldText(text), c)
               && ByteOffset(text, c) == m.position;
      FoldKeepsOffset(text, c);
      assert c in found;
      var j :| 0 <= j < |found| && found[j] == c;
      assert ms[j] == m;
    }
  }

  method PythonMatch(text: Text, patterns: seq<Text>) returns (hits: seq<Match>)
    ensures forall m :: m in hits <==> PythonReports(patterns, text, m)
  {
    var folded := FoldText(text);
    hits := [];
    for k := 0 to |patterns|
      invariant forall m :: m in hits <==> PythonReports(patterns[..k], text, m)
    {
      var p := patterns[k];
      ghost var before := hits;
      assert patterns[..k + 1] == patterns[..k] + [p];
      if |p| != 0 {
        var found := FindAllOccurrences(folded, FoldText(p));
        assert forall j :: 0 <= j < |found| ==> found[j] in found;
        for j := 0 to |found|
          invariant hits == before + MatchesOf(p, folded, found)[..j]
        {
          hits := hits + [Match(p, ByteOffset(folded, found[j]))];
        }
        forall m ensures m in hits <==> PythonReports(patterns[..k], text, m) || PythonReports([p], text, m) {
          MatchesExact(p, text, found, m);
          assert m in hits <==> m in before || m in MatchesOf(p, folded, found);
        }
      }
      forall m
        ensures PythonReports(patterns[..k + 1], text, m)
                <==> (PythonReports(patterns[..k], text, m) || PythonReports([p], text, m))
      {
        assert m.signature in patterns[..k + 1] <==> (m.signature in patterns[..k] || m.signature in [p]);
      }
    }
    assert patterns[..|patterns|] == patterns;
  }

  // ------------------------------------------------------------------ the Rust core behind its C ABI

  function Clip(b: seq<byte>): (r: seq<byte>)
    ensures r <= b && |r| <= MAX_INPUT_BYTES && (r != b ==> |r| == MAX_INPUT_BYTES)
  {
    if |b| <= MAX_INPUT_BYTES then b else b[..MAX_INPUT_BYTES]
  }

  function JoinLines(patterns: seq<Text>): Text {
    if patterns == [] then []
    else if |patterns| == 1 then patterns[0]
    else patterns[0] + [NEWLINE] + JoinLines(patterns[1..])
  }

  function SplitLines(b: seq<byte>): (r: seq<seq<byte>>)
    ensures |r| > 0
  {
    if b == [] then [[]]
    else
      var rest := SplitLines(b[1..]);
      if b[0] == NEWLINE then [[]] + rest else [[b[0]] + rest[0]] + rest[1..]
  }

  /** The labels an automaton keeps when the decodable lines are added in order. */
  function Keep(kept: seq<Text>, lines: seq<seq<byte>>): seq<Text>
    decreases |lines|
  {
    if lines == [] || |kept| >= MAX_PATTERNS then kept
    else
      match FromUtf8(lines[0])
      case Some(name) => Keep(if Accepts(kept, name) then kept + [name] else kept, lines[1..])
      case None => Keep(kept, lines[1..])
  }

  predicate Accepts(kept: seq<Text>, name: Text) {
    !IsBlank(name) && forall k :: 0 <= k < |kept| ==> Needle(kept[k]) != Needle(name)
  }

  ghost function NamesOf(patterns: seq<Pattern>): (r: seq<Text>)
    ensures |r| == |patterns| && forall p :: 0 <= p < |patterns| ==> r[p] == patterns[p].name
  {
    seq(|patterns|, p requires 0 <= p < |patterns| => patterns[p].name)
  }

  lemma AddedIsAccepted(patterns: seq<Pattern>, name: Text)
    requires PatternsOk(patterns)
    ensures (!IsBlank(name) && forall p :: p in patterns ==> p.needle != Needle(name)) <==> Accepts(NamesOf(patterns), name)
  {
    forall p: nat | p < |patterns| ensures patterns[p].needle == Needle(NamesOf(patterns)[p]) {
      assert PatternOk(patterns, p);
    }
    if forall p :: p in patterns ==> p.needle != Needle(name) {
      forall k | 0 <= k < |patterns| ensures Needle(NamesOf(patterns)[k]) != Needle(name) {
        assert patterns[k] in patterns;
      }
    }
  }

  /** Compiles a newline-separated pattern blob into a built automaton. */
  method Compile(blob: seq<byte>) returns (ac: AhoCorasick)
    ensures fresh(ac) && ac.Valid() && ac.built
    ensures NamesOf(ac.patterns) == Keep([], SplitLines(blob))
  {
    ac := new AhoCorasick();
    var lines := SplitLines(blob);
    var i := 0;
    while i < |lines|
      invariant 0 <= i <= |lines| && fresh(ac) && ac.Valid()
      invariant Keep([], lines) == Keep(NamesOf(ac.patterns), lines[i..])
    {
      if |ac.patterns| >= MAX_PATTERNS {
        break;
      }
      ghost var before := ac.patterns;
      match FromUtf8(lines[i]) {
        case Some(name) =>
          AddedIsAccepted(ac.patterns, name);
          var added := ac.Add(name);
          assert NamesOf(ac.patterns) == if added then NamesOf(before) + [name] else NamesOf(before);
        case None =>
      }
      assert lines[i..][0] == lines[i] && lines[i..][1..] == lines[i + 1..];
      i := i + 1;
    }
    ac.Build();
  }

  /** What the Rust core reports for a bridge call. */
  ghost predicate RustReports(patterns: seq<Text>, text: Text, m: Match) {
    && text != [] && patterns != []
    && m.signature in Keep([], SplitLines(Clip(CString(Encode(JoinLines(patterns))))))
    && OccursAt(Needle(m.signature), Fold(Clip(CString(Encode(text)))), m.position)
  }

  method RustMatch(text: Text, patterns: seq<Text>) returns (hits: seq<Match>)
    ensures forall m :: m in hits <==> RustReports(patterns, text, m)
  {
    hits := [];
    if |text| == 0 || |patterns| == 0 {
      return;
    }
    var ac := Compile(Clip(CString(Encode(JoinLines(patterns)))));
    var found := ac.Scan(Clip(CString(Encode(text))));
    for i := 0 to |found|
      invariant |hits| == i && forall j :: 0 <= j < i ==> hits[j] == Match(found[j].0, found[j].1)
    {
      hits := hits + [Match(found[i].0, found[i].1)];
    }
    ghost var bytes := Clip(CString(Encode(text)));
    forall m ensures m in hits <==> RustReports(patterns, text, m) {
      FoundByName(ac.patterns, bytes, m.signature, m.position);
      SameHits(found, hits, m);
    }
  }

  lemma SameHits(found: seq<(Text, nat)>, hits: seq<Match>, m: Match)
    requires |hits| == |found| && forall j :: 0 <= j < |hits| ==> hits[j] == Match(found[j].0, found[j].1)
    ensures m in hits <==> (m.signature, m.position) in found
  {
    if m in hits {
      var j :| 0 <= j < |hits| && hits[j] == m;
      assert found[j] in found;
    }
    if (m.signature, m.position) in found {
      var j :| 0 <= j < |found| && found[j] == (m.signature, m.position);
      assert hits[j] in hits;
    }
  }

  lemma FoundByName(patterns: seq<Pattern>, text: seq<byte>, name: Text, start: nat)
    requires PatternsOk(patterns)
    ensures FoundAt(patterns, text, name, start) <==> name in NamesOf(patterns) && OccursAt(Needle(name), Fold(text), start)
  {
    forall p: nat | p < |patterns| ensures patterns[p].needle == Needle(patterns[p].name) {
      assert PatternOk(patterns, p);
    }
    if name in NamesOf(patterns) {
      var p :| 0 <= p < |patterns| && NamesOf(patterns)[p] == name;
      assert patterns[p] in patterns;
    }
    if FoundAt(patterns, text, name, start) {
      var q :| q in patterns && q.name == name && OccursAt(q.needle, Fold(text), start);
      var p :| 0 <= p < |patterns| && patterns[p] == q;
      assert NamesOf(patterns)[p] == name;
    }
  }
}
