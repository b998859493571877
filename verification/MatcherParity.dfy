/** When the Rust core and the Python fallback answer alike, and when they cannot. */
module MatcherParity {
  import opened Bytes
  import opened Utf8
  import opened Aho
  import opened Matchers

  /** The bridge transports these patterns unchanged. */
  ghost predicate PatternsWithinCaps(patterns: seq<Text>) {
    && (forall p :: p in patterns ==> 0 !in p && 10 !in p)
    && |patterns| <= MAX_PATTERNS
    && |Encode(JoinLines(patterns))| <= MAX_INPUT_BYTES
  }

  ghost predicate TextWithinCaps(text: Text) {
    0 !in text && |Encode(text)| <= MAX_INPUT_BYTES
  }

  /** No two different patterns fold together, and only the empty pattern is blank. */
  ghost predicate Distinguishable(patterns: seq<Text>) {
    && (forall p, q :: p in patterns && q in patterns && FoldText(p) == FoldText(q) ==> p == q)
    && (forall p :: p in patterns && IsBlank(p) ==> p == [])
  }

  ghost predicate Agree(patterns: seq<Text>, text: Text) {
    forall m :: RustReports(patterns, text, m) <==> PythonReports(patterns, text, m)
  }

  // ------------------------------------------------------------------ transport

  ghost function EncodeAll(patterns: seq<Text>): (r: seq<seq<byte>>)
    ensures |r| == |patterns| && forall i :: 0 <= i < |patterns| ==> r[i] == Encode(patterns[i])
  {
    seq(|patterns|, i requires 0 <= i < |patterns| => Encode(patterns[i]))
  }

  lemma {:induction false} SplitOneLine(a: seq<byte>)
    requires NEWLINE !in a
    ensures SplitLines(a) == [a]
  {
    if a != [] {
      SplitOneLine(a[1..]);
      assert a == [a[0]] + a[1..];
    }
  }

  lemma {:induction false} SplitFirstLine(a: seq<byte>, rest: seq<byte>)
    requires NEWLINE !in a
    ensures SplitLines(a + [NEWLINE] + rest) == [a] + SplitLines(rest)
  {
    var b := a + [NEWLINE] + rest;
    if a == [] {
      assert b[1..] == rest;
    } else {
      assert b[1..] == a[1..] + [NEWLINE] + rest;
      SplitFirstLine(a[1..], rest);
      assert a == [a[0]] + a[1..];
    }
  }

  lemma JoinEncoded(patterns: seq<Text>)
    requires |patterns| > 1
    ensures Encode(JoinLines(patterns)) == Encode(patterns[0]) + [NEWLINE] + Encode(JoinLines(patterns[1..]))
  {
    EncodeConcat(patterns[0] + [NEWLINE], JoinLines(patterns[1..]));
    EncodeConcat(patterns[0], [NEWLINE]);
    assert Encode([NEWLINE]) == [NEWLINE];
  }

  /** Splitting the joined blob gives the encoded patterns back. */
  lemma {:induction false} SplitJoined(patterns: seq<Text>)
    requires patterns != [] && forall p :: p in patterns ==> 10 !in p
    ensures SplitLines(Encode(JoinLines(patterns))) == EncodeAll(patterns)
  {
    AsciiByte(patterns[0], NEWLINE);
    if |patterns| == 1 {
      SplitOneLine(Encode(patterns[0]));
    } else {
      var rest := patterns[1..];
      SplitJoined(rest);
      JoinEncoded(patterns);
      SplitFirstLine(Encode(patterns[0]), Encode(JoinLines(rest)));
      assert EncodeAll(patterns) == [Encode(patterns[0])] + EncodeAll(rest);
    }
  }

  lemma {:induction false} NulFreeJoin(patterns: seq<Text>)
    requires forall p :: p in patterns ==> 0 !in p
    ensures 0 !in JoinLines(patterns)
  {
    if |patterns| > 1 {
      NulFreeJoin(patterns[1..]);
    }
  }

  lemma Transport(patterns: seq<Text>, text: Text, m: Match)
    requires PatternsWithinCaps(patterns) && TextWithinCaps(text) && text != [] && patterns != []
    ensures RustReports(patterns, text, m) <==>
      m.signature in Keep([], EncodeAll(patterns)) && OccursAt(Needle(m.signature), Fold(Encode(text)), m.position)
  {
    NulFreeJoin(patterns);
    AsciiByte(JoinLines(patterns), 0);
    AsciiByte(text, 0);
    SplitJoined(patterns);
  }

  // ------------------------------------------------------------------ which patterns survive

  /** Folded needles are equal exactly when the folded texts are. */
  lemma SameNeedle(p: Text, q: Text)
    ensures Needle(p) == Needle(q) <==> FoldText(p) == FoldText(q)
  {
    FoldEncode(p);
    FoldEncode(q);
    if Needle(p) == Needle(q) {
      PrefixCode(FoldText(p), FoldText(q));
      PrefixCode(FoldText(q), FoldText(p));
    }
  }

  /** Below the cap: what is kept, and that nothing kept shares a needle with anything else kept. */
  lemma {:induction false} KeepExact(kept: seq<Text>, patterns: seq<Text>)
    requires |kept| + |patterns| <= MAX_PATTERNS
    requires forall i, j :: 0 <= i < j < |kept| ==> Needle(kept[i]) != Needle(kept[j])
    ensures var r := Keep(kept, EncodeAll(patterns));
      && (forall p :: p in r ==> p in kept || (p in patterns && !IsBlank(p)))
      && (forall p :: p in kept ==> p in r)
      && (forall p :: p in patterns && !IsBlank(p) ==> exists q :: q in r && Needle(q) == Needle(p))
      && (forall i, j :: 0 <= i < j < |r| ==> Needle(r[i]) != Needle(r[j]))
    decreases |patterns|
  {
    if patterns != [] && |kept| < MAX_PATTERNS {
      var p := patterns[0];
      var lines := EncodeAll(patterns);
      DecodeEncode(p);
      assert lines[1..] == EncodeAll(patterns[1..]);
      var k := if Accepts(kept, p) then kept + [p] else kept;
      KeepExact(k, patterns[1..]);
      var r := Keep(kept, lines);
      assert r == Keep(k, lines[1..]);
      if !IsBlank(p) {
        var q :| q in k && Needle(q) == Needle(p);
        assert q in r;
      }
      forall x | x in patterns && !IsBlank(x) ensures exists q :: q in r && Needle(q) == Needle(x) {
        assert x == p || x in patterns[1..];
      }
    }
  }

  lemma KeepsAllDistinguishable(patterns: seq<Text>, p: Text)
    requires |patterns| <= MAX_PATTERNS && Distinguishable(patterns)
    ensures p in Keep([], EncodeAll(patterns)) <==> p in patterns && p != []
  {
    KeepExact([], patterns);
    var r := Keep([], EncodeAll(patterns));
    if p in patterns && p != [] {
      var q :| q in r && Needle(q) == Needle(p);
      SameNeedle(q, p);
    }
  }

  // ------------------------------------------------------------------ the two backends

  /** One signature: the byte-level and the character-level reports coincide. */
  lemma SamePositions(p: Text, text: Text, o: nat)
    requires p != []
    ensures OccursAt(Needle(p), Fold(Encode(text)), o) <==>
      exists i :: 0 <= i <= |text| && OccursAt(FoldText(p), FoldText(text), i) && ByteOffset(text, i) == o
  {
    FoldEncode(p);
    FoldEncode(text);
    SelfSynchronising(FoldText(p), FoldText(text), o);
    if i :| 0 <= i <= |FoldText(text)| && ByteOffset(FoldText(text), i) == o && OccursAt(FoldText(p), FoldText(text), i) {
      FoldKeepsOffset(text, i);
    }
    if i :| 0 <= i <= |text| && ByteOffset(text, i) == o && OccursAt(FoldText(p), FoldText(text), i) {
      FoldKeepsOffset(text, i);
    }
  }

  /** On distinguishable patterns the two backends report the same matches in every text. */
  lemma BackendsAgree(patterns: seq<Text>, text: Text)
    requires PatternsWithinCaps(patterns) && TextWithinCaps(text) && Distinguishable(patterns)
    ensures Agree(patterns, text)
  {
    forall m ensures RustReports(patterns, text, m) <==> PythonReports(patterns, text, m) {
      if m.signature != [] {
        SamePositions(m.signature, text, m.position);
      }
      if text != [] && patterns != [] {
        Transport(patterns, text, m);
        KeepsAllDistinguishable(patterns, m.signature);
      }
    }
  }

  lemma {:induction false} PatternFits(patterns: seq<Text>, p: Text)
    requires p in patterns
    ensures |Encode(p)| <= |Encode(JoinLines(patterns))|
  {
    if |patterns| > 1 {
      EncodeConcat(patterns[0] + [NEWLINE], JoinLines(patterns[1..]));
      EncodeConcat(patterns[0], [NEWLINE]);
      if p != patterns[0] {
        PatternFits(patterns[1..], p);
      }
    }
  }

  /** A pattern found in a text that folds to it is reported by the fallback at offset 0. */
  lemma PythonReportsItself(patterns: seq<Text>, p: Text, text: Text)
    requires p in patterns && p != [] && FoldText(p) == FoldText(text)
    ensures PythonReports(patterns, text, Match(p, 0))
  {
    assert FoldText(text)[0..|p|] == FoldText(p);
    assert OccursAt(FoldText(p), FoldText(text), 0);
    assert ByteOffset(text, 0) == 0;
  }

  /** A blank pattern is found by the fallback and never kept by the core. */
  lemma BlankSeparates(patterns: seq<Text>, p: Text)
    requires PatternsWithinCaps(patterns) && p in patterns && IsBlank(p) && p != []
    ensures TextWithinCaps(p) && !Agree(patterns, p)
  {
    KeepExact([], patterns);
    PatternFits(patterns, p);
    PythonReportsItself(patterns, p, p);
    Transport(patterns, p, Match(p, 0));
  }

  /** Of two patterns that fold together the core keeps at most one. */
  lemma TwinsNotBothKept(patterns: seq<Text>, p: Text, q: Text)
    requires |patterns| <= MAX_PATTERNS && FoldText(p) == FoldText(q) && p != q
    ensures p !in Keep([], EncodeAll(patterns)) || q !in Keep([], EncodeAll(patterns))
  {
    KeepExact([], patterns);
    SameNeedle(p, q);
  }

  lemma TwinsSeparate(patterns: seq<Text>, p: Text, q: Text)
    requires PatternsWithinCaps(patterns) && p in patterns && q in patterns && FoldText(p) == FoldText(q) && p != q
    ensures TextWithinCaps(p) && !Agree(patterns, p)
  {
    assert |FoldText(p)| == |p| && |FoldText(q)| == |q|;
    PatternFits(patterns, p);
    PythonReportsItself(patterns, p, p);
    PythonReportsItself(patterns, q, p);
    Transport(patterns, p, Match(p, 0));
    Transport(patterns, p, Match(q, 0));
    TwinsNotBothKept(patterns, p, q);
  }

  /** Otherwise some text separates them: one of the offending patterns itself. */
  lemma BackendsDisagree(patterns: seq<Text>) returns (text: Text)
    requires PatternsWithinCaps(patterns) && !Distinguishable(patterns)
    ensures TextWithinCaps(text) && !Agree(patterns, text)
  {
    if p :| p in patterns && IsBlank(p) && p != [] {
      text := p;
      BlankSeparates(patterns, p);
    } else {
      var p, q :| p in patterns && q in patterns && FoldText(p) == FoldText(q) && p != q;
      text := p;
      TwinsSeparate(patterns, p, q);
    }
  }

  /** The backends agree on every text exactly when the patterns are distinguishable. */
  lemma AgreementExact(patterns: seq<Text>)
    requires PatternsWithinCaps(patterns)
    ensures (forall text :: TextWithinCaps(text) ==> Agree(patterns, text)) <==> Distinguishable(patterns)
  {
    if Distinguishable(patterns) {
      forall text | TextWithinCaps(text) ensures Agree(patterns, text) {
        BackendsAgree(patterns, text);
      }
    } else {
      var text := BackendsDisagree(patterns);
    }
  }

  // ------------------------------------------------------------------ the normalised answer

  predicate TextBefore(a: Text, b: Text) {
    if b == [] then false
    else if a == [] then true
    else a[0] < b[0] || (a[0] == b[0] && TextBefore(a[1..], b[1..]))
  }

  ghost predicate DiffersAt(a: Text, b: Text, d: nat) {
    d < |a| && d < |b| && a[..d] == b[..d] && a[d] < b[d]
  }

  /** That is the order of code points: a proper prefix, or smaller at the first difference. */
  lemma {:induction false} TextOrder(a: Text, b: Text)
    ensures TextBefore(a, b) <==> (a <= b && a != b) || exists d: nat :: DiffersAt(a, b, d)
    decreases |a|
  {
    if a != [] && b != [] {
      var x, y := a[1..], b[1..];
      assert a == [a[0]] + x && b == [b[0]] + y;
      forall d: nat | DiffersAt(a, b, d) ensures if d == 0 then a[0] < b[0] else a[0] == b[0] {
        assert d > 0 ==> a[..d][0] == b[..d][0];
      }
      if a[0] < b[0] {
        assert DiffersAt(a, b, 0);
      } else if a[0] == b[0] {
        TextOrder(x, y);
        if d: nat :| DiffersAt(x, y, d) {
          assert a[..d + 1] == [a[0]] + x[..d] && b[..d + 1] == [b[0]] + y[..d];
          assert DiffersAt(a, b, d + 1);
        }
        if d: nat :| DiffersAt(a, b, d) {
          assert d > 0 && x[..d - 1] == a[..d][1..] && y[..d - 1] == b[..d][1..];
          assert DiffersAt(x, y, d - 1);
        }
      }
    }
  }

  predicate Before(a: Match, b: Match) {
    a.position < b.position || (a.position == b.position && TextBefore(a.signature, b.signature))
  }

  lemma {:induction false} TextTotal(a: Text, b: Text)
    ensures a == b || TextBefore(a, b) || TextBefore(b, a)
    ensures !(TextBefore(a, b) && TextBefore(b, a)) && (a == b ==> !TextBefore(a, b))
  {
    if a != [] && b != [] {
      TextTotal(a[1..], b[1..]);
      assert a == [a[0]] + a[1..] && b == [b[0]] + b[1..];
    }
  }

  lemma {:induction false} TextTrans(a: Text, b: Text, c: Text)
    requires TextBefore(a, b) && TextBefore(b, c)
    ensures TextBefore(a, c)
  {
    if a != [] && a[0] == b[0] && b[0] == c[0] {
      TextTrans(a[1..], b[1..], c[1..]);
    }
  }

  ghost predicate Ordered(s: seq<Match>) {
    forall i, j :: 0 <= i < j < |s| ==> Before(s[i], s[j])
  }

  /** `sorted(set(hits), key=...)`: one hit per (pattern, position), in a fixed order. */
  function Normalise(hits: seq<Match>): (r: seq<Match>)
    ensures Ordered(r)
    ensures forall m :: m in r <==> m in hits
  {
    if hits == [] then []
    else
      assert forall m :: m in hits <==> m == hits[0] || m in hits[1..];
      Place(Normalise(hits[1..]), hits[0])
  }

  function Place(s: seq<Match>, x: Match): (r: seq<Match>)
    requires Ordered(s)
    ensures Ordered(r)
    ensures forall m :: m in r <==> m in s || m == x
  {
    if s == [] then [x]
    else if x == s[0] then s
    else if Before(x, s[0]) then
      PlaceFirst(s, x);
      [x] + s
    else
      var t := Place(s[1..], x);
      assert forall m :: m in s <==> m == s[0] || m in s[1..];
      PlaceLater(s, x, t);
      [s[0]] + t
  }

  lemma PlaceFirst(s: seq<Match>, x: Match)
    requires Ordered(s) && s != [] && Before(x, s[0])
    ensures Ordered([x] + s)
  {
    forall j | 0 <= j < |s| ensures Before(x, s[j]) {
      if 0 < j && x.position == s[0].position == s[j].position {
        TextTrans(x.signature, s[0].signature, s[j].signature);
      }
    }
  }

  lemma PlaceLater(s: seq<Match>, x: Match, t: seq<Match>)
    requires Ordered(s) && s != [] && x != s[0] && !Before(x, s[0])
    requires Ordered(t) && forall m :: m in t <==> m in s[1..] || m == x
    ensures Ordered([s[0]] + t)
  {
    TextTotal(x.signature, s[0].signature);
    forall j | 0 <= j < |t| ensures Before(s[0], t[j]) {
      assert t[j] in t;
      if t[j] != x {
        var k :| 0 <= k < |s[1..]| && s[1..][k] == t[j];
        assert t[j] == s[k + 1];
      }
    }
  }

  lemma {:induction false} OrderedUnique(a: seq<Match>, b: seq<Match>)
    requires Ordered(a) && Ordered(b) && forall m :: m in a <==> m in b
    ensures a == b
  {
    assert b != [] ==> b[0] in b;
    if a != [] {
      assert a[0] in b;
      assert b[0] in a;
      var i :| 0 <= i < |b| && b[i] == a[0];
      var j :| 0 <= j < |a| && a[j] == b[0];
      TextTotal(a[0].signature, b[0].signature);
      assert a[0] == b[0];
      forall m ensures m in a[1..] <==> m in b[1..] {
        RestOf(a, m);
        RestOf(b, m);
      }
      OrderedUnique(a[1..], b[1..]);
      assert a == [a[0]] + a[1..] && b == [b[0]] + b[1..];
    }
  }

  lemma RestOf(s: seq<Match>, m: Match)
    requires Ordered(s) && s != []
    ensures m in s[1..] <==> m in s && m != s[0]
  {
    TextTotal(s[0].signature, s[0].signature);
  }

  /** Agreeing backends give the identical normalised answer. */
  lemma SameAnswer(patterns: seq<Text>, text: Text, rust: seq<Match>, python: seq<Match>)
    requires PatternsWithinCaps(patterns) && TextWithinCaps(text) && Distinguishable(patterns)
    requires forall m :: m in rust <==> RustReports(patterns, text, m)
    requires forall m :: m in python <==> PythonReports(patterns, text, m)
    ensures Normalise(rust) == Normalise(python)
  {
    BackendsAgree(patterns, text);
    OrderedUnique(Normalise(rust), Normalise(python));
  }
}
