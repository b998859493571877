/** The port argument: how the Python side prints a port list and how the Go core parses it. */
module Ports {
  import opened Options
  import opened Sequences
  import opened Utf8
  import opened Decimals

  const COMMA: scalar := 44
  const HYPHEN: scalar := 45
  const COMMON_PORTS: seq<int> := [21, 22, 23, 25, 53, 80, 110, 443, 445, 3306, 3389, 5432, 8080]
  const MAX_PORT: int := 65535

  predicate ValidPort(p: int) {
    1 <= p <= MAX_PORT
  }

  ghost predicate Different(s: seq<int>, i: nat, j: nat)
    requires i < j < |s|
  {
    s[i] != s[j]
  }

  /** Every port can be dialled, and none is listed twice. */
  ghost predicate Sound(ports: seq<int>) {
    && (forall p :: p in ports ==> ValidPort(p))
    && forall i: nat, j: nat :: i < j < |ports| ==> Different(ports, i, j)
  }

  // ------------------------------------------------------------------ text

  function TrimLeft(t: Text): Text {
    if t != [] && IsWhitespace(t[0]) then TrimLeft(t[1..]) else t
  }

  function TrimRight(t: Text): Text {
    if t != [] && IsWhitespace(t[|t| - 1]) then TrimRight(t[..|t| - 1]) else t
  }

  function Trim(t: Text): Text {
    TrimRight(TrimLeft(t))
  }

  /** `strings.Split` on one character: always at least one piece. */
  function Split(t: Text, at: scalar): (r: seq<Text>)
    ensures r != []
  {
    if t == [] then [[]]
    else
      var rest := Split(t[1..], at);
      if t[0] == at then [[]] + rest else [[t[0]] + rest[0]] + rest[1..]
  }

  /** `strconv.Atoi`: an optional sign and digits, within 64 bits. */
  function Atoi(t: Text): Option<int> {
    var signed := t != [] && (t[0] == 43 || t[0] == 45);
    var digits := if signed then t[1..] else t;
    if digits == [] || !AllDigits(digits) then None
    else
      var size: int := Value(digits);
      var v := if signed && t[0] == 45 then -size else size;
      if -0x8000_0000_0000_0000 <= v <= 0x7FFF_FFFF_FFFF_FFFF then Some(v) else None
  }

  function LowerAscii(t: Text): Text {
    FoldText(t)
  }

  const WORD_COMMON: Text := [99, 111, 109, 109, 111, 110]
  const WORD_DEFAULT: Text := [100, 101, 102, 97, 117, 108, 116]
  const WORD_ALL: Text := [97, 108, 108]
  const WORD_FULL: Text := [102, 117, 108, 108]
  const WORD_RANGE: Text := [49, 45, 54, 53, 53, 51, 53]

  // ------------------------------------------------------------------ parsing

  /** The numbers from `lo` to `hi`. */
  function Range(lo: int, hi: int): (r: seq<int>)
    requires lo <= hi + 1
    ensures |r| == hi + 1 - lo && forall i :: 0 <= i < |r| ==> r[i] == lo + i
  {
    seq(hi + 1 - lo, i requires 0 <= i < hi + 1 - lo => lo + i)
  }

  lemma RangeMembers(lo: int, hi: int)
    requires lo <= hi + 1
    ensures forall p :: p in Range(lo, hi) <==> lo <= p <= hi
  {
    var r := Range(lo, hi);
    forall p | lo <= p <= hi ensures p in r {
      assert r[p - lo] == p;
    }
  }

  /** What one token means: its ports, or nothing if it is not a port specification. */
  function Meaning(token: Text): Option<seq<int>> {
    var t := Trim(token);
    if t == [] then None
    else match Atoi(t)
      case Some(v) => if ValidPort(v) then Some([v]) else None
      case None =>
        var parts := Split(t, HYPHEN);
        if |parts| != 2 then None
        else match (Atoi(Trim(parts[0])), Atoi(Trim(parts[1])))
          case (Some(start), Some(end)) => Some(Clamped(start, end))
          case _ => None
  }

  /** The part of a range that can be dialled. */
  function Clamped(start: int, end: int): (r: seq<int>)
    ensures forall p :: p in r <==> start <= p <= end && ValidPort(p)
    ensures |r| <= MAX_PORT
  {
    var lo, hi := if start < 1 then 1 else start, if end > MAX_PORT then MAX_PORT else end;
    if lo > hi then []
    else
      RangeMembers(lo, hi);
      Range(lo, hi)
  }

  lemma ClampedSound(start: int, end: int)
    ensures Sound(Clamped(start, end))
  {
    var r := Clamped(start, end);
    forall i: nat, j: nat | i < j < |r| ensures Different(r, i, j) {
    }
  }

  method RangePorts(lo: int, hi: int) returns (ports: seq<int>)
    requires 1 <= lo <= hi <= MAX_PORT
    ensures ports == Range(lo, hi)
  {
    ports := [];
    var i := lo;
    while i <= hi
      invariant lo <= i <= hi + 1 && ports == Range(lo, i - 1)
      decreases MAX_PORT + 1 - i
    {
      ports, i := ports + [i], i + 1;
    }
  }

  /** `parsePortToken`; the second result says whether the text was a port specification at all. */
  method ParsePortToken(token: Text) returns (ports: seq<int>, recognized: bool)
    ensures recognized <==> Meaning(token).Some?
    ensures ports == if recognized then Meaning(token).value else []
  {
    var t := Trim(token);
    if |t| == 0 {
      return [], false;
    }
    var val := Atoi(t);
    if val.Some? {
      if ValidPort(val.value) {
        return [val.value], true;
      }
      return [], false;
    }
    var parts := Split(t, HYPHEN);
    if |parts| != 2 {
      return [], false;
    }
    var start, end := Atoi(Trim(parts[0])), Atoi(Trim(parts[1]));
    if start.None? || end.None? {
      return [], false;
    }
    if start.value > end.value {
      return [], true;
    }
    var lo, hi := start.value, end.value;
    if lo < 1 {
      lo := 1;
    }
    if hi > MAX_PORT {
      hi := MAX_PORT;
    }
    if lo > hi {
      return [], true;
    }
    ports := RangePorts(lo, hi);
    recognized := true;
  }

  // ------------------------------------------------------------------ removing repeats

  lemma {:induction false} FirstsDifferent(ports: seq<int>)
    ensures forall i: nat, j: nat :: i < j < |Firsts(ports)| ==> Different(Firsts(ports), i, j)
  {
    if ports != [] {
      var r, s := Firsts(ports[..|ports| - 1]), Firsts(ports);
      FirstsDifferent(ports[..|ports| - 1]);
      forall i: nat, j: nat | i < j < |s| ensures Different(s, i, j) {
        if j < |r| {
          assert Different(r, i, j);
        } else {
          assert r[i] in r;
        }
      }
    }
  }

  /** A list without repeats is left alone. */
  lemma {:induction false} FirstsSame(ports: seq<int>)
    requires forall i: nat, j: nat :: i < j < |ports| ==> Different(ports, i, j)
    ensures Firsts(ports) == ports
  {
    if ports != [] {
      var front, last := ports[..|ports| - 1], ports[|ports| - 1];
      forall i: nat, j: nat | i < j < |front| ensures Different(front, i, j) {
        assert Different(ports, i, j);
      }
      FirstsSame(front);
      forall i: nat | i < |front| ensures front[i] != last {
        assert Different(ports, i, |ports| - 1);
      }
      assert last !in front;
      assert front + [last] == ports;
    }
  }

  method DedupePorts(ports: seq<int>) returns (out: seq<int>)
    ensures out == Firsts(ports)
  {
    if |ports| < 2 {
      FirstsSame(ports);
      return ports;
    }
    var seen: set<int> := {};
    out := [];
    for i := 0 to |ports|
      invariant out == Firsts(ports[..i]) && forall p :: p in seen <==> p in out
    {
      assert ports[..i + 1][..i] == ports[..i];
      if ports[i] !in seen {
        seen, out := seen + {ports[i]}, out + [ports[i]];
      }
    }
    assert ports[..|ports|] == ports;
  }

  // ------------------------------------------------------------------ the whole argument

  function OrNone(ports: Option<seq<int>>): seq<int> {
    match ports case Some(s) => s case None => []
  }

  ghost function Flat(pieces: seq<seq<int>>): seq<int> {
    if pieces == [] then [] else Flat(pieces[..|pieces| - 1]) + pieces[|pieces| - 1]
  }

  lemma FlatNext(pieces: seq<seq<int>>, i: nat)
    requires i < |pieces|
    ensures Flat(pieces[..i + 1]) == Flat(pieces[..i]) + pieces[i]
  {
    assert pieces[..i + 1][..i] == pieces[..i];
  }

  ghost function Meanings(tokens: seq<Text>): (r: seq<seq<int>>)
    ensures |r| == |tokens| && forall i :: 0 <= i < |r| ==> r[i] == OrNone(Meaning(tokens[i]))
  {
    seq(|tokens|, i requires 0 <= i < |tokens| => OrNone(Meaning(tokens[i])))
  }

  /** The ports of all tokens together. */
  ghost function Expanded(tokens: seq<Text>): seq<int> {
    Flat(Meanings(tokens))
  }

  /** What a port argument means. */
  ghost function PortsOf(arg: Text): seq<int> {
    var t := Trim(arg);
    if t == [] || LowerAscii(t) in {WORD_COMMON, WORD_DEFAULT} then COMMON_PORTS
    else if LowerAscii(t) in {WORD_ALL, WORD_FULL, WORD_RANGE} then Range(1, MAX_PORT)
    else if COMMA in t then
      var ports := Expanded(Split(t, COMMA));
      if ports == [] then COMMON_PORTS else Firsts(ports)
    else match Meaning(t)
      case Some(ports) => ports
      case None => COMMON_PORTS
  }

  method ParseTokens(tokens: seq<Text>) returns (ports: seq<int>)
    ensures ports == Expanded(tokens)
  {
    ports := [];
    for i := 0 to |tokens|
      invariant ports == Flat(Meanings(tokens)[..i])
    {
      FlatNext(Meanings(tokens), i);
      var expanded, recognized := ParsePortToken(tokens[i]);
      ports := ports + expanded;
    }
    assert Meanings(tokens)[..|tokens|] == Meanings(tokens);
  }

  method ParsePorts(arg: Text) returns (ports: seq<int>)
    ensures ports == PortsOf(arg)
  {
    var trimmed := Trim(arg);
    if |trimmed| == 0 {
      return COMMON_PORTS;
    }
    var word := LowerAscii(trimmed);
    if word == WORD_COMMON || word == WORD_DEFAULT {
      return COMMON_PORTS;
    }
    if word == WORD_ALL || word == WORD_FULL || word == WORD_RANGE {
      ports := RangePorts(1, MAX_PORT);
      return;
    }
    if COMMA in trimmed {
      ports := ParseTokens(Split(trimmed, COMMA));
      if |ports| > 0 {
        ports := DedupePorts(ports);
        return;
      }
      return COMMON_PORTS;
    }
    var recognized;
    ports, recognized := ParsePortToken(trimmed);
    if !recognized {
      ports := COMMON_PORTS;
    }
  }

  lemma MeaningSound(token: Text)
    ensures Meaning(token).Some? ==> Sound(Meaning(token).value) && |Meaning(token).value| <= MAX_PORT
  {
    var t := Trim(token);
    if t != [] && Atoi(t).None? {
      var parts := Split(t, HYPHEN);
      if |parts| == 2 && Atoi(Trim(parts[0])).Some? && Atoi(Trim(parts[1])).Some? {
        ClampedSound(Atoi(Trim(parts[0])).value, Atoi(Trim(parts[1])).value);
      }
    }
  }

  lemma {:induction false} FlatValid(pieces: seq<seq<int>>)
    requires forall i: nat :: i < |pieces| ==> ValidPiece(pieces, i)
    ensures forall p :: p in Flat(pieces) ==> ValidPort(p)
  {
    if pieces != [] {
      var front := pieces[..|pieces| - 1];
      forall i: nat | i < |front| ensures ValidPiece(front, i) {
        assert ValidPiece(pieces, i);
      }
      FlatValid(front);
      assert ValidPiece(pieces, |pieces| - 1);
    }
  }

  ghost predicate ValidPiece(pieces: seq<seq<int>>, i: nat)
    requires i < |pieces|
  {
    forall p :: p in pieces[i] ==> ValidPort(p)
  }

  lemma ExpandedValid(tokens: seq<Text>)
    ensures forall p :: p in Expanded(tokens) ==> ValidPort(p)
  {
    forall i: nat | i < |tokens| ensures ValidPiece(Meanings(tokens), i) {
      MeaningSound(tokens[i]);
    }
    FlatValid(Meanings(tokens));
  }

  lemma CommonSound()
    ensures Sound(COMMON_PORTS)
  {
    forall i: nat, j: nat | i < j < |COMMON_PORTS| ensures Different(COMMON_PORTS, i, j) {
      CommonAscending(i, j);
    }
  }

  lemma {:induction false} CommonAscending(i: nat, j: nat)
    requires i < j < |COMMON_PORTS|
    ensures COMMON_PORTS[i] < COMMON_PORTS[j]
    decreases j - i
  {
    if i + 1 < j {
      CommonAscending(i, j - 1);
    }
  }

  /** Whatever the argument, the parsed ports can be dialled and none is repeated. */
  lemma ParsedSound(arg: Text)
    ensures Sound(PortsOf(arg))
  {
    var t := Trim(arg);
    CommonSound();
    MeaningSound(t);
    var tokens := Split(t, COMMA);
    ExpandedValid(tokens);
    FirstsDifferent(Expanded(tokens));
    var all := Range(1, MAX_PORT);
    forall i: nat, j: nat | i < j < |all| ensures Different(all, i, j) {
    }
  }

  // ------------------------------------------------------------------ printing and parsing

  /** `",".join(tokens)`. */
  function Join(tokens: seq<Text>): Text {
    if tokens == [] then []
    else if |tokens| == 1 then tokens[0]
    else tokens[0] + [COMMA] + Join(tokens[1..])
  }

  function Numerals(ports: seq<int>): (r: seq<Text>)
    requires AllValid(ports)
    ensures |r| == |ports| && forall i :: 0 <= i < |r| ==> r[i] == Decimal(ports[i])
  {
    seq(|ports|, i requires 0 <= i < |ports| => Decimal(ports[i]))
  }

  /** `",".join(str(p) for p in ports)`. */
  function Print(ports: seq<int>): Text
    requires AllValid(ports)
  {
    Join(Numerals(ports))
  }

  predicate AllValid(ports: seq<int>) {
    forall i :: 0 <= i < |ports| ==> ValidPort(ports[i])
  }

  lemma TrimSame(t: Text)
    requires t != [] && !IsWhitespace(t[0]) && !IsWhitespace(t[|t| - 1])
    ensures Trim(t) == t
  {
  }

  ghost predicate AllWhite(t: Text) {
    forall i :: 0 <= i < |t| ==> IsWhitespace(t[i])
  }

  /** White space around a text without any at its ends is taken off. */
  lemma {:induction false} TrimAround(a: Text, t: Text, b: Text)
    requires AllWhite(a) && AllWhite(b) && t != [] && !IsWhitespace(t[0]) && !IsWhitespace(t[|t| - 1])
    ensures Trim(a + t + b) == t
    decreases |a|, |b|
  {
    if a != [] {
      assert (a + t + b)[1..] == a[1..] + t + b;
      TrimAround(a[1..], t, b);
    } else {
      assert a + t + b == t + b;
      TrimRightAround(t, b);
    }
  }

  lemma {:induction false} TrimRightAround(t: Text, b: Text)
    requires AllWhite(b) && t != [] && !IsWhitespace(t[|t| - 1])
    ensures TrimRight(t + b) == t
    decreases |b|
  {
    if b == [] {
      assert t + b == t;
    } else {
      assert (t + b)[..|t + b| - 1] == t + b[..|b| - 1];
      TrimRightAround(t, b[..|b| - 1]);
    }
  }

  lemma AtoiDecimal(p: int)
    requires ValidPort(p)
    ensures Atoi(Decimal(p)) == Some(p)
  {
    var d := Decimal(p);
    ValueDecimal(p);
    assert IsDigit(d[0]);
  }

  lemma MeaningDecimal(p: int)
    requires ValidPort(p)
    ensures Meaning(Decimal(p)) == Some([p])
  {
    var d := Decimal(p);
    assert IsDigit(d[0]) && IsDigit(d[|d| - 1]);
    TrimSame(d);
    AtoiDecimal(p);
  }

  lemma {:induction false} SplitNone(t: Text, at: scalar)
    requires at !in t
    ensures Split(t, at) == [t]
  {
    if t != [] {
      assert t[0] in t;
      SplitNone(t[1..], at);
      assert [t[0]] + t[1..] == t;
    }
  }

  lemma {:induction false} SplitJoin(head: Text, rest: Text, at: scalar)
    requires at !in head
    ensures Split(head + [at] + rest, at) == [head] + Split(rest, at)
    decreases |head|
  {
    var t := head + [at] + rest;
    if head == [] {
      assert t[1..] == rest;
    } else {
      assert head[0] in head;
      assert t[1..] == head[1..] + [at] + rest;
      SplitJoin(head[1..], rest, at);
      assert [head[0]] + head[1..] == head;
    }
  }

  ghost predicate IsToken(tokens: seq<Text>, i: nat)
    requires i < |tokens|
  {
    var t := tokens[i];
    t != [] && IsDigit(t[0]) && IsDigit(t[|t| - 1]) && forall k :: 0 <= k < |t| ==> IsDigit(t[k]) || t[k] == HYPHEN
  }

  ghost predicate AllTokens(tokens: seq<Text>) {
    forall i: nat :: i < |tokens| ==> IsToken(tokens, i)
  }

  lemma TokensRest(tokens: seq<Text>)
    requires AllTokens(tokens) && tokens != []
    ensures AllTokens(tokens[1..]) && IsToken(tokens, 0) && COMMA !in tokens[0]
  {
    assert IsToken(tokens, 0);
    forall i: nat | i < |tokens| - 1 ensures IsToken(tokens[1..], i) {
      assert IsToken(tokens, i + 1);
    }
  }

  lemma NumeralsNumeral(ports: seq<int>)
    requires AllValid(ports)
    ensures AllTokens(Numerals(ports))
  {
    forall i: nat | i < |ports| ensures IsToken(Numerals(ports), i) {
    }
  }

  /** Splitting joined numerals gives them back. */
  lemma {:induction false} SplitJoined(tokens: seq<Text>)
    requires AllTokens(tokens) && tokens != []
    ensures Split(Join(tokens), COMMA) == tokens
    decreases |tokens|
  {
    TokensRest(tokens);
    if |tokens| == 1 {
      SplitNone(tokens[0], COMMA);
    } else {
      SplitJoin(tokens[0], Join(tokens[1..]), COMMA);
      SplitJoined(tokens[1..]);
      assert [tokens[0]] + tokens[1..] == tokens;
    }
  }

  ghost function Singles(ports: seq<int>): (r: seq<seq<int>>)
    ensures |r| == |ports| && forall i :: 0 <= i < |r| ==> r[i] == [ports[i]]
  {
    seq(|ports|, i requires 0 <= i < |ports| => [ports[i]])
  }

  lemma {:induction false} FlatSingles(ports: seq<int>)
    ensures Flat(Singles(ports)) == ports
    decreases |ports|
  {
    if ports != [] {
      var front, last := ports[..|ports| - 1], ports[|ports| - 1];
      FlatSingles(front);
      assert Singles(ports)[..|ports| - 1] == Singles(front);
      assert front + [last] == ports;
    }
  }

  lemma ExpandedNumerals(ports: seq<int>)
    requires AllValid(ports)
    ensures Expanded(Numerals(ports)) == ports
  {
    forall i | 0 <= i < |ports| ensures Meanings(Numerals(ports))[i] == Singles(ports)[i] {
      MeaningDecimal(ports[i]);
    }
    assert Meanings(Numerals(ports)) == Singles(ports);
    FlatSingles(ports);
  }

  /** Joined tokens begin and end with a digit. */
  lemma {:induction false} JoinShape(tokens: seq<Text>)
    requires AllTokens(tokens) && tokens != []
    ensures var t := Join(tokens);
      && t != [] && IsDigit(t[0]) && IsDigit(t[|t| - 1]) && (COMMA in t <==> |tokens| > 1)
    decreases |tokens|
  {
    TokensRest(tokens);
    var d := tokens[0];
    if |tokens| > 1 {
      JoinShape(tokens[1..]);
      assert Join(tokens) == d + [COMMA] + Join(tokens[1..]);
    }
  }

  lemma NotAWord(t: Text)
    requires t != [] && IsDigit(t[0])
    ensures LowerAscii(t) !in {WORD_COMMON, WORD_DEFAULT, WORD_ALL, WORD_FULL}
  {
    assert LowerAscii(t)[0] == t[0];
  }

  /** The one word that looks like a range is one. */
  lemma WordIsRange(t: Text)
    requires LowerAscii(t) == WORD_RANGE
    ensures t == WORD_RANGE && COMMA !in t && HYPHEN in t
  {
    forall i | 0 <= i < |t| ensures t[i] == WORD_RANGE[i] {
      assert LowerAscii(t)[i] == WORD_RANGE[i];
    }
    assert t[1] == HYPHEN;
  }

  /** Printing a list of valid ports and parsing it gives the list with later repeats removed. */
  lemma PrintParse(ports: seq<int>)
    requires AllValid(ports) && ports != []
    ensures PortsOf(Print(ports)) == Firsts(ports)
  {
    var t := Print(ports);
    NumeralsNumeral(ports);
    JoinShape(Numerals(ports));
    TrimSame(t);
    NotAWord(t);
    assert |ports| == 1 ==> t == Decimal(ports[0]) && HYPHEN !in t;
    if LowerAscii(t) == WORD_RANGE {
      WordIsRange(t);
      assert false;
    }
    if |ports| > 1 {
      SplitJoined(Numerals(ports));
      ExpandedNumerals(ports);
    } else {
      MeaningDecimal(ports[0]);
      FirstsSame(ports);
    }
  }

  /** A number no port can have is no specification, and falls back to the default sweep. */
  lemma BadNumber(n: nat)
    requires !ValidPort(n) && n <= ATOI_LIMIT
    ensures Meaning(Decimal(n)) == None && PortsOf(Decimal(n)) == COMMON_PORTS
  {
    var d := Decimal(n);
    AtoiNumeral(n);
    NotAWord(d);
    assert HYPHEN !in d && COMMA !in d;
    if LowerAscii(d) == WORD_RANGE {
      WordIsRange(d);
      assert false;
    }
  }

  /** So does any other text that is neither a list nor a specification. */
  lemma Unreadable(t: Text)
    requires Trim(t) == t && COMMA !in t && Meaning(t) == None && LowerAscii(t) !in {WORD_ALL, WORD_FULL, WORD_RANGE}
    ensures PortsOf(t) == COMMON_PORTS
  {
  }

  /** Nothing and the preset words, in any case of their letters. */
  lemma Presets(t: Text)
    ensures PortsOf([]) == COMMON_PORTS
    ensures LowerAscii(t) in {WORD_COMMON, WORD_DEFAULT} ==> PortsOf(t) == COMMON_PORTS
    ensures LowerAscii(t) in {WORD_ALL, WORD_FULL} ==> PortsOf(t) == Range(1, MAX_PORT)
  {
    var w := LowerAscii(t);
    if w in {WORD_COMMON, WORD_DEFAULT, WORD_ALL, WORD_FULL} {
      assert w[0] == FoldChar(t[0]) && w[|w| - 1] == FoldChar(t[|t| - 1]);
      assert !IsWhitespace(t[0]) && !IsWhitespace(t[|t| - 1]);
      TrimSame(t);
    }
  }

  // ------------------------------------------------------------------ ranges

  const ATOI_LIMIT: int := 0x7FFF_FFFF_FFFF_FFFF

  /** A single port, or a range. */
  datatype Spec = One(port: int) | Span(lo: nat, hi: nat)

  predicate SpecOk(s: Spec) {
    match s
    case One(p) => ValidPort(p)
    case Span(lo, hi) => lo <= ATOI_LIMIT && hi <= ATOI_LIMIT
  }

  /** How a specification is written. */
  function TokenOf(s: Spec): Text
    requires SpecOk(s)
  {
    match s
    case One(p) => Decimal(p)
    case Span(lo, hi) => Decimal(lo) + [HYPHEN] + Decimal(hi)
  }

  /** `ports` are the valid ports the specification names, ascending. */
  ghost predicate Names(s: Spec, ports: seq<int>) {
    && (forall p :: p in ports <==> ValidPort(p) && (match s case One(q) => p == q case Span(lo, hi) => lo <= p <= hi))
    && forall i, j :: 0 <= i < j < |ports| ==> ports[i] < ports[j]
  }

  lemma AtoiNumeral(n: nat)
    requires n <= ATOI_LIMIT
    ensures Atoi(Decimal(n)) == Some(n) && Trim(Decimal(n)) == Decimal(n)
  {
    var d := Decimal(n);
    ValueDecimal(n);
    assert IsDigit(d[0]) && IsDigit(d[|d| - 1]);
    TrimSame(d);
  }

  /** A sign in front of a numeral is read as one. */
  lemma AtoiSigned(n: int)
    requires 0 <= n <= ATOI_LIMIT
    ensures Atoi([43] + Decimal(n)) == Some(n) && Atoi([HYPHEN] + Decimal(n)) == Some(-n)
  {
    ValueDecimal(n);
    assert ([43] + Decimal(n))[1..] == Decimal(n) && ([HYPHEN] + Decimal(n))[1..] == Decimal(n);
  }

  lemma AtoiRange(a: Text, b: Text)
    requires a != [] && AllDigits(a)
    ensures Atoi(a + [HYPHEN] + b) == None
  {
    var t := a + [HYPHEN] + b;
    assert t[0] == a[0] && IsDigit(t[0]);
    assert t[|a|] == HYPHEN;
  }

  /** Every specification, printed, means the valid ports it names: none for a reversed range. */
  lemma MeaningSpec(s: Spec)
    requires SpecOk(s)
    ensures Meaning(TokenOf(s)).Some? && Names(s, Meaning(TokenOf(s)).value)
  {
    match s
    case One(p) =>
      MeaningDecimal(p);
    case Span(lo, hi) =>
      MeaningSpan(lo, hi);
  }

  lemma MeaningSpan(lo: nat, hi: nat)
    requires SpecOk(Span(lo, hi))
    ensures Meaning(TokenOf(Span(lo, hi))) == Some(Clamped(lo, hi))
  {
    RangeText(Decimal(lo), Decimal(hi));
    AtoiNumeral(lo);
    AtoiNumeral(hi);
    MeaningRange(TokenOf(Span(lo, hi)), Decimal(lo), Decimal(hi), lo, hi);
  }

  /** Two numerals and a hyphen are read as a range. */
  lemma RangeText(a: Text, b: Text)
    requires a != [] && b != [] && AllDigits(a) && AllDigits(b)
    ensures var t := a + [HYPHEN] + b;
      t != [] && Trim(t) == t && Atoi(t) == None && Split(t, HYPHEN) == [a, b]
  {
    var t := a + [HYPHEN] + b;
    assert IsDigit(a[0]) && IsDigit(b[|b| - 1]) && t[0] == a[0] && t[|t| - 1] == b[|b| - 1];
    TrimSame(t);
    AtoiRange(a, b);
    SplitJoin(a, b, HYPHEN);
    SplitNone(b, HYPHEN);
  }

  lemma MeaningRange(t: Text, a: Text, b: Text, lo: int, hi: int)
    requires t != [] && Trim(t) == t && Atoi(t) == None && Split(t, HYPHEN) == [a, b]
    requires Trim(a) == a && Atoi(a) == Some(lo) && Trim(b) == b && Atoi(b) == Some(hi)
    ensures Meaning(t) == Some(Clamped(lo, hi))
  {
  }

  function TokensOf(specs: seq<Spec>): (r: seq<Text>)
    requires forall i :: 0 <= i < |specs| ==> SpecOk(specs[i])
    ensures |r| == |specs| && forall i :: 0 <= i < |r| ==> r[i] == TokenOf(specs[i])
  {
    seq(|specs|, i requires 0 <= i < |specs| => TokenOf(specs[i]))
  }

  lemma TokensAreTokens(specs: seq<Spec>)
    requires forall i :: 0 <= i < |specs| ==> SpecOk(specs[i])
    ensures AllTokens(TokensOf(specs))
  {
    forall i: nat | i < |specs| ensures IsToken(TokensOf(specs), i) {
      TokenShape(specs[i]);
    }
  }

  lemma TokenShape(s: Spec)
    requires SpecOk(s)
    ensures var t := TokenOf(s);
      t != [] && IsDigit(t[0]) && IsDigit(t[|t| - 1]) && forall k :: 0 <= k < |t| ==> IsDigit(t[k]) || t[k] == HYPHEN
  {
    if s.Span? {
      var a, b, t := Decimal(s.lo), Decimal(s.hi), TokenOf(s);
      assert t[0] == a[0] && t[|t| - 1] == b[|b| - 1];
      forall k | 0 <= k < |t| ensures IsDigit(t[k]) || t[k] == HYPHEN {
        assert t[k] == if k < |a| then a[k] else if k == |a| then HYPHEN else b[k - |a| - 1];
      }
    }
  }

  ghost predicate PieceNamed(specs: seq<Spec>, pieces: seq<seq<int>>, i: nat)
    requires i < |specs| == |pieces|
  {
    Names(specs[i], pieces[i])
  }

  /**
   * Any comma-separated list of ports and ranges parses to the ports its parts name, each at its first place;
   * the default sweep if a list of several names none.
   */
  lemma SpecsParse(specs: seq<Spec>) returns (pieces: seq<seq<int>>)
    requires specs != [] && forall i :: 0 <= i < |specs| ==> SpecOk(specs[i])
    ensures |pieces| == |specs| && forall i: nat :: i < |specs| ==> PieceNamed(specs, pieces, i)
    ensures PortsOf(Join(TokensOf(specs))) ==
            if |specs| == 1 then pieces[0] else if Flat(pieces) == [] then COMMON_PORTS else Firsts(Flat(pieces))
  {
    var tokens, t := TokensOf(specs), Join(TokensOf(specs));
    pieces := Meanings(tokens);
    forall i: nat | i < |specs| ensures PieceNamed(specs, pieces, i) {
      MeaningSpec(specs[i]);
    }
    TokensAreTokens(specs);
    JoinShape(tokens);
    TrimSame(t);
    NotAWord(t);
    if |specs| > 1 {
      SplitJoined(tokens);
      ReadList(t, tokens);
    } else {
      MeaningSpec(specs[0]);
      ReadOne(t);
    }
  }

  lemma ReadList(t: Text, tokens: seq<Text>)
    requires t != [] && Trim(t) == t && COMMA in t && Split(t, COMMA) == tokens
    requires LowerAscii(t) !in {WORD_COMMON, WORD_DEFAULT, WORD_ALL, WORD_FULL}
    ensures PortsOf(t) == if Flat(Meanings(tokens)) == [] then COMMON_PORTS else Firsts(Flat(Meanings(tokens)))
  {
    if LowerAscii(t) == WORD_RANGE {
      WordIsRange(t);
      assert false;
    }
  }

  lemma ReadOne(t: Text)
    requires t != [] && Trim(t) == t && COMMA !in t && Meaning(t).Some?
    requires LowerAscii(t) !in {WORD_COMMON, WORD_DEFAULT, WORD_ALL, WORD_FULL}
    ensures PortsOf(t) == Meaning(t).value
  {
    if LowerAscii(t) == WORD_RANGE {
      WordIsRange(t);
      WholeRange(Meaning(t).value);
    }
  }

  /** The word for all ports means what it says as a range. */
  lemma WholeRange(ports: seq<int>)
    requires ports == OrNone(Meaning(WORD_RANGE))
    ensures ports == Range(1, MAX_PORT)
  {
    LastPort();
    assert TokenOf(Span(1, MAX_PORT)) == WORD_RANGE;
    MeaningSpan(1, MAX_PORT);
  }

  lemma LastPort()
    ensures Decimal(1) == [49] && Decimal(MAX_PORT) == [54, 53, 53, 51, 53]
  {
    assert Decimal(6) == [54];
    assert Decimal(65) == Decimal(6) + [53] == [54, 53];
    assert Decimal(655) == Decimal(65) + [53] == [54, 53, 53];
    assert Decimal(6553) == Decimal(655) + [51] == [54, 53, 53, 51];
    assert Decimal(65535) == Decimal(6553) + [53];
  }
}
