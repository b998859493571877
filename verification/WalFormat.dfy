/** The v3 log file: sealed records in length-prefixed frames, and what replay reads back. */
module WalFormat {
  import opened Options
  import opened Bytes
  import opened Bits

  datatype Record = Record(lsn: int, op: string, data: string)

  /** A record together with the nonce it was sealed under. */
  datatype Sealed = Sealed(nonce: seq<byte>, record: Record)

  /**
   * The cryptography and the JSON codec, left abstract: the keystream and the MAC for a file's salt
   * (the keys derived from it are fixed), and the encoding of a record.
   */
  datatype Suite = Suite(
    stream: (seq<byte>, seq<byte>, nat) -> seq<byte>,
    mac: (seq<byte>, seq<byte>) -> seq<byte>,
    encode: Record -> seq<byte>,
    decode: seq<byte> -> Option<Record>)

  ghost predicate Lawful(c: Suite) {
    && (forall salt, nonce, n: nat :: |c.stream(salt, nonce, n)| == n)
    && (forall salt, m :: |c.mac(salt, m)| == 32)
    && (forall r :: c.encode(r) != [] && c.decode(c.encode(r)) == Some(r))
  }

  const MAGIC: seq<byte> := [72, 87, 76, 51]
  const HEADER_LEN: nat := 20
  const OVERHEAD: nat := 48
  const MAX_RECORD_BYTES: nat := 64 * 1024 * 1024
  const LENGTH_LIMIT: nat := 0x1_0000_0000

  // ------------------------------------------------------------------ exclusive or

  /** `b ^ k` on bytes. */
  function XorByte(a: byte, b: byte): (r: byte)
    ensures Xor(r, b) == a
  {
    Pow2Words();
    XorBound(a, b, 8);
    XorBack(a, b);
    Xor(a, b)
  }

  function XorAll(s: seq<byte>, stream: seq<byte>): (r: seq<byte>)
    requires |s| == |stream|
    ensures |r| == |s|
  {
    seq(|s|, i requires 0 <= i < |s| => XorByte(s[i], stream[i]))
  }

  lemma XorAllBack(s: seq<byte>, stream: seq<byte>)
    requires |s| == |stream|
    ensures XorAll(XorAll(s, stream), stream) == s
  {
    var x := XorAll(s, stream);
    forall i | 0 <= i < |s| ensures XorAll(x, stream)[i] == s[i] {
      assert x[i] == XorByte(s[i], stream[i]);
    }
  }

  // ------------------------------------------------------------------ sealing one record

  /** `_encrypt`: nonce, MAC and ciphertext. */
  function Seal(c: Suite, salt: seq<byte>, nonce: seq<byte>, plain: seq<byte>): (r: seq<byte>)
    requires Lawful(c) && |nonce| == 16
    ensures |r| == OVERHEAD + |plain|
  {
    var text := XorAll(plain, c.stream(salt, nonce, |plain|));
    nonce + c.mac(salt, MAGIC + nonce + text) + text
  }

  /** `_decrypt_v3`: nothing unless the MAC is right. */
  function Unseal(c: Suite, salt: seq<byte>, payload: seq<byte>): Option<seq<byte>>
    requires Lawful(c)
  {
    if |payload| < OVERHEAD then None
    else
      var nonce, text := payload[..16], payload[48..];
      if payload[16..48] != c.mac(salt, MAGIC + nonce + text) then None
      else Some(XorAll(text, c.stream(salt, nonce, |text|)))
  }

  lemma SealUnseal(c: Suite, salt: seq<byte>, nonce: seq<byte>, plain: seq<byte>)
    requires Lawful(c) && |nonce| == 16
    ensures Unseal(c, salt, Seal(c, salt, nonce, plain)) == Some(plain)
  {
    var stream := c.stream(salt, nonce, |plain|);
    var text := XorAll(plain, stream);
    var sig := c.mac(salt, MAGIC + nonce + text);
    var payload := nonce + sig + text;
    assert payload[..16] == nonce && payload[16..48] == sig && payload[48..] == text;
    XorAllBack(plain, stream);
  }

  // ------------------------------------------------------------------ frames

  /** `struct.pack("!I", n)`. */
  function Be32(n: nat): (r: seq<byte>)
    ensures |r| == 4
  {
    [n / 0x100_0000 % 256, n / 0x1_0000 % 256, n / 0x100 % 256, n % 256]
  }

  function FromBe32(b: seq<byte>): nat
    requires |b| == 4
  {
    0x100_0000 * (b[0] as int) + 0x1_0000 * (b[1] as int) + 0x100 * (b[2] as int) + b[3] as int
  }

  lemma Be32Back(n: nat)
    requires n < LENGTH_LIMIT
    ensures FromBe32(Be32(n)) == n
  {
    assert n / 0x100_0000 < 256;
    assert n / 0x100 == 256 * (n / 0x1_0000) + n / 0x100 % 256;
    assert n / 0x1_0000 == 256 * (n / 0x100_0000) + n / 0x1_0000 % 256;
  }

  function Size(c: Suite, r: Record): nat {
    OVERHEAD + |c.encode(r)|
  }

  /** The frame's length can be written down. */
  predicate Packable(c: Suite, x: Sealed) {
    |x.nonce| == 16 && Size(c, x.record) < LENGTH_LIMIT
  }

  ghost predicate AllPackable(c: Suite, xs: seq<Sealed>) {
    forall i: nat :: i < |xs| ==> PackableAt(c, xs, i)
  }

  ghost predicate PackableAt(c: Suite, xs: seq<Sealed>, i: nat)
    requires i < |xs|
  {
    Packable(c, xs[i])
  }

  lemma AllPackableRest(c: Suite, xs: seq<Sealed>)
    requires AllPackable(c, xs) && xs != []
    ensures Packable(c, xs[0]) && AllPackable(c, xs[1..])
  {
    assert PackableAt(c, xs, 0);
    forall i: nat | i < |xs| - 1 ensures PackableAt(c, xs[1..], i) {
      assert PackableAt(c, xs, i + 1);
    }
  }

  lemma AllPackableConcat(c: Suite, xs: seq<Sealed>, ys: seq<Sealed>)
    requires AllPackable(c, xs) && AllPackable(c, ys)
    ensures AllPackable(c, xs + ys)
  {
    forall i: nat | i < |xs + ys| ensures PackableAt(c, xs + ys, i) {
      assert if i < |xs| then PackableAt(c, xs, i) else PackableAt(c, ys, i - |xs|);
    }
  }

  lemma AllPackableDrop(c: Suite, xs: seq<Sealed>, n: nat)
    requires AllPackable(c, xs) && n <= |xs|
    ensures AllPackable(c, xs[n..])
  {
    forall i: nat | i < |xs| - n ensures PackableAt(c, xs[n..], i) {
      assert PackableAt(c, xs, n + i);
    }
  }

  lemma AllPackableTake(c: Suite, xs: seq<Sealed>, n: nat)
    requires AllPackable(c, xs) && n <= |xs|
    ensures AllPackable(c, xs[..n])
  {
    forall i: nat | i < n ensures PackableAt(c, xs[..n], i) {
      assert PackableAt(c, xs, i);
    }
  }

  /** Replay will read the frame. */
  predicate Fits(c: Suite, r: Record) {
    Size(c, r) <= MAX_RECORD_BYTES
  }

  function Frame(c: Suite, salt: seq<byte>, x: Sealed): (r: seq<byte>)
    requires Lawful(c) && Packable(c, x)
    ensures |r| == 4 + Size(c, x.record)
  {
    Be32(Size(c, x.record)) + Seal(c, salt, x.nonce, c.encode(x.record))
  }

  ghost function Frames(c: Suite, salt: seq<byte>, xs: seq<Sealed>): seq<byte>
    requires Lawful(c) && AllPackable(c, xs)
  {
    if xs == [] then []
    else
      AllPackableRest(c, xs);
      Frame(c, salt, xs[0]) + Frames(c, salt, xs[1..])
  }

  lemma FramesStep(c: Suite, salt: seq<byte>, xs: seq<Sealed>)
    requires Lawful(c) && AllPackable(c, xs) && xs != []
    ensures Packable(c, xs[0]) && AllPackable(c, xs[1..])
    ensures Frames(c, salt, xs) == Frame(c, salt, xs[0]) + Frames(c, salt, xs[1..])
  {
    AllPackableRest(c, xs);
  }

  lemma {:induction false} FramesConcat(c: Suite, salt: seq<byte>, xs: seq<Sealed>, ys: seq<Sealed>)
    requires Lawful(c) && AllPackable(c, xs) && AllPackable(c, ys)
    ensures AllPackable(c, xs + ys) && Frames(c, salt, xs + ys) == Frames(c, salt, xs) + Frames(c, salt, ys)
    decreases |xs|
  {
    AllPackableConcat(c, xs, ys);
    if xs == [] {
      assert xs + ys == ys;
    } else {
      FramesStep(c, salt, xs);
      FramesStep(c, salt, xs + ys);
      assert (xs + ys)[1..] == xs[1..] + ys;
      FramesConcat(c, salt, xs[1..], ys);
      Assoc(Frame(c, salt, xs[0]), Frames(c, salt, xs[1..]), Frames(c, salt, ys));
    }
  }

  lemma Assoc<T>(a: seq<T>, b: seq<T>, c: seq<T>)
    ensures a + (b + c) == (a + b) + c
  {
  }

  lemma OneFrame(c: Suite, salt: seq<byte>, x: Sealed)
    requires Lawful(c) && Packable(c, x)
    ensures AllPackable(c, [x]) && Frames(c, salt, [x]) == Frame(c, salt, x)
  {
    forall i: nat | i < 1 ensures PackableAt(c, [x], i) {
    }
    assert [x][1..] == [];
  }

  // ------------------------------------------------------------------ replay

  /** What one frame's payload contributes. */
  function Opened(c: Suite, salt: seq<byte>, payload: seq<byte>): seq<Record>
    requires Lawful(c)
  {
    match Unseal(c, salt, payload)
    case None => []
    case Some(plain) =>
      if plain == [] then []
      else match c.decode(plain)
        case None => []
        case Some(r) => [r]
  }

  /** The length of the next frame's payload, if replay reads that frame. */
  function NextLength(b: seq<byte>): Option<nat> {
    if |b| < 4 then None
    else
      var n := FromBe32(b[..4]);
      if n == 0 || n > MAX_RECORD_BYTES || |b| < 4 + n then None else Some(n)
  }

  /** The records of a frame stream, up to the first frame that cannot be read. */
  function Parse(c: Suite, salt: seq<byte>, b: seq<byte>): seq<Record>
    requires Lawful(c)
    decreases |b|
  {
    match NextLength(b)
    case None => []
    case Some(n) => Opened(c, salt, b[4..4 + n]) + Parse(c, salt, b[4 + n..])
  }

  ghost function Readable(c: Suite, xs: seq<Sealed>): seq<Sealed> {
    if xs == [] || !Fits(c, xs[0].record) then [] else [xs[0]] + Readable(c, xs[1..])
  }

  ghost function Records(xs: seq<Sealed>): (r: seq<Record>)
    ensures |r| == |xs| && forall i :: 0 <= i < |xs| ==> r[i] == xs[i].record
  {
    seq(|xs|, i requires 0 <= i < |xs| => xs[i].record)
  }

  lemma ReadableCons(c: Suite, xs: seq<Sealed>)
    requires xs != []
    ensures Records(Readable(c, xs)) ==
            if Fits(c, xs[0].record) then [xs[0].record] + Records(Readable(c, xs[1..])) else []
  {
    assert Readable(c, xs) == if Fits(c, xs[0].record) then [xs[0]] + Readable(c, xs[1..]) else [];
  }

  lemma ParseFrame(c: Suite, salt: seq<byte>, x: Sealed, rest: seq<byte>)
    requires Lawful(c) && Packable(c, x)
    ensures Parse(c, salt, Frame(c, salt, x) + rest) ==
            if Fits(c, x.record) then [x.record] + Parse(c, salt, rest) else []
  {
    var n, b := Size(c, x.record), Frame(c, salt, x) + rest;
    Be32Back(n);
    assert b[..4] == Be32(n);
    if Fits(c, x.record) {
      assert b[4..4 + n] == Seal(c, salt, x.nonce, c.encode(x.record));
      assert b[4 + n..] == rest;
      SealUnseal(c, salt, x.nonce, c.encode(x.record));
    }
  }

  lemma ParseNone(c: Suite, salt: seq<byte>, b: seq<byte>)
    requires Lawful(c) && NextLength(b).None?
    ensures Parse(c, salt, b) == []
  {
  }

  lemma ParseNext(c: Suite, salt: seq<byte>, b: seq<byte>, k: nat)
    requires Lawful(c) && NextLength(b) == Some(k)
    ensures 4 + k <= |b| && Parse(c, salt, b) == Opened(c, salt, b[4..4 + k]) + Parse(c, salt, b[4 + k..])
  {
  }

  // ---- what a frame contributes, read off the bytes

  /** The MAC in the payload is the one its nonce and ciphertext require. */
  ghost predicate Genuine(c: Suite, salt: seq<byte>, payload: seq<byte>) {
    |payload| >= OVERHEAD && payload[16..48] == c.mac(salt, MAGIC + payload[..16] + payload[48..])
  }

  /** The payload is genuine, and what its keystream uncovers is a record. */
  ghost predicate Carries(c: Suite, salt: seq<byte>, payload: seq<byte>, r: Record)
    requires Lawful(c)
  {
    && Genuine(c, salt, payload) && |payload| > OVERHEAD
    && c.decode(XorAll(payload[48..], c.stream(salt, payload[..16], |payload| - OVERHEAD))) == Some(r)
  }

  lemma OpenedExact(c: Suite, salt: seq<byte>, payload: seq<byte>, r: Record)
    requires Lawful(c)
    ensures |Opened(c, salt, payload)| <= 1
    ensures r in Opened(c, salt, payload) <==> Carries(c, salt, payload, r)
  {
  }

  lemma ForgedOpens(c: Suite, salt: seq<byte>, payload: seq<byte>)
    requires Lawful(c) && !Genuine(c, salt, payload)
    ensures Opened(c, salt, payload) == []
  {
  }

  lemma ParseFrameBytes(c: Suite, salt: seq<byte>, payload: seq<byte>, rest: seq<byte>)
    requires Lawful(c) && 0 < |payload| <= MAX_RECORD_BYTES
    ensures Parse(c, salt, Be32(|payload|) + payload + rest) == Opened(c, salt, payload) + Parse(c, salt, rest)
  {
    var n, b := |payload|, Be32(|payload|) + payload + rest;
    Be32Back(n);
    assert b[..4] == Be32(n) && b[4..4 + n] == payload && b[4 + n..] == rest;
    ParseNext(c, salt, b, n);
  }

  /** A frame whose MAC is wrong contributes nothing, and the frames behind it are still read. */
  lemma ForgedSkipped(c: Suite, salt: seq<byte>, payload: seq<byte>, rest: seq<byte>)
    requires Lawful(c) && 0 < |payload| <= MAX_RECORD_BYTES && !Genuine(c, salt, payload)
    ensures Parse(c, salt, Be32(|payload|) + payload + rest) == Parse(c, salt, rest)
  {
    ParseFrameBytes(c, salt, payload, rest);
    ForgedOpens(c, salt, payload);
  }

  /** Bytes `o` to `o + 4` announce a payload that carries `r`. */
  ghost predicate FrameAt(c: Suite, salt: seq<byte>, b: seq<byte>, o: nat, r: Record)
    requires Lawful(c)
  {
    && o + 4 <= |b|
    && var n := FromBe32(b[o..o + 4]); o + 4 + n <= |b| && Carries(c, salt, b[o + 4..o + 4 + n], r)
  }

  lemma FrameBehind(c: Suite, salt: seq<byte>, b: seq<byte>, n: nat, o: nat, r: Record)
    requires Lawful(c) && n <= |b| && FrameAt(c, salt, b[n..], o, r)
    ensures FrameAt(c, salt, b, n + o, r)
  {
    assert b[n + o..n + o + 4] == b[n..][o..o + 4];
    var k := FromBe32(b[n + o..n + o + 4]);
    assert b[n + o + 4..n + o + 4 + k] == b[n..][o + 4..o + 4 + k];
  }

  /** The bytes hold a frame with the right MAC that carries `r`. */
  ghost predicate Stands(c: Suite, salt: seq<byte>, b: seq<byte>, r: Record)
    requires Lawful(c)
  {
    exists o: nat :: FrameAt(c, salt, b, o, r)
  }

  lemma StandsFirst(c: Suite, salt: seq<byte>, b: seq<byte>, n: nat, r: Record)
    requires Lawful(c) && NextLength(b) == Some(n) && r in Opened(c, salt, b[4..4 + n])
    ensures Stands(c, salt, b, r)
  {
    OpenedExact(c, salt, b[4..4 + n], r);
    assert b[0..0 + 4] == b[..4];
    assert FrameAt(c, salt, b, 0, r);
  }

  lemma StandsBehind(c: Suite, salt: seq<byte>, b: seq<byte>, n: nat, r: Record)
    requires Lawful(c) && n <= |b| && Stands(c, salt, b[n..], r)
    ensures Stands(c, salt, b, r)
  {
    var o: nat :| FrameAt(c, salt, b[n..], o, r);
    FrameBehind(c, salt, b, n, o, r);
  }

  lemma ParseMember(c: Suite, salt: seq<byte>, b: seq<byte>, r: Record) returns (n: nat)
    requires Lawful(c) && r in Parse(c, salt, b)
    ensures 0 < n <= |b| && (Stands(c, salt, b, r) || r in Parse(c, salt, b[n..]))
  {
    var k := NextLength(b).value;
    ParseNext(c, salt, b, k);
    n := 4 + k;
    if r in Opened(c, salt, b[4..n]) {
      StandsFirst(c, salt, b, k, r);
    }
  }

  /** Every replayed record stands in the file, in a frame with the right MAC. */
  lemma {:induction false} ReplayedGenuine(c: Suite, salt: seq<byte>, b: seq<byte>, r: Record)
    requires Lawful(c) && r in Parse(c, salt, b)
    ensures Stands(c, salt, b, r)
    decreases |b|
  {
    var n := ParseMember(c, salt, b, r);
    if !Stands(c, salt, b, r) {
      ReplayedGenuine(c, salt, b[n..], r);
      StandsBehind(c, salt, b, n, r);
    }
  }

  /** Bytes as digits, the most significant first. */
  ghost function Number(b: seq<byte>): nat {
    if b == [] then 0 else 256 * Number(b[..|b| - 1]) + b[|b| - 1]
  }

  /** The length field is in network byte order. */
  lemma LengthIsNumber(b: seq<byte>)
    requires |b| == 4
    ensures FromBe32(b) == Number(b)
  {
    assert b[..3][..2] == b[..2] && b[..2][..1] == b[..1] && b[..1][..0] == [];
    assert Number(b[..1]) == b[0];
    assert Number(b[..2]) == 256 * Number(b[..1]) + b[1];
    assert Number(b[..3]) == 256 * Number(b[..2]) + b[2];
  }

  // ---- streams of frames

  /** Frames followed by something unreadable replay as the frames alone. */
  lemma {:induction false} ParseFramesThen(c: Suite, salt: seq<byte>, xs: seq<Sealed>, tail: seq<byte>)
    requires Lawful(c) && AllPackable(c, xs) && Parse(c, salt, tail) == []
    ensures Parse(c, salt, Frames(c, salt, xs) + tail) == Records(Readable(c, xs))
    decreases |xs|
  {
    if xs == [] {
      assert Frames(c, salt, xs) + tail == tail;
    } else {
      AllPackableRest(c, xs);
      var head, rest := Frame(c, salt, xs[0]), Frames(c, salt, xs[1..]);
      assert (head + rest) + tail == head + (rest + tail);
      ParseFrame(c, salt, xs[0], rest + tail);
      ParseFramesThen(c, salt, xs[1..], tail);
      ReadableCons(c, xs);
    }
  }

  /** Replaying a stream of frames gives its records, up to the first oversized one. */
  lemma ParseFrames(c: Suite, salt: seq<byte>, xs: seq<Sealed>)
    requires Lawful(c) && AllPackable(c, xs)
    ensures Parse(c, salt, Frames(c, salt, xs)) == Records(Readable(c, xs))
  {
    ParseNone(c, salt, []);
    ParseFramesThen(c, salt, xs, []);
    assert Frames(c, salt, xs) + [] == Frames(c, salt, xs);
  }

  lemma PrefixNext(p: seq<byte>, b: seq<byte>, k: nat)
    requires p <= b && NextLength(p) == Some(k)
    ensures NextLength(b) == Some(k) && p[4..4 + k] == b[4..4 + k] && p[4 + k..] <= b[4 + k..]
  {
    assert p[..4] == b[..4];
  }

  lemma PrefixCat(a: seq<Record>, x: seq<Record>, y: seq<Record>)
    requires x <= y
    ensures a + x <= a + y
  {
  }

  /** Replaying any prefix of any byte stream gives a prefix of the records. */
  lemma {:induction false} ParsePrefix(c: Suite, salt: seq<byte>, p: seq<byte>, b: seq<byte>)
    requires Lawful(c) && p <= b
    ensures Parse(c, salt, p) <= Parse(c, salt, b)
    decreases |p|
  {
    var next := NextLength(p);
    if next.None? {
      ParseNone(c, salt, p);
    } else {
      var k := next.value;
      PrefixNext(p, b, k);
      ParsePrefix(c, salt, p[4 + k..], b[4 + k..]);
      ParseNext(c, salt, p, k);
      ParseNext(c, salt, b, k);
      PrefixCat(Opened(c, salt, p[4..4 + k]), Parse(c, salt, p[4 + k..]), Parse(c, salt, b[4 + k..]));
    }
  }

  lemma TornFrame(c: Suite, salt: seq<byte>, x: Sealed, b: seq<byte>)
    requires Lawful(c) && Packable(c, x) && |b| < 4 + Size(c, x.record) && b <= Frame(c, salt, x)
    ensures Parse(c, salt, b) == []
  {
    if |b| >= 4 {
      Be32Back(Size(c, x.record));
      assert b[..4] == Be32(Size(c, x.record));
    }
  }

  /** What is left of a stream behind its first `k` frames when it is cut within the next one. */
  lemma TornTail(c: Suite, salt: seq<byte>, x: Sealed, more: seq<byte>, m: nat)
    requires Lawful(c) && Packable(c, x) && m < |Frame(c, salt, x)|
    ensures Parse(c, salt, (Frame(c, salt, x) + more)[..m]) == []
  {
    assert (Frame(c, salt, x) + more)[..m] == Frame(c, salt, x)[..m];
    TornFrame(c, salt, x, Frame(c, salt, x)[..m]);
  }

  ghost predicate CutAfter(c: Suite, salt: seq<byte>, xs: seq<Sealed>, k: nat, n: nat)
    requires Lawful(c) && AllPackable(c, xs) && k <= |xs|
  {
    AllPackableTake(c, xs, k);
    && |Frames(c, salt, xs[..k])| <= n <= |Frames(c, salt, xs)|
    && (k < |xs| ==> n < |Frames(c, salt, xs[..k])| + |Frame(c, salt, PackableIn(c, xs, k))|)
  }

  ghost function PackableIn(c: Suite, xs: seq<Sealed>, k: nat): (x: Sealed)
    requires AllPackable(c, xs) && k < |xs|
    ensures x == xs[k] && Packable(c, x)
  {
    assert PackableAt(c, xs, k);
    xs[k]
  }

  /** Wherever a stream is cut, some number of frames is whole. */
  lemma {:induction false} CutSomewhere(c: Suite, salt: seq<byte>, xs: seq<Sealed>, from: nat, n: nat) returns (k: nat)
    requires Lawful(c) && AllPackable(c, xs) && from <= |xs| && AllPackable(c, xs[..from])
    requires |Frames(c, salt, xs[..from])| <= n <= |Frames(c, salt, xs)|
    ensures k <= |xs| && CutAfter(c, salt, xs, k, n)
    decreases |xs| - from
  {
    k := from;
    if from < |xs| {
      var x := PackableIn(c, xs, from);
      if |Frames(c, salt, xs[..from])| + |Frame(c, salt, x)| <= n {
        AllPackableTake(c, xs, from + 1);
        OneFrame(c, salt, x);
        FramesConcat(c, salt, xs[..from], [x]);
        assert xs[..from + 1] == xs[..from] + [x];
        k := CutSomewhere(c, salt, xs, from + 1, n);
      }
    }
  }

  /** A stream cut after its `k`-th frame, but before the end of the next, keeps exactly `k` frames. */
  lemma ParseTorn(c: Suite, salt: seq<byte>, xs: seq<Sealed>, k: nat, n: nat)
    requires Lawful(c) && AllPackable(c, xs) && k <= |xs| && CutAfter(c, salt, xs, k, n)
    ensures Parse(c, salt, Frames(c, salt, xs)[..n]) == Records(Readable(c, xs[..k]))
  {
    AllPackableTake(c, xs, k);
    AllPackableDrop(c, xs, k);
    var front, back := Frames(c, salt, xs[..k]), Frames(c, salt, xs[k..]);
    FramesConcat(c, salt, xs[..k], xs[k..]);
    assert xs == xs[..k] + xs[k..];
    var m := n - |front|;
    assert (front + back)[..n] == front + back[..m];
    if k < |xs| {
      AllPackableRest(c, xs[k..]);
      TornTail(c, salt, xs[k], Frames(c, salt, xs[k..][1..]), m);
    } else {
      ParseNone(c, salt, back[..m]);
    }
    ParseFramesThen(c, salt, xs[..k], back[..m]);
  }

  // ------------------------------------------------------------------ whole files

  function FileHeader(salt: seq<byte>): seq<byte> {
    MAGIC + salt
  }

  predicate HasHeader(disk: seq<byte>) {
    |disk| >= HEADER_LEN && disk[..4] == MAGIC
  }

  /** What `replay` returns for a file that is empty or begins with a v3 header. */
  function Replayed(c: Suite, disk: seq<byte>): seq<Record>
    requires Lawful(c) && (disk == [] || HasHeader(disk))
  {
    if disk == [] then [] else Parse(c, disk[4..HEADER_LEN], disk[HEADER_LEN..])
  }

  /** Cutting the file anywhere past its header leaves a prefix of what it held. */
  lemma ReplayedPrefix(c: Suite, disk: seq<byte>, n: nat)
    requires Lawful(c) && HasHeader(disk) && HEADER_LEN <= n <= |disk|
    ensures HasHeader(disk[..n]) && Replayed(c, disk[..n]) <= Replayed(c, disk)
  {
    var p := disk[..n];
    assert p[..4] == disk[..4] && p[4..HEADER_LEN] == disk[4..HEADER_LEN];
    assert p[HEADER_LEN..] == disk[HEADER_LEN..][..n - HEADER_LEN];
    ParsePrefix(c, disk[4..HEADER_LEN], p[HEADER_LEN..], disk[HEADER_LEN..]);
  }
}
