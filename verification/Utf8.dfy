/**
 * UTF-8 as section 3 of RFC 3629 defines it, and the self-synchronisation that
 * lets a byte-level search stand in for a character-level one.
 */
module Utf8 {
  import opened Options
  import opened Bytes

  /** A Unicode scalar value: a code point that is not a surrogate. */
  type scalar = c: int | 0 <= c < 0xD800 || 0xE000 <= c < 0x11_0000

  type Text = seq<scalar>

  function EncodeChar(c: scalar): (r: seq<byte>)
    ensures 1 <= |r| <= 4
  {
    if c < 0x80 then [c]
    else if c < 0x800 then [0xC0 + c / 64, 0x80 + c % 64]
    else if c < 0x1_0000 then [0xE0 + c / 4096, 0x80 + c / 64 % 64, 0x80 + c % 64]
    else [0xF0 + c / 26_2144, 0x80 + c / 4096 % 64, 0x80 + c / 64 % 64, 0x80 + c % 64]
  }

  function Encode(t: Text): seq<byte> {
    if t == [] then [] else EncodeChar(t[0]) + Encode(t[1..])
  }

  /** Lowercases A-Z on characters, as `fold_ascii` does. */
  function FoldChar(c: scalar): scalar {
    if 65 <= c <= 90 then c + 32 else c
  }

  function FoldText(t: Text): (r: Text)
    ensures |r| == |t| && forall i :: 0 <= i < |t| ==> r[i] == FoldChar(t[i])
  {
    seq(|t|, i requires 0 <= i < |t| => FoldChar(t[i]))
  }

  predicate IsContinuation(b: byte) { 0x80 <= b < 0xC0 }

  lemma EncodeCharShape(c: scalar)
    ensures !IsContinuation(EncodeChar(c)[0])
    ensures forall k :: 1 <= k < |EncodeChar(c)| ==> IsContinuation(EncodeChar(c)[k])
    ensures |EncodeChar(c)| == Width(EncodeChar(c)[0])
  {
  }

  /** The length a lead byte announces. */
  function Width(lead: byte): nat {
    if lead < 0x80 then 1 else if lead < 0xE0 then 2 else if lead < 0xF0 then 3 else 4
  }

  /** The scalar that a lead byte and its continuation bytes spell. */
  function DecodeChar(r: seq<byte>): int
    requires 1 <= |r| <= 4
  {
    var lead: int := r[0];
    if |r| == 1 then lead
    else if |r| == 2 then (lead - 0xC0) * 64 + Digit(r[1])
    else if |r| == 3 then (lead - 0xE0) * 4096 + Digit(r[1]) * 64 + Digit(r[2])
    else (lead - 0xF0) * 26_2144 + Digit(r[1]) * 4096 + Digit(r[2]) * 64 + Digit(r[3])
  }

  function Digit(b: int): int { b - 0x80 }

  lemma Base64Digits(c: nat)
    ensures c == c / 64 * 64 + c % 64
    ensures c / 64 == c / 4096 * 64 + c / 64 % 64
    ensures c / 4096 == c / 26_2144 * 64 + c / 4096 % 64
  {
    assert c / 4096 == c / 64 / 64;
    assert c / 26_2144 == c / 4096 / 64;
  }

  lemma DecodeEncodeChar(c: scalar)
    ensures DecodeChar(EncodeChar(c)) == c
  {
    Base64Digits(c);
  }

  lemma {:induction false} EncodeConcat(s: Text, t: Text)
    ensures Encode(s + t) == Encode(s) + Encode(t)
  {
    if s == [] {
      assert s + t == t;
    } else {
      assert (s + t)[1..] == s[1..] + t;
      EncodeConcat(s[1..], t);
    }
  }

  lemma FoldEncodeChar(c: scalar)
    ensures Fold(EncodeChar(c)) == EncodeChar(FoldChar(c))
  {
    EncodeCharShape(c);
  }

  /** Folding the bytes and folding the characters commute with encoding. */
  lemma {:induction false} FoldEncode(t: Text)
    ensures Fold(Encode(t)) == Encode(FoldText(t))
  {
    if t == [] {
      assert FoldText(t) == [];
    } else {
      FoldEncodeChar(t[0]);
      FoldEncode(t[1..]);
      assert FoldText(t)[1..] == FoldText(t[1..]);
      assert Fold(EncodeChar(t[0]) + Encode(t[1..])) == Fold(EncodeChar(t[0])) + Fold(Encode(t[1..]));
    }
  }

  lemma HeadPrefix(c: scalar, d: scalar, x: seq<byte>, y: seq<byte>)
    requires EncodeChar(c) + x <= EncodeChar(d) + y
    ensures c == d && x <= y
  {
    var a, b := EncodeChar(c) + x, EncodeChar(d) + y;
    assert a[0] == b[0];
    EncodeCharShape(c);
    EncodeCharShape(d);
    var n := |EncodeChar(c)|;
    assert n == |EncodeChar(d)|;
    assert EncodeChar(c) == a[..n] == b[..n] == EncodeChar(d);
    DecodeEncodeChar(c);
    DecodeEncodeChar(d);
    assert x == a[n..] && y == b[n..];
  }

  lemma {:induction false} PrefixCode(p: Text, t: Text)
    requires Encode(p) <= Encode(t)
    ensures p <= t
  {
    if p != [] {
      assert t != [];
      HeadPrefix(p[0], t[0], Encode(p[1..]), Encode(t[1..]));
      PrefixCode(p[1..], t[1..]);
      assert p == [p[0]] + p[1..] && t == [t[0]] + t[1..];
    }
  }

  /** White space as Unicode defines it. */
  predicate IsWhitespace(c: scalar) {
    9 <= c <= 13 || c == 32 || c == 0x85 || c == 0xA0 || c == 0x1680 || 0x2000 <= c <= 0x200A
    || c == 0x2028 || c == 0x2029 || c == 0x202F || c == 0x205F || c == 0x3000
  }

  /** The byte offset of character `i`, as `byte_offset` computes it. */
  function ByteOffset(t: Text, i: nat): nat
    requires i <= |t|
  {
    |Encode(t[..i])|
  }

  /** Folding moves no character. */
  lemma FoldKeepsOffset(t: Text, i: nat)
    requires i <= |t|
    ensures ByteOffset(FoldText(t), i) == ByteOffset(t, i)
  {
    assert FoldText(t)[..i] == FoldText(t[..i]);
    FoldEncode(t[..i]);
  }

  lemma OffsetSplit(t: Text, i: nat)
    requires i <= |t|
    ensures ByteOffset(t, i) <= |Encode(t)|
    ensures Encode(t)[ByteOffset(t, i)..] == Encode(t[i..])
    ensures Encode(t)[..ByteOffset(t, i)] == Encode(t[..i])
  {
    assert t == t[..i] + t[i..];
    EncodeConcat(t[..i], t[i..]);
  }

  /** A byte that does not continue a character starts one. */
  lemma {:induction false} LeadByteIsBoundary(t: Text, o: nat) returns (i: nat)
    requires o < |Encode(t)| && !IsContinuation(Encode(t)[o])
    ensures i < |t| && ByteOffset(t, i) == o
  {
    var n := |EncodeChar(t[0])|;
    EncodeCharShape(t[0]);
    if o < n {
      assert Encode(t)[o] == EncodeChar(t[0])[o];
      i := 0;
    } else {
      assert Encode(t)[o] == Encode(t[1..])[o - n];
      var j := LeadByteIsBoundary(t[1..], o - n);
      i := j + 1;
      assert t[..i][1..] == t[1..][..j];
    }
  }

  ghost predicate OccursAt<T>(p: seq<T>, t: seq<T>, i: nat) {
    i + |p| <= |t| && t[i..i + |p|] == p
  }

  /** A folded occurrence is one up to the case of ASCII letters. */
  lemma OccursByLetters(p: seq<byte>, t: seq<byte>, i: nat)
    ensures OccursAt(Fold(p), Fold(t), i) <==> i + |p| <= |t| && forall k :: 0 <= k < |p| ==> SameLetter(p[k], t[i + k])
  {
    if i + |p| <= |t| {
      var part := Fold(t)[i..i + |p|];
      forall k | 0 <= k < |p| ensures part[k] == Fold(p)[k] <==> SameLetter(p[k], t[i + k]) {
        FoldExact(p[k], t[i + k]);
      }
      if forall k :: 0 <= k < |p| ==> SameLetter(p[k], t[i + k]) {
        assert part == Fold(p);
      }
      if part == Fold(p) {
        forall k | 0 <= k < |p| ensures SameLetter(p[k], t[i + k]) {
          assert part[k] == Fold(p)[k];
        }
      }
    }
  }

  /** Changing the case of ASCII letters changes no folded text, and so no match. */
  lemma CaseChanged(t: seq<byte>, u: seq<byte>)
    requires |t| == |u| && forall k :: 0 <= k < |t| ==> SameLetter(t[k], u[k])
    ensures Fold(t) == Fold(u)
  {
    forall k | 0 <= k < |t| ensures Fold(t)[k] == Fold(u)[k] {
      FoldExact(t[k], u[k]);
    }
  }

  /** A pattern ends at `end` exactly when it starts its own length earlier. */
  lemma EndsAndStarts(needle: seq<byte>, text: seq<byte>, end: nat)
    requires end <= |text|
    ensures IsSuffix(needle, Fold(text[..end])) <==> |needle| <= end && OccursAt(needle, Fold(text), end - |needle|)
  {
    assert Fold(text)[..end] == Fold(text[..end]);
    if |needle| <= end {
      assert Fold(text[..end])[end - |needle|..] == Fold(text)[end - |needle|..end];
    }
  }

  /**
   * Self-synchronisation: the encoding of `p` occurs at byte `o` exactly when
   * `p` occurs at the character that starts there.
   */
  lemma SelfSynchronising(p: Text, t: Text, o: nat)
    requires p != []
    ensures OccursAt(Encode(p), Encode(t), o)
       <==> exists i :: 0 <= i <= |t| && ByteOffset(t, i) == o && OccursAt(p, t, i)
  {
    if OccursAt(Encode(p), Encode(t), o) {
      var i := ByteOccurrence(p, t, o);
    }
    if i :| 0 <= i <= |t| && ByteOffset(t, i) == o && OccursAt(p, t, i) {
      CharOccurrence(p, t, i);
    }
  }

  lemma ByteOccurrence(p: Text, t: Text, o: nat) returns (i: nat)
    requires p != [] && OccursAt(Encode(p), Encode(t), o)
    ensures i <= |t| && ByteOffset(t, i) == o && OccursAt(p, t, i)
  {
    var e := Encode(p);
    EncodeCharShape(p[0]);
    assert e[0] == EncodeChar(p[0])[0];
    assert Encode(t)[o] == Encode(t)[o..o + |e|][0];
    i := LeadByteIsBoundary(t, o);
    OffsetSplit(t, i);
    assert e == Encode(t[i..])[..|e|] by {
      assert Encode(t)[o..o + |e|] == Encode(t)[o..][..|e|];
    }
    PrefixCode(p, t[i..]);
    assert t[i..i + |p|] == t[i..][..|p|];
  }

  lemma CharOccurrence(p: Text, t: Text, i: nat)
    requires OccursAt(p, t, i)
    ensures OccursAt(Encode(p), Encode(t), ByteOffset(t, i))
  {
    OffsetSplit(t, i);
    assert t[i..] == p + t[i + |p|..];
    EncodeConcat(p, t[i + |p|..]);
    var o := ByteOffset(t, i);
    assert Encode(t)[o..o + |Encode(p)|] == Encode(t)[o..][..|Encode(p)|];
  }

  /** Strict UTF-8 decoding: shortest forms only, no surrogates. */
  function FromUtf8(b: seq<byte>): (r: Option<Text>)
    ensures r.Some? ==> Encode(r.value) == b
  {
    if b == [] then Some([])
    else
      var n := Width(b[0]);
      if n > |b| then None
      else
        var c := DecodeChar(b[..n]);
        if !(0 <= c < 0xD800 || 0xE000 <= c < 0x11_0000) || EncodeChar(c) != b[..n] then None
        else
          match FromUtf8(b[n..])
          case None => None
          case Some(t) =>
            assert b == b[..n] + b[n..] && ([c] + t)[1..] == t;
            Some([c] + t)
  }

  lemma FirstChar(c: scalar, rest: seq<byte>, b: seq<byte>)
    requires b == EncodeChar(c) + rest
    ensures var n := Width(b[0]);
      n <= |b| && b[..n] == EncodeChar(c) && b[n..] == rest && DecodeChar(b[..n]) == c
  {
    EncodeCharShape(c);
    DecodeEncodeChar(c);
    var n := |EncodeChar(c)|;
    assert b[0] == EncodeChar(c)[0];
    assert b[..n] == EncodeChar(c);
  }

  lemma {:induction false} DecodeEncode(t: Text)
    ensures FromUtf8(Encode(t)) == Some(t)
  {
    if t != [] {
      FirstChar(t[0], Encode(t[1..]), Encode(t));
      DecodeEncode(t[1..]);
      assert t == [t[0]] + t[1..];
    }
  }

  /** An ASCII byte occurs in the encoding exactly when the character occurs in the text. */
  lemma {:induction false} AsciiByte(t: Text, a: byte)
    requires a < 0x80
    ensures a in Encode(t) <==> a in t
  {
    if t != [] {
      AsciiByte(t[1..], a);
      var e := EncodeChar(t[0]);
      EncodeCharShape(t[0]);
      assert forall k :: 0 <= k < |e| && e[k] == a ==> k == 0;
      assert a in e <==> t[0] == a;
      assert a in Encode(t) <==> a in e || a in Encode(t[1..]);
      assert a in t <==> t[0] == a || a in t[1..];
    }
  }
}
