/** Bytes, ASCII case folding and suffixes: the vocabulary every matcher shares. */
module Bytes {
  type byte = b: int | 0 <= b < 256

  /** Folds A-Z to a-z and leaves every other byte alone. */
  function FoldByte(b: byte): byte {
    if 65 <= b <= 90 then b + 32 else b
  }

  predicate IsUpper(b: byte) {
    'A' as int <= b <= 'Z' as int
  }

  /** The same byte, or the two cases of one ASCII letter. */
  predicate SameLetter(a: byte, b: byte) {
    a == b || (IsUpper(a) && b == a + 32) || (IsUpper(b) && a == b + 32)
  }

  /** Folding identifies the two cases of a letter and nothing else. */
  lemma FoldExact(a: byte, b: byte)
    ensures FoldByte(a) == FoldByte(b) <==> SameLetter(a, b)
  {
  }

  function Fold(s: seq<byte>): (r: seq<byte>)
    ensures |r| == |s| && forall i :: 0 <= i < |s| ==> r[i] == FoldByte(s[i])
  {
    seq(|s|, i requires 0 <= i < |s| => FoldByte(s[i]))
  }

  /** What a C string of these bytes is read back as: everything before the first NUL. */
  function CString(b: seq<byte>): (r: seq<byte>)
    ensures 0 !in b ==> r == b
    ensures 0 !in r && r <= b && (|r| < |b| ==> b[|r|] == 0)
  {
    if b == [] || b[0] == 0 then [] else [b[0]] + CString(b[1..])
  }

  predicate IsSuffix(x: seq<byte>, s: seq<byte>) {
    |x| <= |s| && s[|s| - |x|..] == x
  }

  /** Two suffixes of one string are ordered by length. */
  lemma SuffixOfSuffix(x: seq<byte>, y: seq<byte>, s: seq<byte>)
    requires IsSuffix(x, s) && IsSuffix(y, s) && |x| <= |y|
    ensures IsSuffix(x, y)
  {
    assert y[|y| - |x|..] == s[|s| - |y|..][|y| - |x|..] == s[|s| - |x|..];
  }

  lemma SuffixTrans(x: seq<byte>, y: seq<byte>, s: seq<byte>)
    requires IsSuffix(x, y) && IsSuffix(y, s)
    ensures IsSuffix(x, s)
  {
    assert s[|s| - |x|..] == s[|s| - |y|..][|y| - |x|..];
  }

  /** `x` is a suffix of `s` and shorter exactly when it is a suffix of the tail. */
  lemma ProperSuffix(x: seq<byte>, s: seq<byte>)
    requires s != []
    ensures IsSuffix(x, s[1..]) <==> IsSuffix(x, s) && |x| < |s|
  {
    if |x| < |s| {
      assert s[1..][|s| - 1 - |x|..] == s[|s| - |x|..];
    }
  }

  lemma SuffixSnoc(x: seq<byte>, s: seq<byte>, b: byte)
    requires x != []
    ensures IsSuffix(x, s + [b]) <==> IsSuffix(x[..|x| - 1], s) && x[|x| - 1] == b
  {
    if |x| <= |s| + 1 {
      var k := |s| + 1 - |x|;
      assert (s + [b])[k..] == s[k..] + [b];
      assert x == x[..|x| - 1] + [x[|x| - 1]];
      if (s + [b])[k..] == x {
        assert x[..|x| - 1] == s[k..];
      }
    }
  }
}
