/** Case-insensitive single-pattern search: the Boyer-Moore-Horspool form and the plain one. */
module Horspool {
  import opened Options
  import opened Bytes
  import opened Utf8

  const NULL_ERROR: int := -1
  const NOT_FOUND: int := -1

  /** The cast of an offset to a C `int`. */
  function Int32(n: nat): int {
    var m := n % 0x1_0000_0000;
    if m < 0x8000_0000 then m else m - 0x1_0000_0000
  }

  /** The cast keeps the low 32 bits. */
  lemma Int32Exact(n: nat)
    ensures -0x8000_0000 <= Int32(n) < 0x8000_0000 && (n - Int32(n)) % 0x1_0000_0000 == 0
  {
    var m := n % 0x1_0000_0000;
    assert n - m == 0x1_0000_0000 * (n / 0x1_0000_0000);
    assert n - Int32(n) == n - m || n - Int32(n) == n - m + 0x1_0000_0000;
  }

  lemma Int32Small(n: nat)
    requires n < 0x8000_0000
    ensures Int32(n) == n
  {
  }

  /** `o` is the least offset at which the pattern occurs, letters compared without case. */
  ghost predicate Least(text: seq<byte>, pattern: seq<byte>, o: nat) {
    && OccursAt(Fold(pattern), Fold(text), o)
    && forall k: nat :: k < o ==> !OccursAt(Fold(pattern), Fold(text), k)
  }

  ghost predicate Nowhere(text: seq<byte>, pattern: seq<byte>) {
    forall k: nat :: !OccursAt(Fold(pattern), Fold(text), k)
  }

  ghost predicate Answers(text: seq<byte>, pattern: seq<byte>, r: int) {
    if Nowhere(text, pattern) then r == NOT_FOUND else exists o: nat :: Least(text, pattern, o) && r == Int32(o)
  }

  // ------------------------------------------------------------------ the shift table

  /** The distance from the last occurrence of `c` before the pattern's last byte to that byte. */
  ghost predicate ShiftAt(folded: seq<byte>, upTo: nat, shift: seq<nat>, c: nat)
    requires upTo < |folded| && c < |shift|
  {
    && 1 <= shift[c] <= |folded|
    && (shift[c] < |folded| ==> |folded| - 1 - shift[c] < upTo && folded[|folded| - 1 - shift[c]] == c)
    && forall i :: |folded| - shift[c] <= i < upTo ==> folded[i] != c
  }

  ghost predicate ShiftsOk(folded: seq<byte>, upTo: nat, shift: seq<nat>)
    requires upTo < |folded|
  {
    |shift| == 256 && forall c: nat :: c < 256 ==> ShiftAt(folded, upTo, shift, c)
  }

  method BuildShifts(pattern: seq<byte>) returns (shift: array<nat>)
    requires |pattern| > 0
    ensures fresh(shift) && ShiftsOk(Fold(pattern), |pattern| - 1, shift[..])
  {
    shift := new nat[256];
    for i := 0 to 256
      invariant forall c :: 0 <= c < i ==> shift[c] == |pattern|
    {
      shift[i] := |pattern|;
    }
    ghost var folded := Fold(pattern);
    forall c: nat | c < 256 ensures ShiftAt(folded, 0, shift[..], c) {
    }
    for i := 0 to |pattern| - 1
      invariant ShiftsOk(folded, i, shift[..])
    {
      ghost var before := shift[..];
      var next := i + 1;
      shift[FoldByte(pattern[i])] := |pattern| - 1 - i;
      forall c: nat | c < 256 ensures ShiftAt(folded, next, shift[..], c) {
        assert ShiftAt(folded, i, before, c);
      }
    }
  }

  lemma Mismatch(text: seq<byte>, pattern: seq<byte>, o: nat, j: nat)
    requires o + |pattern| <= |text| && j < |pattern| && FoldByte(text[o + j]) != FoldByte(pattern[j])
    ensures !OccursAt(Fold(pattern), Fold(text), o)
  {
    assert Fold(text)[o..o + |pattern|][j] == Fold(text)[o + j];
  }

  /** No shift jumps over an occurrence. */
  lemma NoSkip(text: seq<byte>, pattern: seq<byte>, shift: seq<nat>, o: nat, k: nat)
    requires |pattern| > 0 && ShiftsOk(Fold(pattern), |pattern| - 1, shift) && o + |pattern| <= |text|
    requires o < k < o + shift[FoldByte(text[o + |pattern| - 1])]
    ensures !OccursAt(Fold(pattern), Fold(text), k)
  {
    var last := |pattern| - 1;
    assert ShiftAt(Fold(pattern), last, shift, FoldByte(text[o + last]));
    if k + |pattern| <= |text| {
      Mismatch(text, pattern, k, last - (k - o));
    }
  }

  // ------------------------------------------------------------------ the search

  /** Compares one window from the right. */
  method CompareWindow(text: seq<byte>, pattern: seq<byte>, offset: nat) returns (matched: bool)
    requires |pattern| > 0 && offset + |pattern| <= |text|
    ensures matched <==> OccursAt(Fold(pattern), Fold(text), offset)
  {
    var j: int := |pattern| - 1;
    while true
      invariant 0 <= j < |pattern|
      invariant forall i :: j < i < |pattern| ==> FoldByte(text[offset + i]) == FoldByte(pattern[i])
      decreases j
    {
      if FoldByte(text[offset + j]) != FoldByte(pattern[j]) {
        Mismatch(text, pattern, offset, j);
        return false;
      }
      if j == 0 {
        assert Fold(text)[offset..offset + |pattern|] == Fold(pattern);
        return true;
      }
      j := j - 1;
    }
  }

  method SearchByte(text: seq<byte>, pattern: seq<byte>) returns (r: int)
    requires |pattern| == 1
    ensures Answers(text, pattern, r)
  {
    var want := FoldByte(pattern[0]);
    for i := 0 to |text|
      invariant forall k: nat :: k < i ==> !OccursAt(Fold(pattern), Fold(text), k)
    {
      if FoldByte(text[i]) == want {
        assert Fold(text)[i..i + 1] == Fold(pattern);
        assert Least(text, pattern, i);
        return Int32(i);
      }
      Mismatch(text, pattern, i, 0);
    }
    r := NOT_FOUND;
  }

  /** `hc_bm_search`; `None` is a null pointer. */
  method Search(text: Option<seq<byte>>, pattern: Option<seq<byte>>) returns (r: int)
    ensures text.None? || pattern.None? ==> r == NULL_ERROR
    ensures text.Some? && pattern.Some? ==> Answers(text.value, pattern.value, r)
  {
    if text.None? || pattern.None? {
      return NULL_ERROR;
    }
    var t, p := text.value, pattern.value;
    if |p| == 0 {
      assert Least(t, p, 0);
      return 0;
    }
    if |t| < |p| {
      return NOT_FOUND;
    }
    if |p| == 1 {
      r := SearchByte(t, p);
      return;
    }
    r := Slide(t, p);
  }

  /** The main loop: slides the window by the shift of its last byte. */
  method Slide(t: seq<byte>, p: seq<byte>) returns (r: int)
    requires 2 <= |p| <= |t|
    ensures Answers(t, p, r)
  {
    var shift := BuildShifts(p);
    var last, offset := |p| - 1, 0;
    while offset <= |t| - |p|
      invariant forall k: nat :: k < offset ==> !OccursAt(Fold(p), Fold(t), k)
      invariant ShiftsOk(Fold(p), last, shift[..])
      decreases |t| - offset
    {
      var matched := CompareWindow(t, p, offset);
      if matched {
        assert Least(t, p, offset);
        return Int32(offset);
      }
      assert ShiftAt(Fold(p), last, shift[..], FoldByte(t[offset + last]));
      var advance := shift[FoldByte(t[offset + last])];
      if advance == 0 { // the guard for forward progress is never needed
        assert false;
      }
      forall k: nat | k < offset + advance ensures !OccursAt(Fold(p), Fold(t), k) {
        if k > offset {
          NoSkip(t, p, shift[..], offset, k);
        }
      }
      offset := offset + advance;
    }
    r := NOT_FOUND;
  }

  // ------------------------------------------------------------------ the plain search

  /** Compares the rest of a window whose first byte matches, from the left. */
  method CompareForward(t: seq<byte>, n: seq<byte>, i: nat) returns (matched: bool)
    requires |n| > 0 && i + |n| <= |t| && FoldByte(t[i]) == FoldByte(n[0])
    ensures matched <==> OccursAt(Fold(n), Fold(t), i)
  {
    var j := 1;
    while j < |n| && FoldByte(t[i + j]) == FoldByte(n[j])
      invariant 1 <= j <= |n|
      invariant forall k :: 0 <= k < j ==> FoldByte(t[i + k]) == FoldByte(n[k])
    {
      j := j + 1;
    }
    matched := j == |n|;
    if matched {
      assert Fold(t)[i..i + |n|] == Fold(n);
    } else {
      Mismatch(t, n, i, j);
    }
  }

  /** `hc_contains_ci` on NUL-terminated strings. */
  method ContainsCi(text: Option<seq<byte>>, needle: Option<seq<byte>>) returns (r: int)
    ensures text.None? || needle.None? ==> r == 0
    ensures text.Some? && needle.Some? ==> r == if Nowhere(CString(text.value), CString(needle.value)) then 0 else 1
  {
    if text.None? || needle.None? {
      return 0;
    }
    var t, n := CString(text.value), CString(needle.value);
    if |n| == 0 {
      assert OccursAt(Fold(n), Fold(t), 0);
      return 1;
    }
    if |n| > |t| {
      return 0;
    }
    var first, i := FoldByte(n[0]), 0;
    while i + |n| <= |t|
      invariant forall k: nat :: k < i ==> !OccursAt(Fold(n), Fold(t), k)
    {
      if FoldByte(t[i]) != first {
        Mismatch(t, n, i, 0);
        i := i + 1;
        continue;
      }
      var matched := CompareForward(t, n, i);
      if matched {
        return 1;
      }
      i := i + 1;
    }
    r := 0;
  }

  /**
   * The answer is the least offset exactly when a C `int` can hold that offset; for a text shorter than
   * 2^31 bytes it is negative exactly when there is none.
   */
  lemma SearchFinds(text: seq<byte>, pattern: seq<byte>, r: int)
    requires Answers(text, pattern, r)
    ensures (r >= 0 && Least(text, pattern, r)) <==> exists o: nat :: Least(text, pattern, o) && o < 0x8000_0000
    ensures Nowhere(text, pattern) ==> r == NOT_FOUND
    ensures |text| < 0x8000_0000 ==> (r >= 0 <==> !Nowhere(text, pattern)) && (r < 0 ==> r == NOT_FOUND)
  {
    if !Nowhere(text, pattern) {
      var o: nat :| Least(text, pattern, o) && r == Int32(o);
      if o < 0x8000_0000 {
        Int32Small(o);
      }
      if q: nat :| Least(text, pattern, q) {
        LeastUnique(text, pattern, o, q);
      }
      if r >= 0 && Least(text, pattern, r) {
        LeastUnique(text, pattern, o, r);
      }
    }
  }

  lemma LeastUnique(text: seq<byte>, pattern: seq<byte>, o: nat, q: nat)
    requires Least(text, pattern, o) && Least(text, pattern, q)
    ensures o == q
  {
  }
}
