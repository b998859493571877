/** JSON string escaping as the C core does it, and reading such strings back (section 7 of RFC 8259). */
module JsonText {
  import opened Options
  import opened Bytes
  import opened Utf8

  const QUOTE: byte := 34
  const BACKSLASH: byte := 92

  datatype Status = Ok | Null | Truncated

  function HexDigit(d: nat): byte
    requires d < 16
  {
    if d < 10 then 48 + d else 55 + d
  }

  /** The letter of a two-character escape. */
  function Short(c: byte): Option<byte> {
    if c == QUOTE then Some(QUOTE)
    else if c == BACKSLASH then Some(BACKSLASH)
    else if c == 8 then Some(98)
    else if c == 12 then Some(102)
    else if c == 10 then Some(110)
    else if c == 13 then Some(114)
    else if c == 9 then Some(116)
    else None
  }

  function EscapeByte(c: byte): (r: seq<byte>)
    ensures 1 <= |r| <= 6
  {
    match Short(c)
    case Some(letter) => [BACKSLASH, letter]
    case None => if c < 32 then [BACKSLASH, 117, 48, 48, HexDigit(c / 16), HexDigit(c % 16)] else [c]
  }

  /** Which bytes are written as they are, and which with two characters. */
  lemma EscapeForms(c: byte)
    ensures EscapeByte(c) == [c] <==> c >= 32 && c != QUOTE && c != BACKSLASH
    ensures |EscapeByte(c)| == 2 <==> c in {8, 9, 10, 12, 13, QUOTE, BACKSLASH}
  {
  }

  function Escape(s: seq<byte>): seq<byte> {
    if s == [] then [] else Escape(s[..|s| - 1]) + EscapeByte(s[|s| - 1])
  }

  lemma {:induction false} EscapeBound(s: seq<byte>)
    ensures |s| <= |Escape(s)| <= 6 * |s|
  {
    if s != [] {
      EscapeBound(s[..|s| - 1]);
    }
  }

  lemma {:induction false} EscapeFront(s: seq<byte>)
    requires s != []
    ensures Escape(s) == EscapeByte(s[0]) + Escape(s[1..])
    decreases |s|
  {
    if |s| > 1 {
      EscapeFront(s[..|s| - 1]);
      assert s[..|s| - 1][1..] == s[1..][..|s| - 2];
    } else {
      assert s[..0] == [] && s[1..] == [];
    }
  }

  // ------------------------------------------------------------------ reading a string literal

  function FromHex(c: byte): (r: Option<nat>)
    ensures r.Some? ==> r.value < 16
  {
    if 48 <= c <= 57 then Some(c - 48)
    else if 65 <= c <= 70 then Some(c - 55)
    else if 97 <= c <= 102 then Some(c - 87)
    else None
  }

  /** The character a two-character escape stands for. */
  function FromShort(letter: byte): Option<byte> {
    if letter == QUOTE || letter == BACKSLASH || letter == 47 then Some(letter)
    else if letter == 98 then Some(8)
    else if letter == 102 then Some(12)
    else if letter == 110 then Some(10)
    else if letter == 114 then Some(13)
    else if letter == 116 then Some(9)
    else None
  }

  function FromHex4(a: byte, b: byte, c: byte, d: byte): (r: Option<nat>)
    ensures r.Some? ==> r.value < 0x1_0000
  {
    match (FromHex(a), FromHex(b), FromHex(c), FromHex(d))
    case (Some(h), Some(i), Some(j), Some(k)) => Some(4096 * h + 256 * i + 16 * j + k)
    case _ => None
  }

  /** One character of a string literal in front of `b`: its bytes, and how long it is written. */
  function ReadChar(b: seq<byte>): (r: Option<(seq<byte>, nat)>)
    ensures r.Some? ==> 0 < r.value.1 <= |b|
  {
    if b == [] || b[0] == QUOTE || b[0] < 32 then None
    else if b[0] != BACKSLASH then Some(([b[0]], 1))
    else if |b| < 2 then None
    else if b[1] == 117 then
      if |b| < 6 then None
      else match FromHex4(b[2], b[3], b[4], b[5])
        case Some(code) => if 0xD800 <= code < 0xE000 then None else Some((EncodeChar(code), 6))
        case None => None
    else match FromShort(b[1])
      case Some(c) => Some(([c], 2))
      case None => None
  }

  /** Reads up to the closing quote: the string's bytes and what follows the quote. */
  function ReadString(b: seq<byte>): (r: Option<(seq<byte>, seq<byte>)>)
    ensures r.Some? ==> |r.value.1| < |b|
    decreases |b|
  {
    if b == [] then None
    else if b[0] == QUOTE then Some(([], b[1..]))
    else match ReadChar(b)
      case None => None
      case Some((c, n)) =>
        match ReadString(b[n..])
        case None => None
        case Some((s, rest)) => Some((c + s, rest))
  }

  lemma HexBack(d: nat)
    requires d < 16
    ensures FromHex(HexDigit(d)) == Some(d)
  {
  }

  lemma ControlBack(c: byte, b: seq<byte>)
    requires c < 32 && Short(c).None? && 6 <= |b| && b[..6] == EscapeByte(c)
    ensures ReadChar(b) == Some(([c], 6))
  {
    HexBack(c / 16);
    HexBack(c % 16);
    HexBack(0);
    assert b[0] == b[..6][0] && b[1] == b[..6][1] && b[2] == b[..6][2];
    assert b[3] == b[..6][3] && b[4] == b[..6][4] && b[5] == b[..6][5];
  }

  lemma ReadEscaped(c: byte, rest: seq<byte>)
    ensures ReadChar(EscapeByte(c) + rest) == Some(([c], |EscapeByte(c)|))
    ensures (EscapeByte(c) + rest)[|EscapeByte(c)|..] == rest
    ensures (EscapeByte(c) + rest)[0] != QUOTE
  {
    var b := EscapeByte(c) + rest;
    if c < 32 && Short(c).None? {
      assert b[..6] == EscapeByte(c);
      ControlBack(c, b);
    }
  }

  /** Reading an escaped string back gives the string, whatever follows it. */
  lemma {:induction false} EscapeBack(s: seq<byte>, rest: seq<byte>)
    ensures ReadString(Escape(s) + [QUOTE] + rest) == Some((s, rest))
    decreases |s|
  {
    var b := Escape(s) + [QUOTE] + rest;
    if s == [] {
      assert b == [QUOTE] + rest;
    } else {
      EscapeFront(s);
      var tail := Escape(s[1..]) + [QUOTE] + rest;
      assert b == EscapeByte(s[0]) + tail;
      ReadEscaped(s[0], tail);
      EscapeBack(s[1..], rest);
      assert [s[0]] + s[1..] == s;
    }
  }

  // ------------------------------------------------------------------ the C function

  /** The text is the escape of the first `k` bytes, and one more would not have fitted. */
  ghost predicate CutAt(s: seq<byte>, capacity: nat, text: seq<byte>, k: nat) {
    k < |s| && text == Escape(s[..k]) && |text| < capacity <= |Escape(s[..k + 1])|
  }

  /** What a call leaves in the buffer for the NUL-free string `s`: all of it, or the longest prefix that fits. */
  ghost predicate Written(s: seq<byte>, capacity: nat, status: Status, text: seq<byte>) {
    match status
    case Ok => |Escape(s)| < capacity && text == Escape(s)
    case Truncated =>
      exists k: nat :: CutAt(s, capacity, text, k)
    case Null => false
  }

  method CopyInto(out: array<byte>, at: nat, piece: seq<byte>)
    requires at + |piece| <= out.Length
    modifies out
    ensures out[..at + |piece|] == old(out[..at]) + piece
    ensures forall k :: at + |piece| <= k <= out.Length ==> out[k..] == old(out[k..])
  {
    for i := 0 to |piece|
      invariant out[..at + i] == old(out[..at]) + piece[..i]
      invariant forall k :: at + |piece| <= k <= out.Length ==> out[k..] == old(out[k..])
    {
      var next := at + i;
      out[next] := piece[i];
      assert out[..next + 1] == out[..next] + [piece[i]];
      assert piece[..i + 1] == piece[..i] + [piece[i]];
    }
  }

  /** One turn of the loop: appends the escape of byte `i`, or terminates the buffer if that does not fit. */
  method EscapeNext(s: seq<byte>, i: nat, out: array<byte>, capacity: nat, written: nat) returns (fits: bool, next: nat)
    requires i < |s| && written < capacity <= out.Length && out[..written] == Escape(s[..i])
    modifies out
    ensures out[capacity..] == old(out[capacity..])
    ensures fits ==> next < capacity && out[..next] == Escape(s[..i + 1])
    ensures !fits ==> next == written && out[written] == 0 && Written(s, capacity, Truncated, out[..written])
  {
    var piece := EscapeByte(s[i]);
    assert s[..i + 1][..i] == s[..i];
    if written + |piece| + 1 > capacity {
      out[written] := 0;
      assert CutAt(s, capacity, out[..written], i);
      return false, written;
    }
    CopyInto(out, written, piece);
    return true, written + |piece|;
  }

  /** `hc_json_escape`; `capacity` is the buffer length passed in, `written` the one passed out. */
  method JsonEscape(input: Option<seq<byte>>, out: array<byte>, capacity: nat) returns (status: Status, written: nat)
    requires capacity <= out.Length
    modifies out
    ensures input.None? ==> status == Null && written == 0 && out[..] == old(out[..])
    ensures input.Some? && capacity == 0 ==> status == Truncated && written == 0 && out[..] == old(out[..])
    ensures input.Some? && capacity > 0 ==>
      && status != Null && written < capacity && out[written] == 0
      && Written(CString(input.value), capacity, status, out[..written])
    ensures out[capacity..] == old(out[capacity..])
  {
    written := 0;
    if input.None? {
      return Null, 0;
    }
    if capacity == 0 {
      return Truncated, 0;
    }
    out[0] := 0;
    var s := CString(input.value);
    for i := 0 to |s|
      invariant written < capacity && out[..written] == Escape(s[..i])
      invariant out[capacity..] == old(out[capacity..])
    {
      var fits;
      fits, written := EscapeNext(s, i, out, capacity, written);
      if !fits {
        return Truncated, written;
      }
    }
    assert s[..|s|] == s;
    out[written] := 0;
    status := Ok;
  }

  lemma {:induction false} EscapeGrows(s: seq<byte>, k: nat)
    requires k <= |s|
    ensures |Escape(s[..k])| <= |Escape(s)|
  {
    if k == |s| {
      assert s[..k] == s;
    } else {
      EscapeGrows(s[..|s| - 1], k);
      assert s[..|s| - 1][..k] == s[..k];
    }
  }

  /** The call succeeds exactly when the escaped string and its terminator fit. */
  lemma WrittenExact(s: seq<byte>, capacity: nat, status: Status, text: seq<byte>)
    requires Written(s, capacity, status, text)
    ensures status == Ok <==> |Escape(s)| < capacity
  {
    if status == Truncated {
      var k: nat :| CutAt(s, capacity, text, k);
      EscapeGrows(s, k + 1);
    }
  }

  /** Even when cut, what was written reads back as a prefix of the string. */
  lemma WrittenBack(s: seq<byte>, capacity: nat, status: Status, text: seq<byte>, rest: seq<byte>)
    requires Written(s, capacity, status, text)
    ensures exists k: nat :: k <= |s| && ReadString(text + [QUOTE] + rest) == Some((s[..k], rest)) && (status == Ok <==> k == |s|)
  {
    if status == Ok {
      EscapeBack(s, rest);
      assert s[..|s|] == s;
    } else {
      var k: nat :| CutAt(s, capacity, text, k);
      EscapeBack(s[..k], rest);
    }
  }
}
