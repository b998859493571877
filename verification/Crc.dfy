/** CRC-32: the table-driven form of the C core and the bit-by-bit form of the fallback. */
module Crc {
  import opened Options
  import opened Bytes
  import opened Bits

  const POLY: nat := 0xEDB88320
  const ALL_ONES: nat := 0xFFFFFFFF
  const TABLE_SIZE: nat := 256

  /** One step of the reflected polynomial. */
  function Shift(c: nat): nat {
    if c % 2 == 1 then Xor(POLY, c / 2) else c / 2
  }

  function Shifts(c: nat, k: nat): nat {
    if k == 0 then c else Shift(Shifts(c, k - 1))
  }

  /** Division of the message by the polynomial, one bit at a time. */
  ghost function BitByBit(crc: nat, data: seq<byte>): nat {
    if data == [] then crc else Shifts(Xor(BitByBit(crc, data[..|data| - 1]), data[|data| - 1]), 8)
  }

  /** Everything stays within 32 bits, so nothing is ever truncated. */
  lemma ShiftBound(c: nat)
    requires c <= ALL_ONES
    ensures Shift(c) <= ALL_ONES
  {
    Pow2Words();
    XorBound(POLY, c / 2, 32);
  }

  lemma {:induction false} ShiftsBound(c: nat, k: nat)
    requires c <= ALL_ONES
    ensures Shifts(c, k) <= ALL_ONES
  {
    if k > 0 {
      ShiftsBound(c, k - 1);
      ShiftBound(Shifts(c, k - 1));
    }
  }

  lemma {:induction false} BitByBitBound(data: seq<byte>)
    ensures BitByBit(ALL_ONES, data) <= ALL_ONES && Xor(BitByBit(ALL_ONES, data), ALL_ONES) <= ALL_ONES
  {
    Pow2Words();
    if data != [] {
      var before, last := BitByBit(ALL_ONES, data[..|data| - 1]), data[|data| - 1];
      BitByBitBound(data[..|data| - 1]);
      XorBound(before, last, 32);
      ShiftsBound(Xor(before, last), 8);
    }
    XorBound(BitByBit(ALL_ONES, data), ALL_ONES, 32);
  }

  // ------------------------------------------------------------------ linearity

  lemma BothOdd(p: nat, x: nat, y: nat)
    ensures Xor(Xor(p, x), Xor(p, y)) == Xor(x, y)
  {
    XorComm(p, x);
    XorAssoc(x, p, Xor(p, y));
    XorAssoc(p, p, y);
    XorZero(p);
    XorZero(y);
  }

  lemma SecondOdd(p: nat, x: nat, y: nat)
    ensures Xor(x, Xor(p, y)) == Xor(p, Xor(x, y))
  {
    XorAssoc(x, p, y);
    XorComm(x, p);
    XorAssoc(p, x, y);
  }

  ghost function Feed(odd: bool, p: nat, half: nat): nat {
    if odd then Xor(p, half) else half
  }

  lemma FeedLinear(p: nat, i: bool, j: bool, x: nat, y: nat)
    ensures Feed(i != j, p, Xor(x, y)) == Xor(Feed(i, p, x), Feed(j, p, y))
  {
    if i && j {
      BothOdd(p, x, y);
    } else if j {
      SecondOdd(p, x, y);
    } else if i {
      XorAssoc(p, x, y);
    }
  }

  lemma ShiftFeed(c: nat, half: nat, odd: bool)
    requires half == c / 2 && odd == (c % 2 == 1)
    ensures Shift(c) == Feed(odd, POLY, half)
  {
  }

  /** The step is linear over exclusive or. */
  lemma ShiftLinear(a: nat, b: nat)
    ensures Shift(Xor(a, b)) == Xor(Shift(a), Shift(b))
  {
    var x, y, i, j := a / 2, b / 2, a % 2 == 1, b % 2 == 1;
    XorStep(a, b);
    OddSum(a, b);
    ShiftFeed(a, x, i);
    ShiftFeed(b, y, j);
    ShiftFeed(Xor(a, b), Xor(x, y), i != j);
    FeedLinear(POLY, i, j, x, y);
  }

  lemma {:induction false} ShiftsLinear(a: nat, b: nat, k: nat)
    ensures Shifts(Xor(a, b), k) == Xor(Shifts(a, k), Shifts(b, k))
  {
    if k > 0 {
      ShiftsLinear(a, b, k - 1);
      ShiftLinear(Shifts(a, k - 1), Shifts(b, k - 1));
    }
  }

  lemma EvenShift(half: nat)
    ensures Shift(2 * half) == half
  {
  }

  /** Steps only move the bits of a number whose low bits are all clear. */
  lemma {:induction false} HighShifts(h: nat, k: nat, j: nat)
    requires j <= k
    ensures Shifts(h * Pow2(k), j) == h * Pow2(k - j)
  {
    if j > 0 {
      HighShifts(h, k, j - 1);
      Doubled(h, k - j + 1);
      EvenShift(h * Pow2(k - j));
    }
  }

  /** Eight steps are one table lookup and a move by a byte. */
  lemma LookupStep(c: nat)
    ensures Shifts(c, 8) == Xor(Shifts(c % 256, 8), c / 256)
  {
    var low, high := c % 256, c / 256;
    Pow2Words();
    XorDisjoint(low, high, 8);
    assert Xor(low, high * 256) == c;
    ShiftsLinear(low, high * 256, 8);
    HighShifts(high, 8, 8);
    assert Pow2(0) == 1;
  }

  // ------------------------------------------------------------------ the remainder

  /** The coefficient of x to the `e` in a polynomial of degree 32, which is kept with the highest power in the lowest bit. */
  ghost function Term(e: nat): nat
    requires e <= 32
  {
    Pow2(32 - e)
  }

  /** The CRC-32 generator polynomial (IEEE 802.3). */
  ghost function Generator(): nat {
    Term(32) + Term(26) + Term(23) + Term(22) + Term(16) + Term(12) + Term(11) + Term(10)
    + Term(8) + Term(7) + Term(5) + Term(4) + Term(2) + Term(1) + Term(0)
  }

  lemma GeneratorIs()
    ensures Generator() == 2 * POLY + 1
  {
    Pow2Words();
    assert Pow2(0) == 1 && Pow2(6) == 0x40 && Pow2(9) == 0x200 && Pow2(10) == 0x400 && Pow2(16) == 0x1_0000;
    assert Pow2(20) == 0x10_0000 && Pow2(21) == 0x20_0000 && Pow2(22) == 0x40_0000 && Pow2(24) == 0x100_0000;
    assert Pow2(25) == 0x200_0000 && Pow2(27) == 0x800_0000 && Pow2(28) == 0x1000_0000;
    assert Pow2(30) == 0x4000_0000 && Pow2(31) == 0x8000_0000;
  }

  lemma OddDivides(v: nat, p: nat)
    requires v % 2 == 1
    ensures Xor(v, 2 * p + 1) == 2 * Xor(p, v / 2)
  {
    XorStep(v, 2 * p + 1);
    XorComm(v / 2, p);
  }

  lemma MulBit(b: nat, g: nat)
    requires b < 2
    ensures Mul(b, g) == if b == 1 then g else 0
  {
    MulStep(b, g);
    XorZero(g);
    XorZero(0);
  }

  /** One step divides by x: what it drops is a multiple of the generator. */
  lemma ShiftDivides(v: nat, g: nat)
    requires g == 2 * POLY + 1
    ensures Xor(v, Mul(v % 2, g)) == 2 * Shift(v)
  {
    MulBit(v % 2, g);
    if v % 2 == 1 {
      OddDivides(v, POLY);
    } else {
      XorZero(v);
    }
  }

  /** Dividing on from a partial remainder extends the quotient. */
  lemma AddMultiple(v: nat, r: nat, w: nat, b: nat, g: nat, k: nat)
    requires Xor(v, Mul(r, g)) == Up(w, k)
    ensures Xor(v, Mul(Xor(r, Up(b, k)), g)) == Up(Xor(w, Mul(b, g)), k)
  {
    MulLinear(r, Up(b, k), g);
    MulUp(b, g, k);
    XorAssoc(v, Mul(r, g), Up(Mul(b, g), k));
    UpXor(w, Mul(b, g), k);
  }

  lemma OneMoreBit(v: nat, r: nat, w: nat, k: nat, g: nat) returns (q: nat)
    requires g == 2 * POLY + 1 && Fits(v, k, g, r, w)
    ensures Fits(v, k + 1, g, q, Shift(w))
  {
    var b := w % 2;
    q := Xor(r, Up(b, k));
    AddMultiple(v, r, w, b, g, k);
    ShiftDivides(w, g);
    assert Pow2(1) == 2;
    UpRoom(r, b, 1, k);
    UpTwice(Shift(w), 1, k);
    assert Up(Shift(w), 1) == 2 * Shift(w);
  }

  lemma {:induction false} ShiftsDivide(v: nat, k: nat, g: nat) returns (q: nat)
    requires g == 2 * POLY + 1
    ensures Fits(v, k, g, q, Shifts(v, k))
  {
    if k == 0 {
      q := 0;
      XorZero(v);
    } else {
      var r := ShiftsDivide(v, k - 1, g);
      q := OneMoreBit(v, r, Shifts(v, k - 1), k - 1, g);
    }
  }

  /** The message as one number, first byte lowest. */
  ghost function Number(data: seq<byte>): nat {
    if data == [] then 0 else Number(data[..|data| - 1]) + Up(data[|data| - 1], 8 * (|data| - 1))
  }

  lemma {:induction false} NumberBound(data: seq<byte>)
    ensures Number(data) < Pow2(8 * |data|)
  {
    if data != [] {
      NumberBound(data[..|data| - 1]);
      Pow2Words();
      UpRoom(Number(data[..|data| - 1]), data[|data| - 1], 8, 8 * (|data| - 1));
    }
  }

  /** A further byte joins the message and the remainder alike. */
  lemma NextByte(m: nat, p: nat, b: nat, last: nat, g: nat, k: nat)
    requires Xor(m, Mul(p, g)) == Up(b, k)
    ensures Xor(Xor(m, Up(last, k)), Mul(p, g)) == Up(Xor(b, last), k)
  {
    XorAssoc(m, Up(last, k), Mul(p, g));
    XorComm(Up(last, k), Mul(p, g));
    XorAssoc(m, Mul(p, g), Up(last, k));
    UpXor(b, last, k);
  }

  lemma DivideByte(m: nat, p: nat, b: nat, last: nat, g: nat, k: nat) returns (q: nat)
    requires g == 2 * POLY + 1 && Fits(m, k, g, p, b)
    ensures Fits(Xor(m, Up(last, k)), 8 + k, g, q, Shifts(Xor(b, last), 8))
  {
    var r := ShiftsDivide(Xor(b, last), 8, g);
    q := Xor(p, Up(r, k));
    NextByte(m, p, b, last, g, k);
    AddMultiple(Xor(m, Up(last, k)), p, Xor(b, last), r, g, k);
    UpRoom(p, r, 8, k);
    UpTwice(Shifts(Xor(b, last), 8), 8, k);
  }

  lemma NumberNext(crc: nat, front: seq<byte>, last: byte)
    ensures Number(front + [last]) == Number(front) + Up(last, 8 * |front|)
    ensures Xor(crc, Number(front + [last])) == Xor(Xor(crc, Number(front)), Up(last, 8 * |front|))
  {
    assert (front + [last])[..|front|] == front;
    NumberBound(front);
    Pow2Words();
    UpRoom(Number(front), last, 8, 8 * |front|);
    XorAssoc(crc, Number(front), Up(last, 8 * |front|));
  }

  /** The loop state is the remainder of the message behind the start value. */
  lemma {:induction false} DataDivides(crc: nat, data: seq<byte>, g: nat) returns (q: nat)
    requires g == 2 * POLY + 1
    ensures Fits(Xor(crc, Number(data)), 8 * |data|, g, q, BitByBit(crc, data))
  {
    if data == [] {
      q := 0;
      XorZero(crc);
    } else {
      var front, last := data[..|data| - 1], data[|data| - 1];
      var p := DataDivides(crc, front, g);
      assert data == front + [last];
      NumberNext(crc, front, last);
      q := DivideByte(Xor(crc, Number(front)), p, BitByBit(crc, front), last, g, 8 * |front|);
    }
  }

  /** `r` is the remainder of the message, its first 32 bits inverted, times x^32 on division by `g`. */
  ghost predicate IsRemainder(data: seq<byte>, g: nat, r: nat) {
    exists q: nat :: Fits(Xor(ALL_ONES, Number(data)), 8 * |data|, g, q, r)
  }

  /** The checksum, before its final inversion, is the remainder by the CRC-32 generator; and there is only one. */
  lemma CrcIsRemainder(data: seq<byte>, r: nat)
    ensures IsRemainder(data, Generator(), r) <==> r == BitByBit(ALL_ONES, data)
  {
    GeneratorIs();
    RemainderIs(data, Generator(), r);
  }

  lemma RemainderIs(data: seq<byte>, g: nat, r: nat)
    requires g == 2 * POLY + 1
    ensures IsRemainder(data, g, r) <==> r == BitByBit(ALL_ONES, data)
  {
    var q := DataDivides(ALL_ONES, data, g);
    OneRemainder(Xor(ALL_ONES, Number(data)), g, 8 * |data|, q, BitByBit(ALL_ONES, data), r);
  }

  // ------------------------------------------------------------------ the two implementations

  ghost predicate TableAt(table: seq<nat>, i: nat)
    requires i < |table|
  {
    table[i] == Shifts(i, 8)
  }

  ghost predicate TableOk(table: seq<nat>) {
    |table| == TABLE_SIZE && forall i: nat :: i < TABLE_SIZE ==> TableAt(table, i)
  }

  method BuildTable(table: array<nat>)
    requires table.Length == TABLE_SIZE
    modifies table
    ensures TableOk(table[..])
  {
    for i := 0 to TABLE_SIZE
      invariant forall j: nat :: j < i ==> TableAt(table[..], j)
    {
      var c := i;
      for k := 0 to 8
        invariant c == Shifts(i, k)
      {
        c := if c % 2 == 1 then Xor(POLY, c / 2) else c / 2;
      }
      ghost var before := table[..];
      var next := i + 1;
      table[i] := c;
      forall j: nat | j < next ensures TableAt(table[..], j) {
        assert j < i ==> TableAt(before, j);
      }
    }
  }

  /** One byte through the table. */
  method Lookup(table: array<nat>, crc: nat, b: byte) returns (r: nat)
    requires table.Length == TABLE_SIZE && TableOk(table[..])
    ensures r == Shifts(Xor(crc, b), 8)
  {
    var index := Xor(crc, b) % 256;
    assert TableAt(table[..], index);
    r := Xor(table[index], crc / 256);
    LookupStep(Xor(crc, b));
    Pow2Words();
    XorHigh(crc, b, 8);
  }

  /** The C core: `table` is the static table, built on first use; `None` is a null pointer. */
  method Crc32(table: array<nat>, ready: bool, input: Option<seq<byte>>) returns (r: nat)
    requires table.Length == TABLE_SIZE && (ready ==> TableOk(table[..]))
    modifies table
    ensures input.None? ==> r == 0 && table[..] == old(table[..])
    ensures input.Some? ==> TableOk(table[..]) && r == Xor(BitByBit(ALL_ONES, input.value), ALL_ONES)
  {
    if input.None? {
      return 0;
    }
    var data := input.value;
    if !ready {
      BuildTable(table);
    }
    var crc := ALL_ONES;
    for i := 0 to |data|
      invariant TableOk(table[..])
      invariant crc == BitByBit(ALL_ONES, data[..i])
    {
      assert data[..i + 1][..i] == data[..i];
      crc := Lookup(table, crc, data[i]);
    }
    assert data[..|data|] == data;
    r := Xor(crc, ALL_ONES);
  }

  /** The fallback: no table at all. */
  method Crc32Python(data: seq<byte>) returns (r: nat)
    ensures r == Xor(BitByBit(ALL_ONES, data), ALL_ONES)
  {
    var crc := ALL_ONES;
    for i := 0 to |data|
      invariant crc == BitByBit(ALL_ONES, data[..i])
    {
      crc := Xor(crc, data[i]);
      ghost var start := crc;
      for k := 0 to 8
        invariant crc == Shifts(start, k)
      {
        XorComm(crc / 2, POLY);
        XorZero(crc / 2);
        crc := Xor(crc / 2, if crc % 2 == 1 then POLY else 0);
      }
      assert data[..i + 1][..i] == data[..i];
    }
    assert data[..|data|] == data;
    r := Xor(crc, ALL_ONES);
  }
}
