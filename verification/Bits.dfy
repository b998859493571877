/** Exclusive or on natural numbers, bit by bit. */
module Bits {
  function Xor(a: nat, b: nat): nat
    decreases a + b
  {
    if a == 0 && b == 0 then 0 else 2 * Xor(a / 2, b / 2) + (a + b) % 2
  }

  /** A number is its lowest bit and the rest. */
  lemma XorStep(a: nat, b: nat)
    ensures Xor(a, b) / 2 == Xor(a / 2, b / 2) && Xor(a, b) % 2 == (a + b) % 2
  {
  }

  lemma SameBits(x: nat, y: nat)
    requires x / 2 == y / 2 && x % 2 == y % 2
    ensures x == y
  {
  }

  lemma {:induction false} XorComm(a: nat, b: nat)
    ensures Xor(a, b) == Xor(b, a)
    decreases a + b
  {
    if a + b > 0 {
      XorComm(a / 2, b / 2);
      XorStep(a, b);
      XorStep(b, a);
      SameBits(Xor(a, b), Xor(b, a));
    }
  }

  lemma Parity(a: nat, b: nat, c: nat, ab: nat, bc: nat)
    requires ab % 2 == (a + b) % 2 && bc % 2 == (b + c) % 2
    ensures (ab + c) % 2 == (a + bc) % 2
  {
  }

  lemma {:induction false} XorAssoc(a: nat, b: nat, c: nat)
    ensures Xor(Xor(a, b), c) == Xor(a, Xor(b, c))
    decreases a + b + c
  {
    if a + b + c > 0 {
      XorAssoc(a / 2, b / 2, c / 2);
      XorStep(a, b);
      XorStep(b, c);
      XorStep(Xor(a, b), c);
      XorStep(a, Xor(b, c));
      Parity(a, b, c, Xor(a, b), Xor(b, c));
      SameBits(Xor(Xor(a, b), c), Xor(a, Xor(b, c)));
    }
  }

  lemma {:induction false} XorZero(a: nat)
    ensures Xor(a, 0) == a && Xor(0, a) == a && Xor(a, a) == 0
    decreases a
  {
    if a > 0 {
      XorZero(a / 2);
      XorStep(a, 0);
      XorStep(0, a);
      XorStep(a, a);
      SameBits(Xor(a, a), 0);
    }
  }

  /** Exclusive or with the same value twice gives back the first. */
  lemma XorBack(a: nat, b: nat)
    ensures Xor(Xor(a, b), b) == a
  {
    XorAssoc(a, b, b);
    XorZero(b);
    XorZero(a);
  }

  ghost function Pow2(k: nat): (p: nat)
    ensures p > 0
  {
    if k == 0 then 1 else 2 * Pow2(k - 1)
  }

  lemma Doubled(h: nat, k: nat)
    requires k > 0
    ensures h * Pow2(k) == 2 * (h * Pow2(k - 1))
  {
  }

  lemma Pow2Words()
    ensures Pow2(8) == 256 && Pow2(32) == 0x1_0000_0000
  {
    assert Pow2(4) == 16;
    assert Pow2(8) == 256;
    assert Pow2(12) == 4096;
    assert Pow2(16) == 0x1_0000;
    assert Pow2(20) == 0x10_0000;
    assert Pow2(24) == 0x100_0000;
    assert Pow2(28) == 0x1000_0000;
  }

  /** No bits appear above those of the operands. */
  lemma {:induction false} XorBound(a: nat, b: nat, k: nat)
    requires a < Pow2(k) && b < Pow2(k)
    ensures Xor(a, b) < Pow2(k)
    decreases k
  {
    if k > 0 {
      XorBound(a / 2, b / 2, k - 1);
      XorStep(a, b);
    } else {
      XorZero(0);
    }
  }

  /** Bits on either side of position `k` do not meet. */
  lemma {:induction false} XorDisjoint(low: nat, high: nat, k: nat)
    requires low < Pow2(k)
    ensures Xor(low, high * Pow2(k)) == low + high * Pow2(k)
    decreases k
  {
    if k == 0 {
      XorZero(high);
    } else {
      var half := high * Pow2(k - 1);
      Doubled(high, k);
      XorDisjoint(low / 2, high, k - 1);
      XorStep(low, 2 * half);
      SameBits(Xor(low, 2 * half), low + 2 * half);
    }
  }

  /** Exclusive or with a number below two to the `k` keeps the bits from `k` up. */
  lemma {:induction false} XorHigh(a: nat, b: nat, k: nat)
    requires b < Pow2(k)
    ensures Xor(a, b) / Pow2(k) == a / Pow2(k)
    decreases k
  {
    if k == 0 {
      XorZero(a);
    } else {
      XorHigh(a / 2, b / 2, k - 1);
      XorStep(a, b);
      DivTwice(Xor(a, b), Pow2(k - 1));
      DivTwice(a, Pow2(k - 1));
    }
  }

  lemma DivTwice(a: nat, p: nat)
    requires p > 0
    ensures a / (2 * p) == a / 2 / p
  {
    var q := a / 2 / p;
    var r := a / 2 - p * q;
    assert 0 <= r < p;
    assert a == 2 * p * q + (2 * r + a % 2);
    Quotient(a, 2 * p, q, 2 * r + a % 2);
  }

  lemma Quotient(a: nat, d: nat, q: nat, r: nat)
    requires d > 0 && r < d && a == d * q + r
    ensures a / d == q
  {
    var gap: int := q - a / d;
    assert d * gap == a % d - r;
    assert gap >= 1 ==> d * gap >= d;
    assert gap <= -1 ==> d * gap + d <= 0;
  }

  // ------------------------------------------------------------------ products without carries

  lemma XorDouble(a: nat, b: nat)
    ensures Xor(2 * a, 2 * b) == 2 * Xor(a, b)
  {
    Even(a);
    Even(b);
    Even(a + b);
    XorStep(2 * a, 2 * b);
    SameBits(Xor(2 * a, 2 * b), 2 * Xor(a, b));
  }

  lemma Even(a: nat)
    ensures 2 * a / 2 == a && 2 * a % 2 == 0
  {
  }

  /** `x` moved up by `k` bits. */
  ghost function Up(x: nat, k: nat): nat {
    if k == 0 then x else 2 * Up(x, k - 1)
  }

  lemma {:induction false} UpXor(a: nat, b: nat, k: nat)
    ensures Xor(Up(a, k), Up(b, k)) == Up(Xor(a, b), k)
  {
    if k > 0 {
      UpXor(a, b, k - 1);
      XorDouble(Up(a, k - 1), Up(b, k - 1));
    }
  }

  lemma {:induction false} UpTwice(x: nat, j: nat, k: nat)
    ensures Up(Up(x, j), k) == Up(x, j + k)
  {
    if k > 0 {
      UpTwice(x, j, k - 1);
    }
  }

  lemma {:induction false} UpSame(x: nat, y: nat, k: nat)
    requires Up(x, k) == Up(y, k)
    ensures x == y
  {
    if k > 0 {
      UpSame(x, y, k - 1);
    }
  }

  /** Below the moved bits there is room: nothing meets there, and nothing grows longer than both together. */
  lemma {:induction false} UpRoom(low: nat, high: nat, j: nat, k: nat)
    requires low < Pow2(k) && high < Pow2(j)
    ensures Xor(low, Up(high, k)) == low + Up(high, k) < Pow2(j + k)
    decreases k
  {
    if k == 0 {
      XorZero(high);
    } else {
      UpRoom(low / 2, high, j, k - 1);
      XorStep(low, Up(high, k));
      SameBits(Xor(low, Up(high, k)), low + Up(high, k));
    }
  }

  /** Two pairs exchange their partners. */
  lemma XorPairs(a: nat, b: nat, c: nat, d: nat)
    ensures Xor(Xor(a, b), Xor(c, d)) == Xor(Xor(a, c), Xor(b, d))
  {
    XorAssoc(a, b, Xor(c, d));
    XorAssoc(b, c, d);
    XorComm(b, c);
    XorAssoc(c, b, d);
    XorAssoc(a, c, Xor(b, d));
  }

  lemma XorEqual(a: nat, b: nat)
    requires Xor(a, b) == 0
    ensures a == b
  {
    XorBack(a, b);
    XorZero(b);
  }

  ghost function Chosen(odd: bool, g: nat): nat {
    if odd then g else 0
  }

  /** The product of two polynomials over the field of two elements, a number's bits being the coefficients. */
  ghost function Mul(q: nat, g: nat): nat {
    if q == 0 then 0 else Xor(Chosen(q % 2 == 1, g), 2 * Mul(q / 2, g))
  }

  lemma MulStep(q: nat, g: nat)
    ensures Mul(q, g) == Xor(Chosen(q % 2 == 1, g), 2 * Mul(q / 2, g))
  {
    if q == 0 {
      XorZero(0);
    }
  }

  lemma ChosenLinear(i: bool, j: bool, g: nat)
    ensures Chosen(i != j, g) == Xor(Chosen(i, g), Chosen(j, g))
  {
    XorZero(g);
    XorZero(0);
  }

  lemma OddSum(a: nat, b: nat)
    ensures ((a + b) % 2 == 1) == ((a % 2 == 1) != (b % 2 == 1))
  {
  }

  lemma ParityOfXor(p: nat, q: nat)
    ensures (Xor(p, q) % 2 == 1) == ((p % 2 == 1) != (q % 2 == 1))
  {
    XorStep(p, q);
    OddSum(p, q);
  }

  lemma {:induction false} MulLinear(p: nat, q: nat, g: nat)
    ensures Mul(Xor(p, q), g) == Xor(Mul(p, g), Mul(q, g))
    decreases p + q
  {
    if p + q > 0 {
      MulLinear(p / 2, q / 2, g);
      XorStep(p, q);
      ParityOfXor(p, q);
      MulStep(p, g);
      MulStep(q, g);
      MulStep(Xor(p, q), g);
      MulSum(p % 2 == 1, q % 2 == 1, Mul(p / 2, g), Mul(q / 2, g), g);
    } else {
      XorZero(0);
    }
  }

  lemma MulSum(i: bool, j: bool, x: nat, y: nat, g: nat)
    ensures Xor(Chosen(i != j, g), 2 * Xor(x, y)) == Xor(Xor(Chosen(i, g), 2 * x), Xor(Chosen(j, g), 2 * y))
  {
    ChosenLinear(i, j, g);
    XorDouble(x, y);
    XorPairs(Chosen(i, g), 2 * x, Chosen(j, g), 2 * y);
  }

  lemma MulEven(q: nat, g: nat)
    ensures Mul(2 * q, g) == 2 * Mul(q, g)
  {
    MulStep(2 * q, g);
    XorZero(2 * Mul(q, g));
  }

  lemma {:induction false} MulUp(q: nat, g: nat, k: nat)
    ensures Mul(Up(q, k), g) == Up(Mul(q, g), k)
  {
    if k > 0 {
      MulUp(q, g, k - 1);
      MulEven(Up(q, k - 1), g);
    }
  }

  lemma MulParity(q: nat, g: nat)
    requires g % 2 == 1
    ensures Mul(q, g) % 2 == q % 2
  {
    MulStep(q, g);
    XorStep(Chosen(q % 2 == 1, g), 2 * Mul(q / 2, g));
  }

  /** A multiple of an odd number by less than two to the `k` has a bit set below position `k`. */
  lemma {:induction false} LowBit(q: nat, g: nat, k: nat, h: nat)
    requires g % 2 == 1 && q < Pow2(k) && Mul(q, g) == Up(h, k)
    ensures q == 0
  {
    if k > 0 {
      MulParity(q, g);
      MulEven(q / 2, g);
      assert q == 2 * (q / 2);
      LowBit(q / 2, g, k - 1, h);
    }
  }

  /** Quotient `q` of `k` bits and remainder `r` fit `m` and the divisor `g`. */
  ghost predicate Fits(m: nat, k: nat, g: nat, q: nat, r: nat) {
    q < Pow2(k) && Xor(m, Mul(q, g)) == Up(r, k)
  }

  /** By an odd divisor there is only one. */
  lemma RemainderUnique(m: nat, g: nat, k: nat, p: nat, x: nat, q: nat, y: nat)
    requires g % 2 == 1 && Fits(m, k, g, p, x) && Fits(m, k, g, q, y)
    ensures p == q && x == y
  {
    XorPairs(m, Mul(p, g), m, Mul(q, g));
    XorZero(m);
    XorZero(Xor(Mul(p, g), Mul(q, g)));
    MulLinear(p, q, g);
    UpXor(x, y, k);
    XorBound(p, q, k);
    LowBit(Xor(p, q), g, k, Xor(x, y));
    XorEqual(p, q);
    UpSame(x, y, k);
  }

  lemma OneRemainder(m: nat, g: nat, k: nat, q: nat, x: nat, r: nat)
    requires g % 2 == 1 && Fits(m, k, g, q, x)
    ensures (exists p: nat :: Fits(m, k, g, p, r)) <==> r == x
  {
    if p: nat :| Fits(m, k, g, p, r) {
      RemainderUnique(m, g, k, p, r, q, x);
    }
  }
}
