/** Exclusive or, shifts and masks on natural numbers, bit by bit. */
module Bitwise {

  function Pow2(k: nat): (p: nat)
    ensures p >= 1
  {
    if k == 0 then 1 else 2 * Pow2(k - 1)
  }

  lemma {:induction false} Pow2Grows(m: nat, n: nat)
    requires m <= n
    ensures Pow2(m) <= Pow2(n)
  {
    if m < n {
      Pow2Grows(m, n - 1);
    }
  }

  function Xor(a: nat, b: nat): nat {
    if a == 0 && b == 0 then 0 else (if a % 2 == b % 2 then 0 else 1) + 2 * Xor(a / 2, b / 2)
  }

  function Or(a: nat, b: nat): nat {
    if a == 0 && b == 0 then 0 else (if a % 2 == 1 || b % 2 == 1 then 1 else 0) + 2 * Or(a / 2, b / 2)
  }

  lemma {:induction false} OrZero(a: nat)
    ensures Or(a, 0) == a
  {
    if a > 0 {
      OrZero(a / 2);
    }
  }

  lemma OrAppend(high: nat, v: nat)
    requires Or(high, v / 2) == high + v / 2
    ensures Or(2 * high, v) == 2 * high + v
  {
  }

  /** `x << k` */
  function Shl(x: nat, k: nat): nat {
    if k == 0 then x else 2 * Shl(x, k - 1)
  }

  lemma TwiceProduct(p: int, q: int, x: int)
    requires p == 2 * q
    ensures p * x == 2 * (q * x)
  {
  }

  lemma {:induction false} ShlIsProduct(x: nat, k: nat)
    ensures Shl(x, k) == Pow2(k) * x
  {
    if k > 0 {
      ShlIsProduct(x, k - 1);
      TwiceProduct(Pow2(k), Pow2(k - 1), x);
    }
  }

  /** Where the low bits of one side are clear, or is addition. */
  lemma {:induction false} OrFillsLowBits(high: nat, v: nat, k: nat)
    requires v < Pow2(k)
    ensures Or(Shl(high, k), v) == Shl(high, k) + v
    decreases k
  {
    if k == 0 {
      OrZero(high);
    } else {
      OrFillsLowBits(high, v / 2, k - 1);
      OrAppend(Shl(high, k - 1), v);
    }
  }

  /** `x >> k` */
  function Shr(x: nat, k: nat): nat
    decreases k
  {
    if k == 0 then x else Shr(x / 2, k - 1)
  }

  /** `x & (1<<k - 1)` */
  function Low(x: nat, k: nat): nat
    decreases k
  {
    if k == 0 then 0 else x % 2 + 2 * Low(x / 2, k - 1)
  }

  predicate Bit(x: nat, j: nat) {
    Shr(x, j) % 2 == 1
  }

  lemma {:induction false} XorComm(a: nat, b: nat)
    ensures Xor(a, b) == Xor(b, a)
  {
    if a != 0 || b != 0 {
      XorComm(a / 2, b / 2);
    }
  }

  lemma XorHalves(a: nat, b: nat)
    ensures Xor(a, b) / 2 == Xor(a / 2, b / 2)
    ensures Xor(a, b) % 2 == if a % 2 == b % 2 then 0 else 1
  {
  }

  lemma SameHalves(x: nat, y: nat)
    requires x / 2 == y / 2 && x % 2 == y % 2
    ensures x == y
  {
  }

  lemma {:induction false} XorAssoc(a: nat, b: nat, c: nat)
    ensures Xor(Xor(a, b), c) == Xor(a, Xor(b, c))
    decreases a + b + c
  {
    if a + b + c > 0 {
      var ab, bc := Xor(a, b), Xor(b, c);
      XorHalves(a, b);
      XorHalves(b, c);
      XorHalves(ab, c);
      XorHalves(a, bc);
      XorAssoc(a / 2, b / 2, c / 2);
      SameHalves(Xor(ab, c), Xor(a, bc));
    }
  }

  lemma {:induction false} XorZero(a: nat)
    ensures Xor(a, 0) == a && Xor(0, a) == a
  {
    if a != 0 {
      XorZero(a / 2);
    }
  }

  lemma {:induction false} XorZeroIff(a: nat, b: nat)
    ensures Xor(a, b) == 0 <==> a == b
  {
    if a != 0 || b != 0 {
      XorZeroIff(a / 2, b / 2);
    }
  }

  lemma {:induction false} XorBound(a: nat, b: nat, k: nat)
    requires a < Pow2(k) && b < Pow2(k)
    ensures Xor(a, b) < Pow2(k)
    decreases k
  {
    if k > 0 {
      XorBound(a / 2, b / 2, k - 1);
    }
  }

  /** (a ^ b) ^ (c ^ d) == (a ^ c) ^ (b ^ d) */
  lemma XorPairs(a: nat, b: nat, c: nat, d: nat)
    ensures Xor(Xor(a, b), Xor(c, d)) == Xor(Xor(a, c), Xor(b, d))
  {
    XorAssoc(a, b, Xor(c, d));
    XorAssoc(b, c, d);
    XorComm(b, c);
    XorAssoc(c, b, d);
    XorAssoc(a, c, Xor(b, d));
  }

  lemma {:induction false} XorShr(a: nat, b: nat, k: nat)
    ensures Shr(Xor(a, b), k) == Xor(Shr(a, k), Shr(b, k))
    decreases k
  {
    if k > 0 {
      XorHalves(a, b);
      XorShr(a / 2, b / 2, k - 1);
    }
  }

  lemma {:induction false} XorLow(a: nat, b: nat, k: nat)
    ensures Low(Xor(a, b), k) == Xor(Low(a, k), Low(b, k))
    decreases k
  {
    if k > 0 {
      XorHalves(a, b);
      XorLow(a / 2, b / 2, k - 1);
      XorAppend(Low(a / 2, k - 1), Low(b / 2, k - 1), a % 2, b % 2);
    }
  }

  lemma XorAppend(a: nat, b: nat, x: nat, y: nat)
    requires x < 2 && y < 2
    ensures Xor(x + 2 * a, y + 2 * b) == (if x == y then 0 else 1) + 2 * Xor(a, b)
  {
  }

  lemma XorTwice(a: nat, b: nat)
    ensures Xor(2 * a, 2 * b) == 2 * Xor(a, b)
  {
    XorAppend(a, b, 0, 0);
  }

  lemma XorTimes32(a: nat, b: nat)
    ensures Xor(32 * a, 32 * b) == 32 * Xor(a, b)
  {
    XorTwice(16 * a, 16 * b);
    XorTimes4(4 * a, 4 * b);
    XorTimes4(a, b);
  }

  lemma XorTimes4(a: nat, b: nat)
    ensures Xor(4 * a, 4 * b) == 4 * Xor(a, b)
  {
    XorTwice(2 * a, 2 * b);
    XorTwice(a, b);
  }

  /** Where the bits do not overlap, exclusive or is addition. */
  lemma XorDisjointBit(high: nat, v: nat)
    requires Xor(high, v / 2) == high + v / 2
    ensures Xor(2 * high, v) == 2 * high + v
  {
  }

  lemma XorAppendSymbol(a: nat, v: nat)
    requires v < 32
    ensures Xor(32 * a, v) == 32 * a + v
  {
    var v1 := v / 2;
    var v2 := v1 / 2;
    var v3 := v2 / 2;
    var v4 := v3 / 2;
    XorZero(a);
    XorDisjointBit(a, v4);
    XorDisjointBit(2 * a, v3);
    XorDisjointBit(2 * (2 * a), v2);
    XorDisjointBit(2 * (2 * (2 * a)), v1);
    XorDisjointBit(2 * (2 * (2 * (2 * a))), v);
    assert 2 * (2 * (2 * (2 * (2 * a)))) == 32 * a;
  }

  lemma BitXor(a: nat, b: nat, j: nat)
    ensures Bit(Xor(a, b), j) <==> Bit(a, j) != Bit(b, j)
  {
    XorShr(a, b, j);
    XorHalves(Shr(a, j), Shr(b, j));
  }

  lemma {:induction false} SmallFits(x: nat, k: nat)
    requires x < Pow2(k)
    ensures Low(x, k) == x && Shr(x, k) == 0
    decreases k
  {
    if k > 0 {
      SmallFits(x / 2, k - 1);
    }
  }

  lemma {:induction false} LowBound(x: nat, k: nat)
    ensures Low(x, k) < Pow2(k)
    decreases k
  {
    if k > 0 {
      LowBound(x / 2, k - 1);
    }
  }

  /** Only the bits above `k` are left after the shift. */
  lemma {:induction false} ShrBound(x: nat, k: nat, n: nat)
    requires x < Pow2(k + n)
    ensures Shr(x, k) < Pow2(n)
    decreases k
  {
    if k > 0 {
      ShrBound(x / 2, k - 1, n);
    }
  }

  lemma MulTwice(p: nat, q: nat)
    ensures (2 * p) * q == 2 * (p * q)
  {
  }

  /** A number is its low part and what the shift leaves. */
  lemma {:induction false} SplitAt(x: nat, k: nat)
    ensures x == Low(x, k) + Pow2(k) * Shr(x, k)
    decreases k
  {
    if k > 0 {
      SplitAt(x / 2, k - 1);
      MulTwice(Pow2(k - 1), Shr(x / 2, k - 1));
    }
  }
}
