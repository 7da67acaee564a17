/** Bitwise operators of a w-bit machine word, on the number the word denotes. */
module Bits {
  function Pow2(k: nat): (r: nat)
    ensures r >= 1
  {
    if k == 0 then 1 else 2 * Pow2(k - 1)
  }

  /** a & b */
  function And(w: nat, a: nat, b: nat): (r: nat)
    ensures r <= a && r <= b
  {
    if w == 0 then 0
    else (if a % 2 == 1 && b % 2 == 1 then 1 else 0) + 2 * And(w - 1, a / 2, b / 2)
  }

  /** a ^ b */
  function BitXor(w: nat, a: nat, b: nat): (r: nat)
    ensures r < Pow2(w)
  {
    if w == 0 then 0 else (a + b) % 2 + 2 * BitXor(w - 1, a / 2, b / 2)
  }

  /** The number of one bits. */
  function Ones(w: nat, a: nat): (r: nat)
    ensures r <= w
  {
    if w == 0 then 0 else a % 2 + Ones(w - 1, a / 2)
  }

  lemma LowBit(bit: nat, rest: nat)
    requires bit < 2
    ensures (bit + 2 * rest) % 2 == bit && (bit + 2 * rest) / 2 == rest
  {
  }

  lemma XorStep(k: nat, a: nat, m: nat)
    requires k > 0
    ensures BitXor(k, a, m) == (a + m) % 2 + 2 * BitXor(k - 1, a / 2, m / 2)
  {
  }

  lemma {:induction false} XorTwiceWord(w: nat, a: nat, m: nat)
    requires a < Pow2(w)
    ensures BitXor(w, BitXor(w, a, m), m) == a
  {
    if w > 0 {
      hide BitXor;
      var x := BitXor(w, a, m);
      XorStep(w, a, m);
      LowBit((a + m) % 2, BitXor(w - 1, a / 2, m / 2));
      XorStep(w, x, m);
      XorTwiceWord(w - 1, a / 2, m / 2);
      XorBitTwice(x, a, m);
    }
  }

  lemma XorBitTwice(x: nat, a: nat, m: nat)
    requires x % 2 == (a + m) % 2
    ensures (x + m) % 2 == a % 2
  {
  }

  lemma {:induction false} XorZeroWord(w: nat, a: nat)
    requires a < Pow2(w)
    ensures BitXor(w, a, 0) == a
  {
    if w > 0 { XorZeroWord(w - 1, a / 2); }
  }

  lemma {:induction false} XorSelfWord(w: nat, a: nat)
    ensures BitXor(w, a, a) == 0
  {
    if w > 0 { XorSelfWord(w - 1, a / 2); }
  }

  lemma {:induction false} XorSymmetric(w: nat, a: nat, m: nat)
    ensures BitXor(w, a, m) == BitXor(w, m, a)
  {
    if w > 0 { XorSymmetric(w - 1, a / 2, m / 2); }
  }

  /** Two masks that act alike on one word are the same mask. */
  lemma {:induction false} XorInjectiveWord(w: nat, a: nat, m: nat, m': nat)
    requires m < Pow2(w) && m' < Pow2(w)
    requires BitXor(w, a, m) == BitXor(w, a, m')
    ensures m == m'
  {
    if w > 0 {
      LowBit((a + m) % 2, BitXor(w - 1, a / 2, m / 2));
      LowBit((a + m') % 2, BitXor(w - 1, a / 2, m' / 2));
      XorInjectiveWord(w - 1, a / 2, m / 2, m' / 2);
      XorBitInjective(a, m, m');
    }
  }

  lemma XorBitInjective(a: nat, m: nat, m': nat)
    requires (a + m) % 2 == (a + m') % 2
    ensures m % 2 == m' % 2
  {
  }

  lemma {:induction false} PowAdd(j: nat, k: nat)
    ensures Pow2(j + k) == Pow2(j) * Pow2(k)
  {
    if j > 0 {
      PowAdd(j - 1, k);
      assert Pow2(j + k) == 2 * Pow2(j - 1 + k);
      assert 2 * (Pow2(j - 1) * Pow2(k)) == (2 * Pow2(j - 1)) * Pow2(k);
    }
  }

  lemma {:induction false} PowMonotone(j: nat, k: nat)
    requires j <= k
    ensures Pow2(j) <= Pow2(k)
  {
    if j < k { PowMonotone(j, k - 1); }
  }

  lemma WordPowers()
    ensures Pow2(8) == 0x100 && Pow2(16) == 0x1_0000
    ensures Pow2(31) == 0x8000_0000 && Pow2(32) == 0x1_0000_0000
  {
    assert Pow2(8) == 256;
    PowAdd(8, 8);
    PowAdd(16, 16);
    assert Pow2(32) == 2 * Pow2(31);
  }

  // ----- Masks -----

  lemma MultipleOutside(e: int, d: int)
    requires d > 0
    ensures e == 0 || e * d >= d || e * d <= -d
  {
    if e >= 1 {
      assert (e - 1) * d >= 0;
    } else if e <= -1 {
      assert (-1 - e) * d >= 0;
    }
  }

  lemma DivModUnique(a: int, d: int, q: int, r: int)
    requires d > 0 && a == q * d + r && 0 <= r < d
    ensures a / d == q && a % d == r
  {
    var q', r' := a / d, a % d;
    assert a == d * q' + r' && 0 <= r' < d;
    var e := q' - q;
    assert e * d == d * q' - q * d;
    MultipleOutside(e, d);
  }

  /** The remainder by an even number, bit by bit. */
  lemma ModDouble(a: nat, m: nat)
    requires m > 0
    ensures a % (2 * m) == a % 2 + 2 * ((a / 2) % m)
  {
    var q, r := (a / 2) / m, (a / 2) % m;
    assert a / 2 == q * m + r;
    assert a == q * (2 * m) + (2 * r + a % 2);
    DivModUnique(a, 2 * m, q, 2 * r + a % 2);
  }

  lemma {:induction false} AndZero(w: nat, a: nat)
    ensures And(w, a, 0) == 0
  {
  }

  lemma {:induction false} AndOnes(w: nat, a: nat)
    requires a < Pow2(w)
    ensures And(w, a, Pow2(w) - 1) == a
  {
    if w > 0 {
      LowBit(1, Pow2(w - 1) - 1);
      AndOnes(w - 1, a / 2);
    }
  }

  lemma {:induction false} AndSelf(w: nat, a: nat)
    requires a < Pow2(w)
    ensures And(w, a, a) == a
  {
    if w > 0 { AndSelf(w - 1, a / 2); }
  }

  /** The number formed by the k low bits. */
  function Low(a: nat, k: nat): nat {
    if k == 0 then 0 else a % 2 + 2 * Low(a / 2, k - 1)
  }

  lemma {:induction false} LowIsRemainder(a: nat, k: nat)
    ensures Low(a, k) == a % Pow2(k)
  {
    if k > 0 {
      LowIsRemainder(a / 2, k - 1);
      ModDouble(a, Pow2(k - 1));
    }
  }

  lemma {:induction false} AndKeepsLow(w: nat, a: nat, k: nat)
    requires k <= w
    ensures And(w, a, Pow2(k) - 1) == Low(a, k)
  {
    if k > 0 {
      LowBit(1, Pow2(k - 1) - 1);
      AndKeepsLow(w - 1, a / 2, k - 1);
    } else {
      AndZero(w, a);
    }
  }

  lemma {:induction false} AndClearsLow(w: nat, a: nat, k: nat)
    requires k <= w && a < Pow2(w)
    ensures Pow2(k) <= Pow2(w)
    ensures And(w, a, Pow2(w) - Pow2(k)) + Low(a, k) == a
  {
    hide And, Low, Pow2;
    PowMonotone(k, w);
    if k == 0 {
      AndOnes(w, a);
      NoLowBits(a);
    } else {
      PowStep(w);
      PowStep(k);
      HalfFits(a, Pow2(w - 1));
      AndClearsLow(w - 1, a / 2, k - 1);
      AndEven(w, a, Pow2(w - 1) - Pow2(k - 1));
      LowStep(a, k);
      Halves(a);
    }
  }

  lemma PowStep(k: nat)
    requires k > 0
    ensures Pow2(k) == 2 * Pow2(k - 1)
  {
  }

  lemma HalfFits(a: nat, p: nat)
    requires a < 2 * p
    ensures a / 2 < p
  {
  }

  lemma LowStep(a: nat, k: nat)
    requires k > 0
    ensures Low(a, k) == a % 2 + 2 * Low(a / 2, k - 1)
  {
  }

  lemma NoLowBits(a: nat)
    ensures Low(a, 0) == 0 && Pow2(0) == 1
  {
  }

  lemma AndEven(w: nat, a: nat, half: nat)
    requires w > 0
    ensures And(w, a, 2 * half) == 2 * And(w - 1, a / 2, half)
  {
    LowBit(0, half);
    AndStep(w, a, 2 * half);
  }

  lemma Halves(a: nat)
    ensures a == a % 2 + 2 * (a / 2)
  {
  }

  lemma AndStep(w: nat, a: nat, b: nat)
    requires w > 0
    ensures And(w, a, b) == (if a % 2 == 1 && b % 2 == 1 then 1 else 0) + 2 * And(w - 1, a / 2, b / 2)
  {
  }

  /** Masking with 2^k - 1 is the remainder by 2^k. */
  lemma AndLowMask(w: nat, a: nat, k: nat)
    requires k <= w
    ensures And(w, a, Pow2(k) - 1) == a % Pow2(k)
  {
    AndKeepsLow(w, a, k);
    LowIsRemainder(a, k);
  }

  /** Masking with the complement of 2^k - 1 takes the remainder away. */
  lemma AndHighMask(w: nat, a: nat, k: nat)
    requires k <= w && a < Pow2(w)
    ensures Pow2(k) <= Pow2(w)
    ensures And(w, a, Pow2(w) - Pow2(k)) == a - a % Pow2(k)
  {
    AndClearsLow(w, a, k);
    LowIsRemainder(a, k);
  }

  /** The test (t & (t - 1)) == 0 holds of exactly the words with at most one bit set. */
  lemma {:induction false} AtMostOneBit(w: nat, t: nat)
    requires 0 < t < Pow2(w)
    ensures And(w, t, t - 1) == 0 <==> Ones(w, t) <= 1
  {
    if t % 2 == 1 {
      assert (t - 1) / 2 == t / 2 && (t - 1) % 2 == 0;
      AndSelf(w - 1, t / 2);
      NoOnes(w - 1, t / 2);
    } else {
      assert (t - 1) / 2 == t / 2 - 1 && (t - 1) % 2 == 1;
      AtMostOneBit(w - 1, t / 2);
    }
  }

  lemma {:induction false} NoOnes(w: nat, a: nat)
    requires a < Pow2(w)
    ensures Ones(w, a) == 0 <==> a == 0
  {
    if w > 0 { NoOnes(w - 1, a / 2); }
  }

  // ----- Bit by bit -----

  /** A bit of an exclusive-or is set exactly when the bits of the operands differ. */
  lemma {:induction false} XorBit(w: nat, a: nat, m: nat, k: nat)
    requires k < w
    ensures BitXor(w, a, m) / Pow2(k) % 2 == 1 <==> a / Pow2(k) % 2 != m / Pow2(k) % 2
  {
    hide BitXor, Pow2;
    var x := BitXor(w, a, m);
    XorStep(w, a, m);
    LowBit((a + m) % 2, BitXor(w - 1, a / 2, m / 2));
    if k == 0 {
      PowZero();
    } else {
      XorBit(w - 1, a / 2, m / 2, k - 1);
      PowStep(k);
      HalfDivision(x, Pow2(k - 1));
      HalfDivision(a, Pow2(k - 1));
      HalfDivision(m, Pow2(k - 1));
    }
  }

  /** A bit of a conjunction is set exactly when it is set in both operands. */
  lemma {:induction false} AndBit(w: nat, a: nat, b: nat, k: nat)
    requires k < w
    ensures And(w, a, b) / Pow2(k) % 2 == 1 <==> a / Pow2(k) % 2 == 1 && b / Pow2(k) % 2 == 1
  {
    hide And, Pow2;
    var x := And(w, a, b);
    AndStep(w, a, b);
    LowBit(if a % 2 == 1 && b % 2 == 1 then 1 else 0, And(w - 1, a / 2, b / 2));
    if k == 0 {
      PowZero();
    } else {
      AndBit(w - 1, a / 2, b / 2, k - 1);
      PowStep(k);
      HalfDivision(x, Pow2(k - 1));
      HalfDivision(a, Pow2(k - 1));
      HalfDivision(b, Pow2(k - 1));
    }
  }

  lemma PowZero()
    ensures Pow2(0) == 1
  {
  }

  lemma HalfDivision(a: nat, m: nat)
    requires m > 0
    ensures a / (2 * m) == (a / 2) / m
  {
    ModDouble(a, m);
    var q := (a / 2) / m;
    assert a / 2 == m * q + (a / 2) % m;
    assert a == q * (2 * m) + (2 * ((a / 2) % m) + a % 2);
    DivModUnique(a, 2 * m, q, 2 * ((a / 2) % m) + a % 2);
  }

  // ----- Low parts of words -----

  /** The low bits of an exclusive-or are that of the low bits. */
  lemma {:induction false} XorLow(w: nat, k: nat, a: nat, m: nat)
    requires k <= w
    ensures BitXor(w, a, m) % Pow2(k) == BitXor(k, a, m)
  {
    if k > 0 {
      hide BitXor, Pow2;
      var x := BitXor(w, a, m);
      XorStep(w, a, m);
      XorStep(k, a, m);
      PowStep(k);
      LowBit((a + m) % 2, BitXor(w - 1, a / 2, m / 2));
      XorLow(w - 1, k - 1, a / 2, m / 2);
      RemainderOf(x, (a + m) % 2, BitXor(w - 1, a / 2, m / 2), Pow2(k - 1));
    }
  }

  lemma RemainderOf(x: nat, bit: nat, rest: nat, p: nat)
    requires p > 0 && x % 2 == bit && x / 2 == rest
    ensures x % (2 * p) == bit + 2 * (rest % p)
  {
    ModDouble(x, p);
  }

  lemma {:induction false} XorIgnoresHigh(k: nat, a: nat, m: nat)
    ensures BitXor(k, a, m % Pow2(k)) == BitXor(k, a, m)
  {
    if k > 0 {
      hide BitXor;
      var low := m % Pow2(k);
      assert low == m % 2 + 2 * (m / 2 % Pow2(k - 1)) by { ModDouble(m, Pow2(k - 1)); }
      LowBit(m % 2, m / 2 % Pow2(k - 1));
      XorStep(k, a, low);
      XorStep(k, a, m);
      SameBit(a, low, m);
      XorIgnoresHigh(k - 1, a / 2, m / 2);
    } else {
      assert BitXor(0, a, m % Pow2(0)) == 0;
    }
  }

  lemma SameBit(a: nat, m: nat, m': nat)
    requires m % 2 == m' % 2
    ensures (a + m) % 2 == (a + m') % 2
  {
  }
}
