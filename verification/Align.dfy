/** The rounding macros of align.h: bit masks on machine words, against arithmetic rounding
    to multiples. A macro takes the width of its operand from its argument, so each function
    here takes the width: 32 for a DWORD count, 64 for a pointer. */
module Align {
  import opened Bits

  // ----- Arithmetic rounding -----

  ghost predicate IsMultiple(m: int, p: nat)
    requires p > 0
  {
    m % p == 0
  }

  function Floor(a: nat, p: nat): nat
    requires p > 0
  {
    a - a % p
  }

  function Ceiling(a: nat, p: nat): nat
    requires p > 0
  {
    Floor(a + (p - 1), p)
  }

  lemma MultipleOf(f: int, p: nat)
    requires p > 0
    ensures IsMultiple(f * p, p)
  {
    DivModUnique(f * p, p, f, 0);
  }

  /** Two different multiples are at least p apart. */
  lemma MultiplesApart(m: int, m': int, p: nat)
    requires p > 0 && IsMultiple(m, p) && IsMultiple(m', p) && m < m'
    ensures m + p <= m'
  {
    var d := m' / p - m / p;
    assert m == p * (m / p) && m' == p * (m' / p);
    assert m' - m == d * p;
    MultipleOutside(d, p);
  }

  lemma MultipleThrough(m: int, q: nat, p: nat)
    requires p > 0 && q > 0 && IsMultiple(m, q) && IsMultiple(q, p)
    ensures IsMultiple(m, p)
  {
    var a, b := m / q, q / p;
    assert m == q * a && q == p * b;
    assert m == (b * a) * p;
    MultipleOf(b * a, p);
  }

  /** Rounding down gives the greatest multiple that is not above. */
  lemma FloorIsGreatest(a: nat, p: nat)
    requires p > 0
    ensures IsMultiple(Floor(a, p), p) && Floor(a, p) <= a < Floor(a, p) + p
    ensures forall m: int :: IsMultiple(m, p) && m <= a ==> m <= Floor(a, p)
  {
    assert a == p * (a / p) + a % p;
    assert Floor(a, p) == (a / p) * p;
    MultipleOf(a / p, p);
    forall m: int | IsMultiple(m, p) && m <= a
      ensures m <= Floor(a, p)
    {
      if Floor(a, p) < m { MultiplesApart(Floor(a, p), m, p); }
    }
  }

  /** Rounding up gives the least multiple that is not below. */
  lemma CeilingIsLeast(a: nat, p: nat)
    requires p > 0
    ensures IsMultiple(Ceiling(a, p), p) && a <= Ceiling(a, p) < a + p
    ensures forall m: int :: IsMultiple(m, p) && a <= m ==> Ceiling(a, p) <= m
  {
    FloorIsGreatest(a + (p - 1), p);
    forall m: int | IsMultiple(m, p) && a <= m
      ensures Ceiling(a, p) <= m
    {
      if m < Ceiling(a, p) { MultiplesApart(m, Ceiling(a, p), p); }
    }
  }

  lemma PreviousMultiple(m: int, p: nat)
    requires p > 0 && IsMultiple(m, p)
    ensures IsMultiple(m - p, p)
  {
    var q := m / p;
    assert m == p * q;
    assert m - p == (q - 1) * p;
    DivModUnique(m - p, p, q - 1, 0);
  }

  lemma FloorIs(a: nat, p: nat, r: nat)
    requires p > 0 && IsMultiple(r, p) && r <= a < r + p
    ensures Floor(a, p) == r
  {
    FloorIsGreatest(a, p);
    if r < Floor(a, p) { MultiplesApart(r, Floor(a, p), p); }
  }

  lemma CeilingIs(a: nat, p: nat, r: nat)
    requires p > 0 && IsMultiple(r, p) && a <= r < a + p
    ensures Ceiling(a, p) == r
  {
    FloorIs(a + (p - 1), p, r);
  }

  lemma PowerIsMultiple(j: nat, k: nat)
    requires j <= k
    ensures IsMultiple(Pow2(k), Pow2(j))
  {
    PowAdd(k - j, j);
    assert k - j + j == k;
    MultipleOf(Pow2(k - j), Pow2(j));
  }

  // ----- The macros -----

  /** The C conversion of a signed value to an unsigned word of w bits: sign extension. */
  function Converted(w: nat, x: int): nat
    requires 0 <= Pow2(w) + x
  {
    if x >= 0 then x else Pow2(w) + x
  }

  /** ~(((LONG)(Pow2))-1), as the LONG it is. */
  function LongMask(pow2: nat): int {
    -(pow2 - 1) - 1
  }

  lemma MaskValue(w: nat, k: nat)
    requires k < w
    ensures 0 <= Pow2(w) + LongMask(Pow2(k))
    ensures Converted(w, LongMask(Pow2(k))) == Pow2(w) - Pow2(k)
  {
    Room(w, k);
  }

  /** COUNT_IS_ALIGNED and POINTER_IS_ALIGNED */
  function IsAligned(w: nat, count: nat, pow2: nat): bool
    requires pow2 > 0
  {
    And(w, count, pow2 - 1) == 0
  }

  /** ROUND_DOWN_COUNT and ROUND_DOWN_POINTER */
  function RoundDown(w: nat, count: nat, pow2: nat): nat
    requires pow2 <= Pow2(w)
  {
    And(w, count, Converted(w, LongMask(pow2)))
  }

  /** ROUND_UP_COUNT and ROUND_UP_POINTER: the sum wraps at the operand's width. */
  function RoundUp(w: nat, count: nat, pow2: nat): nat
    requires 0 < pow2 <= Pow2(w)
  {
    And(w, (count + pow2 - 1) % Pow2(w), Converted(w, LongMask(pow2)))
  }

  /** A word of w bits, and an alignment 2^k that a LONG can hold with its successor. */
  ghost predicate Operands(w: nat, count: nat, k: nat) {
    w >= 32 && count < Pow2(w) && k <= 30
  }

  lemma Room(w: nat, k: nat)
    requires k < w
    ensures 2 * Pow2(k) <= Pow2(w)
  {
    PowMonotone(k + 1, w);
  }

  /** ROUND_DOWN is rounding down, on every word. */
  lemma RoundDownIsFloor(w: nat, count: nat, k: nat)
    requires Operands(w, count, k)
    ensures Pow2(k) <= Pow2(w)
    ensures RoundDown(w, count, Pow2(k)) == Floor(count, Pow2(k))
  {
    hide And, Pow2;
    MaskValue(w, k);
    AndHighMask(w, count, k);
  }

  /** Above this bound the sum of ROUND_UP wraps. */
  ghost predicate NoWrap(w: nat, count: nat, k: nat) {
    count <= Pow2(w) - Pow2(k)
  }

  /** What ROUND_UP computes on every word: the rounded value, or zero when that is 2^w. */
  lemma RoundUpValue(w: nat, count: nat, k: nat)
    requires Operands(w, count, k)
    ensures Pow2(k) <= Pow2(w)
    ensures RoundUp(w, count, Pow2(k)) == if NoWrap(w, count, k) then Ceiling(count, Pow2(k)) else 0
    ensures !NoWrap(w, count, k) ==> Ceiling(count, Pow2(k)) == Pow2(w)
  {
    hide And, Pow2, Ceiling, Floor;
    Room(w, k);
    WrappedSum(Pow2(w), count, Pow2(k));
    MaskValue(w, k);
    AndHighMask(w, (count + Pow2(k) - 1) % Pow2(w), k);
    if !NoWrap(w, count, k) {
      PowerIsMultiple(k, w);
      CeilingIs(count, Pow2(k), Pow2(w));
    }
  }

  lemma WrappedSum(top: nat, count: nat, p: nat)
    requires 0 < p <= top && count < top
    ensures (count + p - 1) % top < top
    ensures var sum := (count + p - 1) % top;
            sum - sum % p == if count <= top - p then Ceiling(count, p) else 0
  {
    var sum := count + p - 1;
    if count <= top - p {
      DivModUnique(sum, top, 0, sum);
    } else {
      DivModUnique(sum, top, 1, sum - top);
      DivModUnique(sum - top, p, 0, sum - top);
    }
  }

  /** ROUND_UP agrees with arithmetic rounding exactly up to the bound, and is zero above. */
  lemma RoundUpIsCeilingIff(w: nat, count: nat, k: nat)
    requires Operands(w, count, k)
    ensures Pow2(k) <= Pow2(w)
    ensures RoundUp(w, count, Pow2(k)) == Ceiling(count, Pow2(k)) <==> NoWrap(w, count, k)
    ensures RoundUp(w, count, Pow2(k)) == 0 <==> count == 0 || !NoWrap(w, count, k)
  {
    RoundUpValue(w, count, k);
    CeilingIsZeroIff(count, Pow2(k));
  }

  lemma CeilingIsZeroIff(a: nat, p: nat)
    requires p > 0
    ensures Ceiling(a, p) == 0 <==> a == 0
  {
    CeilingIsLeast(a, p);
    if a == 0 {
      MultipleOf(0, p);
      CeilingIs(0, p, 0);
    }
  }

  lemma IsAlignedIff(w: nat, count: nat, k: nat)
    requires Operands(w, count, k)
    ensures IsAligned(w, count, Pow2(k)) <==> IsMultiple(count, Pow2(k))
  {
    AndLowMask(w, count, k);
  }

  /** Rounding down and rounding up agree on exactly the aligned words. */
  lemma RoundingsAgreeIff(w: nat, count: nat, k: nat)
    requires Operands(w, count, k)
    ensures Pow2(k) <= Pow2(w)
    ensures RoundDown(w, count, Pow2(k)) == RoundUp(w, count, Pow2(k)) <==> IsAligned(w, count, Pow2(k))
  {
    var p := Pow2(k);
    Room(w, k);
    RoundDownIsFloor(w, count, k);
    RoundUpValue(w, count, k);
    IsAlignedIff(w, count, k);
    FloorIsGreatest(count, p);
    if IsMultiple(count, p) {
      FloorIs(count, p, count);
      CeilingIs(count, p, count);
      if !NoWrap(w, count, k) {
        PowerIsMultiple(k, w);
        MultiplesApart(count, Pow2(w), p);
      }
    } else {
      CeilingIsLeast(count, p);
    }
  }

  function Max(a: nat, b: nat): nat {
    if a < b then b else a
  }

  lemma CeilingTwice(count: nat, j: nat, k: nat)
    ensures Ceiling(Ceiling(count, Pow2(j)), Pow2(k)) == Ceiling(count, Pow2(Max(j, k)))
  {
    var p, q := Pow2(j), Pow2(k);
    var up := Ceiling(count, p);
    CeilingIsLeast(count, p);
    if k <= j {
      PowerIsMultiple(k, j);
      MultipleThrough(up, p, q);
      CeilingIs(up, q, up);
    } else {
      PowerIsMultiple(j, k);
      CeilingIsLeast(count, q);
      var top := Ceiling(count, q);
      MultipleThrough(top, q, p);
      assert up <= top;
      CeilingIs(up, q, top);
    }
  }

  /** Rounding up to p and then to q is rounding up once to the larger, on every word: where
      one of the sums wraps, both sides are zero. With p equal to q, rounding is idempotent. */
  lemma RoundUpTwice(w: nat, count: nat, j: nat, k: nat)
    requires Operands(w, count, j) && Operands(w, count, k)
    ensures Pow2(j) <= Pow2(w) && Pow2(k) <= Pow2(w) && Pow2(Max(j, k)) <= Pow2(w)
    ensures RoundUp(w, RoundUp(w, count, Pow2(j)), Pow2(k)) == RoundUp(w, count, Pow2(Max(j, k)))
  {
    RoundUpValue(w, count, j);
    RoundUpValue(w, count, Max(j, k));
    PowMonotone(j, Max(j, k));
    if NoWrap(w, count, j) {
      var up := Ceiling(count, Pow2(j));
      UpStaysInWord(w, count, j);
      RoundUpValue(w, up, k);
      CeilingTwice(count, j, k);
      WrapsAlike(w, count, j, k);
    } else {
      RoundUpValue(w, 0, k);
      CeilingIsZeroIff(0, Pow2(k));
    }
  }

  lemma FloorTwice(count: nat, j: nat, k: nat)
    ensures Floor(Floor(count, Pow2(j)), Pow2(k)) == Floor(count, Pow2(Max(j, k)))
  {
    hide Floor, Pow2;
    var p, q := Pow2(j), Pow2(k);
    var down := Floor(count, p);
    FloorIsGreatest(count, p);
    if k <= j {
      PowerIsMultiple(k, j);
      MultipleThrough(down, p, q);
      FloorIs(down, q, down);
    } else {
      PowerIsMultiple(j, k);
      FloorIsGreatest(count, q);
      var bottom := Floor(count, q);
      MultipleThrough(bottom, q, p);
      FloorIs(down, q, bottom);
    }
  }

  /** The same for rounding down, which never wraps. */
  lemma RoundDownTwice(w: nat, count: nat, j: nat, k: nat)
    requires Operands(w, count, j) && Operands(w, count, k)
    ensures Pow2(j) <= Pow2(w) && Pow2(k) <= Pow2(w) && Pow2(Max(j, k)) <= Pow2(w)
    ensures RoundDown(w, RoundDown(w, count, Pow2(j)), Pow2(k)) == RoundDown(w, count, Pow2(Max(j, k)))
  {
    hide And, Pow2, RoundDown;
    RoundDownIsFloor(w, count, j);
    RoundDownIsFloor(w, count, Max(j, k));
    RoundDownIsFloor(w, Floor(count, Pow2(j)), k);
    FloorTwice(count, j, k);
  }

  /** The second sum wraps exactly when the sum for the larger alignment does. */
  lemma WrapsAlike(w: nat, count: nat, j: nat, k: nat)
    requires Operands(w, count, j) && Operands(w, count, k) && NoWrap(w, count, j)
    ensures NoWrap(w, Ceiling(count, Pow2(j)), k) <==> NoWrap(w, count, Max(j, k))
  {
    hide Pow2, Ceiling, Floor;
    UpStaysInWord(w, count, j);
    CeilingIsLeast(count, Pow2(j));
    if k <= j {
      PowMonotone(k, j);
    } else if NoWrap(w, count, k) {
      PowerIsMultiple(k, w);
      PowerIsMultiple(j, k);
      PreviousMultiple(Pow2(w), Pow2(k));
      MultipleThrough(Pow2(w) - Pow2(k), Pow2(k), Pow2(j));
      CeilingBelow(count, Pow2(j), Pow2(w) - Pow2(k));
    }
  }

  lemma UpStaysInWord(w: nat, count: nat, k: nat)
    requires Operands(w, count, k) && NoWrap(w, count, k)
    ensures Ceiling(count, Pow2(k)) <= Pow2(w) - Pow2(k)
  {
    PowerIsMultiple(k, w);
    PreviousMultiple(Pow2(w), Pow2(k));
    CeilingBelow(count, Pow2(k), Pow2(w) - Pow2(k));
  }

  lemma CeilingBelow(a: nat, p: nat, m: int)
    requires p > 0 && IsMultiple(m, p) && a <= m
    ensures Ceiling(a, p) <= m
  {
    CeilingIsLeast(a, p);
  }

  // ----- Order -----

  lemma FloorMonotone(a: nat, b: nat, p: nat)
    requires p > 0 && a <= b
    ensures Floor(a, p) <= Floor(b, p)
  {
    FloorIsGreatest(a, p);
    FloorIsGreatest(b, p);
  }

  lemma RoundDownMonotone(w: nat, a: nat, b: nat, k: nat)
    requires Operands(w, a, k) && Operands(w, b, k) && a <= b
    ensures Pow2(k) <= Pow2(w)
    ensures RoundDown(w, a, Pow2(k)) <= RoundDown(w, b, Pow2(k))
  {
    RoundDownIsFloor(w, a, k);
    RoundDownIsFloor(w, b, k);
    FloorMonotone(a, b, Pow2(k));
  }

  /** ROUND_UP keeps the order of two words except where the larger one wraps. */
  lemma RoundUpMonotoneIff(w: nat, a: nat, b: nat, k: nat)
    requires Operands(w, a, k) && Operands(w, b, k) && a <= b
    ensures Pow2(k) <= Pow2(w)
    ensures RoundUp(w, a, Pow2(k)) <= RoundUp(w, b, Pow2(k))
       <==> NoWrap(w, b, k) || a == 0 || !NoWrap(w, a, k)
  {
    hide RoundUp, Floor, Pow2;
    RoundUpValue(w, a, k);
    RoundUpValue(w, b, k);
    FloorMonotone(a + (Pow2(k) - 1), b + (Pow2(k) - 1), Pow2(k));
    CeilingIsZeroIff(a, Pow2(k));
  }

  // ----- Pointers wider than the mask -----

  lemma {:induction false} AndNarrow(w: nat, v: nat, a: nat, b: nat)
    requires v <= w && b < Pow2(v)
    ensures And(w, a, b) == And(v, a, b)
  {
    if v > 0 {
      AndNarrow(w - 1, v - 1, a / 2, b / 2);
    } else {
      AndZero(w, a);
    }
  }

  /** Rounding a pointer down leaves every bit above the mask's own width as it was. */
  lemma PointerKeepsHighBits(w: nat, ptr: nat, k: nat)
    requires Operands(w, ptr, k)
    ensures Pow2(k) <= Pow2(w)
    ensures Floor(RoundDown(w, ptr, Pow2(k)), Pow2(32)) == Floor(ptr, Pow2(32))
  {
    var high := Floor(ptr, Pow2(32));
    RoundDownIsFloor(w, ptr, k);
    FloorIsGreatest(ptr, Pow2(32));
    FloorIsGreatest(ptr, Pow2(k));
    PowerIsMultiple(k, 32);
    MultipleThrough(high, Pow2(32), Pow2(k));
    FloorIs(Floor(ptr, Pow2(k)), Pow2(32), high);
  }

  /** The sign extension is needed: the same 32-bit mask extended with zeros rounds exactly the
      pointers below 2^32 and loses the high bits of all others. */
  lemma ZeroExtendedMaskRoundsIff(w: nat, ptr: nat, k: nat)
    requires Operands(w, ptr, k)
    ensures Pow2(k) <= Pow2(w) && Pow2(k) <= Pow2(32)
    ensures And(w, ptr, Pow2(32) - Pow2(k)) == RoundDown(w, ptr, Pow2(k)) <==> ptr < Pow2(32)
  {
    hide RoundDown, Pow2, And;
    PowMonotone(k, 32);
    RoundDownIsFloor(w, ptr, k);
    if ptr < Pow2(32) {
      AndNarrow(w, 32, ptr, Pow2(32) - Pow2(k));
      AndHighMask(32, ptr, k);
    } else {
      PowerIsMultiple(k, 32);
      FloorIsGreatest(ptr, Pow2(k));
    }
  }
}
