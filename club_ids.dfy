/** Club identifiers and membership masks of the clubs pallet.

    A club is named by its number `n` (its slot) and identified by the
    `u32` value 2^n, which is also the bit that records membership of the
    club in an account's 32-bit mask.  Unsigned machine integers are
    bounded integers here, and the `u32` operators `|`, `&` and `!` the
    pallet uses are defined bit by bit. */
module ClubIds {

  /** The source's `u8`: club numbers, club tags and the club counter. */
  type U8 = x: int | 0 <= x < 0x100

  /** The source's `u32`. */
  type U32 = x: int | 0 <= x < 0x1_0000_0000

  /** The source's `ClubId`, a `u32`. */
  type ClubId = U32

  /** A membership mask (the source's `ClubsInfo`), one bit per club. */
  type Mask = U32

  // ---------------------------------------------------------------------
  // Powers of two and bits of naturals

  function Pow2(n: nat): nat {
    if n == 0 then 1 else 2 * Pow2(n - 1)
  }

  lemma {:induction false} Pow2Positive(n: nat)
    ensures Pow2(n) > 0
  {
    if n > 0 {
      Pow2Positive(n - 1);
    }
  }

  lemma {:induction false} Pow2Monotone(m: nat, n: nat)
    requires m < n
    ensures Pow2(m) < Pow2(n)
  {
    Pow2Positive(n - 1);
    if m < n - 1 {
      Pow2Monotone(m, n - 1);
    }
  }

  lemma Pow2Of32()
    ensures Pow2(32) == 0x1_0000_0000
  {
    assert Pow2(1) == 0x2;
    assert Pow2(2) == 0x4;
    assert Pow2(3) == 0x8;
    assert Pow2(4) == 0x10;
    assert Pow2(5) == 0x20;
    assert Pow2(6) == 0x40;
    assert Pow2(7) == 0x80;
    assert Pow2(8) == 0x100;
    assert Pow2(9) == 0x200;
    assert Pow2(10) == 0x400;
    assert Pow2(11) == 0x800;
    assert Pow2(12) == 0x1000;
    assert Pow2(13) == 0x2000;
    assert Pow2(14) == 0x4000;
    assert Pow2(15) == 0x8000;
    assert Pow2(16) == 0x10000;
    assert Pow2(17) == 0x20000;
    assert Pow2(18) == 0x40000;
    assert Pow2(19) == 0x80000;
    assert Pow2(20) == 0x100000;
    assert Pow2(21) == 0x200000;
    assert Pow2(22) == 0x400000;
    assert Pow2(23) == 0x800000;
    assert Pow2(24) == 0x1000000;
    assert Pow2(25) == 0x2000000;
    assert Pow2(26) == 0x4000000;
    assert Pow2(27) == 0x8000000;
    assert Pow2(28) == 0x10000000;
    assert Pow2(29) == 0x20000000;
    assert Pow2(30) == 0x40000000;
    assert Pow2(31) == 0x80000000;
    assert Pow2(32) == 0x100000000;
  }

  /** Bit `k` of `m`, counting from the least significant bit 0. */
  predicate HasBit(m: nat, k: nat)
    decreases k
  {
    if k == 0 then m % 2 == 1 else HasBit(m / 2, k - 1)
  }

  lemma {:induction false} NoBitOfZero(k: nat)
    ensures !HasBit(0, k)
  {
    if k > 0 {
      NoBitOfZero(k - 1);
    }
  }

  /** Two naturals with the same bits are equal. */
  lemma {:induction false} SameBits(a: nat, b: nat)
    requires forall k: nat :: HasBit(a, k) == HasBit(b, k)
    ensures a == b
    decreases a + b
  {
    if a != 0 || b != 0 {
      assert HasBit(a, 0) == HasBit(b, 0);
      forall k: nat
        ensures HasBit(a / 2, k) == HasBit(b / 2, k)
      {
        assert HasBit(a, k + 1) == HasBit(b, k + 1);
      }
      SameBits(a / 2, b / 2);
    }
  }

  /** The power 2^n has bit `n` and no other. */
  lemma {:induction false} BitsOfPow2(n: nat, k: nat)
    ensures HasBit(Pow2(n), k) <==> k == n
    decreases n
  {
    if n == 0 {
      if k > 0 {
        NoBitOfZero(k - 1);
      }
    } else {
      if k > 0 {
        BitsOfPow2(n - 1, k - 1);
      }
    }
  }

  /** A natural below 2^n has no bit at `n` or above. */
  lemma {:induction false} BitsBelowPow2(m: nat, n: nat, k: nat)
    requires m < Pow2(n) && HasBit(m, k)
    ensures k < n
    decreases n
  {
    if n == 0 {
      NoBitOfZero(k);
    } else if k > 0 {
      BitsBelowPow2(m / 2, n - 1, k - 1);
    }
  }

  // ---------------------------------------------------------------------
  // Bitwise operators on naturals

  function Or(a: nat, b: nat): nat
    decreases a
  {
    if a == 0 then b
    else if b == 0 then a
    else 2 * Or(a / 2, b / 2) + (if a % 2 == 1 || b % 2 == 1 then 1 else 0)
  }

  function And(a: nat, b: nat): nat
    decreases a
  {
    if a == 0 || b == 0 then 0
    else 2 * And(a / 2, b / 2) + (if a % 2 == 1 && b % 2 == 1 then 1 else 0)
  }

  /** The bits of `2 * q + r`, for a digit `r`: `r` at 0, then those of
      `q`. */
  lemma BitsOfDouble(x: nat, q: nat, r: nat, k: nat)
    requires x == 2 * q + r && r < 2
    ensures HasBit(x, 0) <==> r == 1
    ensures k > 0 ==> (HasBit(x, k) <==> HasBit(q, k - 1))
  {
    assert x % 2 == r && x / 2 == q;
  }

  lemma {:induction false} BitsOfOr(a: nat, b: nat, k: nat)
    ensures HasBit(Or(a, b), k) <==> HasBit(a, k) || HasBit(b, k)
    decreases a
  {
    if a == 0 || b == 0 {
      NoBitOfZero(k);
    } else {
      var r := if a % 2 == 1 || b % 2 == 1 then 1 else 0;
      BitsOfDouble(Or(a, b), Or(a / 2, b / 2), r, k);
      if k > 0 {
        BitsOfOr(a / 2, b / 2, k - 1);
      }
    }
  }

  lemma {:induction false} BitsOfAnd(a: nat, b: nat, k: nat)
    ensures HasBit(And(a, b), k) <==> HasBit(a, k) && HasBit(b, k)
    decreases a
  {
    if a == 0 || b == 0 {
      NoBitOfZero(k);
    } else if k > 0 {
      BitsOfAnd(a / 2, b / 2, k - 1);
    }
  }

  lemma {:induction false} OrBelow(a: nat, b: nat, n: nat)
    requires a < Pow2(n) && b < Pow2(n)
    ensures Or(a, b) < Pow2(n)
    decreases a
  {
    if a != 0 && b != 0 {
      assert n > 0;
      OrBelow(a / 2, b / 2, n - 1);
    }
  }

  lemma {:induction false} AndAtMost(a: nat, b: nat)
    ensures And(a, b) <= a
    decreases a
  {
    if a != 0 && b != 0 {
      AndAtMost(a / 2, b / 2);
    }
  }

  /** Below 2^n, subtracting from 2^n - 1 flips the low `n` bits. */
  lemma {:induction false} BitsOfFlip(b: nat, n: nat, k: nat)
    requires b < Pow2(n)
    ensures HasBit(Pow2(n) - 1 - b, k) <==> k < n && !HasBit(b, k)
    decreases n
  {
    if n == 0 {
      NoBitOfZero(k);
    } else {
      Pow2Positive(n - 1);
      var f := Pow2(n) - 1 - b;
      assert f / 2 == Pow2(n - 1) - 1 - b / 2;
      assert f % 2 == 1 - b % 2;
      if k > 0 {
        BitsOfFlip(b / 2, n - 1, k - 1);
      }
    }
  }

  // ---------------------------------------------------------------------
  // The `u32` operators

  /** `a | b` on `u32`. */
  function BitOr(a: U32, b: U32): U32 {
    Pow2Of32();
    OrBelow(a, b, 32);
    Or(a, b)
  }

  /** `a & b` on `u32`. */
  function BitAnd(a: U32, b: U32): U32 {
    AndAtMost(a, b);
    And(a, b)
  }

  /** `!a` on `u32`. */
  function BitNot(a: U32): U32 {
    0xFFFF_FFFF - a
  }

  /** A `u32` has no bit at 32 or above. */
  lemma U32Bits(m: U32, k: nat)
    requires HasBit(m, k)
    ensures k < 32
  {
    Pow2Of32();
    BitsBelowPow2(m, 32, k);
  }

  lemma BitsOfBitOr(a: U32, b: U32, k: nat)
    ensures HasBit(BitOr(a, b), k) <==> HasBit(a, k) || HasBit(b, k)
  {
    BitsOfOr(a, b, k);
  }

  lemma BitsOfBitAnd(a: U32, b: U32, k: nat)
    ensures HasBit(BitAnd(a, b), k) <==> HasBit(a, k) && HasBit(b, k)
  {
    BitsOfAnd(a, b, k);
  }

  lemma BitsOfBitNot(a: U32, k: nat)
    ensures HasBit(BitNot(a), k) <==> k < 32 && !HasBit(a, k)
  {
    Pow2Of32();
    BitsOfFlip(a, 32, k);
  }

  // ---------------------------------------------------------------------
  // Club identifiers

  /** `number_to_id`: the identifier of club number `n`, 2^n.  A debug
      build panics on the overflow of `2_u32.pow(n)` once `n >= 32`, so
      `n < 32` is demanded of every caller. */
  function NumberToId(n: U8): ClubId
    requires n < 32
  {
    Pow2Of32();
    Pow2Monotone(n, 32);
    Pow2(n)
  }

  /** Every club identifier has exactly one bit set, the bit of its
      number. */
  lemma NumberToIdSingleBit(n: U8, k: nat)
    requires n < 32
    ensures HasBit(NumberToId(n), k) <==> k == n
  {
    BitsOfPow2(n, k);
  }

  /** Distinct club numbers give distinct identifiers. */
  lemma NumberToIdInjective(m: U8, n: U8)
    requires m < 32 && n < 32
    ensures NumberToId(m) == NumberToId(n) <==> m == n
  {
    if m < n {
      Pow2Monotone(m, n);
    } else if n < m {
      Pow2Monotone(n, m);
    }
  }

  /** The source's membership test `user_info & club_id != 0` holds
      exactly when the mask has the club's bit. */
  lemma MemberTest(m: Mask, n: U8)
    requires n < 32
    ensures BitAnd(m, NumberToId(n)) != 0 <==> HasBit(m, n)
  {
    var x := NumberToId(n);
    if HasBit(m, n) {
      BitsOfBitAnd(m, x, n);
      NumberToIdSingleBit(n, n);
      if BitAnd(m, x) == 0 {
        NoBitOfZero(n);
      }
    } else {
      forall k: nat
        ensures HasBit(BitAnd(m, x), k) == HasBit(0, k)
      {
        BitsOfBitAnd(m, x, k);
        NumberToIdSingleBit(n, k);
        NoBitOfZero(k);
      }
      SameBits(BitAnd(m, x), 0);
    }
  }

  /** Setting the bit of club `n` (`user_info | club_id`) adds membership
      of `n` and keeps every other membership as it was. */
  lemma GrantBit(m: Mask, n: U8, k: nat)
    requires n < 32
    ensures HasBit(BitOr(m, NumberToId(n)), k) <==> k == n || HasBit(m, k)
  {
    BitsOfBitOr(m, NumberToId(n), k);
    NumberToIdSingleBit(n, k);
  }

  /** Clearing the bit of club `n` (`user_info & !club_id`) drops
      membership of `n` and keeps every other membership as it was. */
  lemma RevokeBit(m: Mask, n: U8, k: nat)
    requires n < 32
    ensures HasBit(BitAnd(m, BitNot(NumberToId(n))), k) <==> k != n && HasBit(m, k)
  {
    BitsOfBitAnd(m, BitNot(NumberToId(n)), k);
    BitsOfBitNot(NumberToId(n), k);
    NumberToIdSingleBit(n, k);
    if HasBit(m, k) {
      U32Bits(m, k);
    }
  }

  /** Setting a bit the mask lacks and then clearing it gives the mask back. */
  lemma ClearAfterSet(m: Mask, n: U8)
    requires n < 32 && !HasBit(m, n)
    ensures BitAnd(BitOr(m, NumberToId(n)), BitNot(NumberToId(n))) == m
  {
    var g := BitOr(m, NumberToId(n));
    forall k: nat
      ensures HasBit(BitAnd(g, BitNot(NumberToId(n))), k) == HasBit(m, k)
    {
      RevokeBit(g, n, k);
      GrantBit(m, n, k);
    }
    SameBits(BitAnd(g, BitNot(NumberToId(n))), m);
  }

  /** Clearing a bit the mask has and then setting it gives the mask back. */
  lemma SetAfterClear(m: Mask, n: U8)
    requires n < 32 && HasBit(m, n)
    ensures BitOr(BitAnd(m, BitNot(NumberToId(n))), NumberToId(n)) == m
  {
    var c := BitAnd(m, BitNot(NumberToId(n)));
    forall k: nat
      ensures HasBit(BitOr(c, NumberToId(n)), k) == HasBit(m, k)
    {
      GrantBit(c, n, k);
      RevokeBit(m, n, k);
    }
    SameBits(BitOr(c, NumberToId(n)), m);
  }

  /** Setting two bits gives the same mask in either order. */
  lemma GrantsCommute(m: Mask, a: U8, b: U8)
    requires a < 32 && b < 32
    ensures BitOr(BitOr(m, NumberToId(a)), NumberToId(b))
         == BitOr(BitOr(m, NumberToId(b)), NumberToId(a))
  {
    var ab := BitOr(BitOr(m, NumberToId(a)), NumberToId(b));
    var ba := BitOr(BitOr(m, NumberToId(b)), NumberToId(a));
    forall k: nat
      ensures HasBit(ab, k) == HasBit(ba, k)
    {
      GrantBit(BitOr(m, NumberToId(a)), b, k);
      GrantBit(m, a, k);
      GrantBit(BitOr(m, NumberToId(b)), a, k);
      GrantBit(m, b, k);
    }
    SameBits(ab, ba);
  }

  // ---------------------------------------------------------------------
  // Masks of the first `t` clubs

  /** Every bit of `m` belongs to one of the clubs `0 .. t - 1`. */
  predicate Within(m: Mask, t: U8) {
    m < Pow2(t)
  }

  lemma WithinHasNoHigherBit(m: Mask, t: U8, k: nat)
    requires Within(m, t) && HasBit(m, k)
    ensures k < t
  {
    BitsBelowPow2(m, t, k);
  }

  /** Club `n`'s identifier lies within the first `t` clubs exactly when
      `n < t`. */
  lemma IdWithin(n: U8, t: U8)
    requires n < 32
    ensures Within(NumberToId(n), t) <==> n < t
  {
    if n < t {
      Pow2Monotone(n, t);
    } else if t < n {
      Pow2Monotone(t, n);
    }
  }

  lemma WithinGrows(m: Mask, t: U8)
    requires Within(m, t) && t < 0xFF
    ensures Within(m, t + 1)
  {
    Pow2Monotone(t, t + 1);
  }

  lemma GrantWithin(m: Mask, n: U8, t: U8)
    requires n < 32 && n < t && Within(m, t)
    ensures Within(BitOr(m, NumberToId(n)), t)
  {
    Pow2Monotone(n, t);
    OrBelow(m, NumberToId(n), t);
  }

  lemma RevokeWithin(m: Mask, x: Mask, t: U8)
    requires Within(m, t)
    ensures Within(BitAnd(m, BitNot(x)), t)
  {
    AndAtMost(m, BitNot(x));
  }
}
