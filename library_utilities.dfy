/** `LibraryUtilities.AlignUp`: round a C# `int` up to a multiple of the
    pointer size, with the source's bit mask and unchecked arithmetic. */
module LibraryUtilities {
  import opened Int32

  /** `IntPtr.Size`: 4 bytes in a 32-bit process, 8 in a 64-bit one. */
  type PointerSize = p: int | p == 4 || p == 8 witness 8

  /** `value + IntPtr.Size - 1` cannot exceed `int.MaxValue`. */
  predicate NoOverflow(value: Int, pointerSize: PointerSize)
  {
    value + pointerSize - 1 <= MaxValue
  }

  /** `(value + IntPtr.Size - 1) & ~(IntPtr.Size - 1)`, evaluated left to right
      in unchecked 32-bit arithmetic. When the sum overflows it wraps to a
      negative value and the mask then yields `int.MinValue`. */
  function AlignUp(value: Int, pointerSize: PointerSize): (r: Int)
    ensures r % pointerSize == 0
    ensures NoOverflow(value, pointerSize) ==> value <= r && r - value < pointerSize
    ensures value % pointerSize == 0 ==> r == value
    ensures !NoOverflow(value, pointerSize) ==> r == MinValue
  {
    var sum := Wrap(Wrap(value + pointerSize) - 1);
    WrapTwice(value + pointerSize);
    MaskRoundsDown(sum, pointerSize);
    RoundDownFacts(value, sum, pointerSize);
    And(sum, Not(pointerSize - 1))
  }

  /** What rounding the wrapped sum down to a multiple of `p` gives, by the
      two possible pointer sizes. */
  lemma RoundDownFacts(value: Int, sum: Int, p: PointerSize)
    requires sum == Wrap(value + p - 1)
    ensures (sum - sum % p) % p == 0
    ensures NoOverflow(value, p) ==> value <= sum - sum % p < value + p
    ensures value % p == 0 ==> sum - sum % p == value
    ensures !NoOverflow(value, p) ==> sum - sum % p == MinValue
  {
    WrapSum(value, p);
    if p == 4 {
      RoundDownBy(value, sum, 4);
    } else {
      RoundDownBy(value, sum, 8);
    }
  }

  /** `RoundDownFacts` for one literal pointer size. */
  lemma RoundDownBy(value: Int, sum: int, p: PointerSize)
    requires NoOverflow(value, p) ==> sum == value + p - 1
    requires !NoOverflow(value, p) ==> sum == value + p - 1 - Modulus
    ensures (sum - sum % p) % p == 0
    ensures NoOverflow(value, p) ==> value <= sum - sum % p < value + p
    ensures value % p == 0 ==> sum - sum % p == value
    ensures !NoOverflow(value, p) ==> sum - sum % p == MinValue
  {
    if p == 4 {
      if NoOverflow(value, p) {
      } else {
        assert MaxValue - 2 <= value;
      }
    } else {
      if NoOverflow(value, p) {
      } else {
        assert MaxValue - 6 <= value;
      }
    }
  }

  /** The sum `value + p - 1` either fits or wraps past `int.MaxValue` once. */
  lemma WrapSum(value: Int, p: PointerSize)
    ensures NoOverflow(value, p) ==> Wrap(value + p - 1) == value + p - 1
    ensures !NoOverflow(value, p) ==> Wrap(value + p - 1) == value + p - 1 - Modulus
  {
  }

  /** Wrapping after each of the two additions is the same as wrapping once. */
  lemma WrapTwice(x: int)
    ensures Wrap(Wrap(x) - 1) == Wrap(x - 1)
  {
  }

  /** The number of low bits that `~(p - 1)` clears. */
  function Log2(p: PointerSize): (k: nat)
    ensures Pow2(k) == p
  {
    if p == 4 then 2 else 3
  }

  /** `~(p - 1)` has its low log2(p) bits clear and all others set. */
  lemma NotMaskBits(p: PointerSize)
    ensures Bits(Not(p - 1)) == Pow2(Width()) - Pow2(Log2(p))
  {
  }

  /** The low log2(p) bits of a pattern are its remainder modulo `p`. */
  lemma LowBitsOfPointerSize(u: nat, p: PointerSize)
    ensures LowBits(u, Log2(p)) == u % p
  {
    if p == 4 {
      LowTwoBits(u);
    } else {
      LowThreeBits(u);
    }
  }

  /** On the unsigned pattern, `s & ~(p - 1)` subtracts the remainder modulo `p`. */
  lemma MaskedBits(s: Int, p: PointerSize)
    ensures Bits(s) - Bits(s) % p >= 0
    ensures And(s, Not(p - 1)) == FromBits(Bits(s) - Bits(s) % p)
  {
    NotMaskBits(p);
    AndHighMask(Bits(s), Width(), Log2(p));
    LowBitsOfPointerSize(Bits(s), p);
  }

  /** Read back as a signed value, subtracting the remainder of the pattern
      rounds `s` down to a multiple of `p`. */
  lemma RoundDownPattern(s: Int, p: PointerSize)
    ensures Bits(s) - Bits(s) % p >= 0
    ensures FromBits(Bits(s) - Bits(s) % p) == s - s % p
  {
    if p == 4 {
      assert Bits(s) % 4 == s % 4;
    } else {
      assert Bits(s) % 8 == s % 8;
    }
  }

  /** `s & ~(p - 1)` rounds `s` down (toward negative infinity) to a multiple
      of `p`; Dafny's `%` is the non-negative remainder. */
  lemma MaskRoundsDown(s: Int, p: PointerSize)
    ensures And(s, Not(p - 1)) == s - s % p
  {
    MaskedBits(s, p);
    RoundDownPattern(s, p);
  }

  /** The result is the least multiple of the pointer size at or above `value`. */
  lemma AlignUpIsLeast(value: Int, pointerSize: PointerSize, m: Int)
    requires NoOverflow(value, pointerSize)
    requires m % pointerSize == 0 && value <= m
    ensures AlignUp(value, pointerSize) <= m
  {
    NoMultipleBelow(AlignUp(value, pointerSize), m, value, pointerSize);
  }

  /** A multiple of `p` in `[value, value + p)` is below every other multiple
      of `p` at or above `value`. */
  lemma NoMultipleBelow(r: int, m: int, value: int, p: PointerSize)
    requires r % p == 0 && m % p == 0
    requires value <= r < value + p && value <= m
    ensures r <= m
  {
    if p == 4 {
    } else {
    }
  }

  /** Aligning an aligned value changes nothing. */
  lemma AlignUpIdempotent(value: Int, pointerSize: PointerSize)
    ensures AlignUp(AlignUp(value, pointerSize), pointerSize) == AlignUp(value, pointerSize)
  {
  }

  /** Larger inputs never give smaller results, as long as neither overflows. */
  lemma AlignUpMonotone(v: Int, w: Int, pointerSize: PointerSize)
    requires v <= w && NoOverflow(w, pointerSize)
    ensures AlignUp(v, pointerSize) <= AlignUp(w, pointerSize)
  {
    AlignUpIsLeast(v, pointerSize, AlignUp(w, pointerSize));
  }

  /** Zero is aligned. */
  lemma AlignUpZero(pointerSize: PointerSize)
    ensures AlignUp(0, pointerSize) == 0
  {
  }

  /** Small values round up to one full pointer, and small negative values
      round up to zero. */
  lemma AlignUpSmall(value: Int, pointerSize: PointerSize)
    requires 0 < value <= pointerSize
    ensures AlignUp(value, pointerSize) == pointerSize
    ensures AlignUp(value - pointerSize, pointerSize) == 0
  {
    NoMultipleBelow(AlignUp(value, pointerSize), pointerSize, value, pointerSize);
    NoMultipleBelow(pointerSize, AlignUp(value, pointerSize), value, pointerSize);
    NoMultipleBelow(AlignUp(value - pointerSize, pointerSize), 0, value - pointerSize, pointerSize);
    NoMultipleBelow(0, AlignUp(value - pointerSize, pointerSize), value - pointerSize, pointerSize);
  }

  /** `int.MaxValue` wraps around to `int.MinValue`. */
  lemma AlignUpMaxValue(pointerSize: PointerSize)
    ensures AlignUp(MaxValue, pointerSize) == MinValue
  {
  }

  /** The largest multiple of the pointer size, `int.MaxValue - p + 1`, is
      returned unchanged, although `value + IntPtr.Size` already exceeds
      `int.MaxValue` (so a checked build would throw for it). */
  lemma AlignUpLastMultiple(pointerSize: PointerSize)
    ensures MaxValue < (MaxValue - pointerSize + 1) + pointerSize
    ensures AlignUp(MaxValue - pointerSize + 1, pointerSize) == MaxValue - pointerSize + 1
  {
    if pointerSize == 4 {
      assert (MaxValue - 3) % 4 == 0;
    } else {
      assert (MaxValue - 7) % 8 == 0;
    }
  }
}
