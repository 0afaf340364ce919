/*
 * Canonical and 48-bit forms of a GPU virtual address
 * (intel_canonical_address and intel_48b_address in src/intel/common/intel_gem.h).
 *
 * The hardware decodes bits [47:0] of a 64-bit graphics virtual address and
 * expects bits [63:48] to repeat bit 47 ("canonical form"). The driver also
 * uses a second form whose bits [63:48] are zero. Both conversions shift the
 * address left by 63 - 47 = 16 bits and back again; they differ only in the
 * kind of right shift.
 */
module Address {

  /** Bits [63:48]: the part of an address the hardware ignores. */
  const HighMask: bv64 := 0xFFFF_0000_0000_0000

  /** Bits [47:0]: the part of an address the hardware decodes. */
  const LowMask: bv64 := 0x0000_FFFF_FFFF_FFFF

  /** Bit 47, the top address bit. */
  const Bit47: bv64 := 0x0000_8000_0000_0000

  /** Bit 63, the sign bit of a 64-bit two's-complement word. */
  const SignBit: bv64 := 0x8000_0000_0000_0000

  /** The bits [63:48] that bit 47 of `v` calls for in canonical form. */
  function SignExtension(v: bv64): bv64
  {
    if v & Bit47 != 0 then HighMask else 0
  }

  /** `v` is in canonical form: bits [63:48] all equal bit 47. */
  predicate IsCanonical(v: bv64)
  {
    v & HighMask == SignExtension(v)
  }

  /** `v` is a 48-bit address: bits [63:48] are zero. */
  predicate Is48Bit(v: bv64)
  {
    v & HighMask == 0
  }

  /**
   * C's `>>` on an int64_t, the word given by its bit pattern (the cast
   * `(int64_t)` reinterprets the bits). GCC and Clang shift arithmetically:
   * a non-negative value is shifted logically, and a negative one is the
   * complement of the logical shift of its complement (floor division by 2^n),
   * which copies the sign bit into the vacated positions.
   */
  function ArithmeticShiftRight(x: bv64, n: nat): bv64
    requires n < 64
  {
    if x & SignBit == 0 then x >> n else !(!x >> n)
  }

  /**
   * intel_canonical_address: the shift pair with the logical right shift,
   * and bits [63:48] set when bit 47 is. The result keeps bits [47:0] of `v`
   * and fills bits [63:48] from bit 47.
   */
  function CanonicalAddress(v: bv64): (r: bv64)
    ensures r == (v & LowMask) | SignExtension(v)
  {
    if v & Bit47 != 0 then (v << 16 >> 16) | HighMask else v << 16 >> 16
  }

  /** intel_48b_address: the shift pair clears bits [63:48] and keeps the rest. */
  function Address48(v: bv64): (r: bv64)
    ensures r == v & LowMask
  {
    v << 16 >> 16
  }

  // Facts about the masked forms alone. Their contracts mention no conversion,
  // which keeps each proof a small bit-vector problem; the lemmas about the
  // conversions below go through them.

  /** The bits of a word built as `(v & LowMask) | SignExtension(v)`. */
  lemma CanonicalFormBits(v: bv64, r: bv64)
    requires r == (v & LowMask) | SignExtension(v)
    ensures r & LowMask == v & LowMask
    ensures r & HighMask == SignExtension(v)
    ensures SignExtension(r) == SignExtension(v)
    ensures IsCanonical(r)
  {
    if v & Bit47 != 0 {
      NegativeFormBits(v);
    } else {
      NonNegativeFormBits(v);
    }
  }

  /** Bits [47:0] of `v` under all-ones bits [63:48], when bit 47 is set. */
  lemma NegativeFormBits(v: bv64)
    requires v & Bit47 != 0
    ensures ((v & LowMask) | HighMask) & LowMask == v & LowMask
    ensures ((v & LowMask) | HighMask) & HighMask == HighMask
    ensures ((v & LowMask) | HighMask) & Bit47 != 0
  {
  }

  /** Bits [47:0] of `v` under zero bits [63:48], when bit 47 is clear. */
  lemma NonNegativeFormBits(v: bv64)
    requires v & Bit47 == 0
    ensures (v & LowMask) & LowMask == v & LowMask
    ensures (v & LowMask) & HighMask == 0
    ensures (v & LowMask) & Bit47 == 0
  {
  }

  /** A canonical word is rebuilt from its bits [47:0] by sign extension. */
  lemma CanonicalFormUnique(v: bv64, w: bv64)
    requires IsCanonical(w)
    requires w & LowMask == v & LowMask
    ensures w == (v & LowMask) | SignExtension(v)
  {
    if v & Bit47 != 0 {
      assert w & Bit47 != 0;
      assert w & HighMask == HighMask;
    } else {
      assert w & Bit47 == 0;
      assert w & HighMask == 0;
    }
  }

  /** Words that agree on bits [47:0] agree on bit 47. */
  lemma SameLowBits(v: bv64, w: bv64)
    requires w & LowMask == v & LowMask
    ensures SignExtension(w) == SignExtension(v)
  {
  }

  /** The bits of a word built as `v & LowMask`. */
  lemma Address48FormBits(v: bv64, r: bv64)
    requires r == v & LowMask
    ensures r & LowMask == v & LowMask
    ensures Is48Bit(r)
    ensures r < 0x1_0000_0000_0000
  {
  }

  /** A 48-bit word equals its bits [47:0]. */
  lemma Address48FormUnique(w: bv64)
    requires Is48Bit(w)
    ensures w == w & LowMask
  {
  }

  /** Shifting left by 16 moves bit 47 into the sign bit. */
  lemma ShiftedSign(v: bv64)
    ensures (v << 16) & SignBit != 0 <==> v & Bit47 != 0
  {
  }

  /** The logical shift pair keeps exactly bits [47:0]. */
  lemma LogicalShiftPair(v: bv64)
    ensures v << 16 >> 16 == v & LowMask
  {
  }

  /** The complemented shift pair keeps bits [47:0] and sets bits [63:48]. */
  lemma ComplementedShiftPair(v: bv64)
    requires v & Bit47 != 0
    ensures !(!(v << 16) >> 16) == (v & LowMask) | HighMask
  {
  }

  /** The arithmetic shift pair sign-extends bit 47 over the low 48 bits. */
  lemma ArithmeticShiftPair(v: bv64)
    ensures ArithmeticShiftRight(v << 16, 16) == (v & LowMask) | SignExtension(v)
  {
    ShiftedSign(v);
    if v & Bit47 != 0 {
      ComplementedShiftPair(v);
    } else {
      LogicalShiftPair(v);
    }
  }

  /** The masked definition is the C expression `(int64_t)(v << 16) >> 16`. */
  lemma CanonicalAddressIsArithmeticShift(v: bv64)
    ensures CanonicalAddress(v) == ArithmeticShiftRight(v << 16, 16)
  {
    ArithmeticShiftPair(v);
  }

  /**
   * intel_canonical_address keeps bits [47:0], and bits [63:48] of the result
   * are all ones when bit 47 of `v` is set and all zeros otherwise.
   */
  lemma CanonicalAddressBits(v: bv64)
    ensures CanonicalAddress(v) & LowMask == v & LowMask
    ensures CanonicalAddress(v) & HighMask == SignExtension(v)
    ensures IsCanonical(CanonicalAddress(v))
  {
    CanonicalFormBits(v, CanonicalAddress(v));
  }

  /** intel_48b_address keeps bits [47:0], and the result is below 2^48. */
  lemma Address48Bits(v: bv64)
    ensures Address48(v) & LowMask == v & LowMask
    ensures Is48Bit(Address48(v))
    ensures Address48(v) < 0x1_0000_0000_0000
  {
    Address48FormBits(v, Address48(v));
  }

  /** A canonical address is determined by its bits [47:0]. */
  lemma CanonicalAddressUnique(v: bv64, w: bv64)
    requires IsCanonical(w)
    requires w & LowMask == v & LowMask
    ensures CanonicalAddress(v) == w
  {
    CanonicalFormUnique(v, w);
  }

  /** A 48-bit address is determined by its bits [47:0]. */
  lemma Address48Unique(v: bv64, w: bv64)
    requires Is48Bit(w)
    requires w & LowMask == v & LowMask
    ensures Address48(v) == w
  {
    Address48FormUnique(w);
  }

  /** Converting to canonical form first does not change the 48-bit form. */
  lemma Address48OfCanonical(v: bv64)
    ensures Address48(CanonicalAddress(v)) == Address48(v)
  {
    CanonicalFormBits(v, CanonicalAddress(v));
  }

  /** Converting to the 48-bit form first does not change the canonical form. */
  lemma CanonicalOfAddress48(v: bv64)
    ensures CanonicalAddress(Address48(v)) == CanonicalAddress(v)
  {
    var w := Address48(v);
    Address48FormBits(v, w);
    SameLowBits(v, w);
    assert CanonicalAddress(w) == (v & LowMask) | SignExtension(v);
  }

  lemma CanonicalAddressIdempotent(v: bv64)
    ensures CanonicalAddress(CanonicalAddress(v)) == CanonicalAddress(v)
  {
    var c := CanonicalAddress(v);
    CanonicalFormBits(v, c);
    CanonicalFormUnique(c, c);
  }

  lemma Address48Idempotent(v: bv64)
    ensures Address48(Address48(v)) == Address48(v)
  {
    var w := Address48(v);
    Address48FormBits(v, w);
    Address48FormUnique(w);
  }

  /**
   * Each conversion leaves exactly the well-formed addresses of its own form
   * unchanged, and the two are inverse to each other exactly there: the
   * canonical form of the 48-bit form gives `v` back only when `v` was
   * canonical, and the other way round only when `v` was a 48-bit address.
   */
  lemma RoundTrips(v: bv64)
    ensures CanonicalAddress(v) == v <==> IsCanonical(v)
    ensures Address48(v) == v <==> Is48Bit(v)
    ensures CanonicalAddress(Address48(v)) == v <==> IsCanonical(v)
    ensures Address48(CanonicalAddress(v)) == v <==> Is48Bit(v)
  {
    CanonicalAddressBits(v);
    Address48Bits(v);
    if IsCanonical(v) {
      CanonicalAddressUnique(v, v);
    }
    if Is48Bit(v) {
      Address48Unique(v, v);
    }
    CanonicalOfAddress48(v);
    Address48OfCanonical(v);
  }
}
