/**
 Shifts and masks of 64-bit values whose amounts are not constants, and bit fields in them.
 */
module Bits {
  import opened BitFields
  import opened Common
  import opened Iteration

  const ALL_ONES: Value := 0xFFFF_FFFF_FFFF_FFFF

  function Half(v: Value): Value {
    v >> 1
  }

  function Double(v: Value): Value {
    v << 1
  }

  // Shifts by a number of bits are repeated shifts by one bit, and so are total.

  function ShiftRight(v: Value, bits: nat): Value {
    Iterate(Half, v, bits)
  }

  function ShiftLeft(v: Value, bits: nat): Value {
    Iterate(Double, v, bits)
  }

  // ----- 64-bit values obey the laws of bit fields -----

  function And(a: Value, b: Value): Value {
    a & b
  }

  function Or(a: Value, b: Value): Value {
    a | b
  }

  function Without(a: Value, b: Value): Value {
    a & !b
  }

  function LessOne(v: Value): Value {
    v - 1
  }

  function WithOneMore(z: Value): Value {
    (z << 1) | 1
  }

  predicate IsLowOnes(z: Value) {
    z & (z + 1) == 0
  }

  const BITS := Operations(Half, Double, And, Or, Without, 0, 1, ALL_ONES, LessOne, WithOneMore, IsLowOnes)

  /** One less than a power of two, or all ones for 64 bits; the bit count is an 8-bit parameter in the source. */
  function LsbMask(bitCount: nat): (r: Value)
    ensures if bitCount % 0x100 < 64 then r == ShiftLeft(1, bitCount % 0x100) - 1 else r == 0xFFFF_FFFF_FFFF_FFFF
  {
    BITS.Mask(bitCount % 0x100)
  }

  lemma HalfOfAnd()
    ensures IsLinear(Half, And)
  {
    forall a, b ensures Half(And(a, b)) == And(Half(a), Half(b)) {
      AndHalved(a, b);
    }
  }

  lemma AndHalved(a: Value, b: Value)
    ensures (a & b) >> 1 == (a >> 1) & (b >> 1)
  {
  }

  lemma HalfOfOr()
    ensures IsLinear(Half, Or)
  {
  }

  lemma DoubleOfAnd()
    ensures IsLinear(Double, And)
  {
    forall a, b ensures Double(And(a, b)) == And(Double(a), Double(b)) {
      AndDoubled(a, b);
    }
  }

  lemma AndDoubled(a: Value, b: Value)
    ensures (a & b) << 1 == (a << 1) & (b << 1)
  {
  }

  lemma Covers(a: Value, b: Value, c: Value)
    ensures CoverRule(BITS, a, b, c)
  {
  }

  lemma Hides(a: Value, b: Value, c: Value)
    ensures HideRule(BITS, a, b, c)
  {
  }

  lemma MaskedOr(a: Value, b: Value, c: Value)
    ensures MaskedOrRule(BITS, a, b, c)
  {
  }

  lemma Associates(a: Value, b: Value, c: Value)
    ensures AssociativeRule(BITS, a, b, c)
  {
  }

  lemma ShowsPart(a: Value, b: Value, c: Value)
    ensures PartRule(BITS, a, b, c)
  {
  }

  lemma HasUnits(a: Value)
    ensures UnitRule(BITS, a)
  {
  }

  lemma Excludes(a: Value, b: Value)
    ensures WithoutRule(BITS, a, b)
  {
  }

  lemma LosesHighestBit(x: Value, y: Value, mask: Value)
    ensures LossRule(BITS, x, y, mask)
  {
  }

  lemma Grows(z: Value)
    ensures GrowthRule(BITS, z)
  {
  }

  lemma PowerLessOne(p: Value)
    ensures PowerRule(BITS, p)
  {
  }

  lemma IsDoubled(a: Value, z: Value)
    ensures DoubleRule(BITS, a, z)
  {
  }

  function ByteUp(v: Value): Value {
    v << 8
  }

  lemma EightDoubles()
    ensures IsEight(Double, ByteUp)
  {
    forall x ensures Double(Double(Double(Double(Double(Double(Double(Double(x)))))))) == ByteUp(x) {
      DoubledEightTimes(x);
    }
  }

  lemma DoubledEightTimes(x: Value)
    ensures (((((((x << 1) << 1) << 1) << 1) << 1) << 1) << 1) << 1 == x << 8
  {
  }

  lemma HighestBit()
    ensures ShiftLeft(1, 63) == 0x8000_0000_0000_0000
  {
    EightDoubles();
    IterateByEight(Double, ByteUp, 1, 7);
    IterateSeven(ByteUp, 1);
    IterateAdds(Double, 1, 56, 7);
    IterateSeven(Double, 0x100_0000_0000_0000);
  }

  lemma MaskOf63()
    ensures BITS.Mask(63) == 0x7FFF_FFFF_FFFF_FFFF
  {
    HighestBit();
  }

  lemma Halves(z: Value)
    ensures HalfRule(BITS, z)
  {
    MaskOf63();
    if z & 0x7FFF_FFFF_FFFF_FFFF == z {
      HalvedGrowth(z);
    }
  }

  lemma HalvedGrowth(z: Value)
    requires z & 0x7FFF_FFFF_FFFF_FFFF == z
    ensures WithOneMore(z) >> 1 == z
  {
  }

  lemma BitsAreBitwise()
    ensures Bitwise(BITS)
  {
    forall a, b, c ensures CoverRule(BITS, a, b, c) { Covers(a, b, c); }
    forall a, b, c ensures HideRule(BITS, a, b, c) { Hides(a, b, c); }
    forall a, b, c ensures MaskedOrRule(BITS, a, b, c) { MaskedOr(a, b, c); }
    forall a, b, c ensures AssociativeRule(BITS, a, b, c) { Associates(a, b, c); }
    forall a, b, c ensures PartRule(BITS, a, b, c) { ShowsPart(a, b, c); }
    forall a ensures UnitRule(BITS, a) { HasUnits(a); }
    forall a, b ensures WithoutRule(BITS, a, b) { Excludes(a, b); }
  }

  lemma BitsShift()
    ensures Shifting(BITS)
  {
    HalfOfAnd();
    HalfOfOr();
    DoubleOfAnd();
    forall x, y, mask ensures LossRule(BITS, x, y, mask) { LosesHighestBit(x, y, mask); }
  }

  lemma BitsMask()
    ensures Masking(BITS)
  {
    forall z ensures GrowthRule(BITS, z) { Grows(z); }
    forall z ensures HalfRule(BITS, z) { Halves(z); }
    forall a, z ensures DoubleRule(BITS, a, z) { IsDoubled(a, z); }
    forall p ensures PowerRule(BITS, p) { PowerLessOne(p); }
    MaskOf63();
  }

  lemma BitsObeyLaws()
    ensures Laws(BITS)
  {
    BitsAreBitwise();
    BitsShift();
    BitsMask();
  }
}
