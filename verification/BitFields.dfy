/**
 The laws of a bit field: what is put in a field can be taken out of it, and the bits around
 it stay.  They hold for whatever shifts, masks and bitwise operations obey a few rules about
 single bits, so the proofs never look into a value.
 */
module BitFields {
  import opened Iteration

  datatype Operations<!T> = Operations(
    half: T -> T,
    double: T -> T,
    and: (T, T) -> T,
    or: (T, T) -> T,
    without: (T, T) -> T,
    zero: T,
    one: T,
    ones: T,
    lessOne: T -> T,
    withOneMore: T -> T,
    isLowOnes: T -> bool)
  {
    function Right(v: T, n: nat): T {
      Iterate(half, v, n)
    }

    function Left(v: T, n: nat): T {
      Iterate(double, v, n)
    }

    /** Ones in the k lowest of 64 bits. */
    function Mask(k: nat): T {
      if k < 64 then lessOne(Left(one, k)) else ones
    }
  }

  /** The bits of a field in their place. */
  function Field<T>(o: Operations<T>, offset: nat, width: nat): T {
    o.Left(o.Mask(width), offset)
  }

  /** The data in a field of a number. */
  function Get<T>(o: Operations<T>, v: T, offset: nat, width: nat): T {
    o.and(o.Right(v, offset), o.Mask(width))
  }

  /** A number after data is put in a field of it, without regard to the width of the data. */
  function Put<T>(o: Operations<T>, v: T, x: T, offset: nat, width: nat): T {
    o.or(o.without(v, Field(o, offset, width)), o.Left(x, offset))
  }

  /** A number after data is put in a field of it, cut to the width of the field. */
  function PutMasked<T>(o: Operations<T>, v: T, x: T, offset: nat, width: nat): T {
    o.or(o.without(v, Field(o, offset, width)), o.and(o.Left(x, offset), Field(o, offset, width)))
  }

  // The rules, each of them about given values: a proof names the values it needs them for.

  predicate CoverRule<T(==)>(o: Operations<T>, a: T, b: T, c: T) {
    o.and(a, b) == a && o.and(b, c) == b ==> o.and(a, c) == a
  }

  predicate HideRule<T(==)>(o: Operations<T>, a: T, b: T, c: T) {
    o.and(a, b) == o.zero && o.and(b, c) == c ==> o.and(a, c) == o.zero
  }

  predicate MaskedOrRule<T(==)>(o: Operations<T>, a: T, b: T, c: T) {
    o.and(a, c) == o.zero ==> o.and(o.or(a, b), c) == o.and(b, c)
  }

  predicate PartRule<T(==)>(o: Operations<T>, a: T, b: T, c: T) {
    o.and(c, b) == c ==> o.and(o.and(a, b), c) == o.and(a, c)
  }

  predicate UnitRule<T(==)>(o: Operations<T>, a: T) {
    o.and(a, a) == a
  }

  predicate WithoutRule<T(==)>(o: Operations<T>, a: T, b: T) {
    o.and(o.without(a, b), b) == o.zero
  }

  /** A shift up loses the highest bit only, which no halved mask shows. */
  predicate LossRule<T(==)>(o: Operations<T>, x: T, y: T, mask: T) {
    o.and(y, mask) == o.and(o.double(x), mask) ==> o.and(o.half(y), o.half(mask)) == o.and(x, o.half(mask))
  }

  /** A run of low ones grows upwards. */
  predicate GrowthRule<T(==)>(o: Operations<T>, z: T) {
    o.isLowOnes(z) ==> o.isLowOnes(o.withOneMore(z)) && o.and(z, o.withOneMore(z)) == z
  }

  predicate HalfRule<T(==)>(o: Operations<T>, z: T) {
    o.and(z, o.Mask(63)) == z ==> o.half(o.withOneMore(z)) == z
  }

  predicate DoubleRule<T(==)>(o: Operations<T>, a: T, z: T) {
    o.and(a, z) == a ==> o.and(o.double(a), o.withOneMore(z)) == o.double(a)
  }

  predicate AssociativeRule<T(==)>(o: Operations<T>, a: T, b: T, c: T) {
    o.and(o.and(a, b), c) == o.and(a, o.and(b, c))
  }

  predicate PowerRule<T(==)>(o: Operations<T>, p: T) {
    o.lessOne(o.double(p)) == o.withOneMore(o.lessOne(p))
  }

  ghost predicate Bitwise<T(!new)>(o: Operations<T>) {
    && (forall a, b, c :: CoverRule(o, a, b, c))
    && (forall a, b, c :: HideRule(o, a, b, c))
    && (forall a, b, c :: MaskedOrRule(o, a, b, c))
    && (forall a, b, c :: AssociativeRule(o, a, b, c))
    && (forall a, b, c :: PartRule(o, a, b, c))
    && (forall a :: UnitRule(o, a))
    && (forall a, b :: WithoutRule(o, a, b))
  }

  ghost predicate Shifting<T(!new)>(o: Operations<T>) {
    && IsLinear(o.half, o.and)
    && IsLinear(o.half, o.or)
    && IsLinear(o.double, o.and)
    && o.half(o.zero) == o.zero
    && (forall x, y, mask :: LossRule(o, x, y, mask))
  }

  ghost predicate Masking<T(!new)>(o: Operations<T>) {
    && o.isLowOnes(o.Mask(0))
    && (forall z :: GrowthRule(o, z))
    && (forall z :: HalfRule(o, z))
    && (forall a, z :: DoubleRule(o, a, z))
    && (forall p :: PowerRule(o, p))
    && o.withOneMore(o.Mask(63)) == o.ones
  }

  ghost predicate Laws<T(!new)>(o: Operations<T>) {
    Bitwise(o) && Shifting(o) && Masking(o)
  }

  // ----- masks -----

  lemma MaskGrows<T(!new)>(o: Operations<T>, k: nat)
    requires Masking(o) && k < 64
    ensures o.Mask(k + 1) == o.withOneMore(o.Mask(k))
  {
    assert PowerRule(o, o.Left(o.one, k));
  }

  lemma {:induction false} MaskIsLowOnes<T(!new)>(o: Operations<T>, k: nat)
    requires Masking(o) && k <= 64
    ensures o.isLowOnes(o.Mask(k))
  {
    if k > 0 {
      MaskIsLowOnes(o, k - 1);
      MaskGrows(o, k - 1);
      assert GrowthRule(o, o.Mask(k - 1));
    }
  }

  lemma {:induction false} LongerMaskCovers<T(!new)>(o: Operations<T>, m: nat, n: nat)
    requires Bitwise(o) && Masking(o) && m <= n <= 64
    ensures o.and(o.Mask(m), o.Mask(n)) == o.Mask(m)
  {
    if m < n {
      LongerMaskCovers(o, m, n - 1);
      MaskGrows(o, n - 1);
      MaskIsLowOnes(o, n - 1);
      assert GrowthRule(o, o.Mask(n - 1));
      assert CoverRule(o, o.Mask(m), o.Mask(n - 1), o.Mask(n));
    } else {
      assert UnitRule(o, o.Mask(m));
    }
  }

  lemma MaskHalved<T(!new)>(o: Operations<T>, k: nat)
    requires Bitwise(o) && Masking(o) && k < 64
    ensures o.half(o.Mask(k + 1)) == o.Mask(k)
  {
    LongerMaskCovers(o, k, 63);
    MaskGrows(o, k);
    assert HalfRule(o, o.Mask(k));
  }

  // ----- fields -----

  lemma ShiftedOnce<T>(o: Operations<T>, x: T, n: nat)
    requires n > 0
    ensures o.Left(x, n) == o.Left(o.double(x), n - 1)
    ensures o.Right(x, n) == o.half(o.Right(x, n - 1))
  {
    IterateAdds(o.double, x, 1, n - 1);
    assert Iterate(o.double, x, 1) == o.double(x);
  }

  /** Up and down again brings back all the bits that did not leave the value. */
  lemma {:induction false} UpAndDown<T(!new)>(o: Operations<T>, x: T, n: nat, k: nat)
    requires Laws(o) && n + k <= 64
    ensures o.and(o.Right(o.Left(x, n), n), o.Mask(k)) == o.and(x, o.Mask(k))
  {
    if n > 0 {
      UpAndDown(o, o.double(x), n - 1, k + 1);
      var up := o.Left(o.double(x), n - 1);
      ShiftedOnce(o, x, n);
      ShiftedOnce(o, up, n);
      MaskHalved(o, k);
      assert LossRule(o, x, o.Right(up, n - 1), o.Mask(k + 1));
    }
  }

  lemma {:induction false} ZeroShifted<T(!new)>(o: Operations<T>, n: nat)
    requires Shifting(o)
    ensures o.Right(o.zero, n) == o.zero
  {
    if n > 0 {
      ZeroShifted(o, n - 1);
    }
  }

  /** What lies outside a field is not seen where the field is taken out. */
  lemma OutsideIsHidden<T(!new)>(o: Operations<T>, v: T, offset: nat, width: nat)
    requires Laws(o) && offset + width <= 64
    ensures o.and(o.Right(o.without(v, Field(o, offset, width)), offset), o.Mask(width)) == o.zero
  {
    var m, field := o.Mask(width), Field(o, offset, width);
    var rest := o.without(v, field);
    UpAndDown(o, m, offset, width);
    assert UnitRule(o, m);
    IterateIsLinear(o.half, o.and, rest, field, offset);
    assert WithoutRule(o, v, field);
    ZeroShifted(o, offset);
    assert HideRule(o, o.Right(rest, offset), o.Right(field, offset), m);
  }

  /** Whatever the other bits of v, a value that is put in the field at an offset comes out of it. */
  lemma PutAndGet<T(!new)>(o: Operations<T>, v: T, x: T, offset: nat, width: nat)
    requires Laws(o) && offset + width <= 64
    ensures Get(o, Put(o, v, x, offset, width), offset, width) == o.and(x, o.Mask(width))
  {
    var rest, put := o.without(v, Field(o, offset, width)), o.Left(x, offset);
    UpAndDown(o, x, offset, width);
    OutsideIsHidden(o, v, offset, width);
    IterateIsLinear(o.half, o.or, rest, put, offset);
    assert MaskedOrRule(o, o.Right(rest, offset), o.Right(put, offset), o.Mask(width));
  }

  /** The value of a field depends on the bits of the field only. */
  lemma FieldSeesItsBits<T(!new)>(o: Operations<T>, a: T, b: T, offset: nat, width: nat)
    requires Laws(o) && offset + width <= 64
    requires o.and(a, Field(o, offset, width)) == o.and(b, Field(o, offset, width))
    ensures Get(o, a, offset, width) == Get(o, b, offset, width)
  {
    var m, field := o.Mask(width), Field(o, offset, width);
    UpAndDown(o, m, offset, width);
    assert UnitRule(o, m);
    IterateIsLinear(o.half, o.and, a, field, offset);
    IterateIsLinear(o.half, o.and, b, field, offset);
    assert AssociativeRule(o, o.Right(a, offset), o.Right(field, offset), m);
    assert AssociativeRule(o, o.Right(b, offset), o.Right(field, offset), m);
  }

  /** A field lies within the lowest bits up to its end. */
  lemma {:induction false} FieldEnds<T(!new)>(o: Operations<T>, offset: nat, width: nat)
    requires Laws(o) && offset + width <= 64
    ensures o.and(Field(o, offset, width), o.Mask(offset + width)) == Field(o, offset, width)
  {
    if offset == 0 {
      assert UnitRule(o, o.Mask(width));
    } else {
      FieldEnds(o, offset - 1, width);
      MaskGrows(o, offset - 1 + width);
      assert DoubleRule(o, Field(o, offset - 1, width), o.Mask(offset - 1 + width));
    }
  }

  lemma FieldFits<T(!new)>(o: Operations<T>, offset: nat, width: nat, total: nat)
    requires Laws(o) && offset + width <= total <= 64
    ensures o.and(Field(o, offset, width), o.Mask(total)) == Field(o, offset, width)
  {
    FieldEnds(o, offset, width);
    LongerMaskCovers(o, offset + width, total);
    assert CoverRule(o, Field(o, offset, width), o.Mask(offset + width), o.Mask(total));
  }

  /** A masked value goes up into the field and nowhere else. */
  lemma MaskedGoesIntoField<T(!new)>(o: Operations<T>, x: T, offset: nat, width: nat)
    requires Laws(o)
    ensures o.Left(o.and(x, o.Mask(width)), offset) == o.and(o.Left(x, offset), Field(o, offset, width))
  {
    IterateIsLinear(o.double, o.and, x, o.Mask(width), offset);
  }

  /** A field that fits into the lowest bits can be read from them alone. */
  lemma FieldOfPart<T(!new)>(o: Operations<T>, v: T, offset: nat, width: nat, total: nat)
    requires Laws(o) && offset + width <= total <= 64
    ensures Get(o, o.and(v, o.Mask(total)), offset, width) == Get(o, v, offset, width)
  {
    FieldFits(o, offset, width, total);
    assert PartRule(o, v, o.Mask(total), Field(o, offset, width));
    FieldSeesItsBits(o, o.and(v, o.Mask(total)), v, offset, width);
  }

  /** The same when only the lowest bits are kept between putting and getting. */
  lemma PutAndGetPart<T(!new)>(o: Operations<T>, v: T, x: T, offset: nat, width: nat, total: nat)
    requires Laws(o) && offset + width <= total <= 64
    ensures Get(o, o.and(Put(o, v, x, offset, width), o.Mask(total)), offset, width) == o.and(x, o.Mask(width))
  {
    FieldOfPart(o, Put(o, v, x, offset, width), offset, width, total);
    PutAndGet(o, v, x, offset, width);
  }

  /** It does not matter whether data is cut before or after it is shifted to the field. */
  lemma PutMaskedIsPut<T(!new)>(o: Operations<T>, v: T, x: T, offset: nat, width: nat)
    requires Laws(o)
    ensures PutMasked(o, v, x, offset, width) == Put(o, v, o.and(x, o.Mask(width)), offset, width)
  {
    MaskedGoesIntoField(o, x, offset, width);
  }

  /** Cutting twice is cutting once. */
  lemma CutTwice<T(!new)>(o: Operations<T>, x: T, width: nat, total: nat)
    requires Laws(o) && width <= total <= 64
    ensures o.and(o.and(x, o.Mask(total)), o.Mask(width)) == o.and(x, o.Mask(width))
  {
    LongerMaskCovers(o, width, total);
    assert PartRule(o, x, o.Mask(total), o.Mask(width));
  }

  // ----- parts -----

  predicate PartOfOrRule<T, A(==)>(o: Operations<T>, part: (T, nat) -> A, or: (A, A) -> A, a: T, b: T, k: nat) {
    part(o.or(a, b), k) == or(part(a, k), part(b, k))
  }

  predicate PartOfWithoutRule<T, A(==)>(
      o: Operations<T>, part: (T, nat) -> A, without: (A, A) -> A, a: T, b: T, k: nat)
  {
    part(o.without(a, b), k) == without(part(a, k), part(b, k))
  }

  /** Putting data in a field puts a part of the data in each part of the number. */
  lemma PartOfPut<T(!new), A(!new)>(
      o: Operations<T>, part: (T, nat) -> A, or: (A, A) -> A, without: (A, A) -> A,
      v: T, x: T, offset: nat, width: nat, k: nat)
    requires forall a, b, k :: PartOfOrRule(o, part, or, a, b, k)
    requires forall a, b, k :: PartOfWithoutRule(o, part, without, a, b, k)
    ensures part(Put(o, v, x, offset, width), k)
         == or(without(part(v, k), part(Field(o, offset, width), k)), part(o.Left(x, offset), k))
  {
    assert PartOfOrRule(o, part, or, o.without(v, Field(o, offset, width)), o.Left(x, offset), k);
    assert PartOfWithoutRule(o, part, without, v, Field(o, offset, width), k);
  }
}
