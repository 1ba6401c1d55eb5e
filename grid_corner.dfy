/**
 * graph::GridCorner (src/graph/GridCorner.cpp): a corner of a grid cell with
 * signed 32-bit row and column, equality, and the Morton (z-order) score used
 * to order corners. The constructor takes 64-bit integers and stores them in
 * 32-bit fields, so it truncates; `MakeCorner` makes that explicit.
 */
module GridCorners {

  const I32_MIN: int := -0x8000_0000
  const I32_MAX: int := 0x7FFF_FFFF

  /** std::int32_t */
  type i32 = x: int | I32_MIN <= x <= I32_MAX

  datatype GridCorner = GridCorner(row: i32, column: i32)

  /** Conversion of an integer to std::int32_t (two's complement, modulo 2^32). */
  function ToI32(x: int): i32
  {
    if I32_MIN <= x <= I32_MAX then x
    else
      var m := x % 0x1_0000_0000;
      if m <= I32_MAX then m else m - 0x1_0000_0000
  }

  lemma ToI32InRange(x: int)
    requires I32_MIN <= x <= I32_MAX
    ensures ToI32(x) == x
  {
  }

  /** `GridCorner(std::int64_t row, std::int64_t column)` */
  function MakeCorner(row: int, column: int): GridCorner
  {
    GridCorner(ToI32(row), ToI32(column))
  }

  /** `operator==` */
  predicate Equal(a: GridCorner, b: GridCorner)
  {
    a.row == b.row && a.column == b.column
  }

  /** `operator!=` */
  predicate NotEqual(a: GridCorner, b: GridCorner)
  {
    !Equal(a, b)
  }

  lemma EqualIsIdentity(a: GridCorner, b: GridCorner)
    ensures Equal(a, b) <==> a == b
    ensures NotEqual(a, b) <==> a != b
  {
  }

  /**
   * The bits of a value in [0, 2^32), least significant first, built one
   * bit at a time so that the bit-vector and its integer value can be related.
   */
  function Bits(x: nat): bv64
    requires x < 0x1_0000_0000
  {
    if x == 0 then 0 else (Bits(x / 2) << 1) | (if x % 2 == 1 then 1 else 0)
  }

  /** `static_cast<uint32_t>` of a 32-bit value (modulo 2^32), widened to 64 bits. */
  function ToU32(x: i32): bv64
  {
    Bits(if x < 0 then x + 0x1_0000_0000 else x)
  }

  /** The four shift-and-mask steps `zScore` applies to each coordinate. */
  function Spread(v: bv64): bv64
  {
    var x1 := (v | (v << 8)) & 0x00FF00FF;
    var x2 := (x1 | (x1 << 4)) & 0x0F0F0F0F;
    var x3 := (x2 | (x2 << 2)) & 0x33333333;
    (x3 | (x3 << 1)) & 0x55555555
  }

  /** `zScore`: the column's spread bits in the even positions, the row's in the odd ones. */
  function ZScore(c: GridCorner): bv64
  {
    Spread(ToU32(c.column)) | (Spread(ToU32(c.row)) << 1)
  }

  /** `operator<` compares z-scores as unsigned 64-bit numbers. */
  predicate Less(a: GridCorner, b: GridCorner)
  {
    ZScore(a) as int < ZScore(b) as int
  }

  /** The inverse of Spread on 16-bit values: gathers the even bits back together. */
  function Gather(v: bv64): bv64
  {
    var x0 := v & 0x55555555;
    var x1 := (x0 | (x0 >> 1)) & 0x33333333;
    var x2 := (x1 | (x1 >> 2)) & 0x0F0F0F0F;
    var x3 := (x2 | (x2 >> 4)) & 0x00FF00FF;
    (x3 | (x3 >> 8)) & 0x0000FFFF
  }

  /** Every z-score fits in 32 bits, given the masks used. */
  lemma ZScoreBound(c: GridCorner)
    ensures ZScore(c) < 0x1_0000_0000
  {
    var sc := Spread(ToU32(c.column));
    var sr := Spread(ToU32(c.row));
    assert sc <= 0x55555555 && sr <= 0x55555555;
  }

  lemma SpreadGather(v: bv64)
    requires v < 0x1_0000
    ensures Spread(v) & 0x55555555 == Spread(v)
    ensures Gather(Spread(v)) == v
  {
  }

  /** Gathering the even bits of an interleaved pair gives back the first 16-bit value. */
  lemma InterleaveGatherEven(col: bv64, row: bv64)
    requires col < 0x1_0000 && row < 0x1_0000
    ensures Gather(Spread(col) | (Spread(row) << 1)) == col
  {
  }

  /** Gathering the odd bits of an interleaved pair gives back the second 16-bit value. */
  lemma InterleaveGatherOdd(col: bv64, row: bv64)
    requires col < 0x1_0000 && row < 0x1_0000
    ensures Gather((Spread(col) | (Spread(row) << 1)) >> 1) == row
  {
  }

  /** Bit k of v. */
  function Bit(v: bv64, k: bv64): bv64
    requires k < 64
  {
    (v >> k) & 1
  }

  lemma InterleaveBitEven(col: bv64, row: bv64, k: bv64)
    requires col < 0x1_0000 && row < 0x1_0000 && k < 16
    ensures Bit(Spread(col) | (Spread(row) << 1), 2 * k) == Bit(col, k)
  {
  }

  lemma InterleaveBitOdd(col: bv64, row: bv64, k: bv64)
    requires col < 0x1_0000 && row < 0x1_0000 && k < 16
    ensures Bit(Spread(col) | (Spread(row) << 1), 2 * k + 1) == Bit(row, k)
  {
  }

  /** A corner whose row and column are 16-bit values. */
  predicate Is16Bit(c: GridCorner)
  {
    0 <= c.row < 0x1_0000 && 0 <= c.column < 0x1_0000
  }

  lemma BitsOdd(x: nat, v: bv64)
    requires 0 < x < 0x1_0000_0000 && x % 2 == 1 && v == Bits(x / 2)
    ensures Bits(x) == (v << 1) | 1
  {
  }

  lemma BitsEven(x: nat, v: bv64)
    requires 0 < x < 0x1_0000_0000 && x % 2 == 0 && v == Bits(x / 2)
    ensures Bits(x) == v << 1
  {
  }

  lemma ShiftInOne(v: bv64)
    requires v < 0x8000_0000
    ensures ((v << 1) | 1) as int == 2 * (v as int) + 1
  {
  }

  lemma ShiftInZero(v: bv64)
    requires v < 0x8000_0000
    ensures (v << 1) as int == 2 * (v as int)
  {
  }

  lemma BvBelow2To31(v: bv64)
    requires v as int < 0x8000_0000
    ensures v < 0x8000_0000
  {
  }

  lemma BvBelow2To16(v: bv64)
    requires v as int < 0x1_0000
    ensures v < 0x1_0000
  {
  }

  /** `Bits` builds the unsigned 32-bit representation of its argument. */
  lemma {:induction false} BitsValue(x: nat)
    requires x < 0x1_0000_0000
    ensures Bits(x) as int == x
  {
    if x > 0 {
      BitsValue(x / 2);
      var v := Bits(x / 2);
      BvBelow2To31(v);
      if x % 2 == 1 {
        ShiftInOne(v);
        BitsOdd(x, v);
      } else {
        ShiftInZero(v);
        BitsEven(x, v);
      }
    }
  }

  /** The cast keeps the value modulo 2^32. */
  lemma ToU32Value(x: i32)
    ensures ToU32(x) as int == x % 0x1_0000_0000
    ensures ToU32(x) as int == if x < 0 then x + 0x1_0000_0000 else x
  {
    if x < 0 {
      BitsValue(x + 0x1_0000_0000);
    } else {
      BitsValue(x);
    }
  }

  /** Distinct 32-bit values stay distinct under the cast. */
  lemma ToU32Injective(x: i32, y: i32)
    requires ToU32(x) == ToU32(y)
    ensures x == y
  {
    ToU32Value(x);
    ToU32Value(y);
  }

  lemma ToU32Small(x: i32)
    requires 0 <= x < 0x1_0000
    ensures ToU32(x) < 0x1_0000
    ensures ToU32(x) as int == x
  {
    BitsValue(x);
    var u := Bits(x);
    assert u as int == x;
    BvBelow2To16(u);
  }

  /** The row and column a z-score encodes, when both are 16-bit values. */
  function DecodeZScore(z: bv64): GridCorner
  {
    var col := Gather(z);
    var row := Gather(z >> 1);
    assert col <= 0xFFFF && row <= 0xFFFF;
    GridCorner(row as int, col as int)
  }

  /** For 16-bit coordinates the z-score can be decoded back into the corner. */
  lemma {:induction false} ZScoreRoundTrip(c: GridCorner)
    requires Is16Bit(c)
    ensures DecodeZScore(ZScore(c)) == c
  {
    ToU32Small(c.column);
    ToU32Small(c.row);
    InterleaveGatherEven(ToU32(c.column), ToU32(c.row));
    InterleaveGatherOdd(ToU32(c.column), ToU32(c.row));
  }

  /** `zScore` puts bit k of the column, for the low 16 bits, at bit 2k. */
  lemma ZScoreColumnBits(c: GridCorner, k: bv64)
    requires Is16Bit(c) && k < 16
    ensures Bit(ZScore(c), 2 * k) == Bit(ToU32(c.column), k)
  {
    var col, row := ToU32(c.column), ToU32(c.row);
    ToU32Small(c.column);
    ToU32Small(c.row);
    InterleaveBitEven(col, row, k);
    assert ZScore(c) == Spread(col) | (Spread(row) << 1);
  }

  /** `zScore` puts bit k of the row, for the low 16 bits, at bit 2k+1. */
  lemma ZScoreRowBits(c: GridCorner, k: bv64)
    requires Is16Bit(c) && k < 16
    ensures Bit(ZScore(c), 2 * k + 1) == Bit(ToU32(c.row), k)
  {
    var col, row := ToU32(c.column), ToU32(c.row);
    ToU32Small(c.column);
    ToU32Small(c.row);
    InterleaveBitOdd(col, row, k);
    assert ZScore(c) == Spread(col) | (Spread(row) << 1);
  }

  /** Different 16-bit corners have different z-scores. */
  lemma ZScoreInjective(a: GridCorner, b: GridCorner)
    requires Is16Bit(a) && Is16Bit(b) && a != b
    ensures ZScore(a) != ZScore(b)
  {
    ZScoreRoundTrip(a);
    ZScoreRoundTrip(b);
  }

  /** A bit-vector is determined by its numeric value. */
  lemma BvFromValue(x: bv64)
    ensures (x as int) as bv64 == x
  {
  }

  /** Equal corners are never less than each other, and `<` is asymmetric. */
  lemma LessIsStrict(a: GridCorner, b: GridCorner)
    ensures Equal(a, b) ==> !Less(a, b)
    ensures !(Less(a, b) && Less(b, a))
  {
  }

  /** On 16-bit corners `<` is total: of two different corners one is less. */
  lemma LessIsTotalOn16Bit(a: GridCorner, b: GridCorner)
    requires Is16Bit(a) && Is16Bit(b) && a != b
    ensures Less(a, b) || Less(b, a)
  {
    ZScoreInjective(a, b);
    BvFromValue(ZScore(a));
    BvFromValue(ZScore(b));
  }

  /** Beyond 16 bits the score no longer separates corners: two different corners share a score. */
  lemma ZScoreCollidesBeyond16Bits()
    ensures GridCorner(0, 0x1_0000) != GridCorner(0, 0x100)
    ensures ZScore(GridCorner(0, 0x1_0000)) == ZScore(GridCorner(0, 0x100))
    ensures !Less(GridCorner(0, 0x1_0000), GridCorner(0, 0x100))
    ensures !Less(GridCorner(0, 0x100), GridCorner(0, 0x1_0000))
  {
    BitsOfPowersOfTwo();
    SpreadCollidesAtBitSixteen();
  }

  /** `Bits` of the powers of two up to 2^16, one doubling at a time. */
  lemma BitsOfPowersOfTwo()
    ensures Bits(0x1_0000) == 0x1_0000 && Bits(0x100) == 0x100 && Bits(0) == 0
  {
    assert Bits(1) == 1;
    assert Bits(2) == 2;
    assert Bits(4) == 4;
    assert Bits(8) == 8;
    assert Bits(0x10) == 0x10;
    assert Bits(0x20) == 0x20;
    assert Bits(0x40) == 0x40;
    assert Bits(0x80) == 0x80;
    assert Bits(0x100) == 0x100;
    assert Bits(0x200) == 0x200;
    assert Bits(0x400) == 0x400;
    assert Bits(0x800) == 0x800;
    assert Bits(0x1000) == 0x1000;
    assert Bits(0x2000) == 0x2000;
    assert Bits(0x4000) == 0x4000;
    assert Bits(0x8000) == 0x8000;
  }

  /** `Spread` leaves bit 16 at position 16, which is also where it moves bit 8. */
  lemma SpreadCollidesAtBitSixteen()
    ensures Spread(0x1_0000) == Spread(0x100)
  {
  }
}
