/** Range counts over stored integers: byte-lexicographic bounds on the 32-byte
big-endian two's complement are exact numeric bounds. */
module NumericRange {
  import opened Powers
  import opened Radix
  import ContinuedFraction

  const MAX128 := ContinuedFraction.MAX128

  predicate I256(v: int) {
    -Pow(2, 255) <= v < Pow(2, 255)
  }

  /** The residue two's complement stores. */
  function Unsigned(v: int): int {
    if v >= 0 then v else v + Pow(2, 256)
  }

  lemma UnsignedFits(v: int)
    requires I256(v)
    ensures 0 <= Unsigned(v) < Pow(256, 32)
    ensures v < 0 ==> Unsigned(v) >= Pow(2, 255)
  {
    EightBits(32);
    assert Pow(2, 256) == 2 * Pow(2, 255);
  }

  /** The `I256BE` bytes of `v`. */
  function Encode(v: int): (r: seq<nat>)
    requires I256(v)
    ensures |r| == 32
  {
    UnsignedFits(v);
    ToDigits(256, Unsigned(v), 32)
  }

  /** `value_range`: no byte string below the bounds, none above. */
  predicate InRange(x: seq<nat>, lo: seq<nat>, hi: seq<nat>) {
    !Lex(x, lo) && !Lex(hi, x)
  }

  lemma MaxBelow()
    ensures MAX128 + 1 == Pow(2, 127) && Pow(2, 127) <= Pow(2, 255)
  {
    HighPowers();
    PowTwoLe(127, 255);
  }

  lemma HighPowers()
    ensures Pow(2, 127) == 0x8000_0000_0000_0000_0000_0000_0000_0000
  {
    Doublings(2);
    assert Pow(2, 16) == 0x1_0000;
    PowAdd(2, 16, 16);
    assert Pow(2, 32) == 0x1_0000_0000;
    PowAdd(2, 32, 32);
    assert Pow(2, 64) == 0x1_0000_0000_0000_0000;
    PowAdd(2, 64, 32);
    assert Pow(2, 96) == 0x1_0000_0000_0000_0000_0000_0000;
    PowAdd(2, 96, 16);
    PowAdd(2, 112, 8);
    assert Pow(2, 120) == 0x100_0000_0000_0000_0000_0000_0000_0000;
    PowAdd(2, 120, 4);
    PowAdd(2, 124, 2);
    PowAdd(2, 126, 1);
  }

  /** EXACT RANGE: for every 256-bit integer and every bound from 0 to the
      largest i128, the byte range selects exactly the numeric range. */
  lemma RangeIsNumeric(v: int, min: int)
    requires I256(v) && 0 <= min <= MAX128
    ensures I256(min) && I256(MAX128)
    ensures InRange(Encode(v), Encode(min), Encode(MAX128)) <==> min <= v <= MAX128
  {
    MaxBelow();
    UnsignedFits(v);
    UnsignedFits(min);
    UnsignedFits(MAX128);
    DigitsRoundTrip(256, Unsigned(v), 32);
    DigitsRoundTrip(256, Unsigned(min), 32);
    DigitsRoundTrip(256, Unsigned(MAX128), 32);
    LexIsNumeric(256, Encode(v), Encode(min));
    LexIsNumeric(256, Encode(MAX128), Encode(v));
  }

  /** Under a negative bound the byte range is empty: negatives sort above. */
  lemma NegativeBoundIsEmpty(v: int, min: int)
    requires I256(v) && I256(MAX128) && I256(min) && min < 0
    ensures !InRange(Encode(v), Encode(min), Encode(MAX128))
  {
    MaxBelow();
    UnsignedFits(v);
    UnsignedFits(min);
    UnsignedFits(MAX128);
    DigitsRoundTrip(256, Unsigned(v), 32);
    DigitsRoundTrip(256, Unsigned(min), 32);
    DigitsRoundTrip(256, Unsigned(MAX128), 32);
    LexIsNumeric(256, Encode(v), Encode(min));
    LexIsNumeric(256, Encode(MAX128), Encode(v));
    EightBits(32);
  }

  /** The byte range is the numeric range for every integer if and only if the
      bound is not negative. */
  lemma RangeExactness(min: int)
    requires ContinuedFraction.I128(min)
    ensures I256(min) && I256(MAX128)
    ensures (forall v :: I256(v) ==> (InRange(Encode(v), Encode(min), Encode(MAX128)) <==> min <= v <= MAX128))
            <==> min >= 0
  {
    hide InRange, Encode;
    MaxBelow();
    if min >= 0 {
      forall v | I256(v)
        ensures InRange(Encode(v), Encode(min), Encode(MAX128)) <==> min <= v <= MAX128
      {
        RangeIsNumeric(v, min);
      }
    } else {
      NegativeBoundIsEmpty(min, min);
    }
  }
}
