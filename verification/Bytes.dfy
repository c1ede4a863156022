/** Bytes and their bits, most significant first. */
module Bytes {
  import opened Radix

  /** `0x80 >> k`. */
  function Mask(k: nat): bv8
    requires k < 8
  {
    match k
    case 0 => 0x80 case 1 => 0x40 case 2 => 0x20 case 3 => 0x10
    case 4 => 0x08 case 5 => 0x04 case 6 => 0x02 case _ => 0x01
  }

  predicate BitAt(b: bv8, k: nat)
    requires k < 8
  {
    b & Mask(k) != 0
  }

  /** Setting a bit sets that bit and no other. */
  lemma SetBit(b: bv8, k: nat, j: nat)
    requires k < 8 && j < 8
    ensures BitAt(b | Mask(k), j) <==> j == k || BitAt(b, j)
  {
  }

  function Unpack(raw: seq<bv8>): (bits: seq<bool>)
    ensures |bits| == 8 * |raw|
    ensures forall i :: 0 <= i < |bits| ==> bits[i] == BitAt(raw[i / 8], i % 8)
  {
    seq(8 * |raw|, i requires 0 <= i < 8 * |raw| => BitAt(raw[i / 8], i % 8))
  }

  /** A byte is its eight bits. */
  lemma BitsDecide(a: bv8, b: bv8)
    requires forall k :: 0 <= k < 8 ==> BitAt(a, k) == BitAt(b, k)
    ensures a == b
  {
    assert BitAt(a, 0) == BitAt(b, 0) && BitAt(a, 1) == BitAt(b, 1);
    assert BitAt(a, 2) == BitAt(b, 2) && BitAt(a, 3) == BitAt(b, 3);
    assert BitAt(a, 4) == BitAt(b, 4) && BitAt(a, 5) == BitAt(b, 5);
    assert BitAt(a, 6) == BitAt(b, 6) && BitAt(a, 7) == BitAt(b, 7);
  }

  lemma FillBits(v: bool, k: nat)
    requires k < 8
    ensures BitAt(if v then 0xFF else 0x00, k) == v
  {
  }

  /** Strict bytewise order. */
  predicate LexBytes(x: seq<bv8>, y: seq<bv8>) {
    x != [] && y != [] && (x[0] < y[0] || (x[0] == y[0] && LexBytes(x[1..], y[1..])))
  }

  function ByteBits(b: bv8): (bits: seq<bool>)
    ensures |bits| == 8 && forall k :: 0 <= k < 8 ==> bits[k] == BitAt(b, k)
  {
    seq(8, k requires 0 <= k < 8 => BitAt(b, k))
  }

  /** The first differing bit from `k` on decides. */
  predicate LessFrom(a: bv8, b: bv8, k: nat)
    requires k <= 8
    decreases 8 - k
  {
    k < 8 && ((!BitAt(a, k) && BitAt(b, k)) || (BitAt(a, k) == BitAt(b, k) && LessFrom(a, b, k + 1)))
  }

  /** `top` is one bit and `low` all bits below it. */
  predicate Place(k: nat, top: bv8, low: bv8) {
    || (k == 7 && top == 0x01 && low == 0x00) || (k == 6 && top == 0x02 && low == 0x01)
    || (k == 5 && top == 0x04 && low == 0x03) || (k == 4 && top == 0x08 && low == 0x07)
    || (k == 3 && top == 0x10 && low == 0x0F) || (k == 2 && top == 0x20 && low == 0x1F)
    || (k == 1 && top == 0x40 && low == 0x3F) || (k == 0 && top == 0x80 && low == 0x7F)
  }

  predicate HasBit(a: bv8, m: bv8) {
    a & m != 0
  }

  /** Smaller on the bits of `m`. */
  predicate LessOn(a: bv8, b: bv8, m: bv8) {
    a & m < b & m
  }

  /** Compare the bits from one place down: that place first, then the rest. */
  lemma PlaceStep(a: bv8, b: bv8, k: nat, top: bv8, low: bv8)
    requires Place(k, top, low)
    ensures LessOn(a, b, top | low) <==>
              || (!HasBit(a, top) && HasBit(b, top))
              || (HasBit(a, top) == HasBit(b, top) && LessOn(a, b, low))
  {
  }

  lemma PlaceBit(a: bv8, k: nat, top: bv8, low: bv8)
    requires Place(k, top, low)
    ensures k < 8 && BitAt(a, k) == HasBit(a, top)
  {
  }

  lemma LessStep(a: bv8, b: bv8, k: nat, top: bv8, low: bv8)
    requires k < 8 && Place(k, top, low) && (LessFrom(a, b, k + 1) <==> LessOn(a, b, low))
    ensures LessFrom(a, b, k) <==> LessOn(a, b, top | low)
  {
    hide Place, HasBit, LessOn, BitAt, Mask;
    PlaceStep(a, b, k, top, low);
    PlaceBit(a, k, top, low);
    PlaceBit(b, k, top, low);
  }

  lemma ByteLess(a: bv8, b: bv8)
    ensures a < b <==> LessFrom(a, b, 0)
  {
    hide LessFrom, LessOn;
    LessEnds(a, b);
    LessStep(a, b, 7, 0x01, 0x00);
    LessStep(a, b, 6, 0x02, 0x01);
    LessStep(a, b, 5, 0x04, 0x03);
    LessStep(a, b, 4, 0x08, 0x07);
    LessStep(a, b, 3, 0x10, 0x0F);
    LessStep(a, b, 2, 0x20, 0x1F);
    LessStep(a, b, 1, 0x40, 0x3F);
    LessStep(a, b, 0, 0x80, 0x7F);
  }

  lemma LessEnds(a: bv8, b: bv8)
    ensures !LessFrom(a, b, 8) && !LessOn(a, b, 0x00) && (LessOn(a, b, 0xFF) <==> a < b)
  {
  }

  lemma {:induction false} LessIsLex(a: bv8, b: bv8, k: nat)
    requires k <= 8
    ensures LessFrom(a, b, k) <==> LexBits(ByteBits(a)[k..], ByteBits(b)[k..])
    decreases 8 - k
  {
    hide BitAt;
    if k < 8 {
      LessIsLex(a, b, k + 1);
      var x, y := ByteBits(a)[k..], ByteBits(b)[k..];
      assert x[1..] == ByteBits(a)[k + 1..] && y[1..] == ByteBits(b)[k + 1..];
      assert x[0] == BitAt(a, k) && y[0] == BitAt(b, k);
    }
  }

  lemma {:induction false} LexConcat(c: seq<bool>, d: seq<bool>, x: seq<bool>, y: seq<bool>)
    requires |c| == |d|
    ensures LexBits(c + x, d + y) <==> LexBits(c, d) || (c == d && LexBits(x, y))
    decreases |c|
  {
    if c == [] {
      assert c + x == x && d + y == y;
    } else {
      LexConcat(c[1..], d[1..], x, y);
      assert (c + x)[1..] == c[1..] + x && (d + y)[1..] == d[1..] + y;
      assert c == [c[0]] + c[1..] && d == [d[0]] + d[1..];
    }
  }

  lemma UnpackFirst(raw: seq<bv8>)
    requires raw != []
    ensures Unpack(raw) == ByteBits(raw[0]) + Unpack(raw[1..])
  {
    hide BitAt;
    var head, tail := ByteBits(raw[0]), Unpack(raw[1..]);
    forall i | 0 <= i < 8 * |raw|
      ensures Unpack(raw)[i] == (head + tail)[i]
    {
      if i < 8 {
        assert head[i] == BitAt(raw[0], i);
      } else {
        assert i / 8 == 1 + (i - 8) / 8 && i % 8 == (i - 8) % 8;
      }
    }
  }

  lemma ByteBitsDecide(a: bv8, b: bv8)
    ensures ByteBits(a) == ByteBits(b) <==> a == b
  {
    if ByteBits(a) == ByteBits(b) {
      forall k | 0 <= k < 8
        ensures BitAt(a, k) == BitAt(b, k)
      {
        assert ByteBits(a)[k] == ByteBits(b)[k];
      }
      BitsDecide(a, b);
    }
  }

  /** Bytewise order is bitwise order, and the bits determine the bytes. */
  lemma {:induction false} UnpackKeepsOrder(x: seq<bv8>, y: seq<bv8>)
    requires |x| == |y|
    ensures LexBytes(x, y) <==> LexBits(Unpack(x), Unpack(y))
    ensures Unpack(x) == Unpack(y) <==> x == y
    decreases |x|
  {
    hide ByteBits, Unpack;
    if x == [] {
      UnpackNone(x);
      UnpackNone(y);
    } else {
      UnpackKeepsOrder(x[1..], y[1..]);
      UnpackFirst(x);
      UnpackFirst(y);
      var c, d := ByteBits(x[0]), ByteBits(y[0]);
      LexConcat(c, d, Unpack(x[1..]), Unpack(y[1..]));
      ByteLess(x[0], y[0]);
      LessIsLex(x[0], y[0], 0);
      assert c[0..] == c && d[0..] == d;
      ByteBitsDecide(x[0], y[0]);
      assert x == [x[0]] + x[1..] && y == [y[0]] + y[1..];
      SameConcat(c, d, Unpack(x[1..]), Unpack(y[1..]));
    }
  }

  lemma UnpackNone(x: seq<bv8>)
    requires x == []
    ensures Unpack(x) == []
  {
  }

  lemma SameConcat(c: seq<bool>, d: seq<bool>, x: seq<bool>, y: seq<bool>)
    requires |c| == |d|
    ensures c + x == d + y <==> c == d && x == y
  {
    if c + x == d + y {
      assert c == (c + x)[..|c|] && d == (d + y)[..|d|];
      assert x == (c + x)[|c|..] && y == (d + y)[|d|..];
    }
  }
}
