/** The deterministic identifiers of the fixtures: a counter mixed by splitmix64
under a fixed locality prefix. Words are naturals below 2^64; xor, shift and the
wrapping operators are written out on them. */
module Minting {

  const WORD_SIZE: nat := 0x1_0000_0000_0000_0000
  const HALF_SIZE: nat := 0x1_0000_0000

  // ---- bits of naturals ----

  function Xor(a: nat, b: nat): nat
    decreases a + b
  {
    if a == 0 && b == 0 then 0 else BitXor(a, b) + 2 * Xor(a / 2, b / 2)
  }

  /** The xor of the last bits. */
  function BitXor(a: nat, b: nat): (bit: nat)
    ensures bit < 2
  {
    (a % 2 + b % 2) % 2
  }

  /** `a >> k`. */
  function Down(a: nat, k: nat): nat {
    if k == 0 then a else Down(a / 2, k - 1)
  }

  /** `1 << k`. */
  function Up(k: nat): nat {
    if k == 0 then 1 else 2 * Up(k - 1)
  }

  lemma XorUnroll(a: nat, b: nat)
    ensures Xor(a, b) == BitXor(a, b) + 2 * Xor(a / 2, b / 2)
  {
    if a == 0 && b == 0 {
      assert Xor(0, 0) == 0;
    }
  }

  lemma LastBit(x: nat, bit: nat, rest: nat)
    requires x == bit + 2 * rest && bit < 2
    ensures x % 2 == bit && x / 2 == rest
  {
  }

  lemma XorStep(a: nat, b: nat)
    ensures Xor(a, b) == BitXor(a, b) + 2 * Xor(a / 2, b / 2)
    ensures Xor(a, b) % 2 == BitXor(a, b) && Xor(a, b) / 2 == Xor(a / 2, b / 2)
  {
    hide Xor, BitXor;
    XorUnroll(a, b);
    LastBit(Xor(a, b), BitXor(a, b), Xor(a / 2, b / 2));
  }

  lemma {:induction false} XorZero(a: nat)
    ensures Xor(a, 0) == a
  {
    if a > 0 {
      XorZero(a / 2);
    }
  }

  lemma {:induction false} XorCommutes(a: nat, b: nat)
    ensures Xor(a, b) == Xor(b, a)
    decreases a + b
  {
    if a + b > 0 {
      XorCommutes(a / 2, b / 2);
    }
  }

  lemma {:induction false} XorAssociates(a: nat, b: nat, c: nat)
    ensures Xor(Xor(a, b), c) == Xor(a, Xor(b, c))
    decreases a + b + c
  {
    hide Xor;
    if a + b + c == 0 {
      XorZero(0);
    } else {
      XorAssociates(a / 2, b / 2, c / 2);
      AssociatesStep(a, b, c);
    }
  }

  lemma AssociatesStep(a: nat, b: nat, c: nat)
    requires Xor(Xor(a / 2, b / 2), c / 2) == Xor(a / 2, Xor(b / 2, c / 2))
    ensures Xor(Xor(a, b), c) == Xor(a, Xor(b, c))
  {
    hide Xor, BitXor;
    XorStep(a, b);
    XorStep(b, c);
    XorUnroll(Xor(a, b), c);
    XorUnroll(a, Xor(b, c));
    BitAssociates(a, b, c, Xor(a, b), Xor(b, c));
  }

  lemma BitAssociates(a: nat, b: nat, c: nat, ab: nat, bc: nat)
    requires ab % 2 == BitXor(a, b) && bc % 2 == BitXor(b, c)
    ensures BitXor(ab, c) == BitXor(a, bc)
  {
  }

  lemma {:induction false} XorSelf(a: nat)
    ensures Xor(a, a) == 0
  {
    if a > 0 {
      XorSelf(a / 2);
    }
  }

  /** Xor with the same word twice is no xor. */
  lemma XorTwice(a: nat, b: nat)
    ensures Xor(Xor(a, b), b) == a
  {
    XorAssociates(a, b, b);
    XorSelf(b);
    XorZero(a);
  }

  lemma {:induction false} XorBounded(a: nat, b: nat, k: nat)
    requires a < Up(k) && b < Up(k)
    ensures Xor(a, b) < Up(k)
  {
    if k > 0 {
      XorBounded(a / 2, b / 2, k - 1);
      XorStep(a, b);
    }
  }

  lemma {:induction false} DownXor(a: nat, b: nat, k: nat)
    ensures Down(Xor(a, b), k) == Xor(Down(a, k), Down(b, k))
  {
    if k > 0 {
      XorStep(a, b);
      DownXor(a / 2, b / 2, k - 1);
    }
  }

  lemma {:induction false} DownDown(a: nat, j: nat, k: nat)
    ensures Down(Down(a, j), k) == Down(a, j + k)
  {
    if j > 0 {
      DownDown(a / 2, j - 1, k);
    }
  }

  lemma {:induction false} DownBounded(a: nat, k: nat)
    ensures Down(a, k) <= a
  {
    if k > 0 {
      DownBounded(a / 2, k - 1);
    }
  }

  lemma {:induction false} DownAway(a: nat, k: nat)
    requires a < Up(k)
    ensures Down(a, k) == 0
  {
    if k > 0 {
      DownAway(a / 2, k - 1);
    }
  }

  lemma {:induction false} DownSplits(a: nat, k: nat)
    ensures Up(k) > 0 && a == Down(a, k) * Up(k) + a % Up(k)
  {
    if k > 0 {
      DownSplits(a / 2, k - 1);
      HalfSplits(a, Down(a, k), Up(k - 1));
    }
  }

  lemma HalfSplits(a: nat, d: nat, u: nat)
    requires u > 0 && a / 2 == d * u + (a / 2) % u
    ensures a == d * (2 * u) + a % (2 * u)
  {
    var r := (a / 2) % u * 2 + a % 2;
    assert a == 2 * (d * u) + r;
    assert d * (2 * u) == 2 * (d * u);
    Remainder(a, d, 2 * u, r);
  }

  lemma Remainder(a: nat, d: nat, u: nat, r: nat)
    requires a == d * u + r && r < u
    ensures a % u == r && a / u == d
  {
    ZeroMultiple(a / u - d, u, r - a % u);
  }

  lemma ZeroMultiple(x: int, u: int, e: int)
    requires x * u == e && -u < e < u
    ensures x == 0
  {
    assert x >= 1 ==> x * u >= 1 * u;
    assert -x >= 1 ==> -x * u >= 1 * u;
  }

  lemma WordSizeIsUp()
    ensures Up(64) == WORD_SIZE && Up(32) == HALF_SIZE
  {
    assert Up(8) == 256;
    UpAdd(8, 8);
    UpAdd(16, 16);
    UpAdd(32, 32);
  }

  lemma {:induction false} UpAdd(j: nat, k: nat)
    ensures Up(j + k) == Up(j) * Up(k)
  {
    if j > 0 {
      UpAdd(j - 1, k);
    }
  }

  // ---- the mixing steps and their inverses ----

  /** `v ^ (v >> k)`. */
  function Fold(v: nat, k: nat): nat {
    Xor(v, Down(v, k))
  }

  /** Undoes `Fold` on words of at most `3 * k` bits. */
  function Unfold(w: nat, k: nat): nat {
    Xor(Xor(w, Down(w, k)), Down(w, k + k))
  }

  lemma ThriceDown(v: nat, k: nat)
    requires v < Up(64) && 3 * k >= 64
    ensures Down(Down(v, k + k), k) == 0 && Down(Down(v, k), k + k) == 0
  {
    DownDown(v, k + k, k);
    DownDown(v, k, k + k);
    DownAway(v, 64);
    DownDown(v, 64, 3 * k - 64);
    DownZero(3 * k - 64);
  }

  lemma {:induction false} DownZero(k: nat)
    ensures Down(0, k) == 0
  {
    if k > 0 {
      DownZero(k - 1);
    }
  }

  lemma UnfoldFold(v: nat, k: nat)
    requires v < Up(64) && 3 * k >= 64
    ensures Unfold(Fold(v, k), k) == v
  {
    hide Xor, Down, Up;
    var b, c := Down(v, k), Down(v, k + k);
    DownXor(v, b, k);
    DownDown(v, k, k);
    DownXor(v, b, k + k);
    ThriceDown(v, k);
    XorZero(c);
    assert Unfold(Fold(v, k), k) == Xor(Xor(Xor(v, b), Xor(b, c)), c);
    XorAssociates(Xor(v, b), b, c);
    XorTwice(v, b);
    XorTwice(v, c);
  }

  lemma FoldUnfold(w: nat, k: nat)
    requires w < Up(64) && 3 * k >= 64
    ensures Fold(Unfold(w, k), k) == w
  {
    hide Xor, Down, Up;
    var b, c := Down(w, k), Down(w, k + k);
    DownXor(Xor(w, b), c, k);
    DownXor(w, b, k);
    DownDown(w, k, k);
    ThriceDown(w, k);
    XorZero(Xor(b, c));
    assert Fold(Unfold(w, k), k) == Xor(Xor(Xor(w, b), c), Xor(b, c));
    XorAssociates(w, b, c);
    XorTwice(w, Xor(b, c));
  }

  lemma FoldBounded(v: nat, k: nat)
    requires v < WORD_SIZE
    ensures Fold(v, k) < WORD_SIZE && Unfold(v, k) < WORD_SIZE
  {
    hide Xor, Down, Up;
    WordSizeIsUp();
    DownBounded(v, k);
    DownBounded(v, k + k);
    XorBounded(v, Down(v, k), 64);
    XorBounded(Xor(v, Down(v, k)), Down(v, k + k), 64);
  }

  const GOLDEN: nat := 0x9E37_79B9_7F4A_7C15
  const FIRST_FACTOR: nat := 0xBF58_476D_1CE4_E5B9
  const SECOND_FACTOR: nat := 0x94D0_49BB_1331_11EB
  const FIRST_INVERSE: nat := 0x96DE_1B17_3F11_9089
  const SECOND_INVERSE: nat := 0x3196_42B2_D24D_8EC3

  function WrapAdd(a: nat, b: nat): nat { (a + b) % WORD_SIZE }

  function WrapMul(a: nat, b: nat): nat { (a * b) % WORD_SIZE }

  lemma TimesInverse(v: nat, m: nat, n: nat)
    requires v < WORD_SIZE && (m * n) % WORD_SIZE == 1
    ensures WrapMul(WrapMul(v, m), n) == v
  {
    var q, k := v * m / WORD_SIZE, m * n / WORD_SIZE;
    assert v * m == q * WORD_SIZE + WrapMul(v, m);
    assert m * n == k * WORD_SIZE + 1;
    Regroup(v, m, n, q, k, WrapMul(v, m), WORD_SIZE);
    ModuloShift(WrapMul(v, m) * n, v, v * k - q * n);
  }

  lemma Regroup(v: int, m: int, n: int, q: int, k: int, r: int, w: int)
    requires v * m == q * w + r && m * n == k * w + 1
    ensures r * n == v + (v * k - q * n) * w
  {
    calc {
      r * n;
      (v * m - q * w) * n;
      v * (m * n) - q * w * n;
      v * (k * w + 1) - q * w * n;
      v + (v * k - q * n) * w;
    }
  }

  lemma ModuloShift(a: nat, v: nat, j: int)
    requires a == v + j * WORD_SIZE && v < WORD_SIZE
    ensures a % WORD_SIZE == v
  {
  }

  lemma AddUndone(v: nat, a: nat, b: nat)
    requires v < WORD_SIZE && a + b == WORD_SIZE
    ensures WrapAdd(WrapAdd(v, a), b) == v
  {
  }

  function Splitmix(v: nat): nat {
    Fold(WrapMul(Fold(WrapMul(Fold(WrapAdd(v, GOLDEN), 30), FIRST_FACTOR), 27), SECOND_FACTOR), 31)
  }

  function Unsplitmix(w: nat): nat {
    WrapAdd(Unfold(WrapMul(Unfold(WrapMul(Unfold(w, 31), SECOND_INVERSE), 27), FIRST_INVERSE), 30), WORD_SIZE - GOLDEN)
  }

  lemma Inverses()
    ensures FIRST_FACTOR * FIRST_INVERSE % WORD_SIZE == 1 && FIRST_INVERSE * FIRST_FACTOR % WORD_SIZE == 1
    ensures SECOND_FACTOR * SECOND_INVERSE % WORD_SIZE == 1 && SECOND_INVERSE * SECOND_FACTOR % WORD_SIZE == 1
  {
  }

  lemma WrapsBounded(a: nat, b: nat)
    ensures WrapAdd(a, b) < WORD_SIZE && WrapMul(a, b) < WORD_SIZE
  {
  }

  /** splitmix64 is a bijection of the 64-bit words: this is its left inverse. */
  lemma UnsplitmixSplitmix(v: nat)
    requires v < WORD_SIZE
    ensures Splitmix(v) < WORD_SIZE && Unsplitmix(Splitmix(v)) == v
  {
    hide Fold, Unfold, WrapAdd, WrapMul, Up;
    Inverses();
    WordSizeIsUp();
    var a := WrapAdd(v, GOLDEN);
    WrapsBounded(v, GOLDEN);
    var b := Fold(a, 30);
    FoldBounded(a, 30);
    var c := WrapMul(b, FIRST_FACTOR);
    WrapsBounded(b, FIRST_FACTOR);
    var d := Fold(c, 27);
    FoldBounded(c, 27);
    var e := WrapMul(d, SECOND_FACTOR);
    WrapsBounded(d, SECOND_FACTOR);
    FoldBounded(e, 31);
    UnfoldFold(e, 31);
    TimesInverse(d, SECOND_FACTOR, SECOND_INVERSE);
    UnfoldFold(c, 27);
    TimesInverse(b, FIRST_FACTOR, FIRST_INVERSE);
    UnfoldFold(a, 30);
    AddUndone(v, GOLDEN, WORD_SIZE - GOLDEN);
  }

  /** And this its right inverse: every word is the mix of one word. */
  lemma SplitmixUnsplitmix(w: nat)
    requires w < WORD_SIZE
    ensures Unsplitmix(w) < WORD_SIZE && Splitmix(Unsplitmix(w)) == w
  {
    hide Fold, Unfold, WrapAdd, WrapMul, Up;
    Inverses();
    WordSizeIsUp();
    var a := Unfold(w, 31);
    FoldBounded(w, 31);
    var b := WrapMul(a, SECOND_INVERSE);
    WrapsBounded(a, SECOND_INVERSE);
    var c := Unfold(b, 27);
    FoldBounded(b, 27);
    var d := WrapMul(c, FIRST_INVERSE);
    WrapsBounded(c, FIRST_INVERSE);
    var e := Unfold(d, 30);
    FoldBounded(d, 30);
    WrapsBounded(e, WORD_SIZE - GOLDEN);
    AddUndone(e, WORD_SIZE - GOLDEN, GOLDEN);
    FoldUnfold(d, 30);
    TimesInverse(c, FIRST_INVERSE, FIRST_FACTOR);
    FoldUnfold(b, 27);
    TimesInverse(a, SECOND_INVERSE, SECOND_FACTOR);
    FoldUnfold(w, 31);
  }

  // ---- identifiers ----

  const MINT_TAG: nat := 0xD46B_0001
  const ANCHOR_TAG: nat := 0xD46B_0002

  /** Sixteen big-endian bytes: a four-byte tag, eight bytes of one mixed word and
      the leading four bytes of another. */
  function Packed(tag: nat, word: nat, other: nat): nat {
    (tag * WORD_SIZE + word) * HALF_SIZE + Down(other, 32)
  }

  function Minted(counter: nat): nat {
    Packed(MINT_TAG, Splitmix(counter), Splitmix(Xor(counter, 0xD1B5_4A32)))
  }

  function Anchor(n: nat): nat {
    Packed(ANCHOR_TAG, Splitmix(n), Splitmix(Xor(n, 0xA5A5_5A5A)))
  }

  lemma PackedInjective(t: nat, w: nat, o: nat, u: nat, x: nat, p: nat)
    requires w < WORD_SIZE && x < WORD_SIZE && o < WORD_SIZE && p < WORD_SIZE
    requires Packed(t, w, o) == Packed(u, x, p)
    ensures t == u && w == x
  {
    hide Down, Up;
    WordSizeIsUp();
    DownHalf(o);
    DownHalf(p);
    SameDigits(t * WORD_SIZE + w, u * WORD_SIZE + x, Down(o, 32), Down(p, 32), HALF_SIZE);
    SameDigits(t, u, w, x, WORD_SIZE);
  }

  lemma DownHalf(o: nat)
    requires o < WORD_SIZE
    ensures Down(o, 32) < HALF_SIZE
  {
    hide Down, Up;
    WordSizeIsUp();
    DownSplits(o, 32);
  }

  lemma SameDigits(a: nat, b: nat, x: nat, y: nat, u: nat)
    requires x < u && y < u && a * u + x == b * u + y
    ensures a == b && x == y
  {
    Remainder(a * u + x, a, u, x);
    Remainder(b * u + y, b, u, y);
  }

  lemma SplitmixInjective(v: nat, w: nat)
    requires v < WORD_SIZE && w < WORD_SIZE && Splitmix(v) == Splitmix(w)
    ensures v == w
  {
    hide *;
    UnsplitmixSplitmix(v);
    UnsplitmixSplitmix(w);
  }

  lemma XorWord(v: nat, w: nat)
    requires v < WORD_SIZE && w < WORD_SIZE
    ensures Xor(v, w) < WORD_SIZE
  {
    hide Xor, Up;
    WordSizeIsUp();
    XorBounded(v, w, 64);
  }

  /** No identifier is minted twice while the counter has not wrapped, and no
      minted identifier is ever an anchor. */
  lemma MintedDistinct(c: nat, d: nat)
    requires c < WORD_SIZE && d < WORD_SIZE
    ensures Minted(c) == Minted(d) <==> c == d
    ensures Anchor(c) == Anchor(d) <==> c == d
    ensures Minted(c) != Anchor(d)
  {
    hide Splitmix, Packed, Xor;
    forall k | k == 0xD1B5_4A32 || k == 0xA5A5_5A5A
      ensures Splitmix(Xor(c, k)) < WORD_SIZE && Splitmix(Xor(d, k)) < WORD_SIZE
    {
      XorWord(c, k);
      XorWord(d, k);
      UnsplitmixSplitmix(Xor(c, k));
      UnsplitmixSplitmix(Xor(d, k));
    }
    UnsplitmixSplitmix(c);
    UnsplitmixSplitmix(d);
    if Minted(c) == Minted(d) {
      PackedInjective(MINT_TAG, Splitmix(c), Splitmix(Xor(c, 0xD1B5_4A32)),
                      MINT_TAG, Splitmix(d), Splitmix(Xor(d, 0xD1B5_4A32)));
      SplitmixInjective(c, d);
    }
    if Anchor(c) == Anchor(d) {
      PackedInjective(ANCHOR_TAG, Splitmix(c), Splitmix(Xor(c, 0xA5A5_5A5A)),
                      ANCHOR_TAG, Splitmix(d), Splitmix(Xor(d, 0xA5A5_5A5A)));
      SplitmixInjective(c, d);
    }
    TagsApart(Splitmix(c), Splitmix(Xor(c, 0xD1B5_4A32)), Splitmix(d), Splitmix(Xor(d, 0xA5A5_5A5A)));
  }

  lemma TagsApart(w: nat, o: nat, x: nat, p: nat)
    requires w < WORD_SIZE && x < WORD_SIZE && o < WORD_SIZE && p < WORD_SIZE
    ensures Packed(MINT_TAG, w, o) != Packed(ANCHOR_TAG, x, p)
  {
    DownHalf(o);
    DownHalf(p);
  }

  /** The counter of the minter. */
  class Ids {
    var next: nat

    constructor ()
      ensures next == 1
    {
      next := 1;
    }

    method Mint() returns (id: nat)
      requires 1 <= next && next + 1 < WORD_SIZE
      modifies this
      ensures next == old(next) + 1
      ensures id == Minted(old(next))
      ensures forall c :: 1 <= c < old(next) ==> id != Minted(c)
      ensures forall n :: 0 <= n < WORD_SIZE ==> id != Anchor(n)
    {
      var c := next;
      next := next + 1;
      var tag := MINT_TAG;
      id := Packed(tag, Splitmix(c), Splitmix(Xor(c, 0xD1B5_4A32)));
      forall d | 1 <= d < c
        ensures id != Minted(d)
      {
        MintedDistinct(c, d);
      }
      forall n | 0 <= n < WORD_SIZE
        ensures id != Anchor(n)
      {
        MintedDistinct(c, n);
      }
    }
  }
}
