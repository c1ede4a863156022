/** Big-endian digit strings: for strings of equal length, lexicographic order
is numeric order. */
module Radix {
  import opened Powers

  /** Strict lexicographic order on strings of equal length. */
  predicate Lex(x: seq<nat>, y: seq<nat>) {
    x != [] && y != [] && (x[0] < y[0] || (x[0] == y[0] && Lex(x[1..], y[1..])))
  }

  predicate Digits(base: nat, x: seq<nat>) {
    forall i :: 0 <= i < |x| ==> x[i] < base
  }

  /** The number a big-endian digit string denotes. */
  function Horner(base: nat, x: seq<nat>): int {
    if x == [] then 0 else x[0] * Pow(base, |x| - 1) + Horner(base, x[1..])
  }

  lemma {:induction false} HornerBound(base: nat, x: seq<nat>)
    requires Digits(base, x)
    ensures 0 <= Horner(base, x) < Pow(base, |x|)
    decreases |x|
  {
    if x != [] {
      HornerBound(base, x[1..]);
      DigitGap(x[0], base, Pow(base, |x| - 1));
    }
  }

  /** Lexicographic order is numeric order. */
  lemma {:induction false} LexIsNumeric(base: nat, x: seq<nat>, y: seq<nat>)
    requires |x| == |y| && Digits(base, x) && Digits(base, y)
    ensures Lex(x, y) <==> Horner(base, x) < Horner(base, y)
    ensures x == y <==> Horner(base, x) == Horner(base, y)
    decreases |x|
  {
    if x != [] {
      LexIsNumeric(base, x[1..], y[1..]);
      HornerBound(base, x[1..]);
      HornerBound(base, y[1..]);
      var p := Pow(base, |x| - 1);
      DigitGap(x[0], y[0], p);
      DigitGap(y[0], x[0], p);
      assert x == [x[0]] + x[1..] && y == [y[0]] + y[1..];
    }
  }

  lemma DigitGap(a: nat, b: nat, p: int)
    requires p >= 0
    ensures a * p >= 0
    ensures a < b ==> a * p + p <= b * p
  {
    if a < b {
      assert (a + 1) * p <= b * p;
      assert (a + 1) * p == a * p + p;
    }
  }

  /** The `len` low digits of `x`, big-endian. */
  function ToDigits(base: nat, x: nat, len: nat): (r: seq<nat>)
    requires base > 0
    ensures |r| == len
    decreases len
  {
    if len == 0 then [] else ToDigits(base, x / base, len - 1) + [x % base]
  }

  lemma {:induction false} HornerSnoc(base: nat, x: seq<nat>, d: nat)
    ensures Horner(base, x + [d]) == base * Horner(base, x) + d
    decreases |x|
  {
    if x == [] {
      assert [] + [d] == [d];
      assert Horner(base, [d]) == d * Pow(base, 0) + Horner(base, []);
      assert base * 0 == 0;
    } else {
      HornerSnoc(base, x[1..], d);
      assert (x + [d])[1..] == x[1..] + [d];
      var p := Pow(base, |x| - 1);
      assert Pow(base, |x|) == base * p;
      assert x[0] * (base * p) == base * (x[0] * p);
      assert base * (x[0] * p + Horner(base, x[1..])) == base * (x[0] * p) + base * Horner(base, x[1..]);
    }
  }

  /** Writing a number down and reading it back, when it fits. */
  lemma {:induction false} DigitsRoundTrip(base: nat, x: nat, len: nat)
    requires base > 0 && x < Pow(base, len)
    ensures Digits(base, ToDigits(base, x, len)) && Horner(base, ToDigits(base, x, len)) == x
    decreases len
  {
    if len > 0 {
      var q, r := x / base, x % base;
      assert x == base * q + r;
      var p := Pow(base, len - 1);
      assert q < p by {
        assert q >= p ==> base * q >= base * p;
      }
      DigitsRoundTrip(base, q, len - 1);
      HornerSnoc(base, ToDigits(base, q, len - 1), r);
    }
  }

  // ---- bits and bytes ----

  function Digit(b: bool): nat {
    if b then 1 else 0
  }

  predicate LexBits(x: seq<bool>, y: seq<bool>) {
    x != [] && y != [] && ((!x[0] && y[0]) || (x[0] == y[0] && LexBits(x[1..], y[1..])))
  }

  lemma {:induction false} HornerSplit(base: nat, x: seq<nat>, y: seq<nat>)
    ensures Horner(base, x + y) == Horner(base, x) * Pow(base, |y|) + Horner(base, y)
    decreases |x|
  {
    if x == [] {
      assert [] + y == y;
    } else {
      HornerSplit(base, x[1..], y);
      assert (x + y)[1..] == x[1..] + y;
      PowAdd(base, |x| - 1, |y|);
      var p, q, h := Pow(base, |x| - 1), Pow(base, |y|), Horner(base, x[1..]);
      assert x[0] * (p * q) == x[0] * p * q;
      assert (x[0] * p + h) * q == x[0] * p * q + h * q;
    }
  }

  lemma EightBits(n: nat)
    ensures Pow(2, 8 * n) == Pow(256, n)
  {
    Doublings(2);
    PowPow(2, 8, n);
  }
}
