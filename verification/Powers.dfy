/** Integer powers, and the few product rules the other modules lean on. */
module Powers {

  function Pow(b: int, e: nat): int {
    if e == 0 then 1 else b * Pow(b, e - 1)
  }

  lemma {:induction false} PowNonNegative(b: int, e: nat)
    requires b >= 0
    ensures Pow(b, e) >= 0
    ensures b >= 1 ==> Pow(b, e) >= 1
  {
    if e > 0 {
      PowNonNegative(b, e - 1);
    }
  }

  lemma {:induction false} PowAdd(b: int, e: nat, f: nat)
    ensures Pow(b, e + f) == Pow(b, e) * Pow(b, f)
  {
    if e > 0 {
      PowAdd(b, e - 1, f);
      assert Pow(b, e + f) == b * Pow(b, e - 1 + f);
      assert b * (Pow(b, e - 1) * Pow(b, f)) == b * Pow(b, e - 1) * Pow(b, f);
    }
  }

  lemma {:induction false} PowProduct(a: int, b: int, e: nat)
    ensures Pow(a * b, e) == Pow(a, e) * Pow(b, e)
  {
    if e > 0 {
      PowProduct(a, b, e - 1);
      Interchange(a, b, Pow(a, e - 1), Pow(b, e - 1));
    }
  }

  lemma Interchange(a: int, b: int, x: int, y: int)
    ensures a * b * (x * y) == (a * x) * (b * y)
  {
    assert a * b * (x * y) == a * (b * (x * y));
    assert b * (x * y) == x * (b * y);
    assert a * (x * (b * y)) == (a * x) * (b * y);
  }

  lemma {:induction false} PowMonotone(a: int, b: int, e: nat)
    requires 0 <= a <= b
    ensures Pow(a, e) <= Pow(b, e)
  {
    if e > 0 {
      PowMonotone(a, b, e - 1);
      PowNonNegative(a, e - 1);
      Multiply(a, b, Pow(a, e - 1), Pow(b, e - 1));
    }
  }

  lemma Multiply(a: int, b: int, x: int, y: int)
    requires 0 <= a <= b && 0 <= x <= y
    ensures a * x <= b * y
  {
    assert a * x <= b * x;
    assert b * x <= b * y;
  }

  lemma Cancel(c: int, x: int, y: int)
    requires c > 0 && c * x <= c * y
    ensures x <= y
  {
  }

  lemma {:induction false} PowPow(b: int, e: nat, f: nat)
    ensures Pow(Pow(b, e), f) == Pow(b, e * f)
  {
    if f > 0 {
      PowPow(b, e, f - 1);
      PowAdd(b, e, e * (f - 1));
      assert e + e * (f - 1) == e * f;
    }
  }

  lemma {:induction false} PowTwoGrows(e: nat, f: nat)
    requires Pow(2, e) < Pow(2, f)
    ensures e < f
  {
    if f <= e {
      PowAdd(2, f, e - f);
      PowNonNegative(2, e - f);
      PowNonNegative(2, f);
      Multiply(Pow(2, f), Pow(2, f), 1, Pow(2, e - f));
    }
  }

  lemma PowTwoLe(e: nat, f: nat)
    requires e <= f
    ensures Pow(2, e) <= Pow(2, f)
  {
    PowAdd(2, e, f - e);
    PowNonNegative(2, f - e);
    PowNonNegative(2, e);
    Multiply(Pow(2, e), Pow(2, e), 1, Pow(2, f - e));
  }

  lemma {:induction false} PowOne(e: nat)
    ensures Pow(1, e) == 1
  {
    if e > 0 {
      PowOne(e - 1);
    }
  }

  lemma StrictPower(e: nat, f: nat)
    requires e < f
    ensures Pow(2, e) < Pow(2, f)
  {
    PowTwoLe(e + 1, f);
    PowNonNegative(2, e);
    assert Pow(2, e + 1) == 2 * Pow(2, e);
  }

  lemma Doublings(b: int)
    ensures Pow(b, 1) == b && Pow(b, 2) == b * b
    ensures Pow(b, 4) == Pow(b, 2) * Pow(b, 2)
    ensures Pow(b, 8) == Pow(b, 4) * Pow(b, 4)
    ensures Pow(b, 16) == Pow(b, 8) * Pow(b, 8)
  {
    assert Pow(b, 1) == b * Pow(b, 0);
    PowAdd(b, 1, 1);
    PowAdd(b, 2, 2);
    PowAdd(b, 4, 4);
    PowAdd(b, 8, 8);
  }

  lemma PowReflects(a: int, b: int, e: nat)
    requires a >= 0 && b >= 0 && e > 0 && Pow(a, e) <= Pow(b, e)
    ensures a <= b
  {
    PowStrict(b, a, e);
  }

  lemma {:induction false} PowStrict(a: int, b: int, e: nat)
    requires a >= 0 && e > 0
    ensures a < b ==> Pow(a, e) < Pow(b, e)
  {
    if a < b {
      PowMonotone(a, b, e - 1);
      PowNonNegative(b, e - 1);
      PowNonNegative(a, e - 1);
      var x, y := Pow(a, e - 1), Pow(b, e - 1);
      assert a * x <= a * y;
      assert a * y < b * y;
    }
  }

  /** The next of `n` equal steps stays inside all of them. */
  lemma Room(i: nat, n: nat, size: nat)
    requires i < n
    ensures i * size + size == (i + 1) * size <= n * size
  {
    assert n * size == (i + 1) * size + (n - i - 1) * size;
  }
}
