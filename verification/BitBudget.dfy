/** How many bits the terms of a fraction cost, and the domain that follows.

Each term m costs 2 floor(log2 m) + 1 bits. Every Euclidean step pays for its
term out of the potential n^42 d^4: an instance of the weighted mean inequality
with weights 19 and 2.
*/
module BitBudget {
  import opened ContinuedFraction
  import opened Powers

  // ---- the mean inequality ----

  lemma BernoulliGap(a: int, x: int, n: int)
    ensures a * (n * a - (n - 1) * x) - x * ((n + 1) * a - n * x) == n * ((a - x) * (a - x))
  {
    var aa, ax, xx := a * a, a * x, x * x;
    assert a * (n * a) == n * aa;
    assert a * ((n - 1) * x) == (n - 1) * ax;
    assert x * ((n + 1) * a) == (n + 1) * ax;
    assert x * (n * x) == n * xx;
    assert a * (n * a - (n - 1) * x) == a * (n * a) - a * ((n - 1) * x);
    assert x * ((n + 1) * a - n * x) == x * ((n + 1) * a) - x * (n * x);
    assert (a - x) * (a - x) == aa - 2 * ax + xx;
    assert n * (aa - 2 * ax + xx) == n * aa - 2 * (n * ax) + n * xx;
  }

  /** Bernoulli's inequality, homogeneous. */
  lemma {:induction false} Bernoulli(a: int, x: int, n: nat)
    requires a >= 0 && x >= 0
    ensures Pow(a, n + 1) >= Pow(x, n) * ((n + 1) * a - n * x)
  {
    if n > 0 {
      Bernoulli(a, x, n - 1);
      PowNonNegative(x, n - 1);
      BernoulliGap(a, x, n);
      BernoulliStep(a, x, n, Pow(x, n - 1), Pow(a, n), n * a - (n - 1) * x, (n + 1) * a - n * x);
    }
  }

  lemma BernoulliStep(a: int, x: int, n: nat, z: int, y: int, w: int, u: int)
    requires a >= 0 && z >= 0 && y >= z * w && a * w - x * u == n * ((a - x) * (a - x))
    ensures a * y >= x * z * u
  {
    assert (a - x) * (a - x) >= 0;
    assert a * w >= x * u;
    assert a * y >= a * (z * w);
    assert a * (z * w) == z * (a * w);
    assert z * (a * w) >= z * (x * u);
    assert z * (x * u) == x * z * u;
  }

  /** Weights n and 1. */
  lemma Mean(n: nat, u: int, v: int)
    requires n > 0 && u >= 0 && v >= 0
    ensures Pow(n + 1, n + 1) * (Pow(u, n) * v) <= Pow(n, n) * Pow(u + v, n + 1)
  {
    var a, x := n * (u + v), (n + 1) * u;
    Bernoulli(a, x, n);
    PowProduct(n, u + v, n + 1);
    PowProduct(n + 1, u, n);
    MeanGap(n, u, v);
    MeanScale(n, v, Pow(n, n), Pow(n + 1, n), Pow(u + v, n + 1), Pow(u, n));
  }

  lemma MeanGap(n: int, u: int, v: int)
    ensures (n + 1) * (n * (u + v)) - n * ((n + 1) * u) == n * ((n + 1) * v)
  {
    assert n * ((n + 1) * u) == (n + 1) * (n * u);
    assert n * ((n + 1) * v) == (n + 1) * (n * v);
    assert n * (u + v) == n * u + n * v;
    assert (n + 1) * (n * u + n * v) == (n + 1) * (n * u) + (n + 1) * (n * v);
  }

  lemma MeanScale(n: nat, v: int, c: int, e: int, s: int, t: int)
    requires n > 0 && n * c * s >= e * t * (n * ((n + 1) * v))
    ensures (n + 1) * e * (t * v) <= c * s
  {
    var w := (n + 1) * v;
    assert e * t * (n * w) == n * (e * t * w);
    assert e * t * w == (n + 1) * e * (t * v) by {
      Interchange(e, t, n + 1, v);
    }
    assert n * c * s == n * (c * s);
    Cancel(n, e * t * w, c * s);
  }

  /** Weights 19 and 2, from two applications of the simple case. */
  lemma Mean192(u: int, v: int)
    requires u >= 0 && v >= 0
    ensures Pow(21, 21) * (Pow(u, 19) * (v * v)) <= 4 * Pow(19, 19) * Pow(u + v, 21)
  {
    hide Pow;
    var w := 2 * u + v;
    Mean(19, 2 * u, v);
    Mean(20, w, v);
    var p19, p20, p21 := Pow(19, 19), Pow(20, 20), Pow(21, 21);
    var a, b, c := Pow(2 * u, 19), Pow(w, 20), Pow(w + v, 21);
    MeanChain(p19, p20, p21, a, b, c, v);
    PowProduct(2, u, 19);
    assert w + v == 2 * (u + v);
    PowProduct(2, u + v, 21);
    PowAdd(2, 19, 2);
    Doublings(2);
    var t, x, y := Pow(2, 19), Pow(u, 19), Pow(u + v, 21);
    PowNonNegative(2, 19);
    assert p21 * (t * x * (v * v)) == t * (p21 * (x * (v * v)));
    assert p19 * (t * 4 * y) == t * (4 * p19 * y);
    Cancel(t, p21 * (x * (v * v)), 4 * p19 * y);
  }

  lemma MeanChain(p19: int, p20: int, p21: int, a: int, b: int, c: int, v: int)
    requires p20 * (a * v) <= p19 * b && p21 * (b * v) <= p20 * c
    requires v >= 0 && p19 == Pow(19, 19) && p20 == Pow(20, 20) && p21 == Pow(21, 21)
    ensures p21 * (a * (v * v)) <= p19 * c
  {
    hide Pow;
    PowNonNegative(19, 19);
    PowNonNegative(20, 20);
    PowNonNegative(21, 21);
    assert (p21 * v) * (p20 * (a * v)) <= (p21 * v) * (p19 * b);
    assert p19 * (p21 * (b * v)) <= p19 * (p20 * c);
    assert (p21 * v) * (p19 * b) == p19 * (p21 * (b * v));
    assert (p21 * v) * (p20 * (a * v)) == p20 * (p21 * (a * (v * v)));
    assert p19 * (p20 * c) == p20 * (p19 * c);
    Cancel(p20, p21 * (a * (v * v)), p19 * c);
  }

  lemma Constants()
    ensures Pow(2, 19) == 524288
    ensures Pow(19, 19) == 1978419655660313589123979
    ensures Pow(21, 21) == 5842587018385982521381124421
  {
    Doublings(2);
    PowAdd(2, 16, 2);
    PowAdd(2, 18, 1);
    Doublings(19);
    PowAdd(19, 16, 2);
    PowAdd(19, 18, 1);
    Doublings(21);
    PowAdd(21, 16, 4);
    PowAdd(21, 20, 1);
  }

  /** The step inequality: (u + v)^42 >= 2^19 u^38 v^4. */
  lemma StepInequality(u: int, v: int)
    requires u >= 0 && v >= 0
    ensures Pow(2, 19) * (Pow(u, 38) * Pow(v, 4)) <= Pow(u + v, 42)
  {
    Mean192(u, v);
    Constants();
    var x, y, n := Pow(u, 19), v * v, Pow(u + v, 21);
    PowNonNegative(u, 19);
    PowNonNegative(u + v, 21);
    assert x * y >= 0;
    SquareStep(x * y, n);
    PowAdd(u + v, 21, 21);
    PowAdd(u, 19, 19);
    Doublings(v);
    Interchange(x, y, x, y);
  }

  lemma SquareStep(m: int, n: int)
    requires m >= 0 && n >= 0
    requires 5842587018385982521381124421 * m <= 4 * 1978419655660313589123979 * n
    ensures 524288 * (m * m) <= n * n
  {
    var a, b := 5842587018385982521381124421, 4 * 1978419655660313589123979;
    Multiply(a * m, b * n, a * m, b * n);
    Interchange(a, m, a, m);
    Interchange(b, n, b, n);
    var mm, nn := m * m, n * n;
    assert mm >= 0;
    assert 524288 * (b * b) <= a * a;
    assert 524288 * (b * b) * mm <= (a * a) * mm;
    assert (b * b) * (524288 * mm) <= (b * b) * nn;
    Cancel(b * b, 524288 * mm, nn);
  }

  // ---- code lengths ----

  /** Floor of the binary logarithm: 127 minus the leading zeros of a u128. */
  function Log2(m: nat): nat
    requires m >= 1
  {
    if m == 1 then 0 else 1 + Log2(m / 2)
  }

  lemma {:induction false} Log2Bounds(m: nat)
    requires m >= 1
    ensures Pow(2, Log2(m)) <= m < Pow(2, Log2(m) + 1)
    decreases m
  {
    if m == 1 {
      assert Pow(2, 1) == 2 * Pow(2, 0);
    } else {
      Log2Bounds(m / 2);
      assert Pow(2, Log2(m)) == 2 * Pow(2, Log2(m / 2));
      assert Pow(2, Log2(m) + 1) == 2 * Pow(2, Log2(m / 2) + 1);
    }
  }

  lemma Log2Below(m: nat, k: nat)
    requires 1 <= m < Pow(2, k)
    ensures Log2(m) < k
  {
    Log2Bounds(m);
    PowTwoGrows(Log2(m), k);
  }

  /** Bits of the order-preserving code of one term. */
  function CodeLength(m: nat): nat
    requires m >= 1
  {
    2 * Log2(m) + 1
  }

  /** The first term is any integer, written as a sign and a positive number. */
  function Magnitude(a: int): (m: nat)
    ensures m >= 1
  {
    if a >= 0 then a + 1 else -a
  }

  function LaterBits(ts: seq<int>): nat
    requires AllPositive(ts)
  {
    if ts == [] then 0 else CodeLength(ts[0]) + LaterBits(ts[1..])
  }

  lemma {:induction false} TermsPositive(n: int, d: int)
    requires d > 0
    ensures n >= d ==> AllPositive(Terms(n, d))
    ensures AllPositive(Terms(n, d)[1..])
    decreases d
  {
    var rest := if n % d == 0 then [] else Terms(d, n % d);
    assert Terms(n, d)[1..] == rest;
    if n % d != 0 {
      TermsPositive(d, n % d);
    }
    if n >= d {
      QuotientAtLeastOne(n, d);
    }
  }

  /** Payload bits of `n / d` before the terminator. */
  function UsedBits(n: int, d: int): nat
    requires d > 0
  {
    TermsPositive(n, d);
    1 + CodeLength(Magnitude(n / d)) + LaterBits(Terms(n, d)[1..])
  }

  /** The loop of `used_bits`. */
  method CountBits(numer: int, denom: int) returns (bits: nat)
    requires denom > 0
    ensures bits == UsedBits(numer, denom)
  {
    var n, d := numer, denom;
    bits := 1;
    var a, rem := n / d, n % d;
    bits := bits + CodeLength(Magnitude(a));
    TermsPositive(numer, denom);
    ghost var todo := Terms(numer, denom)[1..];
    while rem != 0
      invariant 0 <= rem < d
      invariant AllPositive(todo) && todo == if rem == 0 then [] else Terms(d, rem)
      invariant bits + LaterBits(todo) == UsedBits(numer, denom)
      decreases rem
    {
      n, d := d, rem;
      a, rem := n / d, n % d;
      assert todo[0] == a;
      bits := bits + CodeLength(a);
      todo := todo[1..];
    }
  }

  // ---- the budget ----

  lemma CodePower(a: nat)
    requires a >= 1
    ensures Pow(2, 19 * CodeLength(a)) <= Pow(2, 19) * Pow(a, 38)
  {
    var k := Log2(a);
    Log2Bounds(a);
    PowNonNegative(2, k);
    PowMonotone(Pow(2, k), a, 38);
    PowPow(2, k, 38);
    assert 19 * CodeLength(a) == 19 + k * 38;
    PowAdd(2, 19, k * 38);
    PowNonNegative(2, 19);
    PowNonNegative(2, k * 38);
    Multiply(Pow(2, 19), Pow(2, 19), Pow(2, k * 38), Pow(a, 38));
  }

  /** The last term of a tail is at least two, which pays all but 2^15. */
  lemma LastTerm(a: nat)
    requires a >= 2
    ensures Pow(2, 19 * CodeLength(a)) <= Pow(2, 15) * Pow(a, 42)
  {
    CodePower(a);
    Doublings(2);
    PowAdd(2, 15, 4);
    PowMonotone(2, a, 4);
    PowAdd(a, 38, 4);
    PowNonNegative(2, 15);
    PowNonNegative(a, 38);
    var x := Pow(a, 38);
    Multiply(Pow(2, 4), Pow(a, 4), x, x);
    Multiply(Pow(2, 15), Pow(2, 15), Pow(2, 4) * x, Pow(a, 4) * x);
    assert Pow(2, 15) * Pow(2, 4) * x == Pow(2, 15) * (Pow(2, 4) * x);
  }

  /** What one division step pays for: the code of its quotient. */
  lemma StepPays(n: int, d: int, a: nat, r: int)
    requires d > 0 && r >= 0 && a >= 1 && n == a * d + r
    ensures Pow(2, 19) * Pow(a, 38) * (Pow(d, 42) * Pow(r, 4)) <= Pow(n, 42) * Pow(d, 4)
  {
    hide Pow;
    var u := a * d;
    StepInequality(u, r);
    PowProduct(a, d, 38);
    PowAdd(d, 38, 4);
    PowNonNegative(d, 4);
    StepArithmetic(Pow(2, 19), Pow(a, 38), Pow(d, 38), Pow(r, 4), Pow(d, 4), Pow(u, 38), Pow(d, 42), Pow(n, 42));
  }

  lemma StepArithmetic(t: int, x: int, y: int, z: int, w: int, xy: int, yw: int, n: int)
    requires w >= 0 && xy == x * y && yw == y * w && t * (xy * z) <= n
    ensures t * x * (yw * z) <= n * w
  {
    var q := y * z;
    assert yw * z == w * q;
    assert xy * z == x * q;
    Interchange(t, x, w, q);
    assert (t * w) * (x * q) == (t * (x * q)) * w;
    assert (t * (x * q)) * w <= n * w;
  }

  /** Every Euclidean tail stays within the potential. */
  lemma {:induction false} TailBudget(n: int, d: int)
    requires n > d > 0
    ensures AllPositive(Terms(n, d))
    ensures Pow(2, 19 * LaterBits(Terms(n, d))) <= Pow(2, 15) * (Pow(n, 42) * Pow(d, 4))
    decreases d
  {
    TermsPositive(n, d);
    var a, r := n / d, n % d;
    assert n == a * d + r;
    QuotientAtLeastOne(n, d);
    var code := 19 * CodeLength(a);
    if r == 0 {
      TailBudgetEnd(n, d, a);
      assert LaterBits(Terms(n, d)) == CodeLength(a) + LaterBits([]);
    } else {
      TailBudget(d, r);
      var rest := Terms(d, r);
      assert Terms(n, d)[1..] == rest;
      PowAdd(2, code, 19 * LaterBits(rest));
      CodePower(a);
      StepPays(n, d, a, r);
      PowNonNegative(2, code);
      PowNonNegative(2, 19 * LaterBits(rest));
      Chain(Pow(2, code), Pow(2, 19) * Pow(a, 38), Pow(2, 19 * LaterBits(rest)), Pow(2, 15),
            Pow(d, 42) * Pow(r, 4), Pow(n, 42) * Pow(d, 4));
    }
  }

  lemma TailBudgetEnd(n: int, d: int, a: int)
    requires n > d > 0 && n == a * d && a >= 1
    ensures Pow(2, 19 * CodeLength(a)) <= Pow(2, 15) * (Pow(n, 42) * Pow(d, 4))
  {
    assert a == 1 ==> a * d == d;
    Stretch(d, a);
    LastTerm(a);
    PowMonotone(a, n, 42);
    PowNonNegative(d, 4);
    PowNonNegative(a, 42);
    PowNonNegative(2, 15);
    Multiply(1, Pow(d, 4), Pow(a, 42), Pow(n, 42));
    Multiply(Pow(2, 15), Pow(2, 15), Pow(a, 42), Pow(n, 42) * Pow(d, 4));
  }

  lemma Chain(x: int, x1: int, y: int, c: int, z: int, w: int)
    requires 0 <= x <= x1 && 0 <= y <= c * z && x1 * z <= w && c >= 0
    ensures x * y <= c * w
  {
    Multiply(x, x1, y, c * z);
    assert x1 * (c * z) == c * (x1 * z);
    assert c * (x1 * z) <= c * w;
  }

  // ---- the guaranteed domain ----

  /** The bits of a whole fraction against an upper bound on its two parts. */
  lemma FractionBudget(n: int, d: int, m: int)
    requires 0 < d <= m && -m <= n <= m && n % d != 0
    ensures Pow(2, 19 * UsedBits(n, d)) <= Pow(2, 91) * Pow(m, 46)
  {
    hide Pow;
    var a, r := n / d, n % d;
    assert n == a * d + r;
    var f := Magnitude(a);
    TermsPositive(n, d);
    var rest := Terms(n, d)[1..];
    assert rest == Terms(d, r);
    TailBudget(d, r);
    var e := 19 * LaterBits(rest);
    assert 19 * UsedBits(n, d) == 19 + 19 * CodeLength(f) + e;
    PowAdd(2, 19, 19 * CodeLength(f) + e);
    PowAdd(2, 19 * CodeLength(f), e);
    CodePower(f);
    HeadPays(n, d, a, r, m);
    PowNonNegative(2, 19 * CodeLength(f));
    PowNonNegative(2, e);
    PowNonNegative(2, 15);
    PowNonNegative(2, 19);
    var w := Pow(m, 46);
    Chain(Pow(2, 19 * CodeLength(f)), Pow(2, 19) * Pow(f, 38), Pow(2, e), Pow(2, 15),
          Pow(d, 42) * Pow(r, 4), Pow(2, 57) * w);
    PowAdd(2, 15, 57);
    PowAdd(2, 19, 72);
    Scale(Pow(2, 19), Pow(2, 15), Pow(2, 57), w, Pow(2, 19 * CodeLength(f) + e));
  }

  lemma Scale(s: int, t: int, u: int, w: int, x: int)
    requires s >= 0 && x <= t * (u * w)
    ensures s * x <= s * (t * u) * w
  {
    assert t * (u * w) == t * u * w;
    assert s * x <= s * (t * u * w);
    assert s * (t * u * w) == s * (t * u) * w;
  }

  /** The first term, three ways: zero or minus one, positive, negative. */
  lemma HeadPays(n: int, d: int, a: int, r: int, m: int)
    requires 0 < d <= m && -m <= n <= m && n == a * d + r && 0 < r < d
    ensures Pow(2, 19) * Pow(Magnitude(a), 38) * (Pow(d, 42) * Pow(r, 4)) <= Pow(2, 57) * Pow(m, 46)
  {
    PowAdd(2, 19, 38);
    PowNonNegative(2, 19);
    PowNonNegative(2, 38);
    PowNonNegative(m, 46);
    if a == 0 || a == -1 {
      SmallHead(d, r, m);
    } else if a > 0 {
      PositiveHead(n, d, a, r, m);
    } else {
      NegativeHeadPays(n, d, a, r, m);
    }
  }

  lemma SmallHead(d: int, r: int, m: int)
    requires 0 < r < d <= m
    ensures Pow(2, 19) * Pow(1, 38) * (Pow(d, 42) * Pow(r, 4)) <= Pow(2, 57) * Pow(m, 46)
  {
    hide Pow;
    PowOne(38);
    PowMonotone(d, m, 42);
    PowMonotone(r, m, 4);
    PowNonNegative(d, 42);
    PowNonNegative(r, 4);
    Multiply(Pow(d, 42), Pow(m, 42), Pow(r, 4), Pow(m, 4));
    PowAdd(m, 42, 4);
    PowNonNegative(m, 46);
    PowTwoLe(19, 57);
    PowNonNegative(2, 19);
    Multiply(Pow(2, 19), Pow(2, 57), Pow(d, 42) * Pow(r, 4), Pow(m, 46));
  }

  lemma PositiveHead(n: int, d: int, a: int, r: int, m: int)
    requires 0 < d <= m && n <= m && n == a * d + r && 0 < r < d && a > 0
    ensures Pow(2, 19) * Pow(a + 1, 38) * (Pow(d, 42) * Pow(r, 4)) <= Pow(2, 57) * Pow(m, 46)
  {
    PowMonotone(a + 1, 2 * a, 38);
    PowProduct(2, a, 38);
    StepPays(n, d, a, r);
    PowMonotone(n, m, 42);
    PowMonotone(d, m, 4);
    PowNonNegative(n, 42);
    PowNonNegative(d, 4);
    Multiply(Pow(n, 42), Pow(m, 42), Pow(d, 4), Pow(m, 4));
    PowAdd(m, 42, 4);
    PowNonNegative(m, 46);
    PowAdd(2, 19, 38);
    PowNonNegative(2, 19);
    PowNonNegative(2, 38);
    PowNonNegative(d, 42);
    PowNonNegative(r, 4);
    assert Pow(d, 42) * Pow(r, 4) >= 0;
    HeadScale(Pow(2, 19), Pow(2, 38), Pow(a + 1, 38), Pow(a, 38), Pow(d, 42) * Pow(r, 4), Pow(m, 46));
  }

  lemma HeadScale(t: int, u: int, f: int, a: int, z: int, w: int)
    requires t >= 1 && u >= 1 && z >= 0 && w >= 0 && f <= u * a && t * a * z <= w
    ensures t * f * z <= t * u * w
  {
    hide Pow;
    Reorder(t, f, z);
    Reorder(t, a, z);
    var tz := t * z;
    assert tz >= 0;
    assert f * tz <= (u * a) * tz;
    assert (u * a) * tz == u * (a * tz);
    Multiply(u, u, 0, w);
    LessTimes(u, a * tz, w);
    Stretch(t, u * w);
    assert t * (u * w) == t * u * w;
  }

  lemma Reorder(t: int, f: int, z: int)
    ensures t * f * z == f * (t * z)
  {
  }

  lemma LessTimes(u: int, x: int, y: int)
    requires u >= 0 && x <= y
    ensures u * x <= u * y
  {
  }

  lemma NegativeHeadPays(n: int, d: int, a: int, r: int, m: int)
    requires 0 < d <= m && -m <= n && n == a * d + r && 0 < r < d && a <= -2
    ensures Pow(2, 19) * Pow(-a, 38) * (Pow(d, 42) * Pow(r, 4)) <= Pow(2, 57) * Pow(m, 46)
  {
    var c := -a - 1;
    assert a * d == -(c * d) - d;
    assert 0 <= c * d <= m;
    PowMonotone(-a, 2 * c, 38);
    PowProduct(2, c, 38);
    CoreBound(c, d, r, m);
    PowAdd(2, 19, 38);
    PowNonNegative(2, 19);
    PowNonNegative(2, 38);
    PowNonNegative(d, 42);
    PowNonNegative(r, 4);
    assert Pow(d, 42) * Pow(r, 4) >= 0;
    CoreScale(Pow(2, 19), Pow(2, 38), Pow(-a, 38), Pow(c, 38), Pow(d, 42) * Pow(r, 4), Pow(m, 46));
  }

  /** c^38 d^42 r^4 <= m^46 when c d, d and r are at most m. */
  lemma CoreBound(c: int, d: int, r: int, m: int)
    requires c >= 0 && 0 < r < d <= m && c * d <= m
    ensures Pow(c, 38) * (Pow(d, 42) * Pow(r, 4)) <= Pow(m, 46)
  {
    var u := c * d;
    assert u >= 0;
    PowProduct(c, d, 38);
    PowAdd(d, 38, 4);
    PowAdd(m, 38, 4);
    PowAdd(m, 42, 4);
    PowMonotone(u, m, 38);
    PowMonotone(d, m, 4);
    PowMonotone(r, m, 4);
    PowNonNegative(u, 38);
    PowNonNegative(d, 4);
    PowNonNegative(r, 4);
    CoreArithmetic(Pow(c, 38), Pow(d, 38), Pow(d, 4), Pow(r, 4), Pow(u, 38), Pow(d, 42), Pow(m, 38), Pow(m, 4));
  }

  lemma CoreArithmetic(x: int, y: int, w: int, z: int, xy: int, yw: int, m: int, m1: int)
    requires xy == x * y && yw == y * w && 0 <= xy <= m && 0 <= w <= m1 && 0 <= z <= m1
    ensures x * (yw * z) <= m * m1 * m1
  {
    Multiply(xy, m, w, m1);
    assert 0 <= xy * w;
    Multiply(xy * w, m * m1, z, m1);
    assert xy * w == x * yw;
    assert (x * yw) * z == x * (yw * z);
  }

  lemma CoreScale(t: int, u: int, f: int, c: int, z: int, w: int)
    requires t >= 1 && u >= 1 && z >= 0 && f <= u * c && c * z <= w
    ensures t * f * z <= t * u * w
  {
    assert f * z <= u * c * z;
    assert u * c * z == u * (c * z);
    assert u * (c * z) <= u * w;
    assert t * (f * z) <= t * (u * w);
    assert t * f * z == t * (f * z);
    assert t * u * w == t * (u * w);
  }

  /** THE GUARANTEED DOMAIN: every n / d with |n| and d at most 2^104 costs at
      most the 256 bits of the payload, whether reduced or not. */
  lemma GuaranteedDomain(n: int, d: int)
    requires 0 < d <= Pow(2, 104) && -Pow(2, 104) <= n <= Pow(2, 104)
    ensures UsedBits(n, d) <= 256
  {
    var m := Pow(2, 104);
    if n % d == 0 {
      WholeNumber(n, d, 104);
    } else {
      FractionBudget(n, d, m);
      PowPow(2, 104, 46);
      PowAdd(2, 91, 104 * 46);
      assert 91 + 104 * 46 == 4875;
      StrictPower(4875, 4883);
      assert 19 * 257 == 4883;
      PowTwoGrows(19 * UsedBits(n, d), 19 * 257);
    }
  }

  lemma WholeNumber(n: int, d: int, k: nat)
    requires d > 0 && n % d == 0 && -Pow(2, k) <= n < Pow(2, k) + 1
    ensures UsedBits(n, d) <= 2 * k + 4
  {
    QuotientInRange(n, d);
    PowNonNegative(2, k);
    assert Pow(2, k + 1) == 2 * Pow(2, k);
    assert Terms(n, d)[1..] == [];
    assert Magnitude(n / d) <= Pow(2, k) + 1;
    assert Pow(2, k + 2) == 2 * Pow(2, k + 1);
    Log2Below(Magnitude(n / d), k + 2);
  }

  /** Always: every i128 integer, exactly filling the payload at the extremes. */
  lemma IntegersFit(n: int)
    requires -Pow(2, 127) <= n < Pow(2, 127)
    ensures UsedBits(n, 1) <= 256
  {
    assert n / 1 == n && n % 1 == 0;
    assert Terms(n, 1)[1..] == [];
    PowNonNegative(2, 127);
    assert Pow(2, 128) == 2 * Pow(2, 127);
    Log2Below(Magnitude(n), 128);
  }

  /** Always: every 1/n and -1/n with an i128 denominator. */
  lemma UnitFractionsFit(n: int)
    requires 1 <= n < Pow(2, 127)
    ensures UsedBits(1, n) <= 256 && UsedBits(-1, n) <= 256
  {
    if n == 1 {
      PowNonNegative(2, 127);
      IntegersFit(1);
      IntegersFit(-1);
    } else {
      DivModUnique(1, n, 0, 1);
      DivModUnique(-1, n, -1, n - 1);
      DivModUnique(n, 1, n, 0);
      Log2Below(n, 127);
      assert Terms(n, 1) == [n];
      assert Terms(1, n)[1..] == [n];
      assert LaterBits([n]) == CodeLength(n) + LaterBits([]);
      MinusUnitFraction(n);
    }
  }

  lemma MinusUnitFraction(n: int)
    requires 2 <= n < Pow(2, 127) && (-1) / n == -1 && (-1) % n == n - 1
    ensures UsedBits(-1, n) <= 256
  {
    TermsPositive(-1, n);
    assert Terms(-1, n)[1..] == Terms(n, n - 1);
    Log2Below(n, 127);
    if n == 2 {
      assert Terms(2, 1) == [2];
      assert LaterBits([2]) == CodeLength(2) + LaterBits([]);
    } else {
      DivModUnique(n, n - 1, 1, 1);
      DivModUnique(n - 1, 1, n - 1, 0);
      Log2Below(n - 1, 127);
      assert Terms(n - 1, 1) == [n - 1];
      assert Terms(n, n - 1) == [1] + [n - 1];
      assert [1, n - 1][1..] == [n - 1];
      assert LaterBits([n - 1]) == CodeLength(n - 1) + LaterBits([]);
      assert LaterBits([1, n - 1]) == CodeLength(1) + LaterBits([n - 1]);
    }
  }

  /** CUBIC BUDGET: the terms after the first cost at most 3 log2(d) bits. */
  lemma CubicBudget(n: int, d: int)
    requires d > 0
    ensures AllPositive(Terms(n, d)[1..])
    ensures Pow(2, LaterBits(Terms(n, d)[1..])) <= Pow(d, 3)
  {
    TermsPositive(n, d);
    var rest := Terms(n, d)[1..];
    var r := n % d;
    if r == 0 {
      assert rest == [];
      PowNonNegative(d, 3);
    } else if d == 2 {
      assert r == 1 && rest == Terms(2, 1) == [2];
      assert LaterBits([2]) == CodeLength(2) + LaterBits([]);
      assert Log2(2) == 1;
      assert Pow(2, 3) == 8;
    } else {
      assert rest == Terms(d, r);
      TailBudget(d, r);
      CubeRoot(LaterBits(rest), d, r);
    }
  }

  lemma CubeRoot(l: nat, d: int, r: int)
    requires d >= 3 && 0 < r < d
    requires Pow(2, 19 * l) <= Pow(2, 15) * (Pow(d, 42) * Pow(r, 4))
    ensures Pow(2, l) <= Pow(d, 3)
  {
    PowMonotone(r, d, 4);
    PowNonNegative(r, 4);
    PowNonNegative(d, 42);
    PowNonNegative(2, 15);
    Multiply(Pow(d, 42), Pow(d, 42), Pow(r, 4), Pow(d, 4));
    PowAdd(d, 42, 4);
    assert Pow(2, 15) <= Pow(d, 11) by {
      PowMonotone(3, d, 11);
      SmallPowers();
    }
    PowNonNegative(d, 46);
    Multiply(Pow(2, 15), Pow(d, 11), Pow(d, 42) * Pow(r, 4), Pow(d, 46));
    PowAdd(d, 11, 46);
    PowPow(2, l, 19);
    PowPow(d, 3, 19);
    PowNonNegative(2, l);
    PowNonNegative(d, 3);
    assert Pow(Pow(2, l), 19) <= Pow(Pow(d, 3), 19);
    PowReflects(Pow(2, l), Pow(d, 3), 19);
  }

  lemma SmallPowers()
    ensures Pow(2, 15) == 32768 && Pow(3, 11) == 177147
  {
    Doublings(2);
    PowAdd(2, 8, 4);
    PowAdd(2, 12, 2);
    PowAdd(2, 14, 1);
    Doublings(3);
    PowAdd(3, 8, 2);
    PowAdd(3, 10, 1);
  }

}
