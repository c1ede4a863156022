/** Reducing fractions to lowest terms, and when a power of ten clears a
denominator. */
module Fractions {
  import opened Powers
  import opened ContinuedFraction

  // ---- divisors ----

  lemma DividesBy(g: int, n: int, k: int)
    requires n == g * k
    ensures Divides(g, n)
  {
  }

  lemma DividesTimes(g: int, n: int, m: int)
    requires Divides(g, n)
    ensures Divides(g, n * m) && Divides(g, m * n)
  {
    var k :| n == g * k;
    assert n * m == g * (k * m);
  }

  lemma DividesThrough(g: int, h: int, n: int)
    requires Divides(g, h) && Divides(h, n)
    ensures Divides(g, n)
  {
    var k :| h == g * k;
    var m :| n == h * m;
    assert n == g * (k * m);
  }

  lemma DividesModulo(g: int, n: int)
    requires g > 0
    ensures Divides(g, n) <==> n % g == 0
  {
    if n % g == 0 {
      assert n == g * (n / g);
    }
    forall k | n == g * k
      ensures n % g == 0
    {
      DivModUnique(n, g, k, 0);
    }
  }

  /** One is a combination of coprime numbers. */
  lemma {:induction false} Bezout(n: int, d: int) returns (x: int, y: int)
    requires d > 0 && Coprime(n, d)
    ensures n * x + d * y == 1
    decreases d
  {
    hide Coprime;
    CoprimeStep(n, d);
    var q, r := n / d, n % d;
    if r == 0 {
      CoprimeToZero(d);
      x, y := 0, 1;
    } else {
      var u, v := Bezout(d, r);
      x, y := v, u - q * v;
      Rearrange(n, d, q, r, u, v);
    }
  }

  lemma Rearrange(n: int, d: int, q: int, r: int, u: int, v: int)
    requires n == q * d + r && d * u + r * v == 1
    ensures n * v + d * (u - q * v) == 1
  {
    calc {
      n * v + d * (u - q * v);
      (q * d + r) * v + d * u - d * (q * v);
      q * d * v + r * v + d * u - d * (q * v);
      { assert q * d * v == d * (q * v); }
      d * u + r * v;
    }
  }

  /** A factor coprime to the divisor can be dropped. */
  lemma Gauss(n: int, d: int, m: int)
    requires d > 0 && Coprime(n, d) && Divides(d, n * m)
    ensures Divides(d, m)
  {
    hide Coprime;
    var x, y := Bezout(n, d);
    var t :| n * m == d * t;
    Collect(n, d, m, x, y, t);
    DividesBy(d, m, x * t + y * m);
  }

  lemma Collect(n: int, d: int, m: int, x: int, y: int, t: int)
    requires n * x + d * y == 1 && n * m == d * t
    ensures m == d * (x * t + y * m)
  {
    calc {
      m;
      (n * x + d * y) * m;
      n * x * m + d * y * m;
      { assert n * x * m == x * (n * m) && x * (d * t) == d * (x * t) && d * y * m == d * (y * m); }
      d * (x * t) + d * (y * m);
      d * (x * t + y * m);
    }
  }

  // ---- the gcd loop ----

  ghost predicate SameDivisors(a: int, b: int, c: int, d: int) {
    forall k :: Divides(k, a) && Divides(k, b) <==> Divides(k, c) && Divides(k, d)
  }

  lemma EuclidStep(a: nat, b: nat)
    requires b > 0
    ensures SameDivisors(a, b, b, a % b)
  {
    hide Divides;
    var q, r := a / b, a % b;
    assert a == q * b + r;
    forall k
      ensures Divides(k, a) && Divides(k, b) <==> Divides(k, b) && Divides(k, r)
    {
      if Divides(k, a) && Divides(k, b) {
        DividesCombination(k, b, a, q);
        assert r == a - q * b;
      }
      if Divides(k, b) && Divides(k, r) {
        DividesCombination(k, b, r, q);
      }
    }
  }

  lemma DividesZero(k: int)
    ensures Divides(k, 0)
  {
    DividesBy(k, 0, 0);
  }

  /** The greatest common divisor: its divisors are the common ones. */
  method Gcd(first: nat, second: nat) returns (g: nat)
    ensures g == 0 <==> first == 0 && second == 0
    ensures forall k :: Divides(k, first) && Divides(k, second) <==> Divides(k, g)
  {
    hide Divides;
    var a, b := first, second;
    while b != 0
      invariant a == 0 && b == 0 <==> first == 0 && second == 0
      invariant SameDivisors(a, b, first, second)
      decreases b
    {
      EuclidStep(a, b);
      a, b := b, a % b;
    }
    g := a;
    assert forall k :: Divides(k, 0) by {
      forall k ensures Divides(k, 0) { DividesZero(k); }
    }
  }

  // ---- lowest terms ----

  datatype R256 = R256(num: int, den: int)

  /** The canonical form of `num / den`. */
  ghost predicate Canonical256(num: int, den: int, x: R256) {
    x.den > 0 && Coprime(x.num, x.den) && x.num * den == num * x.den
  }

  lemma QuotientsCoprime(n: int, d: int, g: int, p: int, q: int)
    requires g > 0 && n == g * p && d == g * q
    requires forall k :: Divides(k, n) && Divides(k, d) ==> Divides(k, g)
    ensures Coprime(p, q) && Coprime(-p, q)
  {
    hide Divides;
    forall k | k > 1
      ensures !(Divides(k, p) && Divides(k, q))
      ensures !(Divides(k, -p) && Divides(k, q))
    {
      DividesNegated(k, p);
      if Divides(k, p) && Divides(k, q) {
        DividesScaled(g, k, p);
        DividesScaled(g, k, q);
        TooLarge(g, k);
      }
    }
  }

  lemma DividesNegated(k: int, p: int)
    ensures Divides(k, -p) ==> Divides(k, p)
  {
    if Divides(k, -p) {
      var i :| -p == k * i;
      DividesBy(k, p, -i);
    }
  }

  lemma DividesScaled(g: int, k: int, p: int)
    requires Divides(k, p)
    ensures Divides(g * k, g * p)
  {
    var i :| p == k * i;
    assert g * (k * i) == (g * k) * i;
  }

  lemma TooLarge(g: int, k: int)
    requires g > 0 && k > 1
    ensures !Divides(g * k, g)
  {
    forall t
      ensures g != g * k * t
    {
      assert g * k * t == g * (k * t);
      assert t >= 1 ==> k * t >= 2;
      assert t <= 0 ==> k * t <= 0;
      NotOne(g, k * t);
    }
  }

  lemma NotOne(g: int, x: int)
    requires g > 0 && x != 1
    ensures g * x != g
  {
  }

  function Abs(x: int): nat {
    if x < 0 then -x else x
  }

  lemma CrossProducts(num: int, den: int, g: int, p: int, q: int)
    requires Abs(num) == g * p && Abs(den) == g * q
    ensures ((num < 0) != (den < 0)) ==> -p * den == num * q
    ensures ((num < 0) == (den < 0)) ==> p * den == num * q
  {
    assert p * (g * q) == (g * p) * q;
    assert p * -(g * q) == -(p * (g * q)) && -p * (g * q) == -(p * (g * q)) && -p * -(g * q) == p * (g * q);
    assert -(g * p) * q == -((g * p) * q);
  }

  /** `R256::new`: signs on the numerator, common factor out. The least i128 has
      no absolute value in the type. */
  method NewR256(num: int, den: int) returns (x: R256)
    requires den != 0 && MIN128 < num <= MAX128 && MIN128 < den <= MAX128
    ensures Canonical256(num, den, x)
    ensures I128(x.num) && I128(x.den)
  {
    hide Coprime;
    var sign: int := if (num < 0) != (den < 0) then -1 else 1;
    var n, d := Abs(num), Abs(den);
    var g := Gcd(n, d);
    DividesBy(g, g, 1);
    Divided(n, d, g);
    var p, q := n / g, d / g;
    x := R256(sign * p, q);
    QuotientsCoprime(n, d, g, p, q);
    CrossProducts(num, den, g, p, q);
  }

  lemma Divided(n: nat, d: nat, g: nat)
    requires d > 0 && g > 0 && Divides(g, n) && Divides(g, d)
    ensures n == g * (n / g) && d == g * (d / g) && 0 <= n / g <= n && 0 < d / g <= d
  {
    DividesModulo(g, n);
    DividesModulo(g, d);
    Shrinks(n, g, n / g);
    Shrinks(d, g, d / g);
  }

  lemma Shrinks(n: nat, g: int, p: int)
    requires g > 0 && n == g * p
    ensures 0 <= p <= n && (n > 0 ==> p > 0)
  {
    assert p < 0 ==> g * p < 0;
    assert p >= 0 ==> g * p >= p;
  }

  /** Equal fractions have one canonical form. */
  lemma NewIsCanonical(num: int, den: int, num2: int, den2: int, x: R256, y: R256)
    requires den != 0 && den2 != 0
    requires Canonical256(num, den, x) && Canonical256(num2, den2, y)
    ensures num * den2 == num2 * den <==> x == y
  {
    hide Coprime, Terms, Value;
    if num * den2 == num2 * den {
      CrossEqual(num, den, num2, den2, x, y);
      var p, q, r, s := x.num, x.den, y.num, y.den;
      TermsScale(p, q, s);
      TermsScale(r, s, q);
      assert s * p == q * r && s * q == q * s;
      ValueOfTerms(p, q);
      ValueOfTerms(r, s);
    }
    if x == y {
      SameFraction(num, den, num2, den2, x.num, x.den);
    }
  }

  lemma CrossEqual(num: int, den: int, num2: int, den2: int, x: R256, y: R256)
    requires den != 0 && den2 != 0 && num * den2 == num2 * den
    requires x.num * den == num * x.den && y.num * den2 == num2 * y.den
    ensures x.num * y.den == y.num * x.den
  {
    var p, q, r, s := x.num, x.den, y.num, y.den;
    var w := den * den2;
    Swap(p, s, den, den2);
    Swap(num, q, den2, s);
    Swap(num2, den, s, q);
    Swap(r, q, den2, den);
    CancelFactor(p * s, r * q, w);
  }

  lemma Swap(a: int, b: int, c: int, d: int)
    ensures (a * b) * (c * d) == (a * c) * (b * d) == (a * d) * (b * c)
  {
    assert (a * b) * (c * d) == a * (b * (c * d));
    assert b * (c * d) == c * (b * d) == d * (b * c);
    assert (a * c) * (b * d) == a * (c * (b * d));
    assert (a * d) * (b * c) == a * (d * (b * c));
  }

  lemma CancelFactor(a: int, b: int, w: int)
    requires w != 0 && a * w == b * w
    ensures a == b
  {
    assert (a - b) * w == 0;
  }

  lemma SameFraction(num: int, den: int, num2: int, den2: int, p: int, q: int)
    requires q > 0 && p * den == num * q && p * den2 == num2 * q
    ensures num * den2 == num2 * den
  {
    calc {
      (num * den2) * q;
      (num * q) * den2;
      (p * den) * den2;
      (p * den2) * den;
      (num2 * q) * den;
      (num2 * den) * q;
    }
    CancelFactor(num * den2, num2 * den, q);
  }

  // ---- denominators of terminating decimals ----

  ghost predicate TwoFive(d: int, a: nat, b: nat) {
    d == Pow(2, a) * Pow(5, b)
  }

  function Max(a: nat, b: nat): nat {
    if a < b then b else a
  }

  lemma {:induction false} PowParity(k: nat)
    ensures Pow(5, k) % 2 == 1 && Pow(2, k) % 5 != 0
  {
    if k > 0 {
      PowParity(k - 1);
      ParityStep(Pow(5, k - 1), Pow(2, k - 1));
    }
  }

  lemma ParityStep(x: int, y: int)
    requires x % 2 == 1 && y % 5 != 0
    ensures 5 * x % 2 == 1 && 2 * y % 5 != 0
  {
    DivModUnique(5 * x, 2, 5 * (x / 2) + 2, 1);
    var r := y % 5;
    if r < 3 {
      DivModUnique(2 * y, 5, 2 * (y / 5), 2 * r);
    } else {
      DivModUnique(2 * y, 5, 2 * (y / 5) + 1, 2 * r - 5);
    }
  }

  lemma TenSplits(k: nat)
    ensures Pow(10, k) == Pow(2, k) * Pow(5, k)
  {
    PowProduct(2, 5, k);
  }

  /** 2^a divides 10^k only up to a = k, and 5^b only up to b = k. */
  lemma PrimePowersIn(a: nat, k: nat)
    requires Divides(Pow(2, a), Pow(10, k)) || Divides(Pow(5, a), Pow(10, k))
    ensures a <= k
  {
    TenSplits(k);
    PowParity(k);
    PowNonNegative(2, k);
    PowNonNegative(5, k);
    if a > k {
      PowAdd(2, k, a - k);
      PowAdd(5, k, a - k);
      if Divides(Pow(2, a), Pow(10, k)) {
        var t :| Pow(10, k) == Pow(2, a) * t;
        Extra(Pow(2, k), Pow(5, k), Pow(2, a - k), 2, Pow(2, a - k - 1), t);
      } else {
        var t :| Pow(10, k) == Pow(5, a) * t;
        Extra(Pow(5, k), Pow(2, k), Pow(5, a - k), 5, Pow(5, a - k - 1), t);
      }
    }
  }

  /** A factor too many would divide the other prime's power. */
  lemma Extra(u: int, v: int, w: int, p: int, x: int, t: int)
    requires u > 0 && p > 0 && u * v == u * w * t && w == p * x
    ensures v % p == 0
  {
    assert u * w * t == u * (w * t);
    assert (v - w * t) * u == 0;
    assert v == w * t;
    assert p * x * t == p * (x * t);
    DividesBy(p, v, x * t);
    DividesModulo(p, v);
  }

  lemma EnoughTens(d: int, a: nat, b: nat, k: nat)
    requires TwoFive(d, a, b) && Max(a, b) <= k
    ensures Divides(d, Pow(10, k))
  {
    TenSplits(k);
    PowAdd(2, a, k - a);
    PowAdd(5, b, k - b);
    Interchange(Pow(2, a), Pow(2, k - a), Pow(5, b), Pow(5, k - b));
    Interchange(Pow(2, a), Pow(5, b), Pow(2, k - a), Pow(5, k - b));
    DividesBy(d, Pow(10, k), Pow(2, k - a) * Pow(5, k - b));
  }

  /** Over a denominator 2^a 5^b a reduced numerator is cleared by exactly the
      powers of ten from max(a, b) on. */
  lemma ClearedBy(n: int, d: int, a: nat, b: nat, k: nat)
    requires d > 0 && Coprime(n, d) && TwoFive(d, a, b)
    ensures Divides(d, n * Pow(10, k)) <==> Max(a, b) <= k
  {
    hide Coprime, Pow, Divides;
    if Max(a, b) <= k {
      EnoughTens(d, a, b, k);
      DividesTimes(d, Pow(10, k), n);
    }
    if Divides(d, n * Pow(10, k)) {
      Gauss(n, d, Pow(10, k));
      DividesBy(Pow(2, a), d, Pow(5, b));
      DividesBy(Pow(5, b), d, Pow(2, a));
      DividesThrough(Pow(2, a), d, Pow(10, k));
      DividesThrough(Pow(5, b), d, Pow(10, k));
      PrimePowersIn(a, k);
      PrimePowersIn(b, k);
    }
  }

  lemma CoprimeToTen(d: int)
    requires d > 0 && d % 2 != 0 && d % 5 != 0
    ensures Coprime(10, d)
  {
    forall g | g > 1
      ensures !(Divides(g, 10) && Divides(g, d))
    {
      if Divides(g, 10) && Divides(g, d) {
        DividesModulo(g, 10);
        assert g <= 10;
        assert g == 2 || g == 5 || g == 10;
        DividesModulo(g, d);
      }
    }
  }

  lemma {:induction false} NoTenClears(d: int, k: nat)
    requires d > 1 && Coprime(10, d)
    ensures !Divides(d, Pow(10, k))
  {
    if k == 0 {
      DividesModulo(d, 1);
    } else {
      NoTenClears(d, k - 1);
      if Divides(d, Pow(10, k)) {
        Gauss(10, d, Pow(10, k - 1));
      }
    }
  }

  /** Over any other denominator no power of ten ever clears it. */
  lemma NeverCleared(n: int, d: int, rest: int, k: nat)
    requires d > 0 && Coprime(n, d) && Divides(rest, d)
    requires rest > 1 && rest % 2 != 0 && rest % 5 != 0
    ensures !Divides(d, n * Pow(10, k))
  {
    hide Coprime, Divides, Pow;
    CoprimeToTen(rest);
    NoTenClears(rest, k);
    if Divides(d, n * Pow(10, k)) {
      Gauss(n, d, Pow(10, k));
      DividesThrough(rest, d, Pow(10, k));
    }
  }
}
