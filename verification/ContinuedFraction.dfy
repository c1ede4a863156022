/** Continued fractions: the Euclidean expansion and the continuant recurrence
that undoes it, over true integers and under checked 128-bit arithmetic. */
module ContinuedFraction {
  import opened Wrappers

  const MIN128 := -0x8000_0000_0000_0000_0000_0000_0000_0000
  const MAX128 := 0x7fff_ffff_ffff_ffff_ffff_ffff_ffff_ffff

  predicate I128(x: int) {
    MIN128 <= x <= MAX128
  }

  // ---- expansion ----

  /** The terms Euclid's loop emits for `n / d`: floor quotient, then swap. */
  function Terms(n: int, d: int): seq<int>
    requires d > 0
    decreases d
  {
    [n / d] + if n % d == 0 then [] else Terms(d, n % d)
  }

  // ---- what a term list denotes ----

  /** Numerator and denominator of `[a0; a1, ...]`, from the inside out. The
      empty list is the point at infinity, 1/0. */
  function Value(ts: seq<int>): (int, int) {
    if ts == [] then (1, 0)
    else
      var (p, q) := Value(ts[1..]);
      (ts[0] * p + q, p)
  }

  /** The shape Euclid produces below the first term. */
  predicate Tail(ts: seq<int>) {
    (forall i :: 0 <= i < |ts| ==> ts[i] >= 1) && (ts != [] ==> ts[|ts| - 1] >= 2)
  }

  /** A canonical expansion: any integer, then a tail. */
  predicate Canonical(ts: seq<int>) {
    ts != [] && Tail(ts[1..])
  }

  ghost predicate Divides(g: int, n: int) {
    exists k :: n == g * k
  }

  /** Lowest terms, said without an algorithm. */
  ghost predicate Coprime(n: int, d: int) {
    forall g :: g > 1 ==> !(Divides(g, n) && Divides(g, d))
  }

  lemma DividesCombination(g: int, x: int, y: int, a: int)
    requires Divides(g, x) && Divides(g, y)
    ensures Divides(g, a * x + y) && Divides(g, y - a * x)
  {
    var k :| x == g * k;
    var m :| y == g * m;
    assert a * x + y == g * (a * k + m) by {
      assert a * (g * k) == g * (a * k);
      assert g * (a * k + m) == g * (a * k) + g * m;
    }
    assert y - a * x == g * (m - a * k) by {
      assert a * (g * k) == g * (a * k);
      assert g * (m - a * k) == g * m - g * (a * k);
    }
  }

  lemma CoprimeStep(n: int, d: int)
    requires d > 0
    ensures Coprime(n, d) <==> Coprime(d, n % d)
  {
    var a, r := n / d, n % d;
    assert n == a * d + r;
    forall g | g > 1
      ensures Divides(g, n) && Divides(g, d) <==> Divides(g, d) && Divides(g, r)
    {
      if Divides(g, n) && Divides(g, d) {
        DividesCombination(g, d, n, a);
      }
      if Divides(g, d) && Divides(g, r) {
        DividesCombination(g, d, r, a);
      }
    }
  }

  lemma CoprimeToZero(d: int)
    requires d > 0 && Coprime(d, 0)
    ensures d == 1
  {
    if d > 1 {
      assert d == d * 1 && 0 == d * 0;
      assert Divides(d, d) && Divides(d, 0);
    }
  }

  /** One shares no divisor with anything. */
  lemma CoprimeOne(n: int)
    ensures Coprime(n, 1) && Coprime(1, n)
  {
    forall g | g > 1
      ensures !Divides(g, 1)
    {
      forall k
        ensures 1 != g * k
      {
        assert k >= 1 ==> g * k >= g;
        assert k <= 0 ==> g * k <= 0;
      }
    }
  }

  /** The terms of a quotient above one form a tail. */
  lemma {:induction false} TermsTail(n: int, d: int)
    requires n > d > 0 && Coprime(n, d)
    ensures Tail(Terms(n, d))
    decreases d
  {
    var a, r := n / d, n % d;
    QuotientAtLeastOne(n, d);
    CoprimeStep(n, d);
    if r == 0 {
      CoprimeToZero(d);
      assert a == n;
    } else {
      TermsTail(d, r);
      var rest := Terms(d, r);
      assert Terms(n, d) == [a] + rest;
    }
  }

  lemma QuotientAtLeastOne(n: int, d: int)
    requires n >= d > 0
    ensures n / d >= 1
  {
    var a := n / d;
    assert n == a * d + n % d;
    assert a <= 0 ==> a * d <= 0;
  }

  /** THE CONTINUANT UNDOES EUCLID: for every reduced fraction the terms are
      canonical and denote exactly that fraction. */
  lemma {:induction false} ValueOfTerms(n: int, d: int)
    requires d > 0 && Coprime(n, d)
    ensures Canonical(Terms(n, d)) && Value(Terms(n, d)) == (n, d)
    decreases d
  {
    var a, r := n / d, n % d;
    CoprimeStep(n, d);
    assert n == a * d + r;
    var rest := if r == 0 then [] else Terms(d, r);
    assert Terms(n, d)[1..] == rest;
    if r == 0 {
      CoprimeToZero(d);
    } else {
      ValueOfTerms(d, r);
      TermsTail(d, r);
    }
  }

  lemma {:induction false} TailValue(ts: seq<int>)
    requires Tail(ts)
    ensures var (p, q) := Value(ts); p > q >= 0 && Coprime(p, q) && (q == 0 <==> ts == [])
    decreases |ts|
  {
    if ts == [] {
      CoprimeOne(0);
    } else {
      TailValue(ts[1..]);
      var (p, q) := Value(ts[1..]);
      var a := ts[0];
      assert a * p >= p;
      if ts[1..] == [] {
        assert a == ts[|ts| - 1];
      }
      DivModUnique(a * p + q, p, a, q);
      CoprimeStep(a * p + q, p);
    }
  }

  lemma DivModUnique(n: int, d: int, a: int, r: int)
    requires d > 0 && n == a * d + r && 0 <= r < d
    ensures n / d == a && n % d == r
  {
    var b := n / d - a;
    assert n == (n / d) * d + n % d;
    assert b * d == r - n % d;
    assert b >= 1 ==> b * d >= d;
    assert b <= -1 ==> b * d <= -d;
  }

  /** EUCLID UNDOES THE CONTINUANT: every canonical term list is the expansion
      of the fraction it denotes, and that fraction is in lowest terms. */
  lemma {:induction false} TermsOfValue(ts: seq<int>)
    requires Canonical(ts)
    ensures var (p, q) := Value(ts); q > 0 && Coprime(p, q) && Terms(p, q) == ts
    decreases |ts|
  {
    TailValue(ts[1..]);
    var (p, q) := Value(ts[1..]);
    DivModUnique(ts[0] * p + q, p, ts[0], q);
    CoprimeStep(ts[0] * p + q, p);
    if ts[1..] != [] {
      assert Canonical(ts[1..]);
      TermsOfValue(ts[1..]);
      assert ts == [ts[0]] + ts[1..];
    } else {
      assert ts == [ts[0]];
    }
  }

  /** Equal fractions have equal expansions, reduced or not. */
  lemma {:induction false} TermsScale(n: int, d: int, g: int)
    requires d > 0 && g > 0
    ensures g * d > 0 && Terms(g * n, g * d) == Terms(n, d)
    decreases d
  {
    var a, r := n / d, n % d;
    assert n == a * d + r;
    assert g * n == a * (g * d) + g * r by {
      assert g * (a * d + r) == g * (a * d) + g * r;
      assert g * (a * d) == a * (g * d);
    }
    assert g * d > 0;
    assert 0 <= g * r < g * d;
    DivModUnique(g * n, g * d, a, g * r);
    if r != 0 {
      TermsScale(d, r, g);
    }
  }

  // ---- the recurrence ----

  /** The state of the continuant loop after `ts`, over true integers. */
  function Fold(ts: seq<int>, p1: int, p2: int, q1: int, q2: int): (int, int, int, int) {
    if ts == [] then (p1, p2, q1, q2)
    else Fold(ts[1..], ts[0] * p1 + p2, p1, ts[0] * q1 + q2, q1)
  }

  /** Outside-in agrees with inside-out, from any starting state. */
  lemma {:induction false} FoldIsLinear(ts: seq<int>, p1: int, p2: int, q1: int, q2: int)
    ensures var (p, q) := Value(ts);
            var f := Fold(ts, p1, p2, q1, q2);
            f.0 == p1 * p + p2 * q && f.2 == q1 * p + q2 * q
    decreases |ts|
  {
    if ts != [] {
      var a := ts[0];
      var (p, q) := Value(ts[1..]);
      FoldIsLinear(ts[1..], a * p1 + p2, p1, a * q1 + q2, q1);
      Distribute(a, p1, p2, p, q);
      Distribute(a, q1, q2, p, q);
    }
  }

  lemma Distribute(a: int, x1: int, x2: int, p: int, q: int)
    ensures (a * x1 + x2) * p + x1 * q == x1 * (a * p + q) + x2 * p
  {
    assert (a * x1 + x2) * p == a * x1 * p + x2 * p;
    assert x1 * (a * p + q) == x1 * (a * p) + x1 * q;
    assert a * x1 * p == x1 * (a * p);
  }

  lemma FoldIsValue(ts: seq<int>)
    ensures var f := Fold(ts, 1, 0, 0, 1); (f.0, f.2) == Value(ts)
  {
    FoldIsLinear(ts, 1, 0, 0, 1);
  }

  /** The determinant of the recurrence only changes sign. */
  lemma {:induction false} Determinant(ts: seq<int>, p1: int, p2: int, q1: int, q2: int)
    ensures var f := Fold(ts, p1, p2, q1, q2);
            var det := p1 * q2 - p2 * q1;
            f.0 * f.3 - f.1 * f.2 == if |ts| % 2 == 0 then det else -det
    decreases |ts|
  {
    if ts != [] {
      var a := ts[0];
      Determinant(ts[1..], a * p1 + p2, p1, a * q1 + q2, q1);
      StepFlipsSign(a, p1, p2, q1, q2);
    }
  }

  lemma StepFlipsSign(a: int, p1: int, p2: int, q1: int, q2: int)
    ensures (a * p1 + p2) * q1 - p1 * (a * q1 + q2) == -(p1 * q2 - p2 * q1)
  {
    assert (a * p1 + p2) * q1 == a * p1 * q1 + p2 * q1;
    assert p1 * (a * q1 + q2) == p1 * (a * q1) + p1 * q2;
    assert a * p1 * q1 == p1 * (a * q1);
  }

  /** `Ratio::new_raw` is justified: whatever the terms, the continuant is in
      lowest terms because its determinant is 1 or -1. */
  lemma ContinuantIsReduced(ts: seq<int>)
    ensures Coprime(Value(ts).0, Value(ts).1)
  {
    FoldIsValue(ts);
    Determinant(ts, 1, 0, 0, 1);
    var f := Fold(ts, 1, 0, 0, 1);
    forall g | g > 1 && Divides(g, f.0)
      ensures !Divides(g, f.2)
    {
      UnitHasNoDivisor(g, f.0, f.3, f.1, f.2);
    }
  }

  lemma UnitHasNoDivisor(g: int, p1: int, q2: int, p2: int, q1: int)
    requires g > 1 && Divides(g, p1) && (p1 * q2 - p2 * q1 == 1 || p1 * q2 - p2 * q1 == -1)
    ensures !Divides(g, q1)
  {
    var k :| p1 == g * k;
    forall m
      ensures q1 != g * m
    {
      var w := k * q2 - p2 * m;
      assert g * k * q2 - p2 * (g * m) == g * w by {
        assert g * k * q2 == g * (k * q2);
        assert p2 * (g * m) == g * (p2 * m);
        assert g * w == g * (k * q2) - g * (p2 * m);
      }
      assert w >= 1 ==> g * w >= g;
      assert w <= -1 ==> g * w <= -g;
      assert w == 0 ==> g * w == 0;
    }
  }

  // ---- checked arithmetic ----

  /** One checked step `a * x1 + x2`. */
  predicate StepFits(a: int, x1: int, x2: int) {
    I128(a * x1) && I128(a * x1 + x2)
  }

  /** `continuant`, stopping at the first overflow. */
  function Checked(ts: seq<int>, p1: int, p2: int, q1: int, q2: int): Option<(int, int)> {
    if ts == [] then Some((p1, q1))
    else if !StepFits(ts[0], p1, p2) || !StepFits(ts[0], q1, q2) then None
    else Checked(ts[1..], ts[0] * p1 + p2, p1, ts[0] * q1 + q2, q1)
  }

  /** The loop of `continuant`. */
  method Continuant(terms: seq<int>) returns (r: Option<(int, int)>)
    requires forall i :: 0 <= i < |terms| ==> I128(terms[i])
    ensures r == Checked(terms, 1, 0, 0, 1)
    ensures r.Some? ==> r.value == Value(terms) && Coprime(r.value.0, r.value.1)
  {
    var p1, p2, q1, q2 := 1, 0, 0, 1;
    var i := 0;
    while i < |terms|
      invariant 0 <= i <= |terms|
      invariant Checked(terms, 1, 0, 0, 1) == Checked(terms[i..], p1, p2, q1, q2)
    {
      var a := terms[i];
      assert terms[i..][0] == a && terms[i..][1..] == terms[i + 1..];
      if !StepFits(a, p1, p2) {
        return None;
      }
      if !StepFits(a, q1, q2) {
        return None;
      }
      p1, p2, q1, q2 := a * p1 + p2, p1, a * q1 + q2, q1;
      i := i + 1;
    }
    CheckedIsFold(terms, 1, 0, 0, 1);
    FoldIsValue(terms);
    ContinuantIsReduced(terms);
    r := Some((p1, q1));
  }

  lemma {:induction false} CheckedIsFold(ts: seq<int>, p1: int, p2: int, q1: int, q2: int)
    ensures var c, f := Checked(ts, p1, p2, q1, q2), Fold(ts, p1, p2, q1, q2);
            c.Some? ==> c.value == (f.0, f.2)
    decreases |ts|
  {
    if ts != [] {
      CheckedIsFold(ts[1..], ts[0] * p1 + p2, p1, ts[0] * q1 + q2, q1);
    }
  }

  predicate AllPositive(ts: seq<int>) {
    forall i :: 0 <= i < |ts| ==> ts[i] >= 1
  }

  /** One of the two tracks of the recurrence, over true integers. */
  function Track(ts: seq<int>, x1: int, x2: int): int {
    if ts == [] then x1 else Track(ts[1..], ts[0] * x1 + x2, x1)
  }

  predicate TrackFits(ts: seq<int>, x1: int, x2: int) {
    ts == [] || (StepFits(ts[0], x1, x2) && TrackFits(ts[1..], ts[0] * x1 + x2, x1))
  }

  lemma {:induction false} CheckedByTracks(ts: seq<int>, p1: int, p2: int, q1: int, q2: int)
    ensures Checked(ts, p1, p2, q1, q2).Some? <==> TrackFits(ts, p1, p2) && TrackFits(ts, q1, q2)
    ensures Fold(ts, p1, p2, q1, q2).0 == Track(ts, p1, p2)
    ensures Fold(ts, p1, p2, q1, q2).2 == Track(ts, q1, q2)
    decreases |ts|
  {
    if ts != [] {
      CheckedByTracks(ts[1..], ts[0] * p1 + p2, p1, ts[0] * q1 + q2, q1);
    }
  }

  /** A non-negative track only grows, so it fits exactly when its end does. */
  lemma {:induction false} TrackUp(ts: seq<int>, x1: int, x2: int)
    requires AllPositive(ts) && 0 <= x1 && 0 <= x2
    ensures Track(ts, x1, x2) >= x1
    ensures x1 <= MAX128 ==> (TrackFits(ts, x1, x2) <==> Track(ts, x1, x2) <= MAX128)
    decreases |ts|
  {
    if ts != [] {
      var y := ts[0] * x1;
      assert y >= x1;
      TrackUp(ts[1..], y + x2, x1);
    }
  }

  /** A non-positive track only falls. */
  lemma {:induction false} TrackDown(ts: seq<int>, x1: int, x2: int)
    requires AllPositive(ts) && x1 <= 0 && x2 <= 0
    ensures Track(ts, x1, x2) <= x1
    ensures x1 >= MIN128 ==> (TrackFits(ts, x1, x2) <==> Track(ts, x1, x2) >= MIN128)
    decreases |ts|
  {
    if ts != [] {
      var y := ts[0] * x1;
      assert y <= x1;
      TrackDown(ts[1..], y + x2, x1);
    }
  }

  /** OVERFLOW, positive terms: `continuant` returns nothing exactly when the
      true numerator or denominator is too large. */
  lemma PositiveOverflow(ts: seq<int>)
    requires AllPositive(ts)
    ensures Checked(ts, 1, 0, 0, 1).None? <==> Value(ts).0 > MAX128 || Value(ts).1 > MAX128
  {
    CheckedByTracks(ts, 1, 0, 0, 1);
    TrackUp(ts, 1, 0);
    TrackUp(ts, 0, 1);
    FoldIsValue(ts);
  }

  lemma QuotientInRange(n: int, d: int)
    requires d > 0
    ensures n < 0 ==> n <= n / d < 0
    ensures n >= 0 ==> 0 <= n / d <= n
  {
    FloorInRange(n, d, n / d, n % d);
  }

  lemma FloorInRange(n: int, d: int, a: int, r: int)
    requires n == a * d + r && 0 <= r < d
    ensures n < 0 ==> n <= a < 0
    ensures n >= 0 ==> 0 <= a <= n
  {
    if a >= 0 {
      Stretch(d, a);
    } else {
      Stretch(d, -a - 1);
      assert a * d == -(d * (-a - 1)) - d;
    }
  }

  lemma Stretch(b: int, x: int)
    requires b >= 1 && x >= 0
    ensures b * x >= x
  {
  }

  /** OVERFLOW, canonical terms of a representable fraction: decoding loses the
      fraction in exactly one family, the minimum numerator whose expansion has
      two terms, where `a1 * a0` overshoots by one although `a1 * a0 + 1` fits. */
  lemma CanonicalOverflow(n: int, d: int)
    requires d > 0 && Coprime(n, d) && I128(n) && I128(d)
    ensures Checked(Terms(n, d), 1, 0, 0, 1).None? <==> n == MIN128 && n % d == 1
    ensures Checked(Terms(n, d), 1, 0, 0, 1).Some? ==> Checked(Terms(n, d), 1, 0, 0, 1).value == (n, d)
  {
    var ts := Terms(n, d);
    ValueOfTerms(n, d);
    FoldIsValue(ts);
    CheckedIsFold(ts, 1, 0, 0, 1);
    CheckedByTracks(ts, 1, 0, 0, 1);
    QuotientInRange(n, d);
    var rest := ts[1..];
    assert TrackFits(ts, 0, 1) <==> TrackFits(rest, 1, 0);
    assert Track(ts, 0, 1) == Track(rest, 1, 0);
    TrackUp(rest, 1, 0);
    NumeratorTrack(n, d);
  }

  lemma NumeratorTrack(n: int, d: int)
    requires d > 0 && Coprime(n, d) && I128(n)
    ensures TrackFits(Terms(n, d), 1, 0) <==> !(n == MIN128 && n % d == 1)
  {
    var ts := Terms(n, d);
    ValueOfTerms(n, d);
    FoldIsValue(ts);
    CheckedByTracks(ts, 1, 0, 0, 1);
    QuotientInRange(n, d);
    var rest, a := ts[1..], n / d;
    assert TrackFits(ts, 1, 0) <==> TrackFits(rest, a, 1);
    assert Track(ts, 1, 0) == Track(rest, a, 1);
    if a >= 0 {
      TrackUp(rest, a, 1);
    } else if rest != [] {
      NegativeHead(n, d, a, rest);
    }
  }

  /** The only track that starts with mixed signs: a negative first term. */
  lemma NegativeHead(n: int, d: int, a: int, rest: seq<int>)
    requires d > 0 && Coprime(n, d) && I128(n) && a == n / d && a < 0
    requires Terms(n, d) == [a] + rest && rest != [] && Tail(rest) && Track(rest, a, 1) == n
    ensures TrackFits(rest, a, 1) <==> !(n == MIN128 && n % d == 1)
  {
    var b, more := rest[0], rest[1..];
    var y := b * a;
    Stretch(b, -a);
    assert y == -(b * -a);
    QuotientInRange(n, d);
    TrackDown(more, y + 1, a);
    TwoTerms(n, d);
    assert TrackFits(rest, a, 1) <==> I128(y) && I128(y + 1) && TrackFits(more, y + 1, a);
    if more != [] {
      LongTrack(more, y + 1, a);
    }
  }

  /** One more term pushes a falling track strictly below its start. */
  lemma LongTrack(ts: seq<int>, x1: int, x2: int)
    requires AllPositive(ts) && ts != [] && x1 <= 0 && x2 < 0
    ensures Track(ts, x1, x2) < x1
  {
    var y := ts[0] * x1;
    Stretch(ts[0], -x1);
    assert y == -(ts[0] * -x1);
    TrackDown(ts[1..], y + x2, x1);
  }

  /** The expansion has two terms exactly when the first remainder is one. */
  lemma TwoTerms(n: int, d: int)
    requires d > 0 && Coprime(n, d)
    ensures |Terms(n, d)| == 2 <==> n % d == 1
  {
    var r := n % d;
    CoprimeStep(n, d);
    if r != 0 {
      CoprimeStep(d, r);
      if d % r == 0 {
        CoprimeToZero(r);
      } else {
        assert |Terms(r, d % r)| >= 1;
      }
    }
  }
}
