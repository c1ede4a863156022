/** The order-preserving encoding of rationals: the canonical continued
fraction, each term in a prefix-free increasing bit code, complemented at odd
positions, and a terminator above every code. */
module OrderedRational {
  import opened Powers
  import opened Radix
  import opened Bytes
  import opened ContinuedFraction
  import opened BitBudget

  const PAYLOAD: nat := 256

  datatype Error = OutOfDomain | ZeroDenominator | NonCanonical | Overflow

  datatype Result<+T> = Ok(value: T) | Err(error: Error)

  // ---- bit strings ----

  function Repeat(b: bool, n: nat): (r: seq<bool>)
    ensures |r| == n && forall i :: 0 <= i < n ==> r[i] == b
  {
    seq(n, i => b)
  }

  function Flip(x: seq<bool>, invert: bool): (r: seq<bool>)
    ensures |r| == |x| && forall i :: 0 <= i < |x| ==> r[i] == (x[i] != invert)
  {
    seq(|x|, i requires 0 <= i < |x| => x[i] != invert)
  }

  lemma {:induction false} LexPrefix(c: seq<bool>, x: seq<bool>, y: seq<bool>)
    ensures LexBits(c + x, c + y) <==> LexBits(x, y)
    decreases |c|
  {
    if c == [] {
      assert c + x == x && c + y == y;
    } else {
      LexPrefix(c[1..], x, y);
      assert (c + x)[1..] == c[1..] + x && (c + y)[1..] == c[1..] + y;
    }
  }

  /** The two strings part within their common length, the first one below. */
  predicate Parts(c: seq<bool>, d: seq<bool>, at: nat) {
    at < |c| && at < |d| && c[..at] == d[..at] && !c[at] && d[at]
  }

  lemma {:induction false} PartsIsLex(c: seq<bool>, d: seq<bool>, at: nat)
    requires Parts(c, d, at)
    ensures LexBits(c, d) && !LexBits(d, c)
    decreases at
  {
    if at > 0 {
      assert c[0] == c[..at][0] && d[0] == d[..at][0];
      assert c[1..][..at - 1] == c[..at][1..] && d[1..][..at - 1] == d[..at][1..];
      PartsIsLex(c[1..], d[1..], at - 1);
    }
  }

  lemma PartsExtends(c: seq<bool>, d: seq<bool>, at: nat, x: seq<bool>, y: seq<bool>)
    requires Parts(c, d, at)
    ensures Parts(c + x, d + y, at)
  {
    assert (c + x)[..at] == c[..at] && (d + y)[..at] == d[..at];
  }

  lemma {:induction false} FlipReverses(x: seq<bool>, y: seq<bool>)
    ensures LexBits(Flip(x, true), Flip(y, true)) <==> LexBits(y, x)
    decreases |x|
  {
    if x != [] && y != [] {
      FlipReverses(x[1..], y[1..]);
      assert Flip(x, true)[1..] == Flip(x[1..], true);
      assert Flip(y, true)[1..] == Flip(y[1..], true);
    }
  }

  // ---- the term code ----

  /** The low `k` bits of `m`, most significant first. */
  function Low(m: nat, k: nat): (r: seq<bool>)
    ensures |r| == k
    decreases k
  {
    if k == 0 then [] else Low(m / 2, k - 1) + [m % 2 == 1]
  }

  /** Ones for the length, a zero, then the low bits. */
  function Code(m: nat): (r: seq<bool>)
    requires m >= 1
    ensures |r| == CodeLength(m)
  {
    Repeat(true, Log2(m)) + [false] + Low(m, Log2(m))
  }

  /** Equal lengths: the low bits order numbers with the same top bit. */
  lemma {:induction false} LowOrder(a: nat, b: nat, k: nat) returns (at: nat)
    requires a < b && a / Pow2(k) == b / Pow2(k)
    ensures Parts(Low(a, k), Low(b, k), at)
    decreases k
  {
    if k > 0 {
      HalveQuotient(a, k);
      HalveQuotient(b, k);
      if a / 2 < b / 2 {
        at := LowOrder(a / 2, b / 2, k - 1);
        PartsExtends(Low(a / 2, k - 1), Low(b / 2, k - 1), at, [a % 2 == 1], [b % 2 == 1]);
      } else {
        at := k - 1;
        assert a / 2 == b / 2;
        assert Low(a, k)[..at] == Low(a / 2, k - 1);
        assert Low(b, k)[..at] == Low(b / 2, k - 1);
      }
    }
  }

  function Pow2(k: nat): (r: nat)
    ensures r >= 1 && r == Pow(2, k)
  {
    if k == 0 then 1 else 2 * Pow2(k - 1)
  }

  lemma HalveQuotient(a: nat, k: nat)
    requires k > 0
    ensures a / Pow2(k) == (a / 2) / Pow2(k - 1)
  {
    var p := Pow2(k - 1);
    var q, r := (a / 2) / p, (a / 2) % p;
    assert a / 2 == q * p + r;
    assert a == q * (2 * p) + (2 * r + a % 2) by {
      assert q * (2 * p) == 2 * (q * p);
    }
    DivModUnique(a, 2 * p, q, 2 * r + a % 2);
  }

  lemma TopBit(m: nat)
    requires m >= 1
    ensures m / Pow2(Log2(m)) == 1
  {
    Log2Bounds(m);
    var p := Pow2(Log2(m));
    assert Pow(2, Log2(m) + 1) == 2 * p;
    DivModUnique(m, p, 1, m - p);
  }

  lemma Log2Monotone(a: nat, b: nat)
    requires 1 <= a <= b
    ensures Log2(a) <= Log2(b)
  {
    Log2Bounds(a);
    Log2Bounds(b);
    PowTwoGrows(Log2(a), Log2(b) + 1);
  }

  /** The documented examples of the code. */
  lemma CodeExamples()
    ensures Code(1) == [false]
    ensures Code(2) == [true, false, false] && Code(3) == [true, false, true]
    ensures Code(4) == [true, true, false, false, false]
    ensures Code(8) == [true, true, true, false, false, false, false]
  {
    assert Low(1, 0) == [] && Low(2, 1) == [false] && Low(3, 1) == [true];
    assert Low(4, 2) == Low(2, 1) + [false];
    assert Low(8, 3) == Low(4, 2) + [false];
    assert Log2(2) == 1 && Log2(3) == 1 && Log2(4) == 2 && Log2(8) == 3;
  }

  /** The code is strictly increasing and prefix-free. */
  lemma CodeOrder(a: nat, b: nat) returns (at: nat)
    requires 1 <= a < b
    ensures Parts(Code(a), Code(b), at)
  {
    var k, j := Log2(a), Log2(b);
    Log2Monotone(a, b);
    if k < j {
      at := k;
      assert Code(a)[..k] == Repeat(true, k) == Code(b)[..k];
    } else {
      TopBit(a);
      TopBit(b);
      var i := LowOrder(a, b, k);
      var head := Repeat(true, k) + [false];
      at := |head| + i;
      assert Code(a) == head + Low(a, k) && Code(b) == head + Low(b, k);
      assert Code(a)[..at] == head + Low(a, k)[..i];
      assert Code(b)[..at] == head + Low(b, k)[..i];
    }
  }

  lemma CodesParted(a: nat, b: nat, x: seq<bool>, y: seq<bool>)
    requires 1 <= a < b
    ensures LexBits(Code(a) + x, Code(b) + y) && !LexBits(Code(b) + y, Code(a) + x)
  {
    var at := CodeOrder(a, b);
    PartsExtends(Code(a), Code(b), at, x, y);
    PartsIsLex(Code(a) + x, Code(b) + y, at);
  }

  // ---- the payload ----

  /** Terms from some position on, filled up to `room` bits. `invert` is true at
      odd positions; the terminator is all ones at even positions. */
  function Rest(ts: seq<int>, invert: bool, room: nat): (r: seq<bool>)
    requires AllPositive(ts) && LaterBits(ts) <= room
    ensures |r| == room
    decreases |ts|
  {
    if ts == [] then Repeat(!invert, room)
    else Flip(Code(ts[0]), invert) + Rest(ts[1..], !invert, room - CodeLength(ts[0]))
  }

  predicate Fits(ts: seq<int>) {
    Canonical(ts) && 1 + CodeLength(Magnitude(ts[0])) + LaterBits(ts[1..]) <= PAYLOAD
  }

  /** The 256 payload bits of a canonical expansion. */
  function Payload(ts: seq<int>): (r: seq<bool>)
    requires Fits(ts)
    ensures |r| == PAYLOAD
  {
    var a := ts[0];
    [a >= 0] + Flip(Code(Magnitude(a)), a < 0) + Rest(ts[1..], true, PAYLOAD - 1 - CodeLength(Magnitude(a)))
  }

  lemma {:induction false} FlipRest(ts: seq<int>, invert: bool, room: nat)
    requires AllPositive(ts) && LaterBits(ts) <= room
    ensures Rest(ts, !invert, room) == Flip(Rest(ts, invert, room), true)
    decreases |ts|
  {
    hide Code, Log2;
    if ts != [] {
      var left := room - CodeLength(ts[0]);
      FlipRest(ts[1..], !invert, left);
      var c, x := Code(ts[0]), Rest(ts[1..], !invert, left);
      assert Flip(Flip(c, invert) + x, true) == Flip(c, !invert) + Flip(x, true);
      assert Flip(x, true) == Rest(ts[1..], invert, left);
    } else {
      assert Flip(Repeat(!invert, room), true) == Repeat(invert, room);
    }
  }

  // ---- numeric order of the values ----

  /** x < y as fractions with non-negative denominators; 1/0 is above all. */
  predicate Less(x: (int, int), y: (int, int)) {
    x.0 * y.1 < y.0 * x.1
  }

  lemma SameHead(a: int, x: (int, int), y: (int, int))
    ensures Less((a * x.0 + x.1, x.0), (a * y.0 + y.1, y.0)) <==> Less(y, x)
  {
    var p, q, s, t := x.0, x.1, y.0, y.1;
    assert (a * p + q) * s == a * p * s + q * s;
    assert (a * s + t) * p == a * s * p + t * p;
    assert a * p * s == a * s * p;
    assert q * s == s * q && t * p == p * t;
  }

  lemma SmallerHead(a: int, b: int, x: (int, int), y: (int, int))
    requires a < b && x.0 > x.1 >= 0 && y.0 > y.1 >= 0
    ensures Less((a * x.0 + x.1, x.0), (b * y.0 + y.1, y.0))
    ensures !Less((b * y.0 + y.1, y.0), (a * x.0 + x.1, x.0))
  {
    var p, q, s, t := x.0, x.1, y.0, y.1;
    var ps := p * s;
    assert ps > 0;
    assert (a * p + q) * s == a * ps + q * s;
    assert (b * s + t) * p == b * ps + t * p;
    assert q * s < ps;
    assert t * p >= 0;
    assert (a + 1) * ps <= b * ps;
    assert (a + 1) * ps == a * ps + ps;
  }

  /** Tails at an even position: bitwise order is numeric order. */
  lemma {:induction false} RestOrder(s: seq<int>, t: seq<int>, room: nat)
    requires Tail(s) && Tail(t) && LaterBits(s) <= room && LaterBits(t) <= room
    ensures LexBits(Rest(s, false, room), Rest(t, false, room)) <==> Less(Value(s), Value(t))
    decreases |s| + |t|, 1
  {
    if s == [] && t == [] {
      LexPrefix(Repeat(true, room), [], []);
      assert Repeat(true, room) + [] == Repeat(true, room);
    } else if s == [] {
      EndIsAbove(t, room);
    } else if t == [] {
      EndIsAbove(s, room);
    } else {
      if s[0] == t[0] {
        SameHeadRest(s, t, room);
      } else {
        HeadsDiffer(s, t, room);
        HeadsDiffer(t, s, room);
      }
    }
  }

  lemma {:induction false} SameHeadRest(s: seq<int>, t: seq<int>, room: nat)
    requires Tail(s) && Tail(t) && s != [] && t != [] && s[0] == t[0]
    requires LaterBits(s) <= room && LaterBits(t) <= room
    ensures LexBits(Rest(s, false, room), Rest(t, false, room)) <==> Less(Value(s), Value(t))
    decreases |s| + |t|, 0
  {
    RestUnfold(s, room);
    RestUnfold(t, room);
    var left := room - CodeLength(s[0]);
    OddRestOrder(s[1..], t[1..], left);
    LexPrefix(Code(s[0]), Rest(s[1..], true, left), Rest(t[1..], true, left));
    SameHeadValue(s, t);
  }

  lemma SameHeadValue(s: seq<int>, t: seq<int>)
    requires s != [] && t != [] && s[0] == t[0]
    ensures Less(Value(s), Value(t)) <==> Less(Value(t[1..]), Value(s[1..]))
  {
    SameHead(s[0], Value(s[1..]), Value(t[1..]));
  }

  lemma HeadsDiffer(s: seq<int>, t: seq<int>, room: nat)
    requires Tail(s) && Tail(t) && s != [] && t != []
    requires LaterBits(s) <= room && LaterBits(t) <= room
    ensures s[0] < t[0] ==>
              && LexBits(Rest(s, false, room), Rest(t, false, room))
              && !LexBits(Rest(t, false, room), Rest(s, false, room))
              && Less(Value(s), Value(t)) && !Less(Value(t), Value(s))
  {
    hide LexBits, Code, Flip, Rest, Log2, Coprime;
    RestUnfold(s, room);
    RestUnfold(t, room);
    if s[0] < t[0] {
      CodesParted(s[0], t[0], Rest(s[1..], true, room - CodeLength(s[0])), Rest(t[1..], true, room - CodeLength(t[0])));
      TailValue(s[1..]);
      TailValue(t[1..]);
      SmallerHead(s[0], t[0], Value(s[1..]), Value(t[1..]));
    }
  }

  lemma RestUnfold(s: seq<int>, room: nat)
    requires Tail(s) && s != [] && LaterBits(s) <= room
    ensures Tail(s[1..])
    ensures Rest(s, false, room) == Code(s[0]) + Rest(s[1..], true, room - CodeLength(s[0]))
  {
    assert Flip(Code(s[0]), false) == Code(s[0]);
  }

  /** At an odd position it is the reverse. */
  lemma OddRestOrder(s: seq<int>, t: seq<int>, room: nat)
    requires Tail(s) && Tail(t) && LaterBits(s) <= room && LaterBits(t) <= room
    ensures LexBits(Rest(s, true, room), Rest(t, true, room)) <==> Less(Value(t), Value(s))
    decreases |s| + |t|, 2
  {
    FlipRest(s, false, room);
    FlipRest(t, false, room);
    FlipReverses(Rest(s, false, room), Rest(t, false, room));
    RestOrder(t, s, room);
  }

  /** The terminator sorts above every code, as 1/0 is above every value. */
  lemma EndIsAbove(t: seq<int>, room: nat)
    requires Tail(t) && t != [] && LaterBits(t) <= room
    ensures LexBits(Rest(t, false, room), Rest([], false, room))
    ensures !LexBits(Rest([], false, room), Rest(t, false, room))
    ensures Less(Value(t), Value([])) && !Less(Value([]), Value(t))
  {
    TailValue(t);
    RestUnfold(t, room);
    var k := Log2(t[0]);
    var x := Rest(t, false, room);
    assert x[..k] == Repeat(true, room)[..k];
    assert Parts(x, Repeat(true, room), k);
    PartsIsLex(x, Repeat(true, room), k);
  }

  /** Whole payloads: bitwise order is numeric order. */
  lemma PayloadOrder(s: seq<int>, t: seq<int>)
    requires Fits(s) && Fits(t)
    ensures LexBits(Payload(s), Payload(t)) <==> Less(Value(s), Value(t))
  {
    if s[0] == t[0] {
      SameFirstTerm(s, t);
    } else {
      FirstTermsDiffer(s, t);
      FirstTermsDiffer(t, s);
    }
  }

  lemma SameFirstTerm(s: seq<int>, t: seq<int>)
    requires Fits(s) && Fits(t) && s[0] == t[0]
    ensures LexBits(Payload(s), Payload(t)) <==> Less(Value(s), Value(t))
  {
    var a := s[0];
    var left := PAYLOAD - 1 - CodeLength(Magnitude(a));
    var head := [a >= 0] + Flip(Code(Magnitude(a)), a < 0);
    LexPrefix(head, Rest(s[1..], true, left), Rest(t[1..], true, left));
    SameHeadValue(s, t);
    OddRestOrder(s[1..], t[1..], left);
  }

  lemma FirstTermsDiffer(s: seq<int>, t: seq<int>)
    requires Fits(s) && Fits(t)
    ensures s[0] < t[0] ==>
              && LexBits(Payload(s), Payload(t)) && !LexBits(Payload(t), Payload(s))
              && Less(Value(s), Value(t)) && !Less(Value(t), Value(s))
  {
    hide LexBits, Code, Flip, Rest, Log2, Value, Less;
    if s[0] < t[0] {
      FirstTermValues(s, t);
      HeadStrings(s[0], t[0], Rest(s[1..], true, PAYLOAD - 1 - CodeLength(Magnitude(s[0]))),
                  Rest(t[1..], true, PAYLOAD - 1 - CodeLength(Magnitude(t[0]))));
    }
  }

  lemma FirstTermValues(s: seq<int>, t: seq<int>)
    requires Canonical(s) && Canonical(t) && s[0] < t[0]
    ensures Less(Value(s), Value(t)) && !Less(Value(t), Value(s))
  {
    hide Less, Coprime;
    TailValue(s[1..]);
    TailValue(t[1..]);
    SmallerHead(s[0], t[0], Value(s[1..]), Value(t[1..]));
  }

  /** The first term with its sign bit, followed by anything. */
  lemma HeadStrings(a: int, b: int, x: seq<bool>, y: seq<bool>)
    requires a < b
    ensures var u := [a >= 0] + Flip(Code(Magnitude(a)), a < 0) + x;
            var v := [b >= 0] + Flip(Code(Magnitude(b)), b < 0) + y;
            LexBits(u, v) && !LexBits(v, u)
  {
    var c, d := Flip(Code(Magnitude(a)), a < 0) + x, Flip(Code(Magnitude(b)), b < 0) + y;
    assert [a >= 0] + Flip(Code(Magnitude(a)), a < 0) + x == [a >= 0] + c;
    assert [b >= 0] + Flip(Code(Magnitude(b)), b < 0) + y == [b >= 0] + d;
    if (a >= 0) == (b >= 0) {
      LexPrefix([a >= 0], c, d);
      LexPrefix([a >= 0], d, c);
      if a >= 0 {
        assert Flip(Code(a + 1), false) == Code(a + 1) && Flip(Code(b + 1), false) == Code(b + 1);
        CodesParted(a + 1, b + 1, x, y);
      } else {
        NegativeHeadOrder(a, b, x, y);
      }
    }
  }

  lemma NegativeHeadOrder(a: int, b: int, x: seq<bool>, y: seq<bool>)
    requires a < b < 0
    ensures LexBits(Flip(Code(-a), true) + x, Flip(Code(-b), true) + y)
    ensures !LexBits(Flip(Code(-b), true) + y, Flip(Code(-a), true) + x)
  {
    var u, v := Code(-a) + Flip(x, true), Code(-b) + Flip(y, true);
    FlipConcat(Code(-a), x);
    FlipConcat(Code(-b), y);
    FlipReverses(u, v);
    FlipReverses(v, u);
    CodesParted(-b, -a, Flip(y, true), Flip(x, true));
  }

  lemma FlipConcat(c: seq<bool>, x: seq<bool>)
    ensures Flip(c, true) + x == Flip(c + Flip(x, true), true)
  {
  }

  // ---- encoding ----

  /** `encode_parts` on bits: normalise the sign, expand, and fail rather than
      round when the payload is too small. */
  function Encode(numer: int, denom: int): Result<seq<bool>>
    requires I128(numer) && I128(denom)
  {
    if denom == 0 then Err(ZeroDenominator)
    else if denom < 0 && (numer == MIN128 || denom == MIN128) then Err(OutOfDomain)
    else EncodePositive(if denom < 0 then -numer else numer, if denom < 0 then -denom else denom)
  }

  function EncodePositive(n: int, d: int): Result<seq<bool>>
    requires d > 0
  {
    TermsCanonical(n, d);
    if UsedBits(n, d) > PAYLOAD then Err(OutOfDomain) else Ok(Payload(Terms(n, d)))
  }

  lemma {:induction false} TermsCanonical(n: int, d: int)
    requires d > 0
    ensures Canonical(Terms(n, d)) && Terms(n, d)[0] == n / d
    ensures n > d ==> Tail(Terms(n, d))
    decreases d
  {
    var rest := if n % d == 0 then [] else Terms(d, n % d);
    assert Terms(n, d)[1..] == rest;
    if n % d != 0 {
      TermsCanonical(d, n % d);
    }
    QuotientAbove(n, d);
  }

  lemma QuotientAbove(n: int, d: int)
    requires d > 0
    ensures n > d ==> n / d >= 1 && (n % d == 0 ==> n / d >= 2)
  {
    if n > d {
      QuotientAtLeastOne(n, d);
      ExactQuotient(n, d, n / d, n % d);
    }
  }

  lemma ExactQuotient(n: int, d: int, a: int, r: int)
    requires n > d > 0 && n == a * d + r
    ensures r == 0 ==> a >= 2
  {
    assert a <= 1 ==> a * d <= d;
  }

  /** Reduced or not, the terms denote the given ratio. */
  lemma {:induction false} ValueIsRatio(n: int, d: int)
    requires d > 0
    ensures var (p, q) := Value(Terms(n, d)); q > 0 && n * q == p * d
    decreases d
  {
    TermsCanonical(n, d);
    TermsOfValue(Terms(n, d));
    var a, r := n / d, n % d;
    assert n == a * d + r;
    var rest := if r == 0 then [] else Terms(d, r);
    assert Terms(n, d)[1..] == rest;
    var (p, q) := Value(rest);
    if r != 0 {
      ValueIsRatio(d, r);
    }
    RatioStep(n, d, a, r, p, q);
  }

  lemma RatioStep(n: int, d: int, a: int, r: int, p: int, q: int)
    requires n == a * d + r && d * q == p * r
    ensures n * p == (a * p + q) * d
  {
    var dp := d * p;
    assert n * p == a * dp + r * p;
    assert (a * p + q) * d == a * dp + q * d;
  }

  lemma CrossMultiply(n: int, d: int, p: int, q: int, n': int, d': int, p': int, q': int)
    requires d > 0 && q > 0 && d' > 0 && q' > 0 && n * q == p * d && n' * q' == p' * d'
    ensures n * d' < n' * d <==> p * q' < p' * q
  {
    var qq, dd := q * q', d * d';
    assert qq > 0 && dd > 0;
    assert (n * d') * qq == (p * q') * dd by {
      Interchange(n, d', q, q');
      assert (n * q) * (d' * q') == (p * d) * (d' * q');
      Interchange(p, d, q', d');
      assert (p * d) * (d' * q') == (p * d) * (q' * d');
    }
    assert (n' * d) * qq == (p' * q) * dd by {
      assert qq == q' * q;
      Interchange(n', d, q', q);
      assert (n' * q') * (d * q) == (p' * d') * (d * q);
      Interchange(p', d', q, d);
      assert (p' * d') * (d * q) == (p' * d') * (q * d);
      assert (p' * q) * (d' * d) == (p' * q) * dd;
    }
    CompareScaled(n * d', n' * d, qq, p * q', p' * q, dd);
  }

  lemma CompareScaled(x: int, y: int, a: int, u: int, v: int, b: int)
    requires a > 0 && b > 0 && x * a == u * b && y * a == v * b
    ensures x < y <==> u < v
  {
    assert x < y ==> x * a < y * a;
    assert x >= y ==> x * a >= y * a;
    assert u < v ==> u * b < v * b;
    assert u >= v ==> u * b >= v * b;
  }

  /** BYTES SORT NUMERICALLY: for any two encodable ratios, plain bytewise order
      of the 32 stored bytes is numeric order, and the bytes are equal exactly
      when the ratios are. */
  lemma BytesSortNumerically(n: int, d: int, n': int, d': int, x: seq<bv8>, y: seq<bv8>)
    requires d > 0 && d' > 0 && |x| == |y|
    requires EncodePositive(n, d) == Ok(Unpack(x)) && EncodePositive(n', d') == Ok(Unpack(y))
    ensures LexBytes(x, y) <==> n * d' < n' * d
    ensures x == y <==> n * d' == n' * d
  {
    hide Unpack, LexBytes;
    TermsCanonical(n, d);
    TermsCanonical(n', d');
    ValueIsRatio(n, d);
    ValueIsRatio(n', d');
    var s, t := Terms(n, d), Terms(n', d');
    PayloadOrder(s, t);
    PayloadOrder(t, s);
    UnpackKeepsOrder(x, y);
    var (p, q) := Value(s);
    var (p', q') := Value(t);
    CrossMultiply(n, d, p, q, n', d', p', q');
    CrossMultiply(n', d', p', q', n, d, p, q);
    LexTotal(Payload(s), Payload(t));
  }

  lemma {:induction false} LexTotal(x: seq<bool>, y: seq<bool>)
    requires |x| == |y|
    ensures x == y <==> !LexBits(x, y) && !LexBits(y, x)
    decreases |x|
  {
    if x != [] {
      LexTotal(x[1..], y[1..]);
      assert x == [x[0]] + x[1..] && y == [y[0]] + y[1..];
    }
  }

  /** The documented domain: everything up to 2^104, every integer and every
      unit fraction encodes. */
  lemma DomainEncodes(n: int, d: int)
    requires d > 0
    requires (d <= Pow(2, 104) && -Pow(2, 104) <= n <= Pow(2, 104))
             || (d == 1 && -Pow(2, 127) <= n < Pow(2, 127))
             || ((n == 1 || n == -1) && d < Pow(2, 127))
    ensures EncodePositive(n, d).Ok?
  {
    if d <= Pow(2, 104) && -Pow(2, 104) <= n <= Pow(2, 104) {
      GuaranteedDomain(n, d);
    } else if d == 1 && -Pow(2, 127) <= n < Pow(2, 127) {
      IntegersFit(n);
    } else {
      UnitFractionsFit(d);
    }
  }

  /** The sign may stand on either part, and common factors may stay: what is
      stored depends on the value alone. */
  lemma EncodeByValue(n: int, d: int, g: int)
    requires I128(n) && I128(-n) && I128(d) && I128(-d) && d > 0
    ensures Encode(n, -d) == Encode(-n, d)
    ensures g > 0 ==> g * d > 0 && EncodePositive(g * n, g * d) == EncodePositive(n, d)
  {
    hide Terms, Payload;
    if g > 0 {
      TermsScale(n, d, g);
      UsedByTerms(n, d);
      UsedByTerms(g * n, g * d);
    }
  }

  lemma UsedByTerms(n: int, d: int)
    requires d > 0
    ensures Canonical(Terms(n, d))
    ensures EncodePositive(n, d) ==
              if Fits(Terms(n, d)) then Ok(Payload(Terms(n, d))) else Err(OutOfDomain)
  {
    TermsCanonical(n, d);
  }
}
