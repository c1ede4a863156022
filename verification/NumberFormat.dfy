/** The decimal formatter of rationals, and what its output reads back as. */
module NumberFormat {
  import opened Powers
  import opened Radix
  import opened ContinuedFraction
  import opened Fractions

  const U128: nat := 0x1_0000_0000_0000_0000_0000_0000_0000_0000

  // ---- long division ----

  function NextDigit(rem: nat, d: nat): nat
    requires d > 0
  {
    rem * 10 / d
  }

  function NextRem(rem: nat, d: nat): (r: nat)
    requires d > 0
    ensures r < d
  {
    rem * 10 % d
  }

  lemma NextLaw(rem: nat, d: nat)
    requires rem < d
    ensures rem * 10 == NextDigit(rem, d) * d + NextRem(rem, d) && NextDigit(rem, d) < 10
  {
    DigitBound(rem, d, NextDigit(rem, d), NextRem(rem, d));
  }

  lemma DigitBound(rem: nat, d: nat, digit: nat, rest: nat)
    requires rem < d && rem * 10 == digit * d + rest
    ensures digit < 10
  {
    assert digit >= 10 ==> digit * d >= 10 * d;
  }

  /** At most `limit` digits of `rem / d`, stopping when nothing remains. */
  function Expand(rem: nat, d: nat, limit: nat): seq<nat>
    requires d > 0
    decreases limit
  {
    if rem == 0 || limit == 0 then [] else [NextDigit(rem, d)] + Expand(NextRem(rem, d), d, limit - 1)
  }

  /** `m` is `v / d` without its fractional part. */
  predicate Truncates(m: int, d: int, v: int) {
    m * d <= v < (m + 1) * d
  }

  /** The digits are the truncation of `rem / d` to as many places. */
  lemma {:induction false} ExpandLaw(rem: nat, d: nat, limit: nat)
    requires rem < d
    ensures var s := Expand(rem, d, limit);
            |s| <= limit && Digits(10, s) && Truncates(Horner(10, s), d, rem * Pow(10, |s|))
    decreases limit
  {
    hide Horner, Pow, NextDigit, NextRem, Truncates;
    var s := Expand(rem, d, limit);
    PowZero();
    if rem == 0 || limit == 0 {
      HornerEmpty();
      TruncatesNothing(rem, d);
    } else {
      var digit, rest := NextDigit(rem, d), NextRem(rem, d);
      NextLaw(rem, d);
      ExpandLaw(rest, d, limit - 1);
      var t := Expand(rest, d, limit - 1);
      assert s == [digit] + t && s[1..] == t;
      HornerFirst(s);
      PowStep(|t|);
      LongDivision(rem, d, digit, rest, Pow(10, |t|), Horner(10, t));
    }
  }

  lemma TruncatesNothing(rem: nat, d: nat)
    requires rem < d
    ensures Truncates(0, d, rem * 1)
  {
  }

  lemma PowZero()
    ensures Pow(10, 0) == 1
  {
  }

  lemma PowStep(k: nat)
    ensures Pow(10, k + 1) == 10 * Pow(10, k) && Pow(10, k) > 0
  {
    PowNonNegative(10, k);
  }

  lemma HornerEmpty()
    ensures Horner(10, []) == 0
  {
  }

  lemma HornerFirst(s: seq<nat>)
    requires s != []
    ensures Horner(10, s) == s[0] * Pow(10, |s| - 1) + Horner(10, s[1..])
  {
  }

  lemma LongDivision(rem: nat, d: nat, digit: nat, rest: nat, p: int, h: int)
    requires rem * 10 == digit * d + rest && Truncates(h, d, rest * p)
    ensures Truncates(digit * p + h, d, rem * (10 * p))
  {
    Shifted(rem, d, digit, rest, p, h);
    assert (h + 1) * d == h * d + d;
    assert (digit * p + h + 1) * d == (digit * p + h) * d + d;
  }

  lemma Shifted(rem: int, d: int, digit: int, rest: int, p: int, h: int)
    requires rem * 10 == digit * d + rest
    ensures rem * (10 * p) - (digit * p + h) * d == rest * p - h * d
  {
    assert rem * (10 * p) == (rem * 10) * p;
    assert (digit * d + rest) * p == digit * d * p + rest * p;
    assert (digit * p + h) * d == digit * p * d + h * d;
    assert digit * d * p == digit * p * d;
  }

  /** The remainder after `k` places. */
  function After(rem: nat, d: nat, k: nat): int
    requires d > 0
  {
    rem * Pow(10, k) % d
  }

  lemma AfterNone(rem: nat, d: nat)
    requires rem < d
    ensures After(rem, d, 0) == rem
  {
    PowZero();
    assert rem * 1 == rem;
    DivModUnique(rem, d, 0, rem);
  }

  lemma AfterNext(rem: nat, d: nat, k: nat)
    requires rem < d
    ensures After(rem, d, k + 1) == After(NextRem(rem, d), d, k)
  {
    hide Pow, NextDigit, NextRem;
    NextLaw(rem, d);
    PowStep(k);
    SameRemainder(rem, d, NextDigit(rem, d), NextRem(rem, d), Pow(10, k));
  }

  /** The division of `rem` by `d` has come out even after `k` places. */
  predicate EvenAfter(rem: nat, d: nat, k: nat)
    requires d > 0
  {
    After(rem, d, k) == 0
  }

  lemma SameRemainder(rem: nat, d: nat, digit: nat, rest: nat, p: int)
    requires d > 0 && rem * 10 == digit * d + rest
    ensures rem * (10 * p) % d == rest * p % d
  {
    var q, r := rest * p / d, rest * p % d;
    assert rest * p == q * d + r;
    Shifted(rem, d, digit, rest, p, 0);
    assert (digit * p + q) * d == (digit * p + 0) * d + q * d;
    DivModUnique(rem * (10 * p), d, digit * p + q, r);
  }

  /** The digits end at the limit or where the division comes out even, and not
      before. */
  lemma {:induction false} ExpandEnds(rem: nat, d: nat, limit: nat)
    requires rem < d
    ensures var s := Expand(rem, d, limit);
            && (|s| < limit ==> EvenAfter(rem, d, |s|))
            && forall i :: 0 <= i < |s| ==> !EvenAfter(rem, d, i)
    decreases limit
  {
    hide NextDigit, NextRem, After;
    AfterNone(rem, d);
    if rem != 0 && limit != 0 {
      var rest := NextRem(rem, d);
      ExpandEnds(rest, d, limit - 1);
      var s, t := Expand(rem, d, limit), Expand(rest, d, limit - 1);
      assert |s| == |t| + 1;
      AfterNext(rem, d, |t|);
      forall i | 0 <= i < |s|
        ensures !EvenAfter(rem, d, i)
      {
        if i > 0 {
          AfterNext(rem, d, i - 1);
          assert !EvenAfter(rest, d, i - 1);
        }
      }
    }
  }

  // ---- the limit ----

  /** How often `p` divides `d`. */
  function Times(d: nat, p: nat): nat
    requires d > 0 && p > 1
  {
    if d % p != 0 then 0 else Smaller(d, p); 1 + Times(d / p, p)
  }

  /** What is left of `d` then. */
  function Without(d: nat, p: nat): (r: nat)
    requires d > 0 && p > 1
    ensures r > 0 && r % p != 0
  {
    if d % p != 0 then d else Smaller(d, p); Without(d / p, p)
  }

  lemma Smaller(d: nat, p: nat)
    requires p > 1 && d > 0 && d % p == 0
    ensures 0 < d / p < d
  {
    var q := d / p;
    assert d == p * q;
    Shrinks(d, p, q);
    MoreThan(p, q);
  }

  lemma MoreThan(p: int, q: int)
    requires p > 1 && q > 0
    ensures p * q > q
  {
  }

  lemma {:induction false} TimesWithout(d: nat, p: nat)
    requires d > 0 && p > 1
    ensures d == Pow(p, Times(d, p)) * Without(d, p)
    decreases d
  {
    if d % p == 0 {
      Smaller(d, p);
      var q := d / p;
      TimesWithout(q, p);
      Regrouped(d, p, q, Pow(p, Times(q, p)), Without(q, p));
    }
  }

  lemma Regrouped(d: int, p: int, q: int, x: int, r: int)
    requires d == p * q && q == x * r
    ensures d == p * x * r
  {
  }

  /** The two stripping loops. */
  method Strip(d: nat, p: nat) returns (count: nat, rest: nat)
    requires d > 0 && p > 1
    ensures count == Times(d, p) && rest == Without(d, p)
  {
    count, rest := 0, d;
    while rest % p == 0
      invariant rest > 0 && count + Times(rest, p) == Times(d, p) && Without(rest, p) == Without(d, p)
      decreases rest
    {
      Smaller(rest, p);
      count, rest := count + 1, rest / p;
    }
  }

  /** The part of a denominator prime to ten; the decimal terminates when it is one. */
  function Rest(d: nat): nat
    requires d > 0
  {
    Without(Without(d, 2), 5)
  }

  function Twos(d: nat): nat
    requires d > 0
  {
    Times(d, 2)
  }

  function Fives(d: nat): nat
    requires d > 0
  {
    Times(Without(d, 2), 5)
  }

  lemma RestLaw(d: nat)
    requires d > 0
    ensures d == Pow(2, Twos(d)) * Pow(5, Fives(d)) * Rest(d)
    ensures Rest(d) > 0 && Rest(d) % 2 != 0 && Rest(d) % 5 != 0
  {
    var odd := Without(d, 2);
    TimesWithout(d, 2);
    TimesWithout(odd, 5);
    Assemble(d, Pow(2, Twos(d)), odd, Pow(5, Fives(d)), Rest(d));
  }

  lemma Assemble(d: nat, x: int, odd: nat, y: int, rest: nat)
    requires d == x * odd && odd % 2 != 0 && odd == y * rest
    ensures d == x * y * rest && rest % 2 != 0
  {
    assert x * (y * rest) == x * y * rest;
    if rest % 2 == 0 {
      assert y * (2 * (rest / 2)) == 2 * (y * (rest / 2));
      DivModUnique(odd, 2, y * (rest / 2), 0);
    }
  }

  function Limit(d: nat, precision: nat): nat
    requires d > 0
  {
    if Rest(d) == 1 then Max(Twos(d), Fives(d)) + precision else precision
  }

  // ---- strings ----

  function DigitChar(n: nat): char {
    if n < 10 then '0' + n as char else '?'
  }

  function CharDigit(c: char): nat {
    if '0' <= c <= '9' then (c - '0') as nat else 0
  }

  /** `to_string` of an unsigned integer. */
  function Decimal(n: nat): string {
    if n < 10 then [DigitChar(n)] else Decimal(n / 10) + [DigitChar(n % 10)]
  }

  function Chars(s: seq<nat>): (r: string)
    ensures |r| == |s| && forall i :: 0 <= i < |s| ==> r[i] == DigitChar(s[i])
  {
    seq(|s|, i requires 0 <= i < |s| => DigitChar(s[i]))
  }

  function Values(s: string): (r: seq<nat>)
    ensures |r| == |s| && forall i :: 0 <= i < |s| ==> r[i] == CharDigit(s[i])
  {
    seq(|s|, i requires 0 <= i < |s| => CharDigit(s[i]))
  }

  predicate AllDigits(s: string) {
    forall i :: 0 <= i < |s| ==> '0' <= s[i] <= '9'
  }

  lemma {:induction false} DecimalReads(n: nat)
    ensures AllDigits(Decimal(n)) && Horner(10, Values(Decimal(n))) == n
  {
    if n < 10 {
      assert Values([DigitChar(n)]) == [n];
      HornerSnoc(10, [], n);
      assert [] + [n] == [n];
    } else {
      DecimalReads(n / 10);
      var s := Decimal(n / 10);
      assert Values(s + [DigitChar(n % 10)]) == Values(s) + [n % 10];
      HornerSnoc(10, Values(s), n % 10);
    }
  }

  /** A numeral: digits, without a leading zero unless it is the only one. */
  predicate Numeral(s: string) {
    s != "" && AllDigits(s) && (|s| > 1 ==> s[0] != '0')
  }

  lemma {:induction false} DecimalIsNumeral(n: nat)
    ensures Numeral(Decimal(n)) && (Decimal(n)[0] == '0' <==> n == 0)
  {
    if n >= 10 {
      DecimalIsNumeral(n / 10);
    }
  }

  lemma ValuesSnoc(s: string, c: char)
    ensures Values(s + [c]) == Values(s) + [CharDigit(c)]
  {
  }

  lemma {:induction false} NumeralPositive(s: string)
    requires Numeral(s)
    ensures Horner(10, Values(s)) >= 0
    ensures s[0] != '0' ==> Horner(10, Values(s)) > 0
    decreases |s|
  {
    var head, c := s[..|s| - 1], s[|s| - 1];
    assert s == head + [c];
    ValuesSnoc(head, c);
    HornerSnoc(10, Values(head), CharDigit(c));
    if head == "" {
      assert Values(head) == [];
    } else {
      NumeralPositive(head);
    }
  }

  /** THE NUMERAL of n: there is no other way to write it. */
  lemma {:induction false} DecimalUnique(s: string, n: nat)
    requires Numeral(s) && Horner(10, Values(s)) == n
    ensures s == Decimal(n)
    decreases |s|
  {
    var head, c := s[..|s| - 1], s[|s| - 1];
    assert s == head + [c];
    ValuesSnoc(head, c);
    HornerSnoc(10, Values(head), CharDigit(c));
    assert DigitChar(CharDigit(c)) == c;
    if head == "" {
      assert Values(head) == [];
    } else {
      NumeralPositive(head);
      var q := Horner(10, Values(head));
      DivModUnique(n, 10, q, CharDigit(c));
      DecimalUnique(head, q);
    }
  }

  lemma CharsRead(s: seq<nat>)
    requires Digits(10, s)
    ensures AllDigits(Chars(s)) && Values(Chars(s)) == s
  {
  }

  // ---- the formatter ----

  /** Digits after the point. */
  function Fraction(rem: nat, d: nat, limit: nat): string
    requires d > 0
  {
    if rem == 0 then "" else "." + Chars(Expand(rem, d, limit))
  }

  function Sign(x: R256): string {
    if (x.num < 0) != (x.den < 0) then "-" else ""
  }

  // ---- the width of the running remainder ----

  /** Some remainder that the loop multiplies by ten leaves 128 bits. */
  predicate Overflows(rem: nat, d: nat, limit: nat)
    requires d > 0
    decreases limit
  {
    rem != 0 && limit != 0 && (10 * rem >= U128 || Overflows(NextRem(rem, d), d, limit - 1))
  }

  /** Said of the fraction itself: at some printed place. */
  lemma {:induction false} OverflowsAt(rem: nat, d: nat, limit: nat)
    requires rem < d
    ensures Overflows(rem, d, limit) <==>
              exists i :: 0 <= i < |Expand(rem, d, limit)| && 10 * After(rem, d, i) >= U128
    decreases limit
  {
    hide NextRem, NextDigit, After;
    if rem != 0 && limit != 0 {
      var rest := NextRem(rem, d);
      OverflowsAt(rest, d, limit - 1);
      var s, t := Expand(rem, d, limit), Expand(rest, d, limit - 1);
      assert |s| == |t| + 1;
      AfterNone(rem, d);
      forall i | 0 <= i < |t|
        ensures After(rem, d, i + 1) == After(rest, d, i)
      {
        AfterNext(rem, d, i);
      }
      if exists i :: 0 <= i < |s| && 10 * After(rem, d, i) >= U128 {
        var i :| 0 <= i < |s| && 10 * After(rem, d, i) >= U128;
        if i > 0 {
          assert After(rem, d, i) == After(rest, d, i - 1);
        }
      }
      if exists i :: 0 <= i < |t| && 10 * After(rest, d, i) >= U128 {
        var i :| 0 <= i < |t| && 10 * After(rest, d, i) >= U128;
        assert After(rem, d, i + 1) == After(rest, d, i);
      }
    }
  }

  /** A denominator with 10(d - 1) inside 128 bits never overflows. */
  lemma {:induction false} SmallNeverOverflows(rem: nat, d: nat, limit: nat)
    requires rem < d && 10 * (d - 1) < U128
    ensures !Overflows(rem, d, limit)
    decreases limit
  {
    if rem != 0 && limit != 0 {
      SmallNeverOverflows(NextRem(rem, d), d, limit - 1);
    }
  }

  /** A larger one may or may not, whatever the precision: 1 / i128::MAX does not
      in three places, its complement to one does in the first. */
  lemma LargeDenominators()
    ensures !Overflows(1, MAX128, 3)
    ensures Overflows(MAX128 - 1, MAX128, 1)
  {
    assert NextRem(1, MAX128) == 10 && NextRem(10, MAX128) == 100;
    assert !Overflows(NextRem(100, MAX128), MAX128, 0);
    assert !Overflows(100, MAX128, 1);
    assert !Overflows(10, MAX128, 2);
  }

  /** The division loop, up to the first product that does not fit. */
  method WriteDigits(rem0: nat, d: nat, limit: nat, prefix: string) returns (ok: bool, out: string)
    requires rem0 < d
    ensures ok <==> !Overflows(rem0, d, limit)
    ensures ok ==> out == prefix + Chars(Expand(rem0, d, limit))
  {
    hide NextDigit, NextRem;
    out := prefix;
    var rem: nat, digits: nat := rem0, 0;
    ghost var done: seq<nat> := [];
    assert done + Expand(rem, d, limit) == Expand(rem0, d, limit);
    while rem != 0 && digits < limit
      invariant rem < d && digits <= limit
      invariant Overflows(rem0, d, limit) <==> Overflows(rem, d, limit - digits)
      invariant done + Expand(rem, d, limit - digits) == Expand(rem0, d, limit)
      invariant out == prefix + Chars(done)
      decreases limit - digits
    {
      ghost var before := Expand(rem, d, limit - digits);
      if 10 * rem >= U128 {
        return false, out;
      }
      var digit;
      digit, rem := DivideStep(rem, d);
      out := out + [DigitChar(digit)];
      digits := digits + 1;
      assert before == [digit] + Expand(rem, d, limit - digits);
      assert Chars(done + [digit]) == Chars(done) + [DigitChar(digit)];
      assert done + before == (done + [digit]) + Expand(rem, d, limit - digits);
      done := done + [digit];
    }
    assert done + [] == done;
    ok := true;
  }

  method DivideStep(rem0: nat, d: nat) returns (digit: nat, rem: nat)
    requires rem0 < d && 10 * rem0 < U128
    ensures digit == NextDigit(rem0, d) && rem == NextRem(rem0, d)
  {
    rem := rem0 * 10;
    digit := rem / d;
    rem := rem % d;
  }

  /** The part of `n / d` before the point. */
  function Whole(n: nat, d: nat): nat
    requires d > 0
  {
    n / d
  }

  /** `n / d` in digits, without a sign. */
  function Body(n: nat, d: nat, precision: nat): string
    requires d > 0
  {
    Decimal(n / d) + Fraction(n % d, d, Limit(d, precision))
  }

  /** What is printed. */
  function Formatted(x: R256, precision: nat): string {
    if x.den == 0 then "null"
    else if x.num == 0 then "0"
    else Sign(x) + Body(Abs(x.num), Abs(x.den), precision)
  }

  /** The product by ten leaves 128 bits somewhere on the way. */
  predicate FormatOverflows(x: R256, precision: nat) {
    x.den != 0 && x.num != 0 &&
    var n, d := Abs(x.num), Abs(x.den);
    Overflows(n % d, d, Limit(d, precision))
  }

  datatype Printed = Printed(out: string) | Overflow

  /** `format_r256`, appending to `out0`. */
  method FormatR256(x: R256, precision: nat, out0: string) returns (r: Printed)
    requires MIN128 < x.num <= MAX128 && MIN128 < x.den <= MAX128
    ensures r == if FormatOverflows(x, precision) then Overflow else Printed(out0 + Formatted(x, precision))
  {
    hide Body, Overflows, Limit;
    var out := out0;
    if x.den == 0 {
      return Printed(out + "null");
    }
    if x.num == 0 {
      return Printed(out + "0");
    }
    if (x.num < 0) != (x.den < 0) {
      out := out + "-";
    }
    assert out == out0 + Sign(x);
    var ok;
    ok, out := FormatBody(Abs(x.num), Abs(x.den), precision, out);
    r := if ok then Printed(out) else Overflow;
  }

  method FormatBody(n: nat, d: nat, precision: nat, out0: string) returns (ok: bool, out: string)
    requires d > 0
    ensures ok <==> !Overflows(n % d, d, Limit(d, precision))
    ensures ok ==> out == out0 + Body(n, d, precision)
  {
    hide Decimal, Expand, Times, Without, Chars;
    var whole, rem := n / d, n % d;
    out := out0 + Decimal(whole);
    if rem == 0 {
      assert out == out0 + (Decimal(whole) + "");
      return true, out;
    }
    out := out + ".";
    var pow2, odd := Strip(d, 2);
    var pow5, rest := Strip(odd, 5);
    var terminates := rest == 1;
    var limit := if terminates then (if pow2 < pow5 then pow5 else pow2) + precision else precision;
    assert limit == Limit(d, precision);
    ok, out := WriteDigits(rem, d, limit, out);
    assert ok ==> out == out0 + (Decimal(whole) + ("." + Chars(Expand(rem, d, limit))));
  }

  // ---- reading back ----

  /** `mantissa / 10^places`, signed. */
  datatype Number = Number(negative: bool, mantissa: int, places: nat) | NotANumber

  /** The position of the first point, or the end. */
  function Point(s: string): (p: nat)
    ensures p <= |s|
  {
    if s == "" || s[0] == '.' then 0 else 1 + Point(s[1..])
  }

  function ReadUnsigned(s: string, negative: bool): Number {
    var p := Point(s);
    var whole, fraction := s[..p], if p < |s| then s[p + 1..] else "";
    if whole == "" || !AllDigits(whole) || !AllDigits(fraction) then NotANumber
    else Number(negative, Horner(10, Values(whole + fraction)), |fraction|)
  }

  function Read(s: string): Number {
    if s != "" && s[0] == '-' then ReadUnsigned(s[1..], true) else ReadUnsigned(s, false)
  }

  lemma {:induction false} PointAfter(whole: string, fraction: string)
    requires AllDigits(whole) && (fraction == "" || fraction[0] == '.')
    ensures Point(whole + fraction) == |whole|
    decreases |whole|
  {
    if whole == "" {
      assert whole + fraction == fraction;
    } else {
      PointAfter(whole[1..], fraction);
      assert (whole + fraction)[1..] == whole[1..] + fraction;
    }
  }

  lemma {:induction false} DecimalNotEmpty(n: nat)
    ensures Decimal(n) != ""
  {
  }

  lemma ReadParts(whole: nat, digits: seq<nat>, point: bool, negative: bool)
    requires Digits(10, digits) && (digits != [] ==> point)
    ensures ReadUnsigned(Decimal(whole) + (if point then "." + Chars(digits) else ""), negative)
         == Number(negative, whole * Pow(10, |digits|) + Horner(10, digits), |digits|)
  {
    hide Horner, Pow, Decimal, Values, Chars, Point;
    var w, c := Decimal(whole), Chars(digits);
    DecimalReads(whole);
    DecimalNotEmpty(whole);
    CharsRead(digits);
    ReadSplit(w, c, point, negative);
    ValuesConcat(w, c);
    HornerSplit(10, Values(w), digits);
  }

  lemma ValuesConcat(w: string, c: string)
    ensures Values(w + c) == Values(w) + Values(c)
  {
  }

  lemma ReadSplit(w: string, c: string, point: bool, negative: bool)
    requires AllDigits(w) && w != "" && AllDigits(c) && (c != "" ==> point)
    ensures ReadUnsigned(w + (if point then "." + c else ""), negative)
         == Number(negative, Horner(10, Values(w + c)), |c|)
  {
    hide Horner, Values, Point;
    var f := if point then "." + c else "";
    PointAfter(w, f);
    var s := w + f;
    assert s[..|w|] == w;
    if point {
      assert s[|w| + 1..] == c;
    } else {
      assert c == "";
    }
  }

  lemma ReadSigned(w: string, f: string, negative: bool)
    requires AllDigits(w) && w != ""
    ensures Read((if negative then "-" else "") + w + f) == ReadUnsigned(w + f, negative)
  {
    var s := (if negative then "-" else "") + w + f;
    if negative {
      assert s[0] == '-' && s[1..] == w + f;
    } else {
      assert s[0] == w[0] && s == w + f;
    }
  }

  /** The digits and the number that are printed. */
  function Shown(n: nat, d: nat, precision: nat): seq<nat>
    requires d > 0
  {
    Expand(n % d, d, Limit(d, precision))
  }

  function ShownMantissa(n: nat, d: nat, precision: nat): int
    requires d > 0
  {
    n / d * Pow(10, |Shown(n, d, precision)|) + Horner(10, Shown(n, d, precision))
  }

  lemma FormattedReads(x: R256, precision: nat)
    requires x.den > 0 && x.num != 0
    ensures var n := Abs(x.num);
            Read(Formatted(x, precision))
            == Number(x.num < 0, ShownMantissa(n, x.den, precision), |Shown(n, x.den, precision)|)
  {
    hide Horner, Pow, Limit, Read, ReadUnsigned, Expand, Decimal;
    var n, d := Abs(x.num), x.den;
    var limit := Limit(d, precision);
    ExpandLaw(n % d, d, limit);
    ExpandNone(n % d, d, limit);
    DecimalReads(n / d);
    DecimalNotEmpty(n / d);
    var w, f := Decimal(n / d), Fraction(n % d, d, limit);
    ReadSigned(w, f, x.num < 0);
    assert Formatted(x, precision) == (if x.num < 0 then "-" else "") + w + f;
    ReadParts(n / d, Shown(n, d, precision), n % d != 0, x.num < 0);
  }

  lemma ExpandNone(rem: nat, d: nat, limit: nat)
    requires d > 0
    ensures rem == 0 ==> Expand(rem, d, limit) == []
  {
  }

  // ---- the theorem ----

  /** The terminating denominators are those whose rest is one. */
  lemma Terminating(d: nat, a: nat, b: nat)
    requires d > 0 && TwoFive(d, a, b)
    ensures Rest(d) == 1 && Max(a, b) == Max(Twos(d), Fives(d))
  {
    hide Pow, Divides, Coprime, Rest, Twos, Fives, Max, TwoFive;
    RestLaw(d);
    EnoughTens(d, a, b, Max(a, b));
    RestDivides(d);
    DividesThrough(Rest(d), d, Pow(10, Max(a, b)));
    CoprimeToTen(Rest(d));
    if Rest(d) > 1 {
      NoTenClears(Rest(d), Max(a, b));
    }
    SameMax(d, a, b, Twos(d), Fives(d));
  }

  lemma RestDivides(d: nat)
    requires d > 0
    ensures Divides(Rest(d), d)
    ensures Rest(d) == 1 ==> TwoFive(d, Twos(d), Fives(d))
  {
    hide Pow, Rest, Twos, Fives;
    RestLaw(d);
    var x := Pow(2, Twos(d)) * Pow(5, Fives(d));
    assert x * Rest(d) == Rest(d) * x;
  }

  lemma SameMax(d: nat, a: nat, b: nat, e: nat, f: nat)
    requires d > 0 && TwoFive(d, a, b)
    ensures TwoFive(d, e, f) ==> Max(a, b) == Max(e, f)
  {
    hide Pow, Divides, Coprime, Max, TwoFive;
    CoprimeOne(d);
    if TwoFive(d, e, f) {
      ClearedBy(1, d, a, b, Max(a, b));
      ClearedBy(1, d, a, b, Max(e, f));
      ClearedBy(1, d, e, f, Max(a, b));
      ClearedBy(1, d, e, f, Max(e, f));
    }
  }

  /** A reduced fraction's division comes out even at the powers of ten from
      max(a, b) on, or never. */
  lemma EvenAt(rem: nat, d: nat, k: nat)
    requires d > 0 && Coprime(rem, d)
    ensures EvenAfter(rem, d, k) <==> Rest(d) == 1 && Max(Twos(d), Fives(d)) <= k
  {
    hide Pow, Divides, Coprime, Rest, Twos, Fives, Max, TwoFive;
    RestLaw(d);
    RestDivides(d);
    DividesModulo(d, rem * Pow(10, k));
    if Rest(d) == 1 {
      ClearedBy(rem, d, Twos(d), Fives(d), k);
    } else {
      NeverCleared(rem, d, Rest(d), k);
    }
  }

  /** How many digits the loop prints. */
  lemma PlacesPrinted(rem: nat, d: nat, precision: nat)
    requires rem < d && Coprime(rem, d)
    ensures |Expand(rem, d, Limit(d, precision))| == if Rest(d) == 1 then Max(Twos(d), Fives(d)) else precision
  {
    hide Coprime, Rest, Twos, Fives, Expand, Horner, EvenAfter, Truncates, Max;
    var limit := Limit(d, precision);
    var s := Expand(rem, d, limit);
    ExpandLaw(rem, d, limit);
    ExpandEnds(rem, d, limit);
    EvenAt(rem, d, |s|);
    EvenAt(rem, d, Max(Twos(d), Fives(d)));
  }

  lemma CoprimeRemainder(n: nat, d: nat)
    requires d > 0 && Coprime(n, d)
    ensures Coprime(n % d, d)
  {
    CoprimeStep(n, d);
  }

  /** An even division has nothing to truncate. */
  lemma TruncatesEven(m: int, d: int, v: int)
    requires d > 0 && Truncates(m, d, v)
    ensures v % d == 0 <==> v == m * d
  {
    assert (m + 1) * d == m * d + d;
    DivModUnique(v, d, m, v - m * d);
  }

  lemma WholePart(n: nat, d: nat, p: int, h: int)
    requires d > 0
    ensures n * p - (n / d * p + h) * d == n % d * p - h * d
    ensures (n / d * p + h + 1) * d == (n / d * p + h) * d + d && (h + 1) * d == h * d + d
  {
    var q, r := n / d, n % d;
    WholeParts(n, d, q, r, p, h);
  }

  lemma WholeParts(n: int, d: int, q: int, r: int, p: int, h: int)
    requires n == q * d + r
    ensures n * p - (q * p + h) * d == r * p - h * d
    ensures (q * p + h + 1) * d == (q * p + h) * d + d && (h + 1) * d == h * d + d
  {
    assert n * p == q * d * p + r * p;
    assert (q * p + h) * d == q * p * d + h * d;
    assert q * d * p == q * p * d;
  }

  /** The shown number of a reduced `n / d`, exact or truncated. */
  lemma ShownLaw(n: nat, d: nat, precision: nat)
    requires d > 0 && Coprime(n, d)
    ensures var k, m := |Shown(n, d, precision)|, ShownMantissa(n, d, precision);
            && Truncates(m, d, n * Pow(10, k))
            && k == (if Rest(d) == 1 then Max(Twos(d), Fives(d)) else precision)
            && (m * d == n * Pow(10, k) <==> Rest(d) == 1)
  {
    hide Pow, Horner, Expand, Limit, Coprime, Rest, Twos, Fives, Max;
    var s := Shown(n, d, precision);
    var rem, p, h := n % d, Pow(10, |s|), Horner(10, s);
    CoprimeRemainder(n, d);
    ExpandLaw(rem, d, Limit(d, precision));
    PlacesPrinted(rem, d, precision);
    EvenAt(rem, d, |s|);
    TruncatesEven(h, d, rem * p);
    WholePart(n, d, p, h);
  }

  /** THE PRINTED NUMBER of a reduced fraction. It carries the sign and is the
      truncation to its places, so off by less than one unit in the last place.
      Over 2^a 5^b it has exactly max(a, b) places and is exact; over any other
      denominator it has exactly `precision` places and is not. */
  lemma FormatLaw(x: R256, precision: nat)
    requires x.den > 0 && Coprime(x.num, x.den)
    ensures var r := Read(Formatted(x, precision));
            && r.Number?
            && (r.negative <==> x.num < 0)
            && Truncates(r.mantissa, x.den, Abs(x.num) * Pow(10, r.places))
            && (forall a, b :: TwoFive(x.den, a, b) ==>
                  r.places == Max(a, b) && r.mantissa * x.den == Abs(x.num) * Pow(10, r.places))
            && ((forall a, b :: !TwoFive(x.den, a, b)) ==>
                  r.places == precision && r.mantissa * x.den != Abs(x.num) * Pow(10, r.places))
  {
    hide Pow, Coprime, Max, TwoFive, Read, Formatted, Rest, Twos, Fives, Shown, ShownMantissa, Truncates;
    var n, d := Abs(x.num), x.den;
    RestDivides(d);
    forall a, b | TwoFive(d, a, b)
      ensures Rest(d) == 1 && Max(a, b) == Max(Twos(d), Fives(d))
    {
      Terminating(d, a, b);
    }
    CoprimeAbs(x.num, d);
    ShownLaw(n, d, precision);
    if x.num == 0 {
      ZeroReads(d, precision);
    } else {
      FormattedReads(x, precision);
    }
  }

  lemma CoprimeAbs(n: int, d: int)
    requires Coprime(n, d)
    ensures Coprime(Abs(n), d)
  {
    hide Divides;
    forall g | g > 1
      ensures !(Divides(g, Abs(n)) && Divides(g, d))
    {
      DividesNegated(g, n);
      DividesNegated(g, -n);
    }
  }

  /** Zero prints as a bare digit, which is what the division would show. */
  lemma ZeroReads(d: nat, precision: nat)
    requires d > 0
    ensures Read(Formatted(R256(0, d), precision)) == Number(false, 0, 0)
    ensures |Shown(0, d, precision)| == 0 && ShownMantissa(0, d, precision) == 0
  {
    ReadParts(0, [], false, false);
    assert Decimal(0) == "0" && Decimal(0) + "" == "0";
    assert Horner(10, []) == 0;
    assert Shown(0, d, precision) == [];
  }

  // ---- the text itself ----

  /** `s` is sign, numeral, and, if `places` digits follow, a point and those. */
  ghost predicate Written(s: string, negative: bool, whole: nat, digits: seq<nat>, point: bool) {
    exists w :: Numeral(w) && Horner(10, Values(w)) == whole
                && s == (if negative then "-" else "") + w + (if point then "." + Chars(digits) else "")
  }

  /** The parts of the text of `x`. */
  ghost predicate WrittenOut(x: R256, precision: nat)
    requires x.den > 0
  {
    var n, d := Abs(x.num), x.den;
    Written(Formatted(x, precision), x.num < 0, Whole(n, d), Shown(n, d, precision), d != 1)
  }

  /** THE TEXT of a reduced fraction: the sign of the numerator, the numeral of the
      whole part, and, unless the denominator is one, a point and the digits. */
  lemma FormatText(x: R256, precision: nat)
    requires x.den > 0 && Coprime(x.num, x.den)
    ensures WrittenOut(x, precision)
  {
    hide Coprime, Whole, Shown, Body, Decimal, Horner, Chars, Numeral;
    var n, d := Abs(x.num), x.den;
    CoprimeAbs(x.num, d);
    var w := Decimal(Whole(n, d));
    DecimalReads(Whole(n, d));
    DecimalIsNumeral(Whole(n, d));
    BodyText(n, d, precision);
    if x.num == 0 {
      ZeroText(d, precision);
    }
  }

  lemma BodyText(n: nat, d: nat, precision: nat)
    requires d > 0 && Coprime(n, d)
    ensures Body(n, d, precision)
         == Decimal(Whole(n, d)) + if d != 1 then "." + Chars(Shown(n, d, precision)) else ""
  {
    hide Coprime, Expand, Limit, Decimal, Chars;
    WholeOnlyAtOne(n, d);
  }

  lemma ZeroText(d: nat, precision: nat)
    requires d > 0 && Coprime(0, d)
    ensures d == 1 && Decimal(Whole(0, d)) == "0"
  {
    WholeOnlyAtOne(0, d);
    DivModUnique(0, d, 0, 0);
  }

  lemma WholeOnlyAtOne(n: nat, d: nat)
    requires d > 0 && Coprime(n, d)
    ensures n % d == 0 <==> d == 1
    ensures d == 1 ==> n / d == n
  {
    CoprimeStep(n, d);
    if n % d == 0 {
      CoprimeToZero(d);
    }
  }

  /** Two texts of the same parts are the same text. */
  lemma WrittenOnce(s: string, t: string, negative: bool, whole: nat, digits: seq<nat>, point: bool)
    requires Written(s, negative, whole, digits, point) && Written(t, negative, whole, digits, point)
    ensures s == t
  {
    hide Horner;
    var v :| Numeral(v) && Horner(10, Values(v)) == whole
             && s == (if negative then "-" else "") + v + (if point then "." + Chars(digits) else "");
    var w :| Numeral(w) && Horner(10, Values(w)) == whole
             && t == (if negative then "-" else "") + w + (if point then "." + Chars(digits) else "");
    DecimalUnique(v, whole);
    DecimalUnique(w, whole);
  }
}
