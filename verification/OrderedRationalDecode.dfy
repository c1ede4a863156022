/** Decoding the ordered rational payload, and its round trips with encoding. */
module OrderedRationalDecode {
  import opened Wrappers
  import opened Powers
  import opened Radix
  import opened ContinuedFraction
  import opened BitBudget
  import opened OrderedRational
  import NumericRange

  // ---- reading one term ----

  /** How many leading bits from `pos` are ones once complemented back. */
  function Ones(bits: seq<bool>, pos: nat, invert: bool): nat
    decreases |bits| - pos
  {
    if pos < |bits| && bits[pos] != invert then 1 + Ones(bits, pos + 1, invert) else 0
  }

  function FromBits(m: nat, x: seq<bool>): nat
    decreases |x|
  {
    if x == [] then m else FromBits(2 * m + Digit(x[0]), x[1..])
  }

  datatype Token = Token(m: nat, next: nat) | Truncated

  /** `next_term`: the term and the position after it, unless the code is
      truncated or longer than any 128-bit term. */
  function NextTerm(bits: seq<bool>, pos: nat, invert: bool): Token {
    var k := Ones(bits, pos, invert);
    if k > 127 || pos + 2 * k + 1 > |bits| then Truncated
    else Token(FromBits(1, Flip(bits[pos + k + 1..pos + 2 * k + 1], invert)), pos + 2 * k + 1)
  }

  lemma {:induction false} FromBitsSnoc(m: nat, x: seq<bool>, b: bool)
    ensures FromBits(m, x + [b]) == 2 * FromBits(m, x) + Digit(b)
    decreases |x|
  {
    if x == [] {
      assert [] + [b] == [b];
      assert FromBits(m, [b]) == FromBits(2 * m + Digit(b), []);
    } else {
      FromBitsSnoc(2 * m + Digit(x[0]), x[1..], b);
      assert (x + [b])[1..] == x[1..] + [b];
    }
  }

  lemma {:induction false} FromLow(m: nat, k: nat, c: nat)
    requires m / Pow2(k) == c
    ensures FromBits(c, Low(m, k)) == m
    decreases k
  {
    if k > 0 {
      HalveQuotient(m, k);
      FromLow(m / 2, k - 1, c);
      FromBitsSnoc(c, Low(m / 2, k - 1), m % 2 == 1);
    }
  }

  lemma {:induction false} LowFrom(x: seq<bool>)
    ensures FromBits(1, x) >= 1 && Log2(FromBits(1, x)) == |x| && Low(FromBits(1, x), |x|) == x
    decreases |x|
  {
    if x != [] {
      var y, b := x[..|x| - 1], x[|x| - 1];
      assert x == y + [b];
      LowFrom(y);
      FromBitsSnoc(1, y, b);
    }
  }

  lemma {:induction false} OnesCount(bits: seq<bool>, pos: nat, invert: bool, k: nat)
    requires pos + k < |bits| && bits[pos + k] == invert
    requires forall i :: pos <= i < pos + k ==> bits[i] != invert
    ensures Ones(bits, pos, invert) == k
    decreases k
  {
    if k > 0 {
      OnesCount(bits, pos + 1, invert, k - 1);
    }
  }

  lemma {:induction false} OnesShape(bits: seq<bool>, pos: nat, invert: bool)
    requires pos <= |bits|
    ensures var k := Ones(bits, pos, invert);
            && pos + k <= |bits|
            && (forall i :: pos <= i < pos + k ==> bits[i] != invert)
            && (pos + k < |bits| ==> bits[pos + k] == invert)
    decreases |bits| - pos
  {
    if pos < |bits| && bits[pos] != invert {
      OnesShape(bits, pos + 1, invert);
    }
  }

  /** Reading back a written code. */
  lemma ReadCode(bits: seq<bool>, pos: nat, invert: bool, m: nat)
    requires m >= 1 && Log2(m) <= 127 && pos + CodeLength(m) <= |bits|
    requires bits[pos..pos + CodeLength(m)] == Flip(Code(m), invert)
    ensures NextTerm(bits, pos, invert) == Token(m, pos + CodeLength(m))
  {
    hide Log2, Code, Flip, NextTerm, FromBits, Low;
    var k, c := Log2(m), bits[pos..pos + CodeLength(m)];
    CodeShape(m, invert);
    forall i | pos <= i < pos + k
      ensures bits[i] != invert
    {
      assert bits[i] == c[i - pos];
    }
    assert bits[pos + k] == c[k];
    OnesCount(bits, pos, invert, k);
    ReadLow(bits, pos, invert, m, k);
    NextTermIs(bits, pos, invert, k, m);
  }

  lemma ReadLow(bits: seq<bool>, pos: nat, invert: bool, m: nat, k: nat)
    requires m >= 1 && Log2(m) == k && pos + 2 * k + 1 <= |bits|
    requires bits[pos..pos + 2 * k + 1] == Flip(Code(m), invert)
    ensures FromBits(1, Flip(bits[pos + k + 1..pos + 2 * k + 1], invert)) == m
  {
    CodeShape(m, invert);
    assert bits[pos + k + 1..pos + 2 * k + 1] == bits[pos..pos + 2 * k + 1][k + 1..];
    TopBit(m);
    FromLow(m, k, 1);
  }

  lemma NextTermIs(bits: seq<bool>, pos: nat, invert: bool, k: nat, m: nat)
    requires Ones(bits, pos, invert) == k <= 127 && pos + 2 * k + 1 <= |bits|
    requires FromBits(1, Flip(bits[pos + k + 1..pos + 2 * k + 1], invert)) == m
    ensures NextTerm(bits, pos, invert) == Token(m, pos + 2 * k + 1)
  {
  }

  lemma CodeShape(m: nat, invert: bool)
    requires m >= 1
    ensures var k, c := Log2(m), Flip(Code(m), invert);
            && (forall i :: 0 <= i < k ==> c[i] == !invert)
            && c[k] == invert
            && Flip(c[k + 1..], invert) == Low(m, k)
  {
    hide Log2, Low;
    var k, c := Log2(m), Flip(Code(m), invert);
    var x := Flip(c[k + 1..], invert);
    forall i | 0 <= i < k
      ensures x[i] == Low(m, k)[i]
    {
      assert Code(m)[k + 1 + i] == Low(m, k)[i];
    }
  }

  /** What was read is the code of what it was read as. */
  lemma WriteRead(bits: seq<bool>, pos: nat, invert: bool)
    requires pos <= |bits| && NextTerm(bits, pos, invert).Token?
    ensures var Token(m, next) := NextTerm(bits, pos, invert);
            m >= 1 && pos < next == pos + CodeLength(m) <= |bits| && bits[pos..next] == Flip(Code(m), invert)
  {
    hide Ones, FromBits, Low;
    var k := Ones(bits, pos, invert);
    OnesShape(bits, pos, invert);
    var Token(m, next) := NextTerm(bits, pos, invert);
    var x := Flip(bits[pos + k + 1..next], invert);
    LowFrom(x);
    var c := Flip(Code(m), invert);
    forall i | 0 <= i < |c|
      ensures c[i] == bits[pos + i]
    {
      if i > k {
        assert Code(m)[i] == Low(m, k)[i - k - 1] == x[i - k - 1];
      }
    }
    assert bits[pos..next] == c;
  }

  // ---- the term list of a payload ----

  /** `rest_is`: every remaining bit equals `v`. */
  predicate RestIs(bits: seq<bool>, pos: nat, v: bool) {
    forall i :: pos <= i < |bits| ==> bits[i] == v
  }

  /** The later terms in reading order, and whether the terminator was met. */
  datatype Parsed = Parsed(terms: seq<int>, complete: bool)

  function Parse(bits: seq<bool>, pos: nat, invert: bool): Parsed
    requires pos <= |bits|
    decreases |bits| - pos
  {
    if RestIs(bits, pos, !invert) then Parsed([], true)
    else
      match NextTerm(bits, pos, invert)
      case Truncated => Parsed([], false)
      case Token(m, next) =>
        var p := Parse(bits, next, !invert);
        Parsed([m] + p.terms, p.complete)
  }

  /** Terms are folded as they are read, so an overflow outranks a defect
      further on; a final later term of one is a second spelling. */
  function Verdict(p: Parsed, c: Option<(int, int)>): Result<(int, int)> {
    if c.None? then Err(Overflow)
    else if !p.complete || (p.terms != [] && p.terms[|p.terms| - 1] == 1) then Err(NonCanonical)
    else Ok(c.value)
  }

  function FirstTerm(sign: bool, m: nat): int {
    if sign then m as int - 1 else -(m as int)
  }

  /** `decode_parts`. */
  function Decode(bits: seq<bool>): Result<(int, int)>
    requires |bits| == PAYLOAD
  {
    match NextTerm(bits, 1, !bits[0])
    case Truncated => Err(NonCanonical)
    case Token(m, next) =>
      if m > MAX128 + 1 then Err(Overflow)
      else
        var p := Parse(bits, next, true);
        Verdict(p, Checked(p.terms, FirstTerm(bits[0], m), 1, 1, 0))
  }

  /** A written tail parses back to its terms. */
  lemma {:induction false} ParseWritten(bits: seq<bool>, pos: nat, invert: bool, ts: seq<int>)
    requires pos <= |bits| && AllPositive(ts) && LaterBits(ts) <= |bits| - pos
    requires forall i :: 0 <= i < |ts| ==> ts[i] <= MAX128
    requires bits[pos..] == Rest(ts, invert, |bits| - pos)
    ensures Parse(bits, pos, invert) == Parsed(ts, true)
    decreases |ts|
  {
    if ts == [] {
      forall i | pos <= i < |bits|
        ensures bits[i] == !invert
      {
        assert bits[i] == bits[pos..][i - pos];
      }
    } else {
      WrittenStep(bits, pos, invert, ts);
      var next := pos + CodeLength(ts[0]);
      ParseWritten(bits, next, !invert, ts[1..]);
      ParseCons(bits, pos, invert, ts[0], next, ts[1..]);
      assert ts == [ts[0]] + ts[1..];
    }
  }

  lemma ParseCons(bits: seq<bool>, pos: nat, invert: bool, m: nat, next: nat, more: seq<int>)
    requires pos < next <= |bits| && !RestIs(bits, pos, !invert)
    requires NextTerm(bits, pos, invert) == Token(m, next)
    requires Parse(bits, next, !invert) == Parsed(more, true)
    ensures Parse(bits, pos, invert) == Parsed([m] + more, true)
  {
  }

  /** A written tail is no terminator, reads back its first term, and leaves
      the rest of the tail. */
  lemma WrittenStep(bits: seq<bool>, pos: nat, invert: bool, ts: seq<int>)
    requires pos <= |bits| && ts != [] && AllPositive(ts) && LaterBits(ts) <= |bits| - pos
    requires ts[0] <= MAX128 && bits[pos..] == Rest(ts, invert, |bits| - pos)
    ensures var next := pos + CodeLength(ts[0]);
            && !RestIs(bits, pos, !invert)
            && NextTerm(bits, pos, invert) == Token(ts[0], next)
            && next <= |bits|
            && bits[next..] == Rest(ts[1..], !invert, |bits| - next)
  {
    var m: nat := ts[0];
    var r, k, len := bits[pos..], Log2(m), CodeLength(m);
    CodeShape(m, invert);
    assert r[..len] == Flip(Code(m), invert);
    assert bits[pos + k] == r[k] == r[..len][k];
    assert bits[pos..pos + len] == r[..len];
    TermIsShort(m);
    ReadCode(bits, pos, invert, m);
    assert bits[pos + len..] == r[len..];
  }

  lemma TermIsShort(m: nat)
    requires 1 <= m <= MAX128 + 1
    ensures Log2(m) <= 127
  {
    NumericRange.MaxBelow();
    assert Pow(2, 128) == 2 * Pow(2, 127);
    Log2Below(m, 128);
  }

  /** A complete parse read a well-formed tail. */
  lemma {:induction false} ParseReads(bits: seq<bool>, pos: nat, invert: bool)
    requires pos <= |bits| && Parse(bits, pos, invert).complete
    ensures var ts := Parse(bits, pos, invert).terms;
            && AllPositive(ts) && LaterBits(ts) <= |bits| - pos
            && bits[pos..] == Rest(ts, invert, |bits| - pos)
    decreases |bits| - pos
  {
    if RestIs(bits, pos, !invert) {
      assert bits[pos..] == Repeat(!invert, |bits| - pos);
    } else {
      var Token(m, next) := NextTerm(bits, pos, invert);
      WriteRead(bits, pos, invert);
      ParseReads(bits, next, !invert);
      GlueCode(bits, pos, next, invert, m, Parse(bits, next, !invert).terms);
    }
  }

  lemma GlueCode(bits: seq<bool>, pos: nat, next: nat, invert: bool, m: nat, more: seq<int>)
    requires m >= 1 && pos < next == pos + CodeLength(m) <= |bits| && bits[pos..next] == Flip(Code(m), invert)
    requires AllPositive(more) && LaterBits(more) <= |bits| - next
    requires bits[next..] == Rest(more, !invert, |bits| - next)
    ensures var ts := [m] + more;
            && AllPositive(ts) && LaterBits(ts) <= |bits| - pos
            && bits[pos..] == Rest(ts, invert, |bits| - pos)
  {
    hide Code, Flip, Rest, Log2;
    RestCons(m, more, invert, |bits| - pos);
    assert bits[pos..] == bits[pos..next] + bits[next..];
  }

  lemma RestCons(m: nat, more: seq<int>, invert: bool, room: nat)
    requires m >= 1 && AllPositive(more) && CodeLength(m) + LaterBits(more) <= room
    ensures var ts := [m] + more;
            && AllPositive(ts) && LaterBits(ts) == CodeLength(m) + LaterBits(more)
            && Rest(ts, invert, room) == Flip(Code(m), invert) + Rest(more, !invert, room - CodeLength(m))
  {
    assert ([m] + more)[1..] == more;
  }

  // ---- round trips ----

  lemma {:induction false} TermsBounded(n: int, d: int)
    requires d > 0
    ensures forall i :: 1 <= i < |Terms(n, d)| ==> Terms(n, d)[i] <= d
    decreases d
  {
    var r := n % d;
    if r != 0 {
      TermsBounded(d, r);
      QuotientInRange(d, r);
      var rest := Terms(d, r);
      forall i | 1 <= i < |Terms(n, d)|
        ensures Terms(n, d)[i] <= d
      {
        assert Terms(n, d)[i] == rest[i - 1];
      }
    }
  }

  /** The payload of a fitting expansion parses back to its terms. */
  lemma ParsePayload(ts: seq<int>)
    requires Fits(ts) && I128(ts[0]) && forall i :: 1 <= i < |ts| ==> ts[i] <= MAX128
    ensures var a, bits := ts[0], Payload(ts);
            var m := Magnitude(a);
            && m <= MAX128 + 1 && bits[0] == (a >= 0) && FirstTerm(bits[0], m) == a
            && 1 + CodeLength(m) <= PAYLOAD
            && NextTerm(bits, 1, !bits[0]) == Token(m, 1 + CodeLength(m))
            && Parse(bits, 1 + CodeLength(m), true) == Parsed(ts[1..], true)
  {
    hide Code, Flip, Rest, Log2, LaterBits, NextTerm, Parse;
    var a, bits := ts[0], Payload(ts);
    var m, rest := Magnitude(a), ts[1..];
    var len := CodeLength(m);
    TermIsShort(m);
    SplitPayload([a >= 0], Flip(Code(m), a < 0), Rest(rest, true, PAYLOAD - 1 - len), bits);
    ReadCode(bits, 1, a < 0, m);
    ParseWritten(bits, 1 + len, true, rest);
  }

  lemma SplitPayload(sign: seq<bool>, code: seq<bool>, rest: seq<bool>, bits: seq<bool>)
    requires |sign| == 1 && bits == sign + code + rest
    ensures bits[0] == sign[0] && bits[1..1 + |code|] == code && bits[1 + |code|..] == rest
  {
  }

  /** DECODE AFTER ENCODE: an encoded reduced fraction decodes to itself, except
      for the minimum numerator with remainder one, whose valid bytes are
      rejected as an overflow. */
  lemma DecodeEncode(n: int, d: int)
    requires d > 0 && I128(n) && I128(d) && Coprime(n, d) && EncodePositive(n, d).Ok?
    ensures Decode(EncodePositive(n, d).value) ==
              if n == MIN128 && n % d == 1 then Err(Overflow) else Ok((n, d))
  {
    hide Coprime, Terms, Checked, Payload, NextTerm, Parse, Decode;
    TermsCanonical(n, d);
    var ts := Terms(n, d);
    QuotientInRange(n, d);
    TermsBounded(n, d);
    ParsePayload(ts);
    CanonicalOverflow(n, d);
    FirstStep(ts);
    DecodeIs(Payload(ts), Magnitude(ts[0]), 1 + CodeLength(Magnitude(ts[0])), ts[0], ts[1..]);
  }

  lemma DecodeIs(bits: seq<bool>, m: nat, next: nat, a: int, rest: seq<int>)
    requires |bits| == PAYLOAD && next <= PAYLOAD && m <= MAX128 + 1 && FirstTerm(bits[0], m) == a && Tail(rest)
    requires NextTerm(bits, 1, !bits[0]) == Token(m, next) && Parse(bits, next, true) == Parsed(rest, true)
    ensures var c := Checked(rest, a, 1, 1, 0);
            Decode(bits) == if c.None? then Err(Overflow) else Ok(c.value)
  {
  }

  lemma FirstStep(ts: seq<int>)
    requires ts != [] && I128(ts[0])
    ensures Checked(ts, 1, 0, 0, 1) == Checked(ts[1..], ts[0], 1, 1, 0)
    ensures Fold(ts, 1, 0, 0, 1) == Fold(ts[1..], ts[0], 1, 1, 0)
  {
  }

  /** ENCODE AFTER DECODE: bytes that decode are the one encoding of what they
      decode to, which is in lowest terms. */
  lemma EncodeDecode(bits: seq<bool>)
    requires |bits| == PAYLOAD && Decode(bits).Ok?
    ensures var (p, q) := Decode(bits).value;
            q > 0 && Coprime(p, q) && EncodePositive(p, q) == Ok(bits)
  {
    hide Code, Flip, Rest, Log2, LaterBits, Low, Ones, FromBits, Checked, NextTerm;
    var Token(m, next) := NextTerm(bits, 1, !bits[0]);
    WriteRead(bits, 1, !bits[0]);
    var a, rest := FirstTerm(bits[0], m), Parse(bits, next, true).terms;
    ParseReads(bits, next, true);
    var ts := [a] + rest;
    assert ts[1..] == rest;
    CheckedIsFold(rest, a, 1, 1, 0);
    FirstStep(ts);
    FoldIsValue(ts);
    TermsOfValue(ts);
    PayloadFrom(bits, a, next, rest);
  }

  lemma PayloadFrom(bits: seq<bool>, a: int, next: nat, rest: seq<int>)
    requires |bits| == PAYLOAD && Tail(rest) && next == 1 + CodeLength(Magnitude(a)) <= PAYLOAD
    requires bits[0] == (a >= 0) && bits[1..next] == Flip(Code(Magnitude(a)), a < 0)
    requires LaterBits(rest) <= PAYLOAD - next && bits[next..] == Rest(rest, true, PAYLOAD - next)
    ensures Fits([a] + rest) && bits == Payload([a] + rest)
  {
    hide Code, Flip, Rest, Log2;
    assert ([a] + rest)[1..] == rest;
    assert bits == [bits[0]] + bits[1..next] + bits[next..];
  }

  // ---- the lost family ----

  /** Two factors of 2^127 + 1 have codes that fit beside each other. */
  lemma FactorsFit(c: nat, d: nat)
    requires c >= 2 && d >= 2 && c * d == MAX128 + 2
    ensures Log2(c) + Log2(d) <= 126
  {
    hide Log2;
    var i, j := Log2(c), Log2(d);
    Log2Bounds(c);
    Log2Bounds(d);
    var p, q := Pow(2, i), Pow(2, j);
    PowAdd(2, i, j);
    NumericRange.MaxBelow();
    assert i >= 1 by { AtLeastOne(c); }
    assert j >= 1 by { AtLeastOne(d); }
    assert p >= 2 && q >= 2 by {
      PowTwoLe(1, i);
      PowTwoLe(1, j);
      assert Pow(2, 1) == 2 * Pow(2, 0);
    }
    NotOneMore(c, d, p, q);
    if i + j >= 128 {
      PowTwoLe(128, i + j);
      assert Pow(2, 128) == 2 * Pow(2, 127);
      Multiply(p, c, q, d);
    }
  }

  lemma AtLeastOne(c: nat)
    requires c >= 2
    ensures Log2(c) >= 1
  {
  }

  lemma NotOneMore(c: int, d: int, p: int, q: int)
    requires c >= p >= 2 && d >= q >= 2
    ensures c * d != p * q + 1
  {
    var x, y := c - p, d - q;
    assert c * d == p * q + p * y + x * q + x * y;
    assert y >= 1 ==> p * y >= 2;
    assert x >= 1 ==> x * q >= 2;
    assert x * q >= 0 && p * y >= 0 && x * y >= 0;
  }

  /** The terms of i128::MIN over a factor of 2^127 + 1. */
  lemma FactorTerms(c: int, d: int)
    requires c >= 2 && d >= 2 && c * d == MAX128 + 2
    ensures MIN128 % d == 1 && Terms(MIN128, d) == [-c, d] && Coprime(MIN128, d)
  {
    assert -c * d == -(c * d);
    DivModUnique(MIN128, d, -c, 1);
    DivModUnique(d, 1, d, 0);
    assert Terms(d, 1) == [d];
    CoprimeStep(MIN128, d);
    CoprimeOne(d);
  }

  /** Such a fraction encodes, and its bytes do not decode. */
  lemma FactorIsLost(c: nat, d: nat)
    requires c >= 2 && 2 <= d <= MAX128 && c * d == MAX128 + 2
    ensures Lost(d)
  {
    hide Log2;
    FactorTerms(c, d);
    FactorsFit(c, d);
    TermsPositive(MIN128, d);
    assert Terms(MIN128, d)[1..] == [d];
    assert LaterBits([d]) == CodeLength(d) + LaterBits([]);
    assert UsedBits(MIN128, d) == 1 + CodeLength(c) + CodeLength(d);
    DecodeEncode(MIN128, d);
  }

  /** i128::MIN / d is in lowest terms and encodes, but its bytes do not decode. */
  ghost predicate Lost(d: int)
    requires d > 0
  {
    && Coprime(MIN128, d) && EncodePositive(MIN128, d).Ok?
    && Decode(EncodePositive(MIN128, d).value) == Err(Overflow)
  }

  /** THE LOST FAMILY: the proper factors of 2^127 + 1, all of them. */
  lemma LostExactly(d: int)
    requires 0 < d <= MAX128
    ensures Lost(d) <==> d > 1 && Divides(d, MAX128 + 2)
  {
    hide EncodePositive, Decode, Coprime;
    if Lost(d) {
      DecodeEncode(MIN128, d);
      assert MIN128 % d == 1;
      var a := MIN128 / d;
      assert MIN128 == a * d + 1;
      assert d * -a == -(a * d);
      assert MIN128 % d < d;
      assert Divides(d, MAX128 + 2);
    }
    if d > 1 && Divides(d, MAX128 + 2) {
      var c :| MAX128 + 2 == d * c;
      Cofactor(c, d);
      FactorIsLost(c, d);
    }
  }

  lemma Cofactor(c: int, d: int)
    requires 1 < d <= MAX128 && MAX128 + 2 == d * c
    ensures c >= 2 && c * d == MAX128 + 2
  {
    assert c <= 0 ==> d * c <= 0;
    assert c == 1 ==> d * c == d;
  }

  /** Two of them in person. */
  lemma MinimumThirdIsLost()
    ensures Lost(3) && Lost(56713727820156410577229101238628035243)
  {
    FactorIsLost(56713727820156410577229101238628035243, 3);
    FactorIsLost(3, 56713727820156410577229101238628035243);
  }

  /** Every reciprocal encodes except that of the least i128, which has no
      positive denominator in the type. */
  lemma ReciprocalsEncode(n: int)
    requires I128(n) && n != 0
    ensures Encode(1, n).Ok? <==> n != MIN128
  {
    hide EncodePositive;
    NumericRange.MaxBelow();
    if n > 0 {
      DomainEncodes(1, n);
    } else if n != MIN128 {
      DomainEncodes(-1, -n);
    }
  }
}
