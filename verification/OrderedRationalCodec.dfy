/** The bit writer, the bit reader and the two conversion loops of the ordered
rational over its 32 bytes, proved against the payload functions. */
module OrderedRationalCodec {
  import opened Wrappers
  import opened Radix
  import opened Bytes
  import opened ContinuedFraction
  import opened BitBudget
  import opened OrderedRational
  import opened OrderedRationalDecode

  class BitWriter {
    const buf: array<bv8>
    var pos: nat

    ghost predicate Valid()
      reads this, buf
    {
      buf.Length == 32 && pos <= PAYLOAD && forall i :: pos <= i < PAYLOAD ==> !Unpack(buf[..])[i]
    }

    ghost function Written(): seq<bool>
      requires Valid()
      reads this, buf
    {
      Unpack(buf[..])[..pos]
    }

    constructor ()
      ensures Valid() && fresh(buf) && Written() == []
    {
      buf := new bv8[32](i => 0);
      pos := 0;
      new;
      ZeroBits(buf[..]);
    }

    method Push(bit: bool) returns (ok: bool)
      requires Valid()
      modifies this, buf
      ensures Valid()
      ensures ok == (old(pos) < PAYLOAD)
      ensures Written() == old(Written()) + if ok then [bit] else []
    {
      hide Unpack, Mask;
      if pos >= PAYLOAD {
        return false;
      }
      ghost var raw := buf[..];
      if bit {
        buf[pos / 8] := buf[pos / 8] | Mask(pos % 8);
        assert buf[..] == raw[pos / 8 := raw[pos / 8] | Mask(pos % 8)];
        SetBitIn(raw, pos);
        Appended(Unpack(raw), Unpack(buf[..]), pos, true);
      } else {
        Appended(Unpack(raw), Unpack(raw), pos, false);
      }
      pos := pos + 1;
      ok := true;
    }

    method PushRun(bit: bool, n: nat) returns (ok: bool)
      requires Valid()
      modifies this, buf
      ensures Valid()
      ensures ok == (old(pos) + n <= PAYLOAD)
      ensures ok ==> Written() == old(Written()) + Repeat(bit, n)
    {
      var i := 0;
      while i < n
        invariant 0 <= i <= n && Valid() && pos == old(pos) + i
        invariant Written() == old(Written()) + Repeat(bit, i)
      {
        ok := Push(bit);
        if !ok {
          return;
        }
        i := i + 1;
      }
      ok := true;
    }

    /** The low `k` bits of `m`, from the top. */
    method PushLow(m: nat, k: nat, invert: bool) returns (ok: bool)
      requires Valid()
      modifies this, buf
      ensures Valid()
      ensures ok == (old(pos) + k <= PAYLOAD)
      ensures ok ==> Written() == old(Written()) + Flip(Low(m, k), invert)
    {
      ghost var low := Flip(Low(m, k), invert);
      var i := k;
      while i > 0
        invariant 0 <= i <= k && Valid() && pos == old(pos) + (k - i)
        invariant Written() == old(Written()) + low[..k - i]
      {
        i := i - 1;
        LowAt(m, k, i);
        ok := Push((m / Pow2(i) % 2 == 1) != invert);
        if !ok {
          return;
        }
        assert low[..k - i] == low[..k - i - 1] + [low[k - i - 1]];
      }
      assert low[..k] == low;
      ok := true;
    }

    /** `push_term`: the code of `m`, optionally complemented. */
    method PushTerm(m: nat, invert: bool) returns (ok: bool)
      requires Valid() && m >= 1
      modifies this, buf
      ensures Valid()
      ensures ok == (old(pos) + CodeLength(m) <= PAYLOAD)
      ensures ok ==> Written() == old(Written()) + Flip(Code(m), invert)
    {
      var k := Log2(m);
      ghost var start := Written();
      ok := PushRun(!invert, k);
      if !ok {
        return;
      }
      ok := Push(invert);
      if !ok {
        return;
      }
      ok := PushLow(m, k, invert);
      CodeParts(m, invert, start);
    }

    /** `finish`: the terminator fills the rest. */
    method Finish(pad: bool) returns (out: seq<bv8>)
      requires Valid()
      modifies this, buf
      ensures |out| == 32 && |Unpack(out)| == PAYLOAD
      ensures Unpack(out) == old(Written()) + Repeat(pad, PAYLOAD - old(pos))
    {
      if pad {
        var ok := PushRun(true, PAYLOAD - pos);
      }
      out := buf[..];
      assert Unpack(out) == Unpack(out)[..pos] + Unpack(out)[pos..];
    }
  }

  lemma ZeroBits(raw: seq<bv8>)
    requires forall i :: 0 <= i < |raw| ==> raw[i] == 0
    ensures forall i :: 0 <= i < |Unpack(raw)| ==> !Unpack(raw)[i]
  {
  }

  /** Setting one bit of one byte. */
  lemma SetBitIn(raw: seq<bv8>, p: nat)
    requires p < 8 * |raw|
    ensures Unpack(raw[p / 8 := raw[p / 8] | Mask(p % 8)]) == Unpack(raw)[p := true]
  {
    hide Mask, BitAt;
    var after := raw[p / 8 := raw[p / 8] | Mask(p % 8)];
    forall i | 0 <= i < 8 * |raw|
      ensures Unpack(after)[i] == Unpack(raw)[p := true][i]
    {
      if i / 8 == p / 8 {
        SetBit(raw[p / 8], p % 8, i % 8);
        assert i % 8 == p % 8 <==> i == p;
      }
    }
  }

  lemma Appended(x: seq<bool>, y: seq<bool>, p: nat, bit: bool)
    requires p < |x| && !x[p] && y == if bit then x[p := true] else x
    ensures y[..p + 1] == x[..p] + [bit] && forall i :: p < i < |x| ==> y[i] == x[i]
  {
  }

  lemma CodeParts(m: nat, invert: bool, start: seq<bool>)
    requires m >= 1
    ensures start + Repeat(!invert, Log2(m)) + [invert] + Flip(Low(m, Log2(m)), invert)
         == start + Flip(Code(m), invert)
  {
    var k := Log2(m);
    var x := Repeat(!invert, k) + [invert] + Flip(Low(m, k), invert);
    assert x == Flip(Code(m), invert);
    assert start + Repeat(!invert, k) + [invert] + Flip(Low(m, k), invert) == start + x;
  }

  /** Bit `i` of `m`, counted from below, inside the low bits. */
  lemma {:induction false} LowAt(m: nat, k: nat, i: nat)
    requires i < k
    ensures Low(m, k)[k - 1 - i] == (m / Pow2(i) % 2 == 1)
    decreases k
  {
    if i > 0 {
      LowAt(m / 2, k - 1, i - 1);
      HalveQuotient(m, i);
      assert Low(m, k)[k - 1 - i] == Low(m / 2, k - 1)[k - 1 - i];
    } else {
      assert m / 1 == m;
    }
  }

  /** What the encoder has yet to write after some prefix of the terms, when
      the whole takes `total` bits and is to become `goal`. */
  ghost predicate Pending(w: seq<bool>, todo: seq<int>, invert: bool, total: nat, goal: seq<bool>) {
    && AllPositive(todo)
    && |w| + LaterBits(todo) == total
    && |w| <= PAYLOAD
    && (total <= PAYLOAD ==> goal == w + Rest(todo, invert, PAYLOAD - |w|))
  }

  lemma PendingStart(n: int, d: int, w: seq<bool>) returns (goal: seq<bool>)
    requires d > 0 && |w| <= PAYLOAD
    requires w == [n / d >= 0] + Flip(Code(Magnitude(n / d)), n / d < 0)
    ensures Pending(w, Terms(n, d)[1..], true, UsedBits(n, d), goal)
    ensures EncodePositive(n, d) == if UsedBits(n, d) <= PAYLOAD then Ok(goal) else Err(OutOfDomain)
  {
    TermsPositive(n, d);
    TermsCanonical(n, d);
    goal := if UsedBits(n, d) <= PAYLOAD then Payload(Terms(n, d)) else [];
  }

  lemma FirstTooLong(n: int, d: int)
    requires d > 0 && 1 + CodeLength(Magnitude(n / d)) > PAYLOAD
    ensures EncodePositive(n, d) == Err(OutOfDomain)
  {
    TermsPositive(n, d);
  }

  lemma PendingStep(w: seq<bool>, todo: seq<int>, invert: bool, total: nat, goal: seq<bool>)
    requires Pending(w, todo, invert, total, goal) && todo != []
    ensures todo[0] >= 1
    ensures |w| + CodeLength(todo[0]) > PAYLOAD ==> total > PAYLOAD
    ensures |w| + CodeLength(todo[0]) <= PAYLOAD ==>
              Pending(w + Flip(Code(todo[0]), invert), todo[1..], !invert, total, goal)
  {
    hide Code, Log2;
    var c := Flip(Code(todo[0]), invert);
    assert LaterBits(todo) == |c| + LaterBits(todo[1..]);
    if total <= PAYLOAD {
      var x := Rest(todo[1..], !invert, PAYLOAD - |w| - |c|);
      assert Rest(todo, invert, PAYLOAD - |w|) == c + x;
      assert w + (c + x) == w + c + x;
    }
  }

  lemma TermsUnfold(n: int, d: int)
    requires d > 0
    ensures Terms(n, d) != [] && Terms(n, d)[0] == n / d
    ensures Terms(n, d)[1..] == if n % d == 0 then [] else Terms(d, n % d)
  {
  }

  /** One division per term: the remainder comes from the quotient. */
  method Divide(n: int, d: int) returns (a: int, rem: int)
    requires d > 0
    ensures 0 <= rem < d
    ensures Terms(n, d) != [] && Terms(n, d)[0] == a
    ensures Terms(n, d)[1..] == if rem == 0 then [] else Terms(d, rem)
  {
    TermsUnfold(n, d);
    a := n / d;
    rem := Remainder(n, d, a);
  }

  method Remainder(n: int, d: int, a: int) returns (rem: int)
    requires d > 0 && a == n / d
    ensures rem == n % d
  {
    rem := n - a * d;
  }

  lemma ParityFlips(position: nat)
    ensures ((position + 1) % 2 == 1) == !(position % 2 == 1)
    ensures (position % 2 == 0) == !(position % 2 == 1)
  {
  }

  /** Write the next pending term. */
  method EmitTerm(w: BitWriter, a: int, invert: bool, ghost todo: seq<int>, ghost total: nat, ghost goal: seq<bool>)
    returns (ok: bool)
    requires w.Valid() && Pending(w.Written(), todo, invert, total, goal) && todo != [] && todo[0] == a
    modifies w, w.buf
    ensures w.Valid()
    ensures ok ==> Pending(w.Written(), todo[1..], !invert, total, goal)
    ensures !ok ==> total > PAYLOAD
  {
    PendingStep(w.Written(), todo, invert, total, goal);
    ok := w.PushTerm(a, invert);
  }

  /** The terminator completes the goal. */
  lemma PendingEnd(w: seq<bool>, invert: bool, total: nat, goal: seq<bool>)
    requires Pending(w, [], invert, total, goal)
    ensures total <= PAYLOAD && goal == w + Repeat(!invert, PAYLOAD - |w|)
  {
  }

  /** The stored bytes hold these bits, or the errors agree. */
  ghost predicate Stores(r: Result<seq<bv8>>, e: Result<seq<bool>>) {
    if r.Ok? then |r.value| == 32 && e == Ok(Unpack(r.value)) else e == Err(r.error)
  }

  /** The conversion loop of `encode_parts` for a positive denominator, with its
      64-bit inner loop once the numerator has become small. */
  method EncodeLoop(n: int, d: int) returns (r: Result<seq<bv8>>)
    requires d > 0
    ensures Stores(r, EncodePositive(n, d))
  {
    hide Terms, Unpack, Pending, EncodePositive, UsedBits, Code, Flip;
    var w := new BitWriter();
    var a0, rem := n / d, n % d;
    var ok := w.Push(a0 >= 0);
    ok := w.PushTerm(Magnitude(a0), a0 < 0);
    if !ok {
      FirstTooLong(n, d);
      return Err(OutOfDomain);
    }
    ghost var goal := PendingStart(n, d, w.Written());
    ghost var total := UsedBits(n, d);
    TermsUnfold(n, d);
    ghost var todo := Terms(n, d)[1..];
    var num, den, position := n, d, 1;
    while rem != 0
      invariant w.Valid() && fresh(w) && fresh(w.buf)
      invariant 0 <= rem < den
      invariant todo == if rem == 0 then [] else Terms(den, rem)
      invariant Pending(w.Written(), todo, position % 2 == 1, total, goal)
      decreases rem
    {
      num, den := den, rem;
      if num < 0x1_0000_0000_0000_0000 {
        var raw: Option<seq<bv8>> := EncodeSmall(w, num, den, position, total, goal);
        return if raw.None? then Err(OutOfDomain) else Ok(raw.value);
      }
      var a: int;
      a, rem := Divide(num, den);
      ok := EmitTerm(w, a, position % 2 == 1, todo, total, goal);
      if !ok {
        return Err(OutOfDomain);
      }
      todo := todo[1..];
      ParityFlips(position);
      position := position + 1;
    }
    ParityFlips(position);
    PendingEnd(w.Written(), position % 2 == 1, total, goal);
    var raw := w.Finish(position % 2 == 0);
    r := Ok(raw);
  }

  /** The inner loop over small operands. */
  method EncodeSmall(w: BitWriter, num: int, den: int, start: nat, ghost total: nat, ghost goal: seq<bool>)
    returns (r: Option<seq<bv8>>)
    requires w.Valid() && 0 < den < num < 0x1_0000_0000_0000_0000
    requires Pending(w.Written(), Terms(num, den), start % 2 == 1, total, goal)
    modifies w, w.buf
    ensures r.Some? <==> total <= PAYLOAD
    ensures r.Some? ==> |r.value| == 32 && Unpack(r.value) == goal
  {
    hide *;
    var x, y, position := num, den, start;
    ghost var todo := Terms(x, y);
    while y != 0
      invariant w.Valid() && 0 <= y < x
      invariant todo == if y == 0 then [] else Terms(x, y)
      invariant Pending(w.Written(), todo, position % 2 == 1, total, goal)
      decreases y
    {
      var a, rem := Divide(x, y);
      var ok := EmitTerm(w, a, position % 2 == 1, todo, total, goal);
      if !ok {
        return None;
      }
      todo := todo[1..];
      ParityFlips(position);
      position := position + 1;
      x, y := y, rem;
    }
    ParityFlips(position);
    PendingEnd(w.Written(), position % 2 == 1, total, goal);
    var raw := w.Finish(position % 2 == 0);
    r := Some(raw);
  }

  /** `encode_parts`. */
  method EncodeParts(numer: int, denom: int) returns (r: Result<seq<bv8>>)
    requires I128(numer) && I128(denom)
    ensures Stores(r, Encode(numer, denom))
  {
    if denom == 0 {
      return Err(ZeroDenominator);
    }
    if denom < 0 {
      if numer == MIN128 || denom == MIN128 {
        return Err(OutOfDomain);
      }
      r := EncodeLoop(-numer, -denom);
    } else {
      r := EncodeLoop(numer, denom);
    }
  }

  // ---- reading ----

  class BitReader {
    const buf: seq<bv8>
    var pos: nat

    ghost function Bits(): seq<bool> {
      Unpack(buf)
    }

    constructor (raw: seq<bv8>)
      ensures buf == raw && pos == 0
    {
      buf := raw;
      pos := 0;
    }

    /** The bit at `p`. */
    function Peek(p: nat): (bit: bool)
      requires |buf| == 32 && p < PAYLOAD
      ensures bit == Bits()[p]
    {
      BitAt(buf[p / 8], p % 8)
    }

    /** `rest_is`: bits up to a byte boundary, then whole bytes. */
    method RestOf(v: bool) returns (r: bool)
      requires |buf| == 32 && pos <= PAYLOAD
      ensures r == RestIs(Bits(), pos, v)
    {
      hide Unpack, BitAt;
      var fill: bv8 := if v then 0xFF else 0x00;
      var p := pos;
      while p < PAYLOAD && p % 8 != 0
        invariant pos <= p <= PAYLOAD
        invariant forall i :: pos <= i < p ==> Bits()[i] == v
        decreases PAYLOAD - p
      {
        if Peek(p) != v {
          return false;
        }
        p := p + 1;
      }
      while p < PAYLOAD
        invariant pos <= p <= PAYLOAD && p % 8 == 0
        invariant forall i :: pos <= i < p ==> Bits()[i] == v
        decreases PAYLOAD - p
      {
        WholeByte(buf, p, v);
        if buf[p / 8] != fill {
          return false;
        }
        p := p + 8;
      }
      r := true;
    }

    /** Skip the unary length; the result is over 127 if no term can be that
        long, and the position is past the end if the separator is missing. */
    method SkipOnes(invert: bool) returns (k: nat)
      requires |buf| == 32 && pos <= PAYLOAD
      modifies this
      ensures pos == old(pos) + k <= PAYLOAD
      ensures k <= 127 ==> k == Ones(Bits(), old(pos), invert)
      ensures k > 127 ==> Ones(Bits(), old(pos), invert) > 127
    {
      ghost var start := pos;
      k := 0;
      while pos < PAYLOAD && Peek(pos) != invert
        invariant start <= pos == start + k <= PAYLOAD && k <= 127
        invariant Ones(Bits(), start, invert) == k + Ones(Bits(), pos, invert)
        decreases PAYLOAD - pos
      {
        pos := pos + 1;
        k := k + 1;
        if k > 127 {
          return;
        }
      }
    }

    /** The `k` bits after the separator, below a leading one. */
    method ReadLow(k: nat, invert: bool) returns (m: nat)
      requires |buf| == 32 && pos + k <= PAYLOAD
      modifies this
      ensures pos == old(pos) + k
      ensures m == FromBits(1, Flip(Bits()[old(pos)..old(pos) + k], invert))
    {
      hide Unpack, BitAt, FromBits;
      m := 1;
      ghost var low := Flip(Bits()[pos..pos + k], invert);
      var i := 0;
      assert low[0..] == low;
      while i < k
        invariant 0 <= i <= k && pos == old(pos) + i
        invariant FromBits(m, low[i..]) == FromBits(1, low)
      {
        assert low[i] == (Bits()[pos] != invert);
        FromBitsNext(m, low, i);
        m := 2 * m + Digit(Peek(pos) != invert);
        pos := pos + 1;
        i := i + 1;
      }
      FromBitsEnd(m, low);
    }

    /** `next_term`. */
    method Next(invert: bool) returns (t: Token)
      requires |buf| == 32 && pos <= PAYLOAD
      modifies this
      ensures t == NextTerm(Bits(), old(pos), invert)
      ensures t.Token? ==> pos == t.next
      ensures pos <= PAYLOAD
    {
      hide Ones, FromBits, Flip, Unpack;
      ghost var start := pos;
      var k := SkipOnes(invert);
      if k > 127 || pos + 1 + k > PAYLOAD {
        return Truncated;
      }
      pos := pos + 1;
      var m := ReadLow(k, invert);
      t := Token(m, pos);
      NextTermIs(Bits(), start, invert, k, m);
    }
  }

  lemma FromBitsNext(m: nat, low: seq<bool>, i: nat)
    requires i < |low|
    ensures FromBits(m, low[i..]) == FromBits(2 * m + Digit(low[i]), low[i + 1..])
  {
    assert low[i..][0] == low[i] && low[i..][1..] == low[i + 1..];
  }

  lemma FromBitsEnd(m: nat, low: seq<bool>)
    ensures FromBits(m, low[|low|..]) == m
  {
    assert low[|low|..] == [];
  }

  /** A whole byte against the fill value. */
  lemma WholeByte(raw: seq<bv8>, p: nat, v: bool)
    requires |raw| == 32 && p < PAYLOAD && p % 8 == 0
    ensures raw[p / 8] == (if v then 0xFF else 0x00) <==> forall i :: p <= i < p + 8 ==> Unpack(raw)[i] == v
  {
    hide BitAt;
    var b, fill: bv8 := raw[p / 8], if v then 0xFF else 0x00;
    forall i | p <= i < p + 8
      ensures Unpack(raw)[i] == BitAt(b, i - p) && BitAt(fill, i - p) == v
    {
      assert i / 8 == p / 8 && i % 8 == i - p;
      FillBits(v, i - p);
    }
    if forall i :: p <= i < p + 8 ==> Unpack(raw)[i] == v {
      forall k | 0 <= k < 8
        ensures BitAt(b, k) == BitAt(fill, k)
      {
        assert Unpack(raw)[p + k] == v;
      }
      BitsDecide(b, fill);
    }
  }

  /** Folding while reading: what is left decides as the whole would. */
  ghost predicate Reading(whole: Parsed, c: Option<(int, int)>, rest: Parsed,
                          p1: int, p2: int, q1: int, q2: int, last: Option<int>)
  {
    && whole.complete == rest.complete
    && c == Checked(rest.terms, p1, p2, q1, q2)
    && q1 >= 1 && q2 >= 0
    && (if rest.terms == [] then
          if last.None? then whole.terms == [] else whole.terms != [] && whole.terms[|whole.terms| - 1] == last.value
        else
          whole.terms != [] && whole.terms[|whole.terms| - 1] == rest.terms[|rest.terms| - 1])
  }

  lemma ReadingEnd(whole: Parsed, c: Option<(int, int)>, rest: Parsed,
                   p1: int, p2: int, q1: int, q2: int, last: Option<int>)
    requires Reading(whole, c, rest, p1, p2, q1, q2, last) && rest.terms == []
    ensures Verdict(whole, c) == if !rest.complete || last == Some(1) then Err(NonCanonical) else Ok((p1, q1))
  {
  }

  lemma ParseUnfold(bits: seq<bool>, pos: nat, invert: bool)
    requires pos <= |bits|
    ensures RestIs(bits, pos, !invert) ==> Parse(bits, pos, invert) == Parsed([], true)
    ensures !RestIs(bits, pos, !invert) ==>
              match NextTerm(bits, pos, invert)
              case Truncated => Parse(bits, pos, invert) == Parsed([], false)
              case Token(m, next) =>
                Parse(bits, pos, invert)
                == Parsed([m] + Parse(bits, next, !invert).terms, Parse(bits, next, !invert).complete)
  {
  }

  lemma ReadingStep(whole: Parsed, c: Option<(int, int)>, rest: Parsed, more: Parsed, m: nat,
                    p1: int, p2: int, q1: int, q2: int, last: Option<int>)
    requires Reading(whole, c, rest, p1, p2, q1, q2, last) && m >= 1
    requires rest == Parsed([m] + more.terms, more.complete)
    ensures m > MAX128 || !StepFits(m, p1, p2) || !StepFits(m, q1, q2) ==> c.None?
    ensures StepFits(m, p1, p2) && StepFits(m, q1, q2) ==>
              Reading(whole, c, more, m * p1 + p2, p1, m * q1 + q2, q1, Some(m))
  {
    assert rest.terms[1..] == more.terms;
    assert m * q1 >= m by {
      Stretch(q1, m);
    }
  }

  /** One turn of the decoding loop, before the terminator. */
  lemma ReadingNext(bits: seq<bool>, pos: nat, invert: bool, whole: Parsed, c: Option<(int, int)>,
                    p1: int, p2: int, q1: int, q2: int, last: Option<int>)
    requires pos <= |bits| && !RestIs(bits, pos, !invert)
    requires Reading(whole, c, Parse(bits, pos, invert), p1, p2, q1, q2, last)
    ensures match NextTerm(bits, pos, invert)
            case Truncated => Verdict(whole, c) == Err(NonCanonical)
            case Token(m, next) =>
              && pos < next <= |bits|
              && (m > MAX128 || !StepFits(m, p1, p2) || !StepFits(m, q1, q2) ==> Verdict(whole, c) == Err(Overflow))
              && (StepFits(m, p1, p2) && StepFits(m, q1, q2) ==>
                    Reading(whole, c, Parse(bits, next, !invert), m * p1 + p2, p1, m * q1 + q2, q1, Some(m)))
  {
    hide Checked, Parse, RestIs, NextTerm;
    var rest := Parse(bits, pos, invert);
    ParseUnfold(bits, pos, invert);
    match NextTerm(bits, pos, invert)
    case Truncated =>
      ReadingEnd(whole, c, rest, p1, p2, q1, q2, last);
    case Token(m, next) =>
      WriteRead(bits, pos, invert);
      ReadingStep(whole, c, rest, Parse(bits, next, !invert), m, p1, p2, q1, q2, last);
  }

  datatype Turn = Advanced(m: int, p: int, q: int) | Rejected(error: Error)

  /** Read one term and fold it in. */
  method ReadTerm(reader: BitReader, invert: bool, ghost whole: Parsed, ghost c: Option<(int, int)>,
                  p1: int, p2: int, q1: int, q2: int, ghost last: Option<int>) returns (t: Turn)
    requires |reader.buf| == 32 && reader.pos <= PAYLOAD && !RestIs(reader.Bits(), reader.pos, !invert)
    requires Reading(whole, c, Parse(reader.Bits(), reader.pos, invert), p1, p2, q1, q2, last)
    modifies reader
    ensures reader.pos <= PAYLOAD
    ensures t.Rejected? ==> Verdict(whole, c) == Err(t.error)
    ensures t.Advanced? ==>
              && reader.pos > old(reader.pos)
              && Reading(whole, c, Parse(reader.Bits(), reader.pos, !invert), t.p, p1, t.q, q1, Some(t.m))
  {
    hide Checked, Reading, Verdict, Parse, NextTerm, RestIs;
    ReadingNext(reader.Bits(), reader.pos, invert, whole, c, p1, p2, q1, q2, last);
    var u := reader.Next(invert);
    if u.Truncated? {
      return Rejected(NonCanonical);
    }
    if u.m > MAX128 || !StepFits(u.m, p1, p2) || !StepFits(u.m, q1, q2) {
      return Rejected(Overflow);
    }
    t := Advanced(u.m, u.m * p1 + p2, u.m * q1 + q2);
  }

  /** The loop of `decode_parts` over the later terms. */
  method DecodeLoop(reader: BitReader, a0: int) returns (r: Result<(int, int)>)
    requires |reader.buf| == 32 && reader.pos <= PAYLOAD
    modifies reader
    ensures var p := Parse(reader.Bits(), old(reader.pos), true);
            r == Verdict(p, Checked(p.terms, a0, 1, 1, 0))
  {
    ghost var bits := reader.Bits();
    var p1, p2, q1, q2 := a0, 1, 1, 0;
    ghost var whole := Parse(bits, reader.pos, true);
    ghost var c := Checked(whole.terms, a0, 1, 1, 0);
    var invert := true;
    var last: Option<int> := None;
    var ended := reader.RestOf(!invert);
    while !ended
      invariant reader.pos <= PAYLOAD
      invariant ended == RestIs(bits, reader.pos, !invert)
      invariant Reading(whole, c, Parse(bits, reader.pos, invert), p1, p2, q1, q2, last)
      decreases PAYLOAD - reader.pos
    {
      var t := ReadTerm(reader, invert, whole, c, p1, p2, q1, q2, last);
      if t.Rejected? {
        return Err(t.error);
      }
      p1, p2, q1, q2 := t.p, p1, t.q, q1;
      last := Some(t.m);
      invert := !invert;
      ended := reader.RestOf(!invert);
    }
    ParseUnfold(bits, reader.pos, invert);
    ReadingEnd(whole, c, Parse(bits, reader.pos, invert), p1, p2, q1, q2, last);
    r := if last == Some(1) then Err(NonCanonical) else Ok((p1, q1));
  }

  /** `decode_parts`. */
  method DecodeParts(raw: seq<bv8>) returns (r: Result<(int, int)>)
    requires |raw| == 32
    ensures r == Decode(Unpack(raw))
  {
    hide Unpack, Parse, NextTerm, Checked, Verdict;
    var reader := new BitReader(raw);
    var sign := reader.Peek(0);
    reader.pos := 1;
    var t := reader.Next(!sign);
    if t.Truncated? {
      return Err(NonCanonical);
    }
    if t.m > MAX128 + 1 {
      return Err(Overflow);
    }
    r := DecodeLoop(reader, FirstTerm(sign, t.m));
  }
}
