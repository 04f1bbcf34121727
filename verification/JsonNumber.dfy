/** Integers in JSON text: the digit loops of `ParseNumber` and their thresholds. */
module JsonNumber {
  import opened Words
  import opened Numerals
  import opened JsonEvents
  import opened JsonReader
  import opened JsonString
  import opened JsonLayout

  function DigitsEnd(text: Bytes, p: nat): (q: nat)
    ensures p <= q && !Digit(At(text, q)) && (p <= |text| ==> q <= |text|)
    ensures Digit(At(text, p)) ==> p < q
    decreases |text| - p
  {
    if Digit(At(text, p)) then DigitsEnd(text, p + 1) else p
  }

  predicate AllDigits(text: Bytes, a: nat, b: nat) {
    forall k :: a <= k < b ==> Digit(At(text, k))
  }

  /** The number the digits from `a` up to `b` denote. */
  function Numeral(text: Bytes, a: nat, b: nat): nat
    requires AllDigits(text, a, b)
  {
    if b <= a then 0 else 10 * Numeral(text, a, b - 1) + (At(text, b - 1) - 0x30)
  }

  /** In base ten, most significant digit first. */
  lemma {:induction false} NumeralValue(text: Bytes, a: nat, b: nat)
    requires a <= b <= |text| && AllDigits(text, a, b)
    ensures DecimalDigits(text[a..b]) && Numeral(text, a, b) == Value(10, DigitValues(text[a..b]))
    decreases b
  {
    assert forall i :: 0 <= i < b - a ==> text[a..b][i] == At(text, a + i);
    if a < b {
      NumeralValue(text, a, b - 1);
      assert text[a..b] == text[a..b - 1] + [text[b - 1]];
      assert DigitValues(text[a..b]) == DigitValues(text[a..b - 1]) + [text[b - 1] - 0x30];
      ValueSnoc(10, DigitValues(text[a..b - 1]), text[b - 1] - 0x30);
    }
  }

  lemma {:induction false} DigitsThere(text: Bytes, p: nat)
    ensures AllDigits(text, p, DigitsEnd(text, p))
    decreases |text| - p
  {
    if Digit(At(text, p)) { DigitsThere(text, p + 1); }
  }

  lemma {:induction false} EndOfDigits(text: Bytes, a: nat, b: nat)
    requires a <= b && AllDigits(text, a, b)
    ensures DigitsEnd(text, a) == DigitsEnd(text, b)
    decreases b - a
  {
    if a < b { EndOfDigits(text, a + 1, b); }
  }

  lemma {:induction false} NumeralGrows(text: Bytes, a: nat, b: nat, c: nat)
    requires a <= b <= c && AllDigits(text, a, c)
    ensures Numeral(text, a, b) <= Numeral(text, a, c)
    decreases c - b
  {
    if b < c { NumeralGrows(text, a, b, c - 1); }
  }

  // ----- What a number means -----

  /** The event of an integer by sign and magnitude; `None` beyond 64 bits. */
  function IntegerEvent(minus: bool, v: nat): Option<Event> {
    if minus then
      if v <= 0x8000_0000 then Some(Int(0 - v as int))
      else if v <= 0x8000_0000_0000_0000 then Some(Int64(0 - v as int))
      else None
    else
      if v < 0x1_0000_0000 then Some(Uint(v))
      else if v < 0x1_0000_0000_0000_0000 then Some(Uint64(v))
      else None
  }

  /** A number with an integer part that ends at `b`: an integer of exact value, or
      whatever the floating-point path makes of it. */
  function IntegerOr(text: Bytes, p: nat, minus: bool, a: nat, b: nat, floating: nat -> ScalarLex): ScalarLex
    requires AllDigits(text, a, b)
  {
    match IntegerEvent(minus, Numeral(text, a, b))
    case None => floating(p)
    case Some(e) => if RealMark(At(text, b)) then floating(p) else ScalarOk(e, b)
  }

  function NumberAt(text: Bytes, p: nat, floating: nat -> ScalarLex): ScalarLex {
    var minus := At(text, p) == 0x2D;
    var a := if minus then p + 1 else p;
    if At(text, a) == 0x30 then IntegerOr(text, p, minus, a, a + 1, floating)
    else if Digit(At(text, a)) then
      DigitsThere(text, a);
      IntegerOr(text, p, minus, a, DigitsEnd(text, a), floating)
    else ScalarBad(ValueInvalid)
  }

  // ----- The loops -----

  /** One digit loop: go on while the number stays within ten times `most` plus `last`. */
  method Accumulate(text: Bytes, ghost a: nat, p: nat, n: nat, most: nat, last: nat) returns (n': nat, q: nat, more: bool)
    requires a <= p && AllDigits(text, a, p) && n == Numeral(text, a, p) && last <= 9
    ensures p <= q && AllDigits(text, a, q) && n' == Numeral(text, a, q)
    ensures n' <= n || n' <= 10 * most + last
    ensures AllDigits(text, a, DigitsEnd(text, p)) && q <= DigitsEnd(text, p) == DigitsEnd(text, q)
    ensures if more then Numeral(text, a, DigitsEnd(text, p)) > 10 * most + last else q == DigitsEnd(text, p)
  {
    n', q, more := n, p, false;
    ghost var end := DigitsEnd(text, p);
    DigitsThere(text, p);
    while Digit(At(text, q))
      invariant p <= q <= end && DigitsEnd(text, q) == end && AllDigits(text, a, end)
      invariant n' == Numeral(text, a, q) && (n' <= n || n' <= 10 * most + last)
      decreases end - q
    {
      var d := At(text, q) - 0x30;
      if n' >= most && (n' != most || d > last) {
        more := true;
        NumeralGrows(text, a, q + 1, end);
        assert 10 * n' + d > 10 * most + last;
        return;
      }
      n', q := 10 * n' + d, q + 1;
    }
  }

  /** The two stages of the integer loops: 32 bits, then 64, then neither. */
  method ParseDigits(text: Bytes, a: nat, minus: bool) returns (i: u32, i64: u64, use64bit: bool, useDouble: bool, q: nat)
    requires 0x31 <= At(text, a) <= 0x39
    ensures AllDigits(text, a, DigitsEnd(text, a))
    ensures var v := Numeral(text, a, DigitsEnd(text, a));
            && use64bit == (v > if minus then 0x8000_0000 else 0xFFFF_FFFF)
            && useDouble == (v > if minus then 0x8000_0000_0000_0000 else 0xFFFF_FFFF_FFFF_FFFF)
            && (!useDouble ==> q == DigitsEnd(text, a) && v == if use64bit then i64 else i)
  {
    DigitsThere(text, a);
    var n: nat := At(text, a) - 0x30;
    assert Numeral(text, a, a) == 0 && n == Numeral(text, a, a + 1);
    EndOfDigits(text, a, a + 1);
    q, useDouble, i64 := a + 1, false, 0;
    if minus {
      n, q, use64bit := Accumulate(text, a, q, n, 214748364, 8);
    } else {
      n, q, use64bit := Accumulate(text, a, q, n, 429496729, 5);
    }
    i := n;
    if use64bit {
      i64 := i;
      if minus {
        n, q, useDouble := Accumulate(text, a, q, i64, 0x0CCC_CCCC_CCCC_CCCC, 8);
      } else {
        n, q, useDouble := Accumulate(text, a, q, i64, 0x1999_9999_9999_9999, 5);
      }
      i64 := n;
    }
  }

  /** `ParseNumber`: the exact value of the digits, never wrapped; the floating-point
      path, which is a parameter, exactly beyond 64 bits or at a fraction or exponent. */
  method ParseNumber(text: Bytes, p: nat, floating: nat -> ScalarLex) returns (r: ScalarLex)
    ensures r == NumberAt(text, p, floating)
  {
    var minus := At(text, p) == 0x2D;
    var a := if minus then p + 1 else p;
    var i, i64, use64bit, useDouble, q := 0, 0, false, false, a;
    if At(text, a) == 0x30 {
      q := a + 1;
      assert Numeral(text, a, a) == 0;
    } else if 0x31 <= At(text, a) <= 0x39 {
      i, i64, use64bit, useDouble, q := ParseDigits(text, a, minus);
    } else {
      return ScalarBad(ValueInvalid);
    }
    if useDouble || RealMark(At(text, q)) { return floating(p); }
    if use64bit {
      r := if minus then ScalarOk(Int64(0 - i64 as int), q) else ScalarOk(Uint64(i64), q);
    } else {
      r := if minus then ScalarOk(Int(0 - i as int), q) else ScalarOk(Uint(i), q);
    }
  }

  // ----- Decimal numerals written and read back -----

  function NumberText(n: int): (b: Bytes)
    ensures 1 <= |b|
  {
    if n < 0 then [0x2D] + Decimal(-n) else Decimal(n)
  }

  /** The event the reader reports for an integer. */
  function ReadEvent(n: int): Event {
    if n < 0 then if n >= -0x8000_0000 then Int(n) else Int64(n)
    else if n < 0x1_0000_0000 then Uint(n) else Uint64(n)
  }

  lemma DecimalReads(text: Bytes, p: nat, n: nat)
    requires Has(text, p, Decimal(n))
    ensures AllDigits(text, p, p + |Decimal(n)|) && Numeral(text, p, p + |Decimal(n)|) == n
    ensures Digit(At(text, p)) && (At(text, p) == 0x30 ==> n == 0 && |Decimal(n)| == 1)
  {
    hide Decimal, Value, Numeral;
    var b := Decimal(n);
    forall k | p <= k < p + |b| ensures Digit(At(text, k)) { HasAt(text, p, b, k - p); }
    HasAt(text, p, b, 0);
    NumeralValue(text, p, p + |b|);
    DecimalValue(n);
    if |b| == 1 && b[0] == 0x30 { ZeroValue(b); }
  }

  lemma ZeroValue(b: Bytes)
    requires b == [0x30]
    ensures Value(10, DigitValues(b)) == 0
  {
    assert DigitValues(b) == [] + [0];
    ValueSnoc(10, [], 0);
  }

  /** An integer of 64 bits that does not run into more digits, a fraction or an
      exponent reads back with its value. */
  lemma NumberRoundTrip(text: Bytes, p: nat, n: int, floating: nat -> ScalarLex)
    requires -0x8000_0000_0000_0000 <= n < 0x1_0000_0000_0000_0000
    requires Has(text, p, NumberText(n))
    requires var c := At(text, p + |NumberText(n)|); !Digit(c) && !RealMark(c)
    ensures NumberAt(text, p, floating) == ScalarOk(ReadEvent(n), p + |NumberText(n)|)
  {
    hide Has, NumberText, DigitsEnd, Numeral;
    NumberSpan(text, p, n);
  }

  /** The digits of a written integer: where they are and what they denote. */
  lemma NumberSpan(text: Bytes, p: nat, n: int)
    requires Has(text, p, NumberText(n)) && !Digit(At(text, p + |NumberText(n)|))
    ensures (At(text, p) == 0x2D) == (n < 0)
    ensures var a, q := if n < 0 then p + 1 else p, p + |NumberText(n)|;
            && Digit(At(text, a)) && AllDigits(text, a, q) && Numeral(text, a, q) == (if n < 0 then -n else n)
            && (if At(text, a) == 0x30 then q == a + 1 else DigitsEnd(text, a) == q)
  {
    var a, m := if n < 0 then p + 1 else p, if n < 0 then -n else n;
    var q := a + |Decimal(m)|;
    HasAt(text, p, NumberText(n), 0);
    if n < 0 {
      HasSplit(text, p, [0x2D], Decimal(m));
    }
    DecimalReads(text, a, m);
    hide Has, Decimal, Numeral;
    EndOfDigits(text, a, q);
    DigitsStop(text, q);
  }

  lemma DigitsStop(text: Bytes, q: nat)
    requires !Digit(At(text, q))
    ensures DigitsEnd(text, q) == q
  {}

  /** Beyond 64 bits, or before a fraction or exponent, the floating-point path decides. */
  lemma NumberBeyond(text: Bytes, p: nat, n: int, floating: nat -> ScalarLex)
    requires Has(text, p, NumberText(n)) && !Digit(At(text, p + |NumberText(n)|))
    requires || n < -0x8000_0000_0000_0000 || n >= 0x1_0000_0000_0000_0000
             || RealMark(At(text, p + |NumberText(n)|))
    ensures NumberAt(text, p, floating) == floating(p)
  {
    hide Has, NumberText, DigitsEnd, Numeral;
    NumberSpan(text, p, n);
  }

  /** A zero is a whole integer part: a digit behind it does not belong to the number. */
  lemma LeadingZero(text: Bytes, p: nat, floating: nat -> ScalarLex)
    requires At(text, p) == 0x30 || (At(text, p) == 0x2D && At(text, p + 1) == 0x30)
    ensures var a := if At(text, p) == 0x2D then p + 1 else p;
            NumberAt(text, p, floating) ==
            if At(text, a + 1) in {0x2E, 0x65, 0x45} then floating(p)
            else ScalarOk(if a == p then Uint(0) else Int(0), a + 1)
  {
    var a := if At(text, p) == 0x2D then p + 1 else p;
    assert Numeral(text, a, a) == 0;
  }

  /** A minus without a digit is no number. */
  lemma MinusAlone(text: Bytes, p: nat, floating: nat -> ScalarLex)
    requires At(text, p) == 0x2D && !(0x30 <= At(text, p + 1) <= 0x39)
    ensures NumberAt(text, p, floating) == ScalarBad(ValueInvalid)
  {}

  // ----- Scalars of a text -----

  const NULL_TEXT: Bytes := [0x6E, 0x75, 0x6C, 0x6C]
  const TRUE_TEXT: Bytes := [0x74, 0x72, 0x75, 0x65]
  const FALSE_TEXT: Bytes := [0x66, 0x61, 0x6C, 0x73, 0x65]

  /** `ParseNull`, `ParseTrue` and `ParseFalse`. */
  function WordAt(text: Bytes, p: nat, word: Bytes, e: Event): ScalarLex {
    if Has(text, p, word) then ScalarOk(e, p + |word|) else ScalarBad(ValueInvalid)
  }

  /** The scalar cases of `ParseValue`. */
  function ScalarAt(text: Bytes, p: nat, floating: nat -> ScalarLex): ScalarLex {
    match At(text, p)
    case 0x6E => WordAt(text, p, NULL_TEXT, Null)
    case 0x74 => WordAt(text, p, TRUE_TEXT, Bool(true))
    case 0x66 => WordAt(text, p, FALSE_TEXT, Bool(false))
    case _ => NumberAt(text, p, floating)
  }

  /** A scalar that begins with a letter is one of three words, or an error. */
  lemma WordsRead(text: Bytes, p: nat, floating: nat -> ScalarLex)
    requires p < |text|
    ensures text[p] == 0x6E ==>
              ScalarAt(text, p, floating) ==
              if p + 4 <= |text| && text[p..p + 4] == [0x6E, 0x75, 0x6C, 0x6C] then ScalarOk(Null, p + 4)
              else ScalarBad(ValueInvalid)
    ensures text[p] == 0x74 ==>
              ScalarAt(text, p, floating) ==
              if p + 4 <= |text| && text[p..p + 4] == [0x74, 0x72, 0x75, 0x65] then ScalarOk(Bool(true), p + 4)
              else ScalarBad(ValueInvalid)
    ensures text[p] == 0x66 ==>
              ScalarAt(text, p, floating) ==
              if p + 5 <= |text| && text[p..p + 5] == [0x66, 0x61, 0x6C, 0x73, 0x65] then ScalarOk(Bool(false), p + 5)
              else ScalarBad(ValueInvalid)
    ensures text[p] !in {0x6E, 0x74, 0x66, 0x2D} && !(0x30 <= text[p] <= 0x39) ==>
              ScalarAt(text, p, floating) == ScalarBad(ValueInvalid)
  {}

  /** A floating-point path that consumes some of the text and reports one scalar. */
  ghost predicate RealLawful(text: Bytes, floating: nat -> ScalarLex) {
    forall p :: 0 <= p < |text| && floating(p).ScalarOk? ==> p < floating(p).next <= |text| && floating(p).event.Scalar()
  }

  /** A text with the lexers of the reader. */
  function TextInput(text: Bytes, validate: bool, floating: nat -> ScalarLex, accepts: Log -> bool, stop: bool): Input {
    Input(text, (p: nat) => ReadString(text, p, validate), (p: nat) => ScalarAt(text, p, floating), accepts, stop)
  }

  lemma ScalarLawful(text: Bytes, p: nat, floating: nat -> ScalarLex)
    requires RealLawful(text, floating)
    ensures p < |text| && ScalarAt(text, p, floating).ScalarOk? ==>
              p < ScalarAt(text, p, floating).next <= |text| && ScalarAt(text, p, floating).event.Scalar()
    ensures NoValueAt(At(text, p)) ==> ScalarAt(text, p, floating) == ScalarBad(ValueInvalid)
  {}

  /** The lexers make progress inside the text, as both parsers need. */
  lemma TextLawful(text: Bytes, validate: bool, floating: nat -> ScalarLex, accepts: Log -> bool, stop: bool)
    requires RealLawful(text, floating)
    ensures Lawful(TextInput(text, validate, floating, accepts, stop))
  {
    var inp := TextInput(text, validate, floating, accepts, stop);
    forall p: nat ensures
        && (p < |text| && inp.scalar(p).ScalarOk? ==> p < inp.scalar(p).next <= |text| && inp.scalar(p).event.Scalar())
        && (NoValueAt(Peek(inp, p)) ==> inp.scalar(p) == ScalarBad(ValueInvalid)) {
      ScalarLawful(text, p, floating);
    }
  }
}
