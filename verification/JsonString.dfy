/** JSON string literals: how the writer escapes bytes and how the reader undoes it. */
module JsonString {
  import opened Words
  import opened Numerals
  import opened JsonEvents
  import opened JsonReader
  import Utf

  const BACKSLASH: byte := 0x5C
  const LOWER_U: byte := 0x75

  function At(text: Bytes, p: nat): byte {
    Utf.At(text, p, 0)
  }

  predicate Has(text: Bytes, p: nat, part: Bytes) {
    p + |part| <= |text| && text[p..p + |part|] == part
  }

  lemma HasAt(text: Bytes, p: nat, part: Bytes, k: nat)
    requires Has(text, p, part) && k < |part|
    ensures At(text, p + k) == part[k] && p + k < |text|
  {
    assert text[p..p + |part|][k] == text[p + k];
  }

  lemma HasJoin(text: Bytes, p: nat, a: Bytes, b: Bytes)
    requires Has(text, p, a) && Has(text, p + |a|, b)
    ensures Has(text, p, a + b)
  {
    assert text[p..p + |a + b|] == text[p..p + |a|] + text[p + |a|..p + |a| + |b|];
  }

  lemma HasSplit(text: Bytes, p: nat, a: Bytes, b: Bytes)
    requires Has(text, p, a + b)
    ensures Has(text, p, a) && Has(text, p + |a|, b)
  {
    assert (a + b)[..|a|] == a && (a + b)[|a|..] == b;
    assert text[p..p + |a|] == text[p..p + |a + b|][..|a|];
    assert text[p + |a|..p + |a| + |b|] == text[p..p + |a + b|][|a|..];
  }

  // ----- Reading -----

  function HexValue(c: byte): Option<nat> {
    if 0x30 <= c <= 0x39 then Some(c - 0x30)
    else if 0x41 <= c <= 0x46 then Some(c - 0x41 + 10)
    else if 0x61 <= c <= 0x66 then Some(c - 0x61 + 10)
    else None
  }

  /** Four hexadecimal digits; a bad one is consumed and the value is zero. */
  datatype HexRead = HexRead(ok: bool, value: nat, next: nat)

  function Hex4From(text: Bytes, p: nat, left: nat, cp: nat): HexRead
    decreases left
  {
    if left == 0 then HexRead(true, cp, p)
    else match HexValue(At(text, p))
      case None => HexRead(false, 0, p + 1)
      case Some(d) => Hex4From(text, p + 1, left - 1, 0x10 * cp + d)
  }

  lemma {:induction false} HexBound(text: Bytes, p: nat, left: nat, cp: nat, bound: nat)
    requires left <= 4 && cp < bound
    ensures var h := Hex4From(text, p, left, cp);
            && (!h.ok ==> h.value == 0) && p <= h.next && (0 < left ==> p < h.next)
            && h.value < (match left case 0 => bound case 1 => 0x10 * bound case 2 => 0x100 * bound
                          case 3 => 0x1000 * bound case _ => 0x1_0000 * bound)
    decreases left
  {
    if left > 0 && HexValue(At(text, p)).Some? {
      HexBound(text, p + 1, left - 1, 0x10 * cp + HexValue(At(text, p)).value, 0x10 * bound);
    }
  }

  function Hex4(text: Bytes, p: nat): (h: HexRead)
    ensures h.value < 0x1_0000 && p < h.next && (!h.ok ==> h.value == 0)
  {
    HexBound(text, p, 4, 0, 1);
    Hex4From(text, p, 4, 0)
  }

  /** The character an escape letter stands for, or zero. */
  function Unescape(e: byte): byte {
    match e
    case 0x22 => 0x22
    case 0x2F => 0x2F
    case 0x5C => 0x5C
    case 0x62 => 0x08
    case 0x66 => 0x0C
    case 0x6E => 0x0A
    case 0x72 => 0x0D
    case 0x74 => 0x09
    case _ => 0
  }

  /** What one round of the scan appends and where it goes on. A fault is recorded
      without stopping the scan. */
  datatype Piece = Piece(bytes: Bytes, next: nat, fault: Option<Code>) | Bad(code: Code)

  /** The digits after a backslash and a `u`. */
  function UnicodeAt(text: Bytes, p: nat): (r: Piece)
    ensures r.Piece? ==> p < r.next
  {
    var h := Hex4(text, p);
    if 0xD800 <= h.value <= 0xDBFF then
      if At(text, p + 4) != BACKSLASH || At(text, p + 5) != LOWER_U then Bad(StringUnicodeSurrogateInvalid)
      else
        var h' := Hex4(text, p + 6);
        if h'.value < 0xDC00 || h'.value > 0xDFFF then Bad(StringUnicodeSurrogateInvalid)
        else Piece(Utf.Encode((h.value - 0xD800) * 0x400 + (h'.value - 0xDC00) + 0x1_0000), h'.next, None)
    else Piece(Utf.Encode(h.value), h.next, if h.ok then None else Some(StringUnicodeEscapeInvalidHex))
  }

  function PieceAt(text: Bytes, p: nat, validate: bool): (r: Piece)
    ensures r.Piece? ==> p < r.next && p < |text|
  {
    var c := At(text, p);
    if c == BACKSLASH then
      var e := At(text, p + 1);
      if Unescape(e) != 0 then Piece([Unescape(e)], p + 2, None)
      else if e == LOWER_U then UnicodeAt(text, p + 2)
      else Bad(StringEscapeInvalid)
    else if c == 0 then Bad(StringMissQuotationMark)
    else if c < 0x20 then Bad(StringEscapeInvalid)
    else if !validate then Piece([c], p + 1, None)
    else
      var v := Utf.Validate(text, p);
      Utf.DecodeExact(text, p);
      Utf.ValidateAgrees(text, p);
      if v.ok then Piece(v.copied, v.next, None) else Bad(StringInvalidEncoding)
  }

  /** The scan after the opening quote. With assertions disabled a later error
      replaces a recorded fault. */
  function Scan(text: Bytes, p: nat, validate: bool, out: Bytes, fault: Option<Code>): (r: StringLex)
    ensures r.StringOk? ==> p < r.next <= |text|
    decreases if p < |text| then |text| - p else 0
  {
    if At(text, p) == QUOTE then if fault == None then StringOk(out, p + 1) else StringBad(fault.value)
    else
      match PieceAt(text, p, validate)
      case Bad(code) => StringBad(code)
      case Piece(b, next, f) => Scan(text, next, validate, out + b, if f == None then fault else f)
  }

  /** `ParseStringToStream` at an opening quote. */
  function ReadString(text: Bytes, p: nat, validate: bool): (r: StringLex)
    ensures r.StringOk? ==> p < r.next <= |text|
  {
    Scan(text, p + 1, validate, [], None)
  }

  method ParseHex4(text: Bytes, p: nat) returns (h: HexRead)
    ensures h == Hex4(text, p)
  {
    var cp: nat := 0;
    for i := 0 to 4
      invariant Hex4(text, p) == Hex4From(text, p + i, 4 - i, cp)
    {
      var d := HexValue(At(text, p + i));
      if d == None { return HexRead(false, 0, p + i + 1); }
      cp := 0x10 * cp + d.value;
    }
    return HexRead(true, cp, p + 4);
  }

  method ParseUnicode(text: Bytes, p: nat) returns (r: Piece)
    ensures r == UnicodeAt(text, p)
  {
    hide Hex4, Utf.Encode;
    var h := ParseHex4(text, p);
    var cp, next := h.value, h.next;
    if 0xD800 <= cp <= 0xDBFF {
      if At(text, p + 4) != BACKSLASH || At(text, p + 5) != LOWER_U { return Bad(StringUnicodeSurrogateInvalid); }
      var h' := ParseHex4(text, p + 6);
      if h'.value < 0xDC00 || h'.value > 0xDFFF { return Bad(StringUnicodeSurrogateInvalid); }
      cp, next := (cp - 0xD800) * 0x400 + (h'.value - 0xDC00) + 0x1_0000, h'.next;
    }
    return Piece(Utf.Encode(cp), next, if h.ok then None else Some(StringUnicodeEscapeInvalidHex));
  }

  method ParseStringToStream(text: Bytes, start: nat, validate: bool) returns (r: StringLex)
    ensures r == ReadString(text, start, validate)
  {
    hide UnicodeAt, Unescape, Utf.Validate, Utf.Decode;
    var p, out, fault := start + 1, [], None;
    while true
      invariant ReadString(text, start, validate) == Scan(text, p, validate, out, fault)
      decreases if p < |text| then |text| - p else 0
    {
      var c := At(text, p);
      ghost var step := PieceAt(text, p, validate);
      if c == BACKSLASH {
        var e := At(text, p + 1);
        if Unescape(e) != 0 {
          p, out := p + 2, out + [Unescape(e)];
        } else if e == LOWER_U {
          var u := ParseUnicode(text, p + 2);
          if u.Bad? { return StringBad(u.code); }
          p, out := u.next, out + u.bytes;
          if u.fault != None { fault := u.fault; }
        } else {
          return StringBad(StringEscapeInvalid);
        }
      } else if c == QUOTE {
        return if fault == None then StringOk(out, p + 1) else StringBad(fault.value);
      } else if c == 0 {
        return StringBad(StringMissQuotationMark);
      } else if c < 0x20 {
        return StringBad(StringEscapeInvalid);
      } else if validate {
        var v := Utf.Validate(text, p);
        if !v.ok { return StringBad(StringInvalidEncoding); }
        p, out := v.next, out + v.copied;
      } else {
        p, out := p + 1, out + [c];
      }
    }
  }

  // ----- Escapes, as section 2.5 of RFC 4627 lists them -----

  /** The two-character escapes. */
  const ESCAPES: map<byte, byte> := map[
    0x22 := 0x22, 0x5C := 0x5C, 0x2F := 0x2F, 0x62 := 0x08, 0x66 := 0x0C, 0x6E := 0x0A, 0x72 := 0x0D, 0x74 := 0x09]

  lemma UnescapeTable(e: byte)
    ensures Unescape(e) == if e in ESCAPES then ESCAPES[e] else 0
  {}

  /** A backslash and a byte: a character of the table, the start of a numbered one, or an
      error. */
  lemma EscapesRead(text: Bytes, p: nat, validate: bool)
    requires At(text, p) == 0x5C
    ensures var e := At(text, p + 1);
            PieceAt(text, p, validate) ==
            if e in ESCAPES then Piece([ESCAPES[e]], p + 2, None)
            else if e == 0x75 then UnicodeAt(text, p + 2)
            else Bad(StringEscapeInvalid)
  {
    hide UnicodeAt, Unescape;
    UnescapeTable(At(text, p + 1));
  }

  /** Other bytes: the end of the text and control characters are errors; the rest stand for
      themselves unless the encoding is checked. */
  lemma BytesRead(text: Bytes, p: nat, validate: bool)
    ensures At(text, p) == 0 ==> PieceAt(text, p, validate) == Bad(StringMissQuotationMark)
    ensures 0 < At(text, p) < 0x20 ==> PieceAt(text, p, validate) == Bad(StringEscapeInvalid)
    ensures At(text, p) >= 0x20 && At(text, p) != 0x5C && !validate ==>
              PieceAt(text, p, validate) == Piece([At(text, p)], p + 1, None)
  {}

  /** A hexadecimal digit of either case. */
  predicate Hexadecimal(c: byte, d: nat) {
    || (d < 10 && c == 0x30 + d)
    || (10 <= d < 16 && (c == 0x41 + (d - 10) || c == 0x61 + (d - 10)))
  }

  lemma HexValueExact(c: byte)
    ensures match HexValue(c) case Some(d) => Hexadecimal(c, d) case None => forall d: nat :: !Hexadecimal(c, d)
    ensures forall d: nat :: Hexadecimal(c, d) ==> HexValue(c) == Some(d)
  {}

  /** The text has these four hexadecimal digits at `p`. */
  predicate HexAt(text: Bytes, p: nat, ds: seq<nat>) {
    |ds| == 4 && forall i :: 0 <= i < 4 ==> Hexadecimal(At(text, p + i), ds[i])
  }

  lemma FourDigits(a: nat, b: nat, c: nat, d: nat)
    ensures Value(16, [a, b, c, d]) == 0x1000 * a + 0x100 * b + 0x10 * c + d
  {
    hide Value;
    ValueNone(16);
    ValueSnoc(16, [], a);
    ValueSnoc(16, [a], b);
    ValueSnoc(16, [a, b], c);
    ValueSnoc(16, [a, b, c], d);
    assert [] + [a] == [a] && [a] + [b] == [a, b] && [a, b] + [c] == [a, b, c] && [a, b, c] + [d] == [a, b, c, d];
  }

  /** Four hexadecimal digits are the number they denote. */
  lemma HexNumeral(text: Bytes, p: nat, ds: seq<nat>)
    requires HexAt(text, p, ds)
    ensures Hex4(text, p) == HexRead(true, Value(16, ds), p + 4)
  {
    hide HexValue, Value;
    HexValueExact(At(text, p));
    HexValueExact(At(text, p + 1));
    HexValueExact(At(text, p + 2));
    HexValueExact(At(text, p + 3));
    assert ds == [ds[0], ds[1], ds[2], ds[3]];
    FourDigits(ds[0], ds[1], ds[2], ds[3]);
    HexSteps(text, p, ds);
  }

  lemma HexSteps(text: Bytes, p: nat, ds: seq<nat>)
    requires |ds| == 4 && forall i :: 0 <= i < 4 ==> HexValue(At(text, p + i)) == Some(ds[i])
    ensures Hex4(text, p) == HexRead(true, 0x1000 * ds[0] + 0x100 * ds[1] + 0x10 * ds[2] + ds[3], p + 4)
  {
    hide HexValue;
    var a := ds[0];
    var b := 0x10 * a + ds[1];
    var c := 0x10 * b + ds[2];
    assert Hex4From(text, p + 3, 1, c) == HexRead(true, 0x10 * c + ds[3], p + 4);
    assert Hex4From(text, p + 2, 2, b) == Hex4From(text, p + 3, 1, c);
    assert Hex4From(text, p + 1, 3, a) == Hex4From(text, p + 2, 2, b);
    assert Hex4From(text, p, 4, 0) == Hex4From(text, p + 1, 3, a);
  }

  /** After the digits `ds`, fewer than four, a byte that is no hexadecimal digit ends the
      number, which is zero, and is recorded. */
  lemma HexRefused(text: Bytes, p: nat, ds: seq<nat>)
    requires |ds| < 4 && forall k :: 0 <= k < |ds| ==> Hexadecimal(At(text, p + k), ds[k])
    requires var c := At(text, p + |ds|); !(0x30 <= c <= 0x39) && !(0x41 <= c <= 0x46) && !(0x61 <= c <= 0x66)
    ensures Hex4(text, p) == HexRead(false, 0, p + |ds| + 1)
    ensures UnicodeAt(text, p) == Piece(Utf.Encode(0), p + |ds| + 1, Some(StringUnicodeEscapeInvalidHex))
  {
    hide Utf.Encode;
    HexStops(text, p, 0, ds, 0);
  }

  lemma {:induction false} HexStops(text: Bytes, p: nat, i: nat, ds: seq<nat>, cp: nat)
    requires i <= |ds| < 4 && forall k :: 0 <= k < |ds| ==> Hexadecimal(At(text, p + k), ds[k])
    requires HexValue(At(text, p + |ds|)) == None
    ensures Hex4From(text, p + i, 4 - i, cp) == HexRead(false, 0, p + |ds| + 1)
    decreases |ds| - i
  {
    if i < |ds| {
      assert Hexadecimal(At(text, p + i), ds[i]);
      HexStops(text, p, i + 1, ds, 0x10 * cp + ds[i]);
    }
  }

  /** One numbered escape outside the high surrogates is its code point. */
  lemma UnicodeReads(text: Bytes, p: nat, ds: seq<nat>)
    requires HexAt(text, p, ds) && !(0xD800 <= Value(16, ds) <= 0xDBFF)
    ensures Value(16, ds) <= 0x10FFFF && UnicodeAt(text, p) == Piece(Utf.Encode(Value(16, ds)), p + 4, None)
  {
    hide Value, Hex4, Utf.Encode;
    HexNumeral(text, p, ds);
  }

  /** A high surrogate needs an escape behind it, and that a low surrogate; the pair is one
      code point beyond 16 bits. */
  lemma SurrogatesRead(text: Bytes, p: nat, hi: seq<nat>)
    requires HexAt(text, p, hi) && 0xD800 <= Value(16, hi) <= 0xDBFF
    ensures At(text, p + 4) != 0x5C || At(text, p + 5) != 0x75 ==> UnicodeAt(text, p) == Bad(StringUnicodeSurrogateInvalid)
    ensures At(text, p + 4) == 0x5C && At(text, p + 5) == 0x75 ==>
              forall lo :: HexAt(text, p + 6, lo) ==>
                UnicodeAt(text, p) ==
                if 0xDC00 <= Value(16, lo) <= 0xDFFF
                then Piece(Utf.Encode(0x1_0000 + 0x400 * (Value(16, hi) - 0xD800) + (Value(16, lo) - 0xDC00)), p + 10, None)
                else Bad(StringUnicodeSurrogateInvalid)
  {
    hide Value, Hex4, Utf.Encode;
    HexNumeral(text, p, hi);
    if At(text, p + 4) == 0x5C && At(text, p + 5) == 0x75 {
      forall lo | HexAt(text, p + 6, lo)
        ensures UnicodeAt(text, p) ==
                if 0xDC00 <= Value(16, lo) <= 0xDFFF
                then Piece(Utf.Encode(0x1_0000 + 0x400 * (Value(16, hi) - 0xD800) + (Value(16, lo) - 0xDC00)), p + 10, None)
                else Bad(StringUnicodeSurrogateInvalid)
      {
        HexNumeral(text, p + 6, lo);
      }
    }
  }

  // ----- Writing -----

  function HexDigit(d: nat): byte
    requires d < 0x10
  {
    if d < 10 then 0x30 + d else 0x41 + (d - 10)
  }

  function HexDigits(v: nat): (b: Bytes)
    requires v < 0x1_0000
    ensures |b| == 4
  {
    [HexDigit(v / 0x1000), HexDigit(v / 0x100 % 0x10), HexDigit(v / 0x10 % 0x10), HexDigit(v % 0x10)]
  }

  /** The writer's escape table: zero for bytes written as they are. */
  function EscapeLetter(c: byte): byte {
    match c
    case 0x08 => 0x62
    case 0x09 => 0x74
    case 0x0A => 0x6E
    case 0x0C => 0x66
    case 0x0D => 0x72
    case 0x22 => 0x22
    case 0x5C => 0x5C
    case _ => if c < 0x20 then LOWER_U else 0
  }

  function PutByte(c: byte): (b: Bytes)
    ensures 1 <= |b|
  {
    var e := EscapeLetter(c);
    if e == 0 then [c]
    else if e == LOWER_U then [BACKSLASH, LOWER_U, 0x30, 0x30, HexDigit(c / 0x10), HexDigit(c % 0x10)]
    else [BACKSLASH, e]
  }

  /** The writer escapes what section 2.5 of RFC 4627 says must be: quotation mark, reverse
      solidus and control characters; with the short escape where there is one. */
  lemma EscapesWritten(c: byte)
    ensures |PutByte(c)| == 1 <==> c >= 0x20 && c != 0x22 && c != 0x5C
    ensures |PutByte(c)| == 1 ==> PutByte(c) == [c]
    ensures |PutByte(c)| > 1 && c in ESCAPES.Values ==>
              |PutByte(c)| == 2 && PutByte(c)[0] == 0x5C && PutByte(c)[1] in ESCAPES && ESCAPES[PutByte(c)[1]] == c
    ensures c < 0x20 && c !in ESCAPES.Values ==> PutByte(c) == [0x5C, 0x75] + HexDigits(c)
  {
    assert ESCAPES[0x62] == 0x08 && ESCAPES[0x74] == 0x09 && ESCAPES[0x6E] == 0x0A && ESCAPES[0x66] == 0x0C;
    assert ESCAPES[0x72] == 0x0D && ESCAPES[0x22] == 0x22 && ESCAPES[0x5C] == 0x5C;
  }

  /** Hexadecimal digits are written in upper case. */
  lemma HexDigitIs(d: nat)
    requires d < 16
    ensures HexDigit(d) == [0x30, 0x31, 0x32, 0x33, 0x34, 0x35, 0x36, 0x37, 0x38, 0x39,
                            0x41, 0x42, 0x43, 0x44, 0x45, 0x46][d]
  {}

  /** A code point beyond ASCII as one or two escapes. */
  function PutEscape(cp: nat): (b: Bytes)
    requires Utf.Scalar(cp)
    ensures 1 <= |b|
  {
    if cp <= 0xFFFF then [BACKSLASH, LOWER_U] + HexDigits(cp)
    else
      var s := cp - 0x1_0000;
      [BACKSLASH, LOWER_U] + HexDigits(s / 0x400 + 0xD800) + [BACKSLASH, LOWER_U] + HexDigits(s % 0x400 + 0xDC00)
  }

  datatype Written = Written(ok: bool, out: Bytes)

  /** What `WriteString` puts between the quotes from position `p` on, for a UTF-8 or
      an ASCII target; `ok` is false where the source does not decode. */
  function Body(s: Bytes, p: nat, ascii: bool): Written
    requires p <= |s|
    decreases |s| - p
  {
    if p == |s| then Written(true, [])
    else if ascii && s[p] >= 0x80 then
      var d := Utf.Decode(s, p);
      Utf.DecodeExact(s, p);
      if !d.ok then Written(false, [])
      else
        var r := Body(s, d.next, ascii);
        Written(r.ok, PutEscape(d.cp) + r.out)
    else
      var r := Body(s, p + 1, ascii);
      Written(r.ok, PutByte(s[p]) + r.out)
  }

  /** The literal written for a string. */
  function Literal(s: Bytes, ascii: bool): Bytes {
    [QUOTE] + Body(s, 0, ascii).out + [QUOTE]
  }

  // ----- One piece read back -----

  lemma HexDigitValue(d: nat)
    requires d < 0x10
    ensures HexValue(HexDigit(d)) == Some(d)
  {}

  lemma HexReads(text: Bytes, p: nat, a: nat, b: nat, c: nat, d: nat)
    requires a < 0x10 && b < 0x10 && c < 0x10 && d < 0x10
    requires Has(text, p, [HexDigit(a), HexDigit(b), HexDigit(c), HexDigit(d)])
    ensures Hex4(text, p) == HexRead(true, 0x1000 * a + 0x100 * b + 0x10 * c + d, p + 4)
  {
    var part := [HexDigit(a), HexDigit(b), HexDigit(c), HexDigit(d)];
    HasAt(text, p, part, 0);
    HasAt(text, p, part, 1);
    HasAt(text, p, part, 2);
    HasAt(text, p, part, 3);
    HexDigitValue(a);
    HexDigitValue(b);
    HexDigitValue(c);
    HexDigitValue(d);
    hide HexDigit, HexValue, Has, At;
    HexSteps(text, p, [a, b, c, d]);
  }

  lemma Nibbles(v: nat)
    requires v < 0x1_0000
    ensures v == 0x1000 * (v / 0x1000) + 0x100 * (v / 0x100 % 0x10) + 0x10 * (v / 0x10 % 0x10) + v % 0x10
  {
    var q := v / 0x10;
    var r := q / 0x10;
    assert v / 0x100 == r by { assert v == 0x100 * r + (0x10 * (q % 0x10) + v % 0x10); }
    assert v / 0x1000 == r / 0x10 by { assert v == 0x1000 * (r / 0x10) + (0x100 * (r % 0x10) + v % 0x100); }
  }

  lemma HexRoundTrip(text: Bytes, p: nat, v: nat)
    requires v < 0x1_0000 && Has(text, p, HexDigits(v))
    ensures Hex4(text, p) == HexRead(true, v, p + 4)
  {
    hide Hex4, Has, HexDigit;
    Nibbles(v);
    HexReads(text, p, v / 0x1000, v / 0x100 % 0x10, v / 0x10 % 0x10, v % 0x10);
  }

  lemma ControlRead(text: Bytes, p: nat, c: byte, validate: bool)
    requires Has(text, p, PutByte(c)) && EscapeLetter(c) == LOWER_U
    ensures PieceAt(text, p, validate) == Piece([c], p + |PutByte(c)|, None) && At(text, p) != QUOTE
  {
    var b := PutByte(c);
    HasAt(text, p, b, 0);
    HasAt(text, p, b, 1);
    assert b == [BACKSLASH, LOWER_U] + [HexDigit(0), HexDigit(0), HexDigit(c / 0x10), HexDigit(c % 0x10)];
    hide HexDigit, Has;
    HasSplit(text, p, [BACKSLASH, LOWER_U], [HexDigit(0), HexDigit(0), HexDigit(c / 0x10), HexDigit(c % 0x10)]);
    HexReads(text, p + 2, 0, 0, c / 0x10, c % 0x10);
    hide Hex4;
    assert 0x10 * (c / 0x10) + c % 0x10 == c;
  }

  lemma ByteRead(text: Bytes, p: nat, c: byte, validate: bool)
    requires Has(text, p, PutByte(c)) && (validate ==> c < 0x80)
    ensures PieceAt(text, p, validate) == Piece([c], p + |PutByte(c)|, None) && At(text, p) != QUOTE
  {
    if EscapeLetter(c) == LOWER_U {
      ControlRead(text, p, c, validate);
    } else {
      HasAt(text, p, PutByte(c), 0);
      if EscapeLetter(c) != 0 { HasAt(text, p, PutByte(c), 1); }
    }
  }

  /** A well-formed sequence beyond ASCII is validated and copied. */
  lemma SequenceRead(text: Bytes, p: nat, b: Bytes)
    requires Has(text, p, b) && Utf.Utf8Sequence(b) && b[0] >= 0x80
    ensures PieceAt(text, p, true) == Piece(b, p + |b|, None) && At(text, p) != QUOTE
  {
    HasAt(text, p, b, 0);
    Utf.SequenceLength(text, p, |b|);
    Utf.DecodeExact(text, p);
    Utf.ValidateAgrees(text, p);
    hide Utf.Decode, Utf.Validate;
  }

  /** An escaped code point is read as its UTF-8 form. */
  lemma EscapeRead(text: Bytes, p: nat, cp: nat, validate: bool)
    requires Utf.Scalar(cp) && Has(text, p, PutEscape(cp))
    ensures PieceAt(text, p, validate) == Piece(Utf.Encode(cp), p + |PutEscape(cp)|, None) && At(text, p) != QUOTE
  {
    hide Hex4, HexDigits, Has, Utf.Encode;
    var b := PutEscape(cp);
    HasAt(text, p, b, 0);
    HasAt(text, p, b, 1);
    if cp <= 0xFFFF {
      HasSplit(text, p, [BACKSLASH, LOWER_U], HexDigits(cp));
      HexRoundTrip(text, p + 2, cp);
    } else {
      var s := cp - 0x1_0000;
      var lead, trail := HexDigits(s / 0x400 + 0xD800), HexDigits(s % 0x400 + 0xDC00);
      assert b[6] == BACKSLASH && b[7] == LOWER_U;
      HasAt(text, p, b, 6);
      HasAt(text, p, b, 7);
      HasSplit(text, p, [BACKSLASH, LOWER_U] + lead + [BACKSLASH, LOWER_U], trail);
      HasSplit(text, p, [BACKSLASH, LOWER_U] + lead, [BACKSLASH, LOWER_U]);
      HasSplit(text, p, [BACKSLASH, LOWER_U], lead);
      HexRoundTrip(text, p + 2, s / 0x400 + 0xD800);
      HexRoundTrip(text, p + 8, s % 0x400 + 0xDC00);
      assert 0x400 * (s / 0x400) + s % 0x400 == s;
    }
  }

  // ----- Whole strings -----

  /** The scan over one written piece. */
  lemma ScanPiece(text: Bytes, p: nat, validate: bool, out: Bytes, b: Bytes, n: nat)
    requires PieceAt(text, p, validate) == Piece(b, p + n, None) && At(text, p) != QUOTE
    ensures Scan(text, p, validate, out, None) == Scan(text, p + n, validate, out + b, None)
  {
    hide PieceAt;
  }

  /** Bytes beyond ASCII are written as they are for a UTF-8 target. */
  lemma {:induction false} HighBytes(s: Bytes, p: nat, n: nat)
    requires p + n <= |s| && forall i :: p <= i < p + n ==> s[i] >= 0x80
    ensures Body(s, p, false).out == s[p..p + n] + Body(s, p + n, false).out
    decreases n
  {
    hide Body;
    var rest := Body(s, p + n, false).out;
    if n > 0 {
      PlainUnit(s, p, false);
      HighBytes(s, p + 1, n - 1);
      assert s[p..p + n] == [s[p]] + s[p + 1..p + n];
      assert [s[p]] + (s[p + 1..p + n] + rest) == s[p..p + n] + rest;
    } else {
      assert s[p..p] + rest == rest;
    }
  }

  lemma {:induction false} BodyOk(s: Bytes, p: nat, ascii: bool)
    requires p <= |s|
    ensures !ascii ==> Body(s, p, ascii).ok
    ensures ascii ==> (Body(s, p, ascii).ok <==> Utf.WellFormed(s[p..]))
    decreases |s| - p
  {
    if p < |s| {
      Utf.WellFormedStep(s, p);
      Utf.DecodeExact(s, p);
      hide Utf.WellFormed, PutByte, PutEscape;
      if ascii && s[p] >= 0x80 {
        hide Utf.Decode;
        if Utf.Decode(s, p).ok { BodyOk(s, Utf.Decode(s, p).next, ascii); }
      } else {
        BodyOk(s, p + 1, ascii);
      }
    } else {
      assert s[p..] == [];
    }
  }

  /** `part` is what the writer puts for `s[p..q]`. */
  ghost predicate Unit(s: Bytes, p: nat, q: nat, ascii: bool, part: Bytes) {
    p < q <= |s| && Body(s, p, ascii) == Written(Body(s, q, ascii).ok, part + Body(s, q, ascii).out)
  }

  lemma UnitSplits(s: Bytes, p: nat, q: nat, ascii: bool, part: Bytes, text: Bytes, at: nat)
    requires Unit(s, p, q, ascii, part) && Has(text, at, Body(s, p, ascii).out + [QUOTE])
    ensures Has(text, at, part) && Has(text, at + |part|, Body(s, q, ascii).out + [QUOTE])
  {
    hide Body, Has;
    var rest := Body(s, q, ascii).out;
    assert part + rest + [QUOTE] == part + (rest + [QUOTE]);
    HasSplit(text, at, part, rest + [QUOTE]);
  }

  lemma PlainUnit(s: Bytes, p: nat, ascii: bool)
    requires p < |s| && (s[p] < 0x80 || !ascii)
    ensures Unit(s, p, p + 1, ascii, PutByte(s[p]))
  {}

  lemma Undecoded(s: Bytes, p: nat)
    requires p < |s| && s[p] >= 0x80 && !Utf.Decode(s, p).ok
    ensures Body(s, p, true) == Written(false, [])
  {}

  lemma EscapedUnit(s: Bytes, p: nat)
    requires p < |s| && s[p] >= 0x80 && Utf.Decode(s, p).ok
    ensures var d := Utf.Decode(s, p);
            d.ok && Utf.Scalar(d.cp) && d.next <= |s| && Utf.Encode(d.cp) == s[p..d.next]
            && Unit(s, p, d.next, true, PutEscape(d.cp))
  {
    Utf.DecodeExact(s, p);
    hide PutEscape, Utf.Decode;
  }

  lemma CopiedUnit(s: Bytes, p: nat)
    requires p < |s| && s[p] >= 0x80 && Utf.Decode(s, p).ok
    ensures var d := Utf.Decode(s, p);
            d.next <= |s| && Unit(s, p, d.next, false, s[p..d.next]) && Utf.Utf8Sequence(s[p..d.next])
  {
    hide Utf.Decode, Utf.Encode, Body;
    Utf.DecodeExact(s, p);
    var q := Utf.Decode(s, p).next;
    forall i | p <= i < q ensures s[i] >= 0x80 { assert s[i] == s[p..q][i - p]; }
    HighBytes(s, p, q - p);
    BodyOk(s, p, false);
    BodyOk(s, q, false);
  }

  lemma CodePointReads(s: Bytes, p: nat, ascii: bool, text: Bytes, at: nat, validate: bool) returns (part: Bytes)
    requires p < |s| && s[p] >= 0x80 && (ascii || validate) && Utf.Decode(s, p).ok
    requires Has(text, at, Body(s, p, ascii).out + [QUOTE])
    ensures var q := Utf.Decode(s, p).next;
            && Unit(s, p, q, ascii, part)
            && PieceAt(text, at, validate) == Piece(s[p..q], at + |part|, None) && At(text, at) != QUOTE
  {
    hide Utf.Decode, Utf.Encode, Utf.Utf8Sequence, PieceAt, Has, Body, At, PutEscape;
    var d := Utf.Decode(s, p);
    if ascii {
      EscapedUnit(s, p);
      part := PutEscape(d.cp);
      UnitSplits(s, p, d.next, ascii, part, text, at);
      EscapeRead(text, at, d.cp, validate);
    } else {
      CopiedUnit(s, p);
      part := s[p..d.next];
      UnitSplits(s, p, d.next, ascii, part, text, at);
      SequenceRead(text, at, part);
    }
  }

  lemma AsciiDecodes(s: Bytes, p: nat)
    requires p < |s|
    ensures s[p] < 0x80 ==> Utf.Decode(s, p).ok && Utf.Decode(s, p).next == p + 1
  {}

  /** Reading one written unit: which bytes of the source it covers, and its form. */
  lemma UnitReads(s: Bytes, p: nat, ascii: bool, text: Bytes, at: nat, validate: bool) returns (q: nat, part: Bytes)
    requires p < |s| && Body(s, p, ascii).ok && Has(text, at, Body(s, p, ascii).out + [QUOTE])
    requires validate ==> Utf.WellFormed(s[p..])
    ensures Unit(s, p, q, ascii, part)
    ensures PieceAt(text, at, validate) == Piece(s[p..q], at + |part|, None) && At(text, at) != QUOTE
    ensures validate ==> Utf.WellFormed(s[q..])
  {
    hide Utf.WellFormed, Utf.Decode, PieceAt, Has, Body, At, PutByte;
    Utf.WellFormedStep(s, p);
    AsciiDecodes(s, p);
    var d := Utf.Decode(s, p);
    if s[p] < 0x80 || !(ascii || validate) {
      q, part := p + 1, PutByte(s[p]);
      PlainUnit(s, p, ascii);
      UnitSplits(s, p, q, ascii, part, text, at);
      ByteRead(text, at, s[p], validate);
      assert s[p..q] == [s[p]];
    } else {
      q := d.next;
      if !d.ok { Undecoded(s, p); }
      part := CodePointReads(s, p, ascii, text, at, validate);
    }
  }

  lemma ScanEnd(s: Bytes, ascii: bool, text: Bytes, at: nat, validate: bool, out: Bytes)
    requires Has(text, at, Body(s, |s|, ascii).out + [QUOTE])
    ensures Scan(text, at, validate, out, None) == StringOk(out + s[|s|..], at + |Body(s, |s|, ascii).out| + 1)
  {
    HasAt(text, at, [QUOTE], 0);
    assert out + s[|s|..] == out;
  }

  /** What was written between the quotes scans to the string it came from. */
  lemma {:induction false} BodyReads(s: Bytes, p: nat, ascii: bool, text: Bytes, at: nat, validate: bool, out: Bytes)
    requires p <= |s| && Body(s, p, ascii).ok && Has(text, at, Body(s, p, ascii).out + [QUOTE])
    requires validate ==> Utf.WellFormed(s[p..])
    ensures Scan(text, at, validate, out, None) == StringOk(out + s[p..], at + |Body(s, p, ascii).out| + 1)
    decreases |s| - p
  {
    hide Body, Scan, Has, PieceAt, Utf.WellFormed, At;
    if p == |s| {
      ScanEnd(s, ascii, text, at, validate, out);
    } else {
      var q, part := UnitReads(s, p, ascii, text, at, validate);
      UnitSplits(s, p, q, ascii, part, text, at);
      ScanPiece(text, at, validate, out, s[p..q], |part|);
      BodyReads(s, q, ascii, text, at + |part|, validate, out + s[p..q]);
      assert out + s[p..q] + s[q..] == out + s[p..];
    }
  }

  lemma HighByte(s: Bytes, p: nat, text: Bytes, at: nat)
    requires p <= |s| && Has(text, at, Body(s, p, false).out + [QUOTE])
    requires (p < |s| && s[p] >= 0x80) || At(text, at) >= 0x80
    ensures p < |s| && at < |text| && s[p] == text[at] && Has(text, at + 1, Body(s, p + 1, false).out + [QUOTE])
  {
    HasAt(text, at, Body(s, p, false).out + [QUOTE], 0);
    PlainUnit(s, p, false);
    UnitSplits(s, p, p + 1, false, PutByte(s[p]), text, at);
  }

  /** Bytes beyond ASCII in the text are bytes of the source, in place. */
  lemma {:induction false} HighPrefix(s: Bytes, p: nat, text: Bytes, at: nat, n: nat)
    requires p <= |s| && Has(text, at, Body(s, p, false).out + [QUOTE])
    requires at + n <= |text| && forall i :: at <= i < at + n ==> text[i] >= 0x80
    ensures p + n <= |s| && s[p..p + n] == text[at..at + n]
    decreases n
  {
    hide Body, Has;
    if n > 0 {
      HighByte(s, p, text, at);
      HighPrefix(s, p + 1, text, at + 1, n - 1);
      assert s[p..p + n] == [s[p]] + s[p + 1..p + 1 + (n - 1)];
      assert text[at..at + n] == [text[at]] + text[at + 1..at + 1 + (n - 1)];
    }
  }

  lemma SequenceHigh(text: Bytes, at: nat, n: nat)
    requires at < |text| && text[at] >= 0x80 && Utf.SequenceAt(text, at, n)
    ensures forall i :: at <= i < at + n ==> text[i] >= 0x80
  {
    forall i | at <= i < at + n ensures text[i] >= 0x80 { assert text[i] == text[at..at + n][i - at]; }
  }

  lemma Malformed(s: Bytes, p: nat, text: Bytes, at: nat)
    requires p < |s| && s[p] >= 0x80 && !Utf.Decode(s, p).ok && Has(text, at, Body(s, p, false).out + [QUOTE])
    ensures at < |text| && text[at] == s[p] && !Utf.Decode(text, at).ok
  {
    Utf.DecodeExact(s, p);
    hide Utf.Decode, Utf.Utf8Sequence, Body, Has;
    HighByte(s, p, text, at);
    Utf.DecodeExact(text, at);
    var n := Utf.Announced(s[p]);
    if Utf.SequenceAt(text, at, n) {
      SequenceHigh(text, at, n);
      HighPrefix(s, p, text, at, n);
    }
  }

  lemma MalformedRead(s: Bytes, p: nat, text: Bytes, at: nat)
    requires p < |s| && s[p] >= 0x80 && !Utf.Decode(s, p).ok && Has(text, at, Body(s, p, false).out + [QUOTE])
    ensures PieceAt(text, at, true) == Bad(StringInvalidEncoding) && At(text, at) != QUOTE
  {
    Malformed(s, p, text, at);
    Utf.ValidateAgrees(text, at);
    hide Utf.Decode, Utf.Validate, Body, Has;
  }

  lemma MalformedTail(s: Bytes, p: nat)
    requires p <= |s| && !Utf.WellFormed(s[p..])
    ensures p < |s|
  {}

  /** A validating reader refuses the literal of a malformed string. */
  lemma {:induction false} BodyRefused(s: Bytes, p: nat, text: Bytes, at: nat, out: Bytes)
    requires p <= |s| && Has(text, at, Body(s, p, false).out + [QUOTE]) && !Utf.WellFormed(s[p..])
    ensures Scan(text, at, true, out, None) == StringBad(StringInvalidEncoding)
    decreases |s| - p
  {
    hide Utf.WellFormed, Utf.Utf8Sequence, Utf.Decode, Utf.Encode, Has, Body, PieceAt, PutByte;
    MalformedTail(s, p);
    Utf.WellFormedStep(s, p);
    var d := Utf.Decode(s, p);
    Utf.DecodeExact(s, p);
    AsciiDecodes(s, p);
    if d.ok {
      var part: Bytes;
      if s[p] < 0x80 {
        part := PutByte(s[p]);
        PlainUnit(s, p, false);
        UnitSplits(s, p, d.next, false, part, text, at);
        ByteRead(text, at, s[p], true);
        assert s[p..d.next] == [s[p]];
      } else {
        part := s[p..d.next];
        CopiedUnit(s, p);
        UnitSplits(s, p, d.next, false, part, text, at);
        SequenceRead(text, at, part);
      }
      ScanPiece(text, at, true, out, s[p..d.next], |part|);
      BodyRefused(s, d.next, text, at + |part|, out + s[p..d.next]);
    } else {
      MalformedRead(s, p, text, at);
    }
  }

  /** The round trip of string literals, in any text. A UTF-8 target writes every byte
      string, and an ASCII target exactly the well-formed ones. What was written is
      read back unchanged, except that a validating reader refuses a malformed string. */
  lemma LiteralRoundTrip(s: Bytes, ascii: bool, validate: bool, text: Bytes, at: nat)
    requires Has(text, at, Literal(s, ascii))
    ensures Body(s, 0, ascii).ok <==> (ascii ==> Utf.WellFormed(s))
    ensures Body(s, 0, ascii).ok ==>
              ReadString(text, at, validate) ==
              if validate ==> Utf.WellFormed(s) then StringOk(s, at + |Literal(s, ascii)|)
              else StringBad(StringInvalidEncoding)
  {
    BodyOk(s, 0, ascii);
    assert s[0..] == s && [] + s[0..] == s;
    hide Body, Scan, Has, Utf.WellFormed;
    var out := Body(s, 0, ascii).out;
    assert [QUOTE] + out + [QUOTE] == [QUOTE] + (out + [QUOTE]);
    HasSplit(text, at, [QUOTE], out + [QUOTE]);
    if Body(s, 0, ascii).ok {
      if validate ==> Utf.WellFormed(s) {
        BodyReads(s, 0, ascii, text, at + 1, validate, []);
      } else {
        BodyRefused(s, 0, text, at + 1, []);
      }
    }
  }

  predicate Ascii(b: Bytes) {
    forall i :: 0 <= i < |b| ==> b[i] < 0x80
  }

  lemma EscapeAscii(cp: nat)
    requires Utf.Scalar(cp)
    ensures Ascii(PutEscape(cp))
  {}

  lemma {:induction false} BodyAscii(s: Bytes, p: nat)
    requires p <= |s|
    ensures Ascii(Body(s, p, true).out)
    decreases |s| - p
  {
    hide PutEscape, Utf.Decode, Utf.Encode, Utf.Utf8Sequence;
    if p < |s| {
      if s[p] < 0x80 {
        BodyAscii(s, p + 1);
      } else {
        Utf.DecodeExact(s, p);
        var d := Utf.Decode(s, p);
        if d.ok {
          BodyAscii(s, d.next);
          EscapeAscii(d.cp);
        }
      }
    }
  }

  /** An ASCII target receives ASCII only. */
  lemma LiteralAscii(s: Bytes)
    ensures Ascii(Literal(s, true))
  {
    BodyAscii(s, 0);
  }
}
