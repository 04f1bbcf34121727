/** UTF-8 and UTF-16 code units and the transcoder between them. */
module Utf {
  import opened Words

  /** The unit at a position; a zero terminates the text. */
  function At<T>(s: seq<T>, p: nat, zero: T): T {
    if p < |s| then s[p] else zero
  }

  /** Unicode scalar values: code points that are not surrogates. */
  predicate Scalar(cp: nat) {
    cp < 0xD800 || 0xE000 <= cp <= 0x10FFFF
  }

  // ----- Section 4 of RFC 3629 -----

  predicate Tail(c: byte) {
    0x80 <= c <= 0xBF
  }

  predicate Utf8Sequence(b: Bytes) {
    || (|b| == 1 && b[0] <= 0x7F)
    || (|b| == 2 && 0xC2 <= b[0] <= 0xDF && Tail(b[1]))
    || (|b| == 3 && Tail(b[2]) &&
        (|| (b[0] == 0xE0 && 0xA0 <= b[1] <= 0xBF)
         || (0xE1 <= b[0] <= 0xEC && Tail(b[1]))
         || (b[0] == 0xED && 0x80 <= b[1] <= 0x9F)
         || (0xEE <= b[0] <= 0xEF && Tail(b[1]))))
    || (|b| == 4 && Tail(b[2]) && Tail(b[3]) &&
        (|| (b[0] == 0xF0 && 0x90 <= b[1] <= 0xBF)
         || (0xF1 <= b[0] <= 0xF3 && Tail(b[1]))
         || (b[0] == 0xF4 && 0x80 <= b[1] <= 0x8F)))
  }

  /** Concatenations of well-formed sequences. */
  predicate WellFormed(s: Bytes)
    decreases |s|
  {
    s == [] || exists n :: 1 <= n <= 4 && n <= |s| && Utf8Sequence(s[..n]) && WellFormed(s[n..])
  }

  // ----- The code: UTF-8 -----

  /** `UTF8::Encode`. The fields of each byte occupy disjoint bits. */
  function Encode(cp: nat): (b: Bytes)
    requires cp <= 0x10FFFF
    ensures 1 <= |b| <= 4
  {
    if cp <= 0x7F then [cp]
    else if cp <= 0x7FF then [0xC0 + cp / 0x40, 0x80 + cp % 0x40]
    else if cp <= 0xFFFF then [0xE0 + cp / 0x1000, 0x80 + cp / 0x40 % 0x40, 0x80 + cp % 0x40]
    else [0xF0 + cp / 0x4_0000, 0x80 + cp / 0x1000 % 0x40, 0x80 + cp / 0x40 % 0x40, 0x80 + cp % 0x40]
  }

  /** Encoding by the bits of section 3 of RFC 3629: each length holds the code points that
      need it, six bits a byte behind the first, most significant first. */
  lemma EncodeMeans(cp: nat)
    requires cp <= 0x10FFFF
    ensures var b := Encode(cp);
            && |b| == (if cp < 0x80 then 1 else if cp < 0x800 then 2 else if cp < 0x1_0000 then 3 else 4)
            && (|b| == 1 ==> b[0] == cp)
            && (|b| == 2 ==> cp == 0x40 * (b[0] as int - 0xC0) + (b[1] as int - 0x80))
            && (|b| == 3 ==> cp == 0x1000 * (b[0] as int - 0xE0) + 0x40 * (b[1] as int - 0x80) + (b[2] as int - 0x80))
            && (|b| == 4 ==> cp == 0x4_0000 * (b[0] as int - 0xF0) + 0x1000 * (b[1] as int - 0x80)
                                   + 0x40 * (b[2] as int - 0x80) + (b[3] as int - 0x80))
            && forall i :: 0 < i < |b| ==> 0x80 <= b[i] < 0xC0
  {
    SextetsOf(cp);
  }

  /** The class table `GetRange`. */
  function Range(c: byte): byte {
    if c < 0x80 then 0
    else if c < 0x90 then 0x10
    else if c < 0xA0 then 0x40
    else if c < 0xC0 then 0x20
    else if c < 0xC2 then 8
    else if c < 0xE0 then 2
    else if c == 0xE0 then 10
    else if c < 0xED then 3
    else if c == 0xED then 4
    else if c < 0xF0 then 3
    else if c == 0xF0 then 11
    else if c < 0xF4 then 6
    else if c == 0xF4 then 5
    else 8
  }

  /** Whether a class and a mask share a bit; masks use bits 4 to 6 only. */
  predicate Meets(range: byte, mask: byte) {
    || (range / 0x10 % 2 == 1 && mask / 0x10 % 2 == 1)
    || (range / 0x20 % 2 == 1 && mask / 0x20 % 2 == 1)
    || (range / 0x40 % 2 == 1 && mask / 0x40 % 2 == 1)
  }

  /** The masks the following bytes are tested with, by class of the first byte. */
  function Masks(range: byte): Option<Bytes> {
    match range
    case 2 => Some([0x70])
    case 3 => Some([0x70, 0x70])
    case 4 => Some([0x50, 0x70])
    case 5 => Some([0x10, 0x70, 0x70])
    case 6 => Some([0x70, 0x70, 0x70])
    case 10 => Some([0x20, 0x70])
    case 11 => Some([0x60, 0x70, 0x70])
    case _ => None
  }

  /** `(0xFF >> range) & c`. */
  function LeadBits(range: byte, c: byte): nat {
    match range
    case 2 => c % 0x40
    case 3 => c % 0x20
    case 4 => c % 0x10
    case 5 => c % 8
    case 6 => c % 4
    case _ => 0
  }

  /** Six more bits of a code point. */
  function Join(cp: nat, c: byte): nat {
    cp * 0x40 + c % 0x40
  }

  datatype Decoded = Decoded(ok: bool, cp: nat, next: nat)

  /** Take one byte per mask, whatever the earlier tests said. */
  function Follow(s: Bytes, p: nat, masks: Bytes, cp: nat, ok: bool): Decoded
    decreases |masks|
  {
    if masks == [] then Decoded(ok, cp, p)
    else
      var c := At(s, p, 0);
      Follow(s, p + 1, masks[1..], Join(cp, c), ok && Meets(Range(c), masks[0]))
  }

  /** `UTF8::Decode` at position `p`. */
  function Decode(s: Bytes, p: nat): Decoded {
    var c := At(s, p, 0);
    if c < 0x80 then Decoded(true, c, p + 1)
    else match Masks(Range(c))
      case None => Decoded(false, LeadBits(Range(c), c), p + 1)
      case Some(masks) => Follow(s, p + 1, masks, LeadBits(Range(c), c), true)
  }

  datatype Validated = Validated(ok: bool, copied: Bytes, next: nat)

  function CopyTail(s: Bytes, p: nat, masks: Bytes, copied: Bytes, ok: bool): Validated
    decreases |masks|
  {
    if masks == [] then Validated(ok, copied, p)
    else
      var c := At(s, p, 0);
      CopyTail(s, p + 1, masks[1..], copied + [c], ok && Meets(Range(c), masks[0]))
  }

  /** `UTF8::Validate` at position `p`. */
  function Validate(s: Bytes, p: nat): Validated {
    var c := At(s, p, 0);
    if c < 0x80 then Validated(true, [c], p + 1)
    else match Masks(Range(c))
      case None => Validated(false, [c], p + 1)
      case Some(masks) => CopyTail(s, p + 1, masks, [c], true)
  }

  // ----- Decoding accepts exactly the well-formed sequences -----

  lemma Follow1(s: Bytes, p: nat, m: byte, cp: nat, ok: bool)
    ensures Follow(s, p, [m], cp, ok) ==
            Decoded(ok && Meets(Range(At(s, p, 0)), m), Join(cp, At(s, p, 0)), p + 1)
  {}

  lemma Follow2(s: Bytes, p: nat, m0: byte, m1: byte, cp: nat)
    ensures var c0, c1 := At(s, p, 0), At(s, p + 1, 0);
            Follow(s, p, [m0, m1], cp, true) ==
            Decoded(Meets(Range(c0), m0) && Meets(Range(c1), m1),
                    Join(Join(cp, c0), c1), p + 2)
  {
    hide Meets, Range;
    assert [m0, m1][1..] == [m1];
    Follow1(s, p + 1, m1, Join(cp, At(s, p, 0)), Meets(Range(At(s, p, 0)), m0));
  }

  lemma Follow3(s: Bytes, p: nat, m0: byte, m1: byte, m2: byte, cp: nat)
    ensures var c0, c1, c2 := At(s, p, 0), At(s, p + 1, 0), At(s, p + 2, 0);
            Follow(s, p, [m0, m1, m2], cp, true) ==
            Decoded(Meets(Range(c0), m0) && Meets(Range(c1), m1) && Meets(Range(c2), m2),
                    Join(Join(Join(cp, c0), c1), c2), p + 3)
  {
    hide Meets, Range;
    var c0, c1 := At(s, p, 0), At(s, p + 1, 0);
    assert [m0, m1, m2][1..] == [m1, m2] && [m1, m2][1..] == [m2];
    var cp1 := Join(cp, c0);
    var ok1 := Meets(Range(c0), m0);
    assert Follow(s, p, [m0, m1, m2], cp, true) == Follow(s, p + 1, [m1, m2], cp1, ok1);
    assert Follow(s, p + 1, [m1, m2], cp1, ok1) == Follow(s, p + 2, [m2], Join(cp1, c1), ok1 && Meets(Range(c1), m1));
    Follow1(s, p + 2, m2, Join(cp1, c1), ok1 && Meets(Range(c1), m1));
  }

  /** What the masks stand for. */
  lemma MaskMeaning(c: byte)
    ensures Meets(Range(c), 0x70) <==> Tail(c)
    ensures Meets(Range(c), 0x50) <==> 0x80 <= c <= 0x9F
    ensures Meets(Range(c), 0x10) <==> 0x80 <= c <= 0x8F
    ensures Meets(Range(c), 0x20) <==> 0xA0 <= c <= 0xBF
    ensures Meets(Range(c), 0x60) <==> 0x90 <= c <= 0xBF
  {}

  /** The row of the tables for a first byte. */
  lemma Lead(c: byte)
    ensures 0xC2 <= c <= 0xDF ==> Masks(Range(c)) == Some([0x70]) && LeadBits(Range(c), c) == c % 0x40
    ensures 0xE0 <= c <= 0xEF ==>
              && Masks(Range(c)) == Some([if c == 0xE0 then 0x20 else if c == 0xED then 0x50 else 0x70, 0x70])
              && LeadBits(Range(c), c) == c % 0x10
    ensures 0xF0 <= c <= 0xF4 ==>
              && Masks(Range(c)) == Some([if c == 0xF0 then 0x60 else if c == 0xF4 then 0x10 else 0x70, 0x70, 0x70])
              && LeadBits(Range(c), c) == c % 8
  {}

  lemma Decode2(s: Bytes, p: nat)
    requires p < |s| && 0xC2 <= s[p] <= 0xDF
    ensures Decode(s, p) == Decoded(Tail(At(s, p + 1, 0)), Join(s[p] % 0x40, At(s, p + 1, 0)), p + 2)
  {
    hide Follow, Meets, Join, Masks, LeadBits, Range;
    Lead(s[p]);
    Follow1(s, p + 1, 0x70, s[p] % 0x40, true);
    MaskMeaning(At(s, p + 1, 0));
  }

  lemma Decode3(s: Bytes, p: nat)
    requires p < |s| && 0xE0 <= s[p] <= 0xEF
    ensures var c, c0, c1 := s[p], At(s, p + 1, 0), At(s, p + 2, 0);
            var lo := if c == 0xE0 then 0xA0 else 0x80;
            var hi := if c == 0xED then 0x9F else 0xBF;
            Decode(s, p) == Decoded(lo <= c0 <= hi && Tail(c1), Join(Join(c % 0x10, c0), c1), p + 3)
  {
    hide Follow, Meets, Join, Masks, LeadBits, Range;
    var c := s[p];
    Lead(c);
    MaskMeaning(At(s, p + 1, 0));
    MaskMeaning(At(s, p + 2, 0));
    Follow2(s, p + 1, if c == 0xE0 then 0x20 else if c == 0xED then 0x50 else 0x70, 0x70, c % 0x10);
  }

  lemma Decode4(s: Bytes, p: nat)
    requires p < |s| && 0xF0 <= s[p] <= 0xF4
    ensures var c, c0, c1, c2 := s[p], At(s, p + 1, 0), At(s, p + 2, 0), At(s, p + 3, 0);
            var lo := if c == 0xF0 then 0x90 else 0x80;
            var hi := if c == 0xF4 then 0x8F else 0xBF;
            Decode(s, p) == Decoded(lo <= c0 <= hi && Tail(c1) && Tail(c2),
                                    Join(Join(Join(c % 8, c0), c1), c2), p + 4)
  {
    hide Follow, Meets, Join, Masks, LeadBits, Range;
    var c := s[p];
    Lead(c);
    MaskMeaning(At(s, p + 1, 0));
    MaskMeaning(At(s, p + 2, 0));
    MaskMeaning(At(s, p + 3, 0));
    Follow3(s, p + 1, if c == 0xF0 then 0x60 else if c == 0xF4 then 0x10 else 0x70, 0x70, 0x70, c % 8);
  }

  /** A well-formed sequence of `n` bytes at `p`. */
  predicate SequenceAt(s: Bytes, p: nat, n: nat) {
    p + n <= |s| && Utf8Sequence(s[p..p + n])
  }

  /** The length the first byte announces. */
  function Announced(c: byte): nat {
    if c < 0x80 then 1 else if c < 0xE0 then 2 else if c < 0xF0 then 3 else 4
  }

  lemma SequenceLength(s: Bytes, p: nat, n: nat)
    requires p < |s| && 0 < n && SequenceAt(s, p, n)
    ensures n == Announced(s[p]) && !(0x80 <= s[p] < 0xC2) && s[p] <= 0xF4
  {}

  /** What decoding at `p` promises. */
  predicate Exact(s: Bytes, p: nat, d: Decoded)
    requires p < |s|
  {
    && p < d.next
    && (d.ok <==> SequenceAt(s, p, Announced(s[p])))
    && (d.ok ==> d.next == p + Announced(s[p]) && Scalar(d.cp) && Encode(d.cp) == s[p..d.next])
  }

  lemma Exact2(s: Bytes, p: nat)
    requires p < |s| && 0xC2 <= s[p] <= 0xDF
    ensures Exact(s, p, Decode(s, p))
  {
    hide Decode, Encode, Join;
    Decode2(s, p);
    if p + 2 <= |s| {
      assert s[p..p + 2] == [s[p], s[p + 1]];
      if Decode(s, p).ok { Encode2(s[p], s[p + 1]); }
    }
  }

  lemma Encode2(c: byte, c0: byte)
    requires Utf8Sequence([c, c0])
    ensures var cp := Join(c % 0x40, c0);
            Scalar(cp) && Encode(cp) == [c, c0]
  {
    assert c % 0x40 == c - 0xC0 && c0 % 0x40 == c0 - 0x80;
  }

  lemma Exact3(s: Bytes, p: nat)
    requires p < |s| && 0xE0 <= s[p] <= 0xEF
    ensures Exact(s, p, Decode(s, p))
  {
    hide Decode, Encode, Join;
    Decode3(s, p);
    if p + 3 <= |s| {
      assert s[p..p + 3] == [s[p], s[p + 1], s[p + 2]];
      if Decode(s, p).ok { Encode3(s[p], s[p + 1], s[p + 2]); }
    }
  }

  lemma Encode3(c: byte, c0: byte, c1: byte)
    requires Utf8Sequence([c, c0, c1])
    ensures var cp := Join(Join(c % 0x10, c0), c1);
            Scalar(cp) && Encode(cp) == [c, c0, c1]
  {
    var a, b, e := c - 0xE0, c0 - 0x80, c1 - 0x80;
    assert Join(Join(c % 0x10, c0), c1) == 0x1000 * a + 0x40 * b + e;
    Sextets(0, a, b, e);
  }

  /** The fields `Encode` extracts from a code point given by its sextets. */
  lemma Sextets(a: nat, b: nat, e: nat, f: nat)
    requires b < 0x40 && e < 0x40 && f < 0x40
    ensures var cp := 0x4_0000 * a + 0x1000 * b + 0x40 * e + f;
            && cp / 0x4_0000 == a && cp / 0x1000 == 0x40 * a + b && cp / 0x1000 % 0x40 == b
            && cp / 0x40 % 0x40 == e && cp % 0x40 == f
  {
    var cp := 0x4_0000 * a + 0x1000 * b + 0x40 * e + f;
    assert cp == 0x1000 * (0x40 * a + b) + (0x40 * e + f);
    assert cp == 0x40 * (0x1000 * a + 0x40 * b + e) + f;
    assert cp / 0x40 == 0x40 * (0x40 * a + b) + e;
  }

  lemma Exact4(s: Bytes, p: nat)
    requires p < |s| && 0xF0 <= s[p] <= 0xF4
    ensures Exact(s, p, Decode(s, p))
  {
    hide Decode, Encode, Join;
    Decode4(s, p);
    if p + 4 <= |s| {
      assert s[p..p + 4] == [s[p], s[p + 1], s[p + 2], s[p + 3]];
      if Decode(s, p).ok { Encode4(s[p], s[p + 1], s[p + 2], s[p + 3]); }
    }
  }

  lemma Joined(c: byte, c0: byte, c1: byte, c2: byte)
    requires 0xF0 <= c <= 0xF4 && Tail(c0) && Tail(c1) && Tail(c2)
    ensures Join(Join(Join(c % 8, c0), c1), c2)
         == 0x4_0000 * (c as int - 0xF0) + 0x1000 * (c0 as int - 0x80) + 0x40 * (c1 as int - 0x80) + (c2 as int - 0x80)
  {
    assert c % 8 == c - 0xF0 && c0 % 0x40 == c0 - 0x80 && c1 % 0x40 == c1 - 0x80 && c2 % 0x40 == c2 - 0x80;
  }

  lemma Encode4(c: byte, c0: byte, c1: byte, c2: byte)
    requires Utf8Sequence([c, c0, c1, c2])
    ensures var cp := Join(Join(Join(c % 8, c0), c1), c2);
            Scalar(cp) && Encode(cp) == [c, c0, c1, c2]
  {
    var a, b, e, f := c - 0xF0, c0 - 0x80, c1 - 0x80, c2 - 0x80;
    Joined(c, c0, c1, c2);
    Sextets(a, b, e, f);
  }

  /** `Decode` succeeds exactly on a well-formed sequence, yields a scalar value, and
      encoding that value gives back the bytes consumed. */
  lemma DecodeExact(s: Bytes, p: nat)
    requires p < |s|
    ensures Exact(s, p, Decode(s, p))
  {
    var c := s[p];
    if c < 0x80 {
      assert s[p..p + 1] == [c];
    } else if 0xC2 <= c <= 0xDF {
      Exact2(s, p);
    } else if 0xE0 <= c <= 0xEF {
      Exact3(s, p);
    } else if 0xF0 <= c <= 0xF4 {
      Exact4(s, p);
    }
  }

  // ----- Encoding and decoding are inverse -----

  lemma Quotient(x: nat, a: nat, b: nat, q: nat, r: nat)
    requires 0 <= r < 0x40 && b < 0x40 && q == 0x40 * a + b && x == 0x40 * q + r
    ensures x / 0x1000 == a
  {
    assert x == 0x1000 * a + (0x40 * b + r);
  }

  lemma SextetsOf(cp: nat)
    ensures cp == 0x1000 * (cp / 0x1000) + 0x40 * (cp / 0x40 % 0x40) + cp % 0x40
    ensures cp / 0x1000 == 0x40 * (cp / 0x4_0000) + cp / 0x1000 % 0x40
  {
    Quotient(cp, cp / 0x40 / 0x40, cp / 0x40 % 0x40, cp / 0x40, cp % 0x40);
    assert cp / 0x4_0000 == cp / 0x1000 / 0x40;
  }

  lemma EncodeInjective(x: nat, y: nat)
    requires x <= 0x10FFFF && y <= 0x10FFFF && Encode(x) == Encode(y)
    ensures x == y
  {
    SextetsOf(x);
    SextetsOf(y);
    var n := |Encode(x)|;
    assert forall i :: 0 <= i < n ==> Encode(x)[i] == Encode(y)[i];
    if n == 1 {
      assert Encode(x)[0] == x && Encode(y)[0] == y;
    } else if n == 2 {
      assert x / 0x40 == y / 0x40 && x % 0x40 == y % 0x40;
    } else if n == 3 {
      assert x / 0x1000 == y / 0x1000 && x / 0x40 % 0x40 == y / 0x40 % 0x40 && x % 0x40 == y % 0x40;
    } else {
      assert x / 0x4_0000 == y / 0x4_0000 && x / 0x1000 % 0x40 == y / 0x1000 % 0x40;
      assert x / 0x40 % 0x40 == y / 0x40 % 0x40 && x % 0x40 == y % 0x40;
    }
  }

  lemma EncodeWellFormed(cp: nat)
    requires Scalar(cp)
    ensures Utf8Sequence(Encode(cp)) && |Encode(cp)| == Announced(Encode(cp)[0])
  {
    SextetsOf(cp);
  }

  /** Decoding what was encoded, anywhere in a text. */
  lemma DecodeEncode(before: Bytes, cp: nat, after: Bytes)
    requires Scalar(cp)
    ensures Decode(before + Encode(cp) + after, |before|) == Decoded(true, cp, |before| + |Encode(cp)|)
  {
    var b := Encode(cp);
    var s, p := before + b + after, |before|;
    EncodeWellFormed(cp);
    assert s[p..p + |b|] == b && s[p] == b[0];
    DecodeExact(s, p);
    hide Encode, Decode, Utf8Sequence;
    EncodeInjective(cp, Decode(s, p).cp);
  }

  // ----- Validation -----

  lemma {:induction false} CopyFollows(s: Bytes, p: nat, masks: Bytes, copied: Bytes, cp: nat, ok: bool)
    ensures var v, d := CopyTail(s, p, masks, copied, ok), Follow(s, p, masks, cp, ok);
            && v.ok == d.ok && v.next == d.next == p + |masks|
            && (p + |masks| <= |s| ==> v.copied == copied + s[p..p + |masks|])
    decreases |masks|
  {
    if masks == [] {
      if p <= |s| { assert s[p..p] == []; }
    } else {
      var c := At(s, p, 0);
      CopyFollows(s, p + 1, masks[1..], copied + [c], Join(cp, c), ok && Meets(Range(c), masks[0]));
      if p + |masks| <= |s| { assert s[p..p + |masks|] == [c] + s[p + 1..p + |masks|]; }
    }
  }

  /** `Validate` gives the verdict of `Decode`, stops where it stops, and copies the
      bytes it accepts. */
  lemma ValidateAgrees(s: Bytes, p: nat)
    requires p < |s|
    ensures var v, d := Validate(s, p), Decode(s, p);
            && v.ok == d.ok && v.next == d.next
            && (v.ok ==> v.next <= |s| && v.copied == s[p..v.next])
  {
    DecodeExact(s, p);
    var c := s[p];
    if c >= 0x80 && Masks(Range(c)).Some? {
      CopyFollows(s, p + 1, Masks(Range(c)).value, [c], LeadBits(Range(c), c), true);
      hide Masks, Range, LeadBits, Exact;
      var n := Validate(s, p).next;
      if n <= |s| { assert s[p..n] == [c] + s[p + 1..n]; }
    }
  }

  // ----- UTF-16 (section 2 of RFC 2781) and transcoding -----

  type unit = x: int | 0 <= x < 0x1_0000

  /** `UTF16::Encode`. */
  function Encode16(cp: nat): (u: seq<unit>)
    requires Scalar(cp)
    ensures 1 <= |u| <= 2
  {
    if cp <= 0xFFFF then [cp]
    else
      var v := cp - 0x1_0000;
      [v / 0x400 + 0xD800, v % 0x400 + 0xDC00]
  }

  /** `UTF16::Decode`. */
  function Decode16(u: seq<unit>, p: nat): (d: Decoded)
    requires p < |u|
    ensures d.ok ==> Scalar(d.cp) && p < d.next <= |u|
  {
    var c: int := u[p];
    if c < 0xD800 || c > 0xDFFF then Decoded(true, c, p + 1)
    else if c <= 0xDBFF then
      var c': int := At(u, p + 1, 0);
      Decoded(0xDC00 <= c' <= 0xDFFF, c % 0x400 * 0x400 + c' % 0x400 + 0x1_0000, p + 2)
    else Decoded(false, 0, p + 1)
  }

  /** Section 2.1 of RFC 2781: one unit below 2^16, else a high and a low surrogate. */
  lemma Encode16Means(cp: nat)
    requires Scalar(cp)
    ensures var u := Encode16(cp);
            if cp < 0x1_0000 then u == [cp]
            else
              && |u| == 2 && 0xD800 <= u[0] <= 0xDBFF && 0xDC00 <= u[1] <= 0xDFFF
              && cp == 0x1_0000 + 0x400 * (u[0] as int - 0xD800) + (u[1] as int - 0xDC00)
  {}

  /** What decodes is a unit that is no surrogate, or a pair of surrogates, and it decodes to
      the code point that encodes to it. */
  lemma Decode16Exact(u: seq<unit>, p: nat)
    requires p < |u|
    ensures var d := Decode16(u, p);
            && (d.ok <==> !(0xD800 <= u[p] <= 0xDFFF) ||
                          (u[p] <= 0xDBFF && p + 1 < |u| && 0xDC00 <= u[p + 1] <= 0xDFFF))
            && (d.ok ==> Encode16(d.cp) == u[p..d.next])
  {}

  lemma DecodeEncode16(cp: nat, after: seq<unit>)
    requires Scalar(cp)
    ensures Decode16(Encode16(cp) + after, 0) == Decoded(true, cp, |Encode16(cp)|)
  {}

  /** Transcode code point by code point; `None` at the first that does not decode. */
  function ToUtf16(s: Bytes): Option<seq<unit>>
    decreases |s|
  {
    if s == [] then Some([])
    else
      var d := Decode(s, 0);
      DecodeExact(s, 0);
      if !d.ok then None
      else match ToUtf16(s[d.next..])
        case None => None
        case Some(rest) => Some(Encode16(d.cp) + rest)
  }

  function FromUtf16(u: seq<unit>): Option<Bytes>
    decreases |u|
  {
    if u == [] then Some([])
    else
      var d := Decode16(u, 0);
      if !d.ok then None
      else match FromUtf16(u[d.next..])
        case None => None
        case Some(rest) => Some(Encode(d.cp) + rest)
  }

  /** Well-formedness is what a sequence of decodings finds. */
  lemma WellFormedStep(s: Bytes, p: nat)
    requires p < |s|
    ensures var d := Decode(s, p);
            WellFormed(s[p..]) <==> d.ok && d.next <= |s| && WellFormed(s[d.next..])
  {
    hide Decode, Encode, Utf8Sequence, WellFormed, Announced;
    var d := Decode(s, p);
    DecodeExact(s, p);
    AnnouncedBounds(s[p]);
    if WellFormed(s[p..]) {
      var n := FirstSequence(s, p);
      SequenceLength(s, p, n);
    }
    if d.ok && d.next <= |s| && WellFormed(s[d.next..]) {
      SequenceFirst(s, p, d.next - p);
    }
  }

  lemma AnnouncedBounds(c: byte)
    ensures 1 <= Announced(c) <= 4
  {}

  lemma FirstSequence(s: Bytes, p: nat) returns (n: nat)
    requires p < |s| && WellFormed(s[p..])
    ensures 0 < n && SequenceAt(s, p, n) && WellFormed(s[p + n..])
  {
    hide Utf8Sequence;
    var t := s[p..];
    n :| 1 <= n <= 4 && n <= |t| && Utf8Sequence(t[..n]) && WellFormed(t[n..]);
    assert s[p..p + n] == t[..n] && s[p + n..] == t[n..];
  }

  lemma SequenceFirst(s: Bytes, p: nat, n: nat)
    requires p < |s| && 1 <= n <= 4 && SequenceAt(s, p, n) && WellFormed(s[p + n..])
    ensures WellFormed(s[p..])
  {
    hide Utf8Sequence;
    var t := s[p..];
    assert s[p..p + n] == t[..n] && s[p + n..] == t[n..];
  }

  lemma ToUtf16Step(s: Bytes)
    requires s != []
    ensures var d := Decode(s, 0);
            ToUtf16(s) == if !d.ok || !Scalar(d.cp) || d.next > |s| then None
                          else match ToUtf16(s[d.next..])
                          case None => None
                          case Some(rest) => Some(Encode16(d.cp) + rest)
  {
    DecodeExact(s, 0);
    hide Decode, Encode16;
  }

  lemma FromUtf16Step(cp: nat, rest: seq<unit>)
    requires Scalar(cp)
    ensures FromUtf16(Encode16(cp) + rest) == match FromUtf16(rest)
                                              case None => None
                                              case Some(s) => Some(Encode(cp) + s)
  {
    DecodeEncode16(cp, rest);
    hide Encode, Encode16, Decode16;
    assert (Encode16(cp) + rest)[|Encode16(cp)|..] == rest;
  }

  /** UTF-8 transcodes to UTF-16 exactly when it is well-formed, and back to itself. */
  lemma {:induction false} TranscodeRoundTrip(s: Bytes)
    ensures ToUtf16(s).Some? <==> WellFormed(s)
    ensures WellFormed(s) ==> FromUtf16(ToUtf16(s).value) == Some(s)
    decreases |s|
  {
    if s != [] {
      RoundTripStep(s);
    }
  }

  lemma {:induction false} RoundTripStep(s: Bytes)
    requires s != []
    ensures ToUtf16(s).Some? <==> WellFormed(s)
    ensures WellFormed(s) ==> FromUtf16(ToUtf16(s).value) == Some(s)
    decreases |s|, 0
  {
    hide Decode, Encode, Encode16, Decode16, WellFormed, ToUtf16, FromUtf16, Utf8Sequence;
    var d := Decode(s, 0);
    DecodeExact(s, 0);
    WellFormedStep(s, 0);
    assert s[0..] == s;
    ToUtf16Step(s);
    if d.ok {
      TranscodeRoundTrip(s[d.next..]);
      if ToUtf16(s[d.next..]).Some? {
        FromUtf16Step(d.cp, ToUtf16(s[d.next..]).value);
        assert s == s[0..d.next] + s[d.next..];
      }
    }
  }
}
