/** Which failures are final: what the embedded parser says of a text as more of it
    arrives. */
module FrozenPrefix {
  import opened Words
  import opened FrozenTree
  import opened FrozenGrammar

  lemma {:induction false} WsExtends(text: Bytes, more: Bytes, p: nat)
    requires p <= |text| && Ws(text, p) < |text|
    ensures Ws(text + more, p) == Ws(text, p)
    decreases |text| - p
  {
    assert (text + more)[p] == text[p];
    if Space(text[p]) { WsExtends(text, more, p + 1); }
  }

  lemma EscapeExtends(text: Bytes, more: Bytes, p: nat)
    requires 0 < p < |text| && EscapeLen(text, p) != -2
    ensures EscapeLen(text + more, p) == EscapeLen(text, p)
  {}

  lemma {:induction false} StringExtends(text: Bytes, more: Bytes, p: nat)
    requires p <= |text| && StringScan(text, p) != Scan.Stop(-2)
    ensures StringScan(text + more, p) == StringScan(text, p)
    decreases |text| - p
  {
    hide EscapeLen;
    assert (text + more)[p] == text[p];
    var c := text[p];
    if c >= 32 {
      if c == 0x5C {
        EscapeExtends(text, more, p + 1);
        if EscapeLen(text, p + 1) > 0 { StringExtends(text, more, p + 1 + EscapeLen(text, p + 1)); }
      } else if c != 0x22 {
        StringExtends(text, more, p + CharLen(c));
      }
    }
  }

  /** A scan that more text cannot change. */
  predicate Settled(text: Bytes, r: Scan) {
    r == Scan.Stop(-1) || (r.End? && r.at < |text|)
  }

  lemma {:induction false} DigitsExtend(text: Bytes, more: Bytes, p: nat)
    requires p <= |text| && Digits(text, p) < |text|
    ensures Digits(text + more, p) == Digits(text, p)
    decreases |text| - p
  {
    assert (text + more)[p] == text[p];
    if Digit(text[p]) { DigitsExtend(text, more, p + 1); }
  }

  lemma SomeExtend(text: Bytes, more: Bytes, p: nat)
    requires p <= |text| && Settled(text, SomeDigits(text, p))
    ensures SomeDigits(text + more, p) == SomeDigits(text, p)
  {
    if p < |text| {
      assert (text + more)[p] == text[p];
      if Digit(text[p]) { DigitsExtend(text, more, p); }
    }
  }

  lemma FractionExtends(text: Bytes, more: Bytes, p: nat)
    requires p <= |text| && Settled(text, Fraction(text, p))
    ensures Fraction(text + more, p) == Fraction(text, p)
  {
    hide SomeDigits;
    if p < |text| {
      assert (text + more)[p] == text[p];
      if text[p] == 0x2E { SomeExtend(text, more, p + 1); }
    }
  }

  lemma ExponentExtends(text: Bytes, more: Bytes, p: nat)
    requires p <= |text| && Settled(text, Exponent(text, p))
    ensures Exponent(text + more, p) == Exponent(text, p)
  {
    hide SomeDigits;
    if p < |text| {
      assert (text + more)[p] == text[p];
      if p + 1 < |text| && (text[p] == 0x65 || text[p] == 0x45) {
        assert (text + more)[p + 1] == text[p + 1];
        SomeExtend(text, more, if text[p + 1] == 0x2B || text[p + 1] == 0x2D then p + 2 else p + 1);
      }
    }
  }

  lemma SomeAtEnd(text: Bytes)
    ensures SomeDigits(text, |text|) == Scan.Stop(-2) && Exponent(text, |text|) == End(|text|)
    ensures Fraction(text, |text|) == End(|text|)
  {}

  lemma NumberExtends(text: Bytes, more: Bytes, p: nat)
    requires p < |text| && Settled(text, NumberScan(text, p))
    ensures NumberScan(text + more, p) == NumberScan(text, p)
  {
    hide SomeDigits, Fraction, Exponent;
    assert (text + more)[p] == text[p];
    var a := if text[p] == 0x2D then p + 1 else p;
    SomeAtEnd(text);
    SomeExtend(text, more, a);
    var whole := SomeDigits(text, a);
    if whole.End? {
      FractionExtends(text, more, whole.at);
      var frac := Fraction(text, whole.at);
      if frac.End? { ExponentExtends(text, more, frac.at); }
    }
  }

  lemma {:induction false} WordExtends(text: Bytes, more: Bytes, p: nat, word: Bytes)
    requires p <= |text| && WordScan(text, p, word) != Scan.Stop(-2)
    ensures WordScan(text + more, p, word) == WordScan(text, p, word)
    decreases |word|
  {
    if word != [] {
      assert (text + more)[p] == text[p];
      if text[p] == word[0] { WordExtends(text, more, p + 1, word[1..]); }
    }
  }

  lemma {:induction false} IdentifierExtends(text: Bytes, more: Bytes, p: nat)
    requires p <= |text| && IdentifierEnd(text, p) < |text|
    ensures IdentifierEnd(text + more, p) == IdentifierEnd(text, p)
    decreases |text| - p
  {
    assert (text + more)[p] == text[p];
    if p < IdentifierEnd(text, p) { IdentifierExtends(text, more, p + 1); }
  }

  // ----- Keys and values -----

  /** A value that more text cannot change: a number may go on at the end of the text. */
  predicate Final(text: Bytes, r: Parsed) {
    match r
    case Err(code, _) => code == -1
    case Ok(node, pos) => pos < |text| || !node.kind.Num?
  }

  predicate FinalList(r: Listed) {
    r.Items? || r.code == -1
  }

  lemma KeyExtends(text: Bytes, more: Bytes, p: nat)
    requires p <= |text| && (if KeyF(text, p).Ok? then KeyF(text, p).pos < |text| else KeyF(text, p).code == -1)
    ensures KeyF(text + more, p) == KeyF(text, p)
  {
    hide StringScan, IdentifierEnd;
    var q := Ws(text, p);
    if q < |text| {
      WsExtends(text, more, p);
      assert (text + more)[q] == text[q];
      if Alpha(text[q]) {
        IdentifierExtends(text, more, q + 1);
      } else if text[q] == 0x22 {
        StringExtends(text, more, q + 1);
      }
    }
  }

  lemma {:induction false} ValueExtends(text: Bytes, more: Bytes, p: nat)
    requires p <= |text| && Final(text, ValueF(text, p))
    ensures ValueF(text + more, p) == ValueF(text, p)
    decreases |text| - p, 1
  {
    hide StringScan, NumberScan, WordScan, ElementsF, MembersF;
    var q := Ws(text, p);
    if q < |text| {
      WsExtends(text, more, p);
      assert (text + more)[q] == text[q];
      var c := text[q];
      if c == 0x22 {
        StringExtends(text, more, q + 1);
      } else if c == 0x7B {
        MembersExtend(text, more, q + 1);
      } else if c == 0x5B {
        ElementsExtend(text, more, q + 1);
      } else if c == 0x6E {
        WordExtends(text, more, q, NULL_TEXT);
      } else if c == 0x74 {
        WordExtends(text, more, q, TRUE_TEXT);
      } else if c == 0x66 {
        WordExtends(text, more, q, FALSE_TEXT);
      } else if c == 0x2D || Digit(c) {
        NumberExtends(text, more, q);
      }
    }
  }

  lemma NothingAtEnd(text: Bytes)
    ensures ElementsF(text, |text|).Fail? && ElementsF(text, |text|).code == -2
    ensures MembersF(text, |text|).Fail? && MembersF(text, |text|).code == -2
  {}

  lemma CommaExtends(text: Bytes, more: Bytes, p: nat)
    requires p <= |text| && AfterComma(text, p) < |text|
    ensures Ws(text, p) < |text| && AfterComma(text + more, p) == AfterComma(text, p)
  {
    WsExtends(text, more, p);
    assert (text + more)[Ws(text, p)] == text[Ws(text, p)];
  }

  lemma SeesExtends(text: Bytes, more: Bytes, p: nat, c: byte)
    requires p <= |text| && Ws(text, p) < |text|
    ensures Sees(text + more, p, c) == Sees(text, p, c) && Ws(text + more, p) == Ws(text, p)
  {
    WsExtends(text, more, p);
    assert (text + more)[Ws(text, p)] == text[Ws(text, p)];
  }

  lemma NothingThere(text: Bytes, p: nat)
    requires p <= |text| && Ws(text, p) == |text|
    ensures ValueF(text, p) == Err(-2, 0) && !Sees(text, p, 0x5D) && !Sees(text, p, 0x7D) && !Sees(text, p, 0x3A)
    ensures KeyF(text, p) == Err(-2, 0) && Missing(text, p) == -2
  {}

  lemma {:induction false} ElementsExtend(text: Bytes, more: Bytes, p: nat)
    requires p <= |text| && FinalList(ElementsF(text, p))
    ensures ElementsF(text + more, p) == ElementsF(text, p)
    decreases |text| - p, 2
  {
    hide ValueF, Ws, Sees, AfterComma;
    if Ws(text, p) == |text| { NothingThere(text, p); }
    SeesExtends(text, more, p, 0x5D);
    if !Sees(text, p, 0x5D) {
      var v := ValueF(text, p);
      if v.Ok? {
        NothingAtEnd(text);
        assert AfterComma(text, v.pos) < |text|;
        CommaExtends(text, more, v.pos);
        EarlyEnd(text, v.pos);
        ElementsExtend(text, more, AfterComma(text, v.pos));
      }
      ValueExtends(text, more, p);
    }
  }

  lemma EarlyEnd(text: Bytes, p: nat)
    requires p <= |text| && Ws(text, p) < |text|
    ensures p < |text|
  {}

  lemma {:induction false} PairExtends(text: Bytes, more: Bytes, p: nat)
    requires p <= |text| && (if PairF(text, p).Items? then PairF(text, p).end < |text| else PairF(text, p).code == -1)
    ensures PairF(text + more, p) == PairF(text, p)
    decreases |text| - p, 1
  {
    hide ValueF, KeyF, Ws, Sees;
    var k := KeyF(text, p);
    if k.Ok? {
      if Ws(text, k.pos) == |text| { NothingThere(text, k.pos); }
      EarlyEnd(text, k.pos);
      SeesExtends(text, more, k.pos, 0x3A);
      MissingExtends(text, more, k.pos);
      if Sees(text, k.pos, 0x3A) { ValueExtends(text, more, Ws(text, k.pos) + 1); }
    }
    KeyExtends(text, more, p);
  }

  lemma MissingExtends(text: Bytes, more: Bytes, p: nat)
    requires p <= |text| && Ws(text, p) < |text|
    ensures Missing(text, p) == -1 == Missing(text + more, p)
  {
    WsExtends(text, more, p);
  }

  lemma {:induction false} MembersExtend(text: Bytes, more: Bytes, p: nat)
    requires p <= |text| && FinalList(MembersF(text, p))
    ensures MembersF(text + more, p) == MembersF(text, p)
    decreases |text| - p, 2
  {
    hide PairF, Ws, Sees, AfterComma;
    if Ws(text, p) == |text| { NoPairThere(text, p); }
    SeesExtends(text, more, p, 0x7D);
    if !Sees(text, p, 0x7D) {
      var v := PairF(text, p);
      if v.Items? {
        NothingAtEnd(text);
        assert AfterComma(text, v.end) < |text|;
        CommaExtends(text, more, v.end);
        EarlyEnd(text, v.end);
        MembersExtend(text, more, AfterComma(text, v.end));
      }
      PairExtends(text, more, p);
    }
  }

  lemma NoPairThere(text: Bytes, p: nat)
    requires p <= |text| && Ws(text, p) == |text|
    ensures !Sees(text, p, 0x7D) && PairF(text, p) == Fail(-2, 0)
  {
    NothingThere(text, p);
  }

  // ----- Texts -----

  /** Unless a text is called incomplete (-2), more text changes nothing: an object stays the
      object it is, and an invalid text (-1) stays invalid. */
  lemma VerdictStands(text: Bytes, more: Bytes)
    requires RootF(text).Ok? || RootF(text).code != -2
    ensures RootF(text).Err? ==> RootF(text).code == -1
    ensures RootF(text + more) == RootF(text)
  {
    hide MembersF;
    RootCodes(text);
    if text != [] && Ws(text, 0) < |text| {
      SeesExtends(text, more, 0, 0x7B);
      MissingExtends(text, more, 0);
      if Sees(text, 0, 0x7B) { MembersExtend(text, more, Ws(text, 0) + 1); }
    }
  }

  /** An accepted object that is cut short anywhere is called incomplete. */
  lemma PrefixIncomplete(text: Bytes, k: nat)
    requires RootF(text).Ok? && k < RootF(text).pos <= |text|
    ensures RootF(text[..k]).Err? && RootF(text[..k]).code == -2
  {
    hide RootF;
    if RootF(text[..k]).Ok? || RootF(text[..k]).code != -2 {
      VerdictStands(text[..k], text[k..]);
      assert text[..k] + text[k..] == text;
      RootWithin(text[..k]);
      assert false;
    }
  }

  lemma RootWithin(text: Bytes)
    ensures RootF(text).Ok? ==> RootF(text).pos <= |text|
  {}

  // ----- The two codes -----

  predicate Coded(code: int) {
    code == -1 || code == -2
  }

  lemma {:induction false} StringCodes(text: Bytes, p: nat)
    requires p <= |text|
    ensures StringScan(text, p).Stop? ==> Coded(StringScan(text, p).code)
    decreases |text| - p
  {
    if p < |text| {
      var c := text[p];
      if c == 0x5C && p + 1 < |text| && EscapeLen(text, p + 1) > 0 {
        StringCodes(text, p + 1 + EscapeLen(text, p + 1));
      } else if c >= 32 && c != 0x5C && CharLen(c) < |text| - p {
        StringCodes(text, p + CharLen(c));
      }
    }
  }

  lemma {:induction false} WordCodes(text: Bytes, p: nat, word: Bytes)
    requires p <= |text|
    ensures WordScan(text, p, word).Stop? ==> Coded(WordScan(text, p, word).code)
    decreases |word|
  {
    if word != [] && p < |text| { WordCodes(text, p + 1, word[1..]); }
  }

  lemma KeyCodes(text: Bytes, p: nat)
    requires p <= |text|
    ensures KeyF(text, p).Err? ==> Coded(KeyF(text, p).code)
  {
    var q := Ws(text, p);
    if q < |text| { StringCodes(text, q + 1); }
  }

  lemma {:induction false} ValueCodes(text: Bytes, p: nat)
    requires p <= |text|
    ensures ValueF(text, p).Err? ==> Coded(ValueF(text, p).code)
    decreases |text| - p, 1
  {
    hide StringScan, WordScan, ElementsF, MembersF;
    var q := Ws(text, p);
    if q < |text| {
      StringCodes(text, q + 1);
      WordCodes(text, q, NULL_TEXT);
      WordCodes(text, q, TRUE_TEXT);
      WordCodes(text, q, FALSE_TEXT);
      ElementsCodes(text, q + 1);
      MembersCodes(text, q + 1);
    }
  }

  lemma {:induction false} ElementsCodes(text: Bytes, p: nat)
    requires p <= |text|
    ensures ElementsF(text, p).Fail? ==> Coded(ElementsF(text, p).code)
    decreases |text| - p, 2
  {
    hide ValueF;
    ValueCodes(text, p);
    var v := ValueF(text, p);
    if v.Ok? { ElementsCodes(text, AfterComma(text, v.pos)); }
  }

  lemma {:induction false} MembersCodes(text: Bytes, p: nat)
    requires p <= |text|
    ensures MembersF(text, p).Fail? ==> Coded(MembersF(text, p).code)
    decreases |text| - p, 2
  {
    hide ValueF, KeyF;
    KeyCodes(text, p);
    var k := KeyF(text, p);
    if k.Ok? {
      if Sees(text, k.pos, 0x3A) { ValueCodes(text, Ws(text, k.pos) + 1); }
      var v := PairF(text, p);
      if v.Items? { MembersCodes(text, AfterComma(text, v.end)); }
    }
  }

  lemma RootCodes(text: Bytes)
    ensures RootF(text).Err? ==> Coded(RootF(text).code)
  {
    hide MembersF;
    if text != [] && Sees(text, 0, 0x7B) { MembersCodes(text, Ws(text, 0) + 1); }
  }
}
