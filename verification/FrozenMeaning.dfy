/** What the embedded parser's trees say about the text: every byte of an accepted object
    is accounted for by a grammar written down here without the parser's functions. */
module FrozenMeaning {
  import opened Words
  import opened FrozenTree
  import opened FrozenGrammar

  // ----- Characters and scalars -----

  predicate Digital(b: Bytes) {
    b != [] && forall i :: 0 <= i < |b| ==> 0x30 <= b[i] <= 0x39
  }

  predicate Hex(c: byte) {
    0x30 <= c <= 0x39 || 0x41 <= c <= 0x46 || 0x61 <= c <= 0x66
  }

  predicate Letter(c: byte) {
    0x41 <= c <= 0x5A || 0x61 <= c <= 0x7A
  }

  /** A letter, then letters, digits and underscores. */
  predicate Identifier(b: Bytes) {
    && b != [] && Letter(b[0])
    && forall i :: 0 <= i < |b| ==> Wordy(b[i])
  }

  predicate Wordy(c: byte) {
    Letter(c) || 0x30 <= c <= 0x39 || c == 0x5F
  }

  predicate Follows(text: Bytes, q: nat, bytes: set<byte>) {
    q < |text| && text[q] in bytes
  }

  const DIGITS: set<byte> := {0x30, 0x31, 0x32, 0x33, 0x34, 0x35, 0x36, 0x37, 0x38, 0x39}

  /** An optional minus, digits, an optional fraction and an optional exponent, from `p` to
      `q`, and nothing behind it that would make it longer. */
  ghost predicate NumberSpans(text: Bytes, p: nat, q: nat) {
    exists a: nat, b: nat, c: nat :: NumberAt(text, p, a, b, c, q)
  }

  predicate NumberAt(text: Bytes, p: nat, a: nat, b: nat, c: nat, q: nat) {
    && p <= a <= b <= c <= q <= |text| && NumeralParts(text[p..a], text[a..b], text[b..c], text[c..q])
    && !Follows(text, q, DIGITS)
    && (c == q ==> !Follows(text, q, {0x45, 0x65}))
    && (b == q ==> !Follows(text, q, {0x2E}))
  }

  predicate NumeralParts(sign: Bytes, whole: Bytes, frac: Bytes, exp: Bytes) {
    && (sign == [] || sign == [0x2D]) && Digital(whole)
    && (frac == [] || (frac[0] == 0x2E && Digital(frac[1..])))
    && (exp == [] || (exp[0] in {0x45, 0x65} &&
          (Digital(exp[1..]) || (|exp| > 1 && exp[1] in {0x2B, 0x2D} && Digital(exp[2..])))))
  }

  /** One character of a string: printable ASCII, a lead byte with the bytes it announces,
      or an escape. */
  predicate Unit(u: Bytes) {
    || (|u| == 1 && 0x20 <= u[0] < 0x80 && u[0] != 0x22 && u[0] != 0x5C)
    || (|u| == 2 && 0x80 <= u[0] < 0xE0)
    || (|u| == 3 && 0xE0 <= u[0] < 0xF0)
    || (|u| == 4 && 0xF0 <= u[0])
    || (|u| == 2 && u[0] == 0x5C && u[1] in {0x22, 0x5C, 0x2F, 0x62, 0x66, 0x6E, 0x72, 0x74})
    || (|u| == 6 && u[0] == 0x5C && u[1] == 0x75 && Hex(u[2]) && Hex(u[3]) && Hex(u[4]) && Hex(u[5]))
  }

  /** What may stand between quotes. */
  ghost predicate Quotable(b: Bytes)
    decreases |b|
  {
    b == [] || exists k :: 0 < k <= |b| && Unit(b[..k]) && Quotable(b[k..])
  }

  // ----- Values -----

  /** A string token lies between its quotes, which stand at `p` and before `q`. */
  ghost predicate QuotedSpans(text: Bytes, n: Node, p: nat, q: nat) {
    && p < q <= |text| && n.kind.Str? && n.children == [] && n.at == p + 1 && q == n.at + n.len + 1
    && text[p] == 0x22 && text[q - 1] == 0x22 && Quotable(text[p + 1..q - 1])
  }

  /** The text from `p` to `q` is the value `n`. */
  ghost predicate ValueSpans(text: Bytes, n: Node, p: nat, q: nat)
    decreases n, 0
  {
    && p <= q <= |text|
    && if n.kind.Str? then QuotedSpans(text, n, p, q)
       else
         && n.at == p && n.len == q - p
         && match n.kind
            case Null => text[p..q] == [0x6E, 0x75, 0x6C, 0x6C] && n.children == []
            case True => text[p..q] == [0x74, 0x72, 0x75, 0x65] && n.children == []
            case False => text[p..q] == [0x66, 0x61, 0x6C, 0x73, 0x65] && n.children == []
            case Num => NumberSpans(text, p, q) && n.children == []
            case Arr => q >= p + 2 && text[p] == 0x5B && text[q - 1] == 0x5D && ElementsSpan(text, n.children, p + 1, q - 1)
            case Obj => q >= p + 2 && text[p] == 0x7B && text[q - 1] == 0x7D && MembersSpan(text, n.children, p + 1, q - 1)
            case _ => false
  }

  ghost predicate KeySpans(text: Bytes, n: Node, p: nat, q: nat) {
    || QuotedSpans(text, n, p, q)
    || (&& p <= q <= |text| && n.kind.Str? && n.children == [] && n.at == p && n.len == q - p && Identifier(text[p..q])
        && (q < |text| ==> !Wordy(text[q])))
  }

  /** White space, and at most one comma at its end. */
  predicate CommaSpans(text: Bytes, p: nat, q: nat) {
    && p <= q <= |text|
    && (Blank(text[p..q]) || (p < q && text[q - 1] == 0x2C && Blank(text[p..q - 1])))
  }

  /** White space, a colon, white space. */
  ghost predicate ColonSpans(text: Bytes, p: nat, q: nat) {
    exists m :: p <= m < q <= |text| && Blank(text[p..m]) && text[m] == 0x3A && Blank(text[m + 1..q])
  }

  /** Elements with white space around them and an optional comma after each. */
  ghost predicate ElementsSpan(text: Bytes, ns: seq<Node>, p: nat, q: nat)
    decreases ns, 0
  {
    && p <= q <= |text|
    && if ns == [] then Blank(text[p..q])
       else exists a: nat, b: nat, c: nat ::
         && p <= a <= |text| && Blank(text[p..a]) && ValueSpans(text, ns[0], a, b) && CommaSpans(text, b, c)
         && ElementsSpan(text, ns[1..], c, q)
  }

  ghost predicate MembersSpan(text: Bytes, ns: seq<Node>, p: nat, q: nat)
    decreases ns, 0
  {
    && p <= q <= |text|
    && if ns == [] then Blank(text[p..q])
       else |ns| >= 2 && exists a: nat, b: nat, c: nat ::
         && p <= a <= |text| && Blank(text[p..a]) && PairSpans(text, ns[0], ns[1], a, b) && CommaSpans(text, b, c)
         && MembersSpan(text, ns[2..], c, q)
  }

  /** A key, a colon and a value. */
  ghost predicate PairSpans(text: Bytes, key: Node, value: Node, p: nat, q: nat)
    decreases value, 1
  {
    exists b: nat, d: nat :: KeySpans(text, key, p, b) && ColonSpans(text, b, d) && ValueSpans(text, value, d, q)
  }

  // ----- Soundness -----

  lemma {:induction false} WsBlank(text: Bytes, p: nat)
    requires p <= |text|
    ensures Blank(text[p..Ws(text, p)])
    ensures Ws(text, p) < |text| ==> text[Ws(text, p)] !in {0x20, 0x09, 0x0A, 0x0D}
    decreases |text| - p
  {
    var q := Ws(text, p);
    if p < q {
      WsBlank(text, p + 1);
      assert text[p..q] == [text[p]] + text[p + 1..q];
    }
  }

  lemma EscapeUnit(text: Bytes, p: nat)
    requires 0 < p < |text| && text[p - 1] == 0x5C && EscapeLen(text, p) > 0
    ensures var n := EscapeLen(text, p); Unit(text[p - 1..p + n])
  {}

  lemma {:induction false} ScanQuotable(text: Bytes, p: nat)
    requires p <= |text|
    ensures var r := StringScan(text, p); r.End? ==> text[r.at] == 0x22 && Quotable(text[p..r.at])
    decreases |text| - p
  {
    hide Quotable, EscapeLen;
    QuotableNone(text, p);
    var r := StringScan(text, p);
    if r.End? && r.at > p {
      var k := if text[p] == 0x5C then 1 + EscapeLen(text, p + 1) else CharLen(text[p]);
      ScanQuotable(text, p + k);
      if text[p] == 0x5C { EscapeUnit(text, p + 1); }
      QuotableCons(text, p, k, r.at);
    }
  }

  lemma QuotableNone(text: Bytes, p: nat)
    requires p <= |text|
    ensures Quotable(text[p..p])
  {}

  lemma QuotableCons(text: Bytes, p: nat, k: nat, q: nat)
    requires 0 < k && p + k <= q <= |text| && Unit(text[p..p + k]) && Quotable(text[p + k..q])
    ensures Quotable(text[p..q])
  {
    hide Unit;
    Slices(text, p, k, q);
  }

  lemma StringSound(text: Bytes, p: nat)
    requires p < |text| && text[p] == 0x22
    ensures var r := StringF(text, p); r.Ok? ==> QuotedSpans(text, r.node, p, r.pos)
  {
    ScanQuotable(text, p + 1);
  }

  lemma {:induction false} DigitsDigital(text: Bytes, p: nat)
    requires p <= |text|
    ensures var q := Digits(text, p);
            (forall i :: p <= i < q ==> 0x30 <= text[i] <= 0x39) && !Follows(text, q, DIGITS)
    decreases |text| - p
  {
    if p < |text| && Digit(text[p]) { DigitsDigital(text, p + 1); }
  }

  lemma SomeDigital(text: Bytes, p: nat)
    requires p <= |text|
    ensures var r := SomeDigits(text, p); r.End? ==> Digital(text[p..r.at]) && !Follows(text, r.at, DIGITS)
  {
    if p < |text| { DigitsDigital(text, p); }
  }

  lemma FractionSound(text: Bytes, p: nat)
    requires p <= |text| && !Follows(text, p, DIGITS)
    ensures var r := Fraction(text, p);
            r.End? ==>
              && !Follows(text, r.at, DIGITS) && (r.at == p ==> !Follows(text, p, {0x2E}))
              && (text[p..r.at] == [] || (text[p] == 0x2E && Digital(text[p..r.at][1..])))
  {
    if p < |text| && text[p] == 0x2E {
      SomeDigital(text, p + 1);
      var r := SomeDigits(text, p + 1);
      if r.End? { assert text[p..r.at][1..] == text[p + 1..r.at]; }
    }
  }

  lemma ExponentSound(text: Bytes, p: nat)
    requires p <= |text| && !Follows(text, p, DIGITS)
    ensures var r := Exponent(text, p);
            r.End? ==>
              && NumeralParts([], [0x30], [], text[p..r.at]) && !Follows(text, r.at, DIGITS)
              && (r.at == p ==> !Follows(text, p, {0x45, 0x65}))
  {
    var r := Exponent(text, p);
    if r.End? && r.at > p {
      var signed := text[p + 1] == 0x2B || text[p + 1] == 0x2D;
      var d := if signed then p + 2 else p + 1;
      SomeDigital(text, d);
      assert text[p..r.at][d - p..] == text[d..r.at];
    }
  }

  lemma NumberSound(text: Bytes, p: nat)
    requires p < |text|
    ensures var r := NumberScan(text, p); r.End? ==> NumberSpans(text, p, r.at)
  {
    hide SomeDigits, Fraction, Exponent, Digital, Follows;
    var r := NumberScan(text, p);
    if r.End? {
      var a := if text[p] == 0x2D then p + 1 else p;
      var b := SomeDigits(text, a).at;
      var c := Fraction(text, b).at;
      SomeDigital(text, a);
      FractionSound(text, b);
      ExponentSound(text, c);
      assert NumeralParts(text[p..a], text[a..b], text[b..c], text[c..r.at]);
      assert NumberAt(text, p, a, b, c, r.at);
    }
  }

  lemma {:induction false} WordSound(text: Bytes, p: nat, word: Bytes)
    requires p <= |text|
    ensures WordScan(text, p, word).End? ==> p + |word| <= |text| && text[p..p + |word|] == word
    decreases |word|
  {
    if word != [] && p < |text| && text[p] == word[0] {
      WordSound(text, p + 1, word[1..]);
      if WordScan(text, p, word).End? {
        assert text[p..p + |word|] == [text[p]] + text[p + 1..p + |word|];
      }
    }
  }

  lemma {:induction false} IdentifierSound(text: Bytes, p: nat)
    requires p <= |text|
    ensures var q := IdentifierEnd(text, p);
            (forall i :: p <= i < q ==> Wordy(text[i])) && (q < |text| ==> !Wordy(text[q]))
    decreases |text| - p
  {
    if p < IdentifierEnd(text, p) { IdentifierSound(text, p + 1); }
  }

  lemma KeySound(text: Bytes, p: nat)
    requires p <= |text|
    ensures var r := KeyF(text, p); r.Ok? ==> KeySpans(text, r.node, Ws(text, p), r.pos)
  {
    hide QuotedSpans, StringF, Ws, IdentifierEnd, Identifier, Wordy;
    var q := Ws(text, p);
    if q < |text| && Alpha(text[q]) {
      NameSound(text, q);
    } else if Sees(text, p, 0x22) {
      StringSound(text, q);
    }
  }

  lemma NameSound(text: Bytes, q: nat)
    requires q < |text| && Alpha(text[q])
    ensures var e := IdentifierEnd(text, q + 1); Identifier(text[q..e]) && (e < |text| ==> !Wordy(text[e]))
  {
    IdentifierSound(text, q + 1);
    hide IdentifierEnd;
    var e := IdentifierEnd(text, q + 1);
    var b := text[q..e];
    assert forall i :: 0 <= i < |b| ==> b[i] == text[q + i];
  }

  lemma {:induction false} ValueSound(text: Bytes, p: nat)
    requires p <= |text|
    ensures var r := ValueF(text, p); r.Ok? ==> ValueSpans(text, r.node, Ws(text, p), r.pos)
    decreases |text| - p, 1
  {
    hide QuotedSpans, NumberSpans, NumberScan, ElementsSpan, MembersSpan, ElementsF, MembersF, StringF;
    var q := Ws(text, p);
    if q < |text| {
      var c := text[q];
      if c == 0x22 {
        StringSound(text, q);
        StringKind(text, q);
      } else if c == 0x7B {
        MembersSound(text, q + 1);
      } else if c == 0x5B {
        ElementsSound(text, q + 1);
      } else if c == 0x6E {
        WordSound(text, q, NULL_TEXT);
      } else if c == 0x74 {
        WordSound(text, q, TRUE_TEXT);
      } else if c == 0x66 {
        WordSound(text, q, FALSE_TEXT);
      } else if c == 0x2D || Digit(c) {
        NumberSound(text, q);
      }
    }
  }

  lemma StringKind(text: Bytes, p: nat)
    requires p < |text|
    ensures StringF(text, p).Ok? ==> StringF(text, p).node.kind.Str?
  {}

  lemma CommaSound(text: Bytes, p: nat)
    requires p <= |text|
    ensures CommaSpans(text, p, AfterComma(text, p))
  {
    WsBlank(text, p);
  }

  lemma {:induction false} ElementsSound(text: Bytes, p: nat)
    requires p <= |text|
    ensures var r := ElementsF(text, p);
            r.Items? ==> p < r.end && text[r.end - 1] == 0x5D && ElementsSpan(text, r.nodes, p, r.end - 1)
    decreases |text| - p, 2
  {
    hide ValueSpans, CommaSpans, ValueF, Ws, Blank;
    WsBlank(text, p);
    if !Sees(text, p, 0x5D) {
      ValueSound(text, p);
      var v := ValueF(text, p);
      if v.Ok? {
        var c := AfterComma(text, v.pos);
        CommaSound(text, v.pos);
        ElementsSound(text, c);
        var r := ElementsF(text, c);
        if r.Items? {
          assert ([v.node] + r.nodes)[1..] == r.nodes;
          assert ElementsSpan(text, [v.node] + r.nodes, p, r.end - 1);
        }
      }
    }
  }

  lemma {:induction false} PairSound(text: Bytes, p: nat)
    requires p <= |text|
    ensures var r := PairF(text, p);
            r.Items? ==>
              |r.nodes| == 2 && PairSpans(text, r.nodes[0], r.nodes[1], Ws(text, p), r.end)
    decreases |text| - p, 1
  {
    hide ValueSpans, KeySpans, ValueF, KeyF, Ws, Blank;
    KeySound(text, p);
    var k := KeyF(text, p);
    if k.Ok? && Sees(text, k.pos, 0x3A) {
      var m := Ws(text, k.pos);
      WsBlank(text, k.pos);
      WsBlank(text, m + 1);
      ValueSound(text, m + 1);
      if ValueF(text, m + 1).Ok? {
        assert ColonSpans(text, k.pos, Ws(text, m + 1));
      }
    }
  }

  lemma {:induction false} MembersSound(text: Bytes, p: nat)
    requires p <= |text|
    ensures var r := MembersF(text, p);
            r.Items? ==> p < r.end && text[r.end - 1] == 0x7D && MembersSpan(text, r.nodes, p, r.end - 1)
    decreases |text| - p, 2
  {
    hide PairSpans, CommaSpans, PairF, Ws, Blank;
    WsBlank(text, p);
    if !Sees(text, p, 0x7D) {
      PairSound(text, p);
      var v := PairF(text, p);
      if v.Items? {
        var c := AfterComma(text, v.end);
        CommaSound(text, v.end);
        MembersSound(text, c);
        var r := MembersF(text, c);
        if r.Items? {
          var all := v.nodes + r.nodes;
          assert all[2..] == r.nodes && all[0] == v.nodes[0] && all[1] == v.nodes[1];
          assert MembersSpan(text, all, p, r.end - 1);
        }
      }
    }
  }

  /** An accepted text begins with white space and an object, whose tree gives every token
      its kind by the bytes under it. */
  lemma RootSound(text: Bytes)
    requires RootF(text).Ok?
    ensures var r := RootF(text);
            exists p: nat :: p <= |text| && Blank(text[..p]) && r.node.kind.Obj? && ValueSpans(text, r.node, p, r.pos)
  {
    hide ValueSpans, Blank, ObjectF;
    var p := Ws(text, 0);
    WsBlank(text, 0);
    assert text[0..p] == text[..p];
    ObjectValue(text);
    ValueSound(text, 0);
  }

  lemma ObjectValue(text: Bytes)
    requires RootF(text).Ok?
    ensures ValueF(text, 0) == RootF(text) && RootF(text).node.kind.Obj?
  {}

  // ----- Completeness -----

  lemma {:induction false} BlankWs(text: Bytes, p: nat, q: nat)
    requires p <= q <= |text| && Blank(text[p..q])
    ensures Ws(text, p) == Ws(text, q)
    decreases q - p
  {
    if p < q {
      assert text[p] == text[p..q][0] && text[p + 1..q] == text[p..q][1..];
      BlankWs(text, p + 1, q);
    }
  }

  lemma SolidWs(text: Bytes, p: nat)
    requires p < |text| && text[p] !in {0x20, 0x09, 0x0A, 0x0D}
    ensures Ws(text, p) == p
  {}

  /** A character is passed over, if a byte is left behind it. */
  lemma UnitPasses(text: Bytes, p: nat, k: nat)
    requires 0 < k && p + k < |text| && Unit(text[p..p + k])
    ensures StringScan(text, p) == StringScan(text, p + k)
  {
    var u := text[p..p + k];
    assert forall i :: 0 <= i < |u| ==> u[i] == text[p + i];
  }

  lemma FirstUnit(text: Bytes, p: nat, e: nat) returns (k: nat)
    requires p < e <= |text| && Quotable(text[p..e])
    ensures 0 < k && p + k <= e && Unit(text[p..p + k]) && Quotable(text[p + k..e])
  {
    hide Unit;
    var b := text[p..e];
    k :| 0 < k <= |b| && Unit(b[..k]) && Quotable(b[k..]);
    Slices(text, p, k, e);
  }

  lemma Slices(text: Bytes, p: nat, k: nat, e: nat)
    requires p + k <= e <= |text|
    ensures text[p..e][..k] == text[p..p + k] && text[p..e][k..] == text[p + k..e]
  {}

  lemma {:induction false} QuotableScans(text: Bytes, p: nat, e: nat)
    requires p <= e && e + 1 < |text| && text[e] == 0x22 && Quotable(text[p..e])
    ensures StringScan(text, p) == End(e)
    decreases e - p
  {
    hide Unit, Quotable;
    if p < e {
      hide StringScan;
      var k := FirstUnit(text, p, e);
      UnitPasses(text, p, k);
      QuotableScans(text, p + k, e);
    }
  }

  lemma StringComplete(text: Bytes, n: Node, p: nat, q: nat)
    requires QuotedSpans(text, n, p, q) && q < |text|
    ensures StringF(text, p) == Ok(n, q)
  {
    QuotableScans(text, p + 1, q - 1);
  }

  lemma {:induction false} DigitsComplete(text: Bytes, p: nat, q: nat)
    requires p <= q <= |text| && (forall i :: p <= i < q ==> 0x30 <= text[i] <= 0x39) && !Follows(text, q, DIGITS)
    ensures Digits(text, p) == q
    decreases q - p
  {
    if p < q { DigitsComplete(text, p + 1, q); }
  }

  lemma SomeComplete(text: Bytes, p: nat, q: nat)
    requires p <= q <= |text| && Digital(text[p..q]) && !Follows(text, q, DIGITS)
    ensures SomeDigits(text, p) == End(q)
  {
    assert forall i :: p <= i < q ==> text[i] == text[p..q][i - p];
    DigitsComplete(text, p, q);
  }

  lemma FractionComplete(text: Bytes, b: nat, c: nat)
    requires b <= c <= |text| && !Follows(text, c, DIGITS) && (b == c ==> !Follows(text, c, {0x2E}))
    requires b == c || (text[b] == 0x2E && Digital(text[b + 1..c]))
    ensures Fraction(text, b) == End(c)
  {
    if b < c { SomeComplete(text, b + 1, c); }
  }

  lemma ExponentComplete(text: Bytes, c: nat, q: nat)
    requires c <= q <= |text| && !Follows(text, q, DIGITS) && (c == q ==> !Follows(text, q, {0x45, 0x65}))
    requires NumeralParts([], [0x30], [], text[c..q])
    ensures Exponent(text, c) == End(q)
  {
    if c < q {
      var exp := text[c..q];
      assert exp[0] == text[c] && exp[1..] == text[c + 1..q];
      if Digital(exp[1..]) {
        assert text[c + 1] == exp[1..][0];
        SomeComplete(text, c + 1, q);
      } else {
        assert exp[1] == text[c + 1] && exp[2..] == text[c + 2..q];
        SomeComplete(text, c + 2, q);
      }
    }
  }

  lemma NumberComplete(text: Bytes, p: nat, q: nat)
    requires NumberSpans(text, p, q)
    ensures p < |text| && (text[p] == 0x2D || Digit(text[p])) && NumberScan(text, p) == End(q)
  {
    var a: nat, b: nat, c: nat :| NumberAt(text, p, a, b, c, q);
    var sign, whole, frac, exp := text[p..a], text[a..b], text[b..c], text[c..q];
    hide SomeDigits, Fraction, Exponent;
    assert whole[0] == text[a] && (sign != [] ==> sign[0] == text[p]);
    if b < c { assert frac[0] == text[b] && frac[1..] == text[b + 1..c]; }
    if c < q { assert exp[0] == text[c]; }
    SomeComplete(text, a, b);
    FractionComplete(text, b, c);
    ExponentComplete(text, c, q);
  }

  lemma {:induction false} WordComplete(text: Bytes, p: nat, word: Bytes)
    requires p + |word| <= |text| && text[p..p + |word|] == word
    ensures WordScan(text, p, word) == End(p + |word|)
    decreases |word|
  {
    if word != [] {
      assert text[p] == word[0] && text[p + 1..p + |word|] == text[p..p + |word|][1..] == word[1..];
      WordComplete(text, p + 1, word[1..]);
    }
  }

  lemma {:induction false} IdentifierComplete(text: Bytes, p: nat, q: nat)
    requires p <= q <= |text| && (forall i :: p <= i < q ==> Wordy(text[i])) && (q < |text| ==> !Wordy(text[q]))
    ensures IdentifierEnd(text, p) == q
    decreases q - p
  {
    if p < q { IdentifierComplete(text, p + 1, q); }
  }

  lemma KeyComplete(text: Bytes, n: Node, p: nat, a: nat, q: nat)
    requires p <= a <= |text| && Blank(text[p..a]) && KeySpans(text, n, a, q) && q < |text|
    ensures a < |text| && text[a] != 0x7D && Ws(text, p) == a && KeyF(text, p) == Ok(n, q)
  {
    hide StringScan;
    BlankWs(text, p, a);
    if QuotedSpans(text, n, a, q) {
      SolidWs(text, a);
      StringComplete(text, n, a, q);
    } else {
      assert text[a] == text[a..q][0];
      assert forall i :: a <= i < q ==> text[i] == text[a..q][i - a];
      SolidWs(text, a);
      IdentifierComplete(text, a + 1, q);
    }
  }

  /** What a value starts with. */
  lemma ValueStarts(text: Bytes, n: Node, p: nat, q: nat)
    requires ValueSpans(text, n, p, q)
    ensures p < |text| && text[p] !in {0x20, 0x09, 0x0A, 0x0D, 0x2C, 0x5D, 0x7D} && Ws(text, p) == p
  {
    hide ElementsSpan, MembersSpan, NumberSpans;
    if n.kind.Num? {
      NumberComplete(text, p, q);
    } else if !n.kind.Str? && !n.kind.Arr? && !n.kind.Obj? {
      assert text[p] == text[p..q][0];
    }
  }

  lemma {:induction false} ValueComplete(text: Bytes, n: Node, p: nat, q: nat)
    requires ValueSpans(text, n, p, q) && (q < |text| || n.kind.Obj?)
    ensures p <= |text| && ValueF(text, p) == Ok(n, q)
    decreases n, 1
  {
    hide QuotedSpans, NumberSpans, ElementsSpan, MembersSpan, StringF, NumberScan, WordScan, ElementsF, MembersF;
    ValueStarts(text, n, p, q);
    match n.kind
    case Str =>
      QuoteStarts(text, n, p, q);
      StringComplete(text, n, p, q);
    case Num => NumberComplete(text, p, q);
    case Arr => ElementsComplete(text, n.children, p + 1, q - 1);
    case Obj => MembersComplete(text, n.children, p + 1, q - 1);
    case Null =>
      assert text[p] == text[p..q][0];
      WordComplete(text, p, NULL_TEXT);
    case True =>
      assert text[p] == text[p..q][0];
      WordComplete(text, p, TRUE_TEXT);
    case False =>
      assert text[p] == text[p..q][0];
      WordComplete(text, p, FALSE_TEXT);
  }

  lemma QuoteStarts(text: Bytes, n: Node, p: nat, q: nat)
    requires QuotedSpans(text, n, p, q)
    ensures p < |text| && text[p] == 0x22
  {}

  lemma ValueFromWs(text: Bytes, p: nat, a: nat)
    requires p <= |text| && Ws(text, p) == a && Ws(text, a) == a
    ensures ValueF(text, p) == ValueF(text, a)
  {
    hide StringF, ObjectF, ArrayF, WordF, NumberF;
  }

  lemma KeyFromWs(text: Bytes, p: nat, a: nat)
    requires p <= |text| && Ws(text, p) == a && Ws(text, a) == a
    ensures KeyF(text, p) == KeyF(text, a)
  {
    hide StringF;
  }

  /** Lists begin with white space or without. */
  lemma ListFromWs(text: Bytes, p: nat, a: nat)
    requires p <= |text| && Ws(text, p) == a && Ws(text, a) == a
    ensures ElementsF(text, p) == ElementsF(text, a) && MembersF(text, p) == MembersF(text, a)
  {
    hide ValueF, KeyF;
    ValueFromWs(text, p, a);
    KeyFromWs(text, p, a);
    assert PairF(text, p) == PairF(text, a);
  }

  lemma WsOnce(text: Bytes, p: nat)
    requires p <= |text|
    ensures Ws(text, Ws(text, p)) == Ws(text, p)
  {}

  /** After an item: the comma that is there, or none. */
  lemma CommaComplete(text: Bytes, b: nat, c: nat)
    requires CommaSpans(text, b, c) && !Sees(text, c, 0x2C)
    ensures var r := AfterComma(text, b); Ws(text, r) == Ws(text, c)
  {
    if Blank(text[b..c]) {
      BlankWs(text, b, c);
      WsOnce(text, c);
    } else {
      BlankWs(text, b, c - 1);
      SolidWs(text, c - 1);
    }
  }

  lemma SameList(text: Bytes, r: nat, c: nat)
    requires r <= |text| && c <= |text| && Ws(text, r) == Ws(text, c)
    ensures ElementsF(text, r) == ElementsF(text, c) && MembersF(text, r) == MembersF(text, c)
  {
    hide ElementsF, MembersF;
    WsOnce(text, r);
    ListFromWs(text, r, Ws(text, r));
    ListFromWs(text, c, Ws(text, c));
  }

  lemma {:induction false} ElementsComplete(text: Bytes, ns: seq<Node>, p: nat, q: nat)
    requires ElementsSpan(text, ns, p, q) && q < |text| && text[q] == 0x5D
    ensures ElementsF(text, p) == Items(ns, q + 1) && !Sees(text, p, 0x2C)
    decreases ns, 0
  {
    hide ValueSpans, ValueF, Blank, Ws, CommaSpans, AfterComma;
    if ns == [] {
      BlankWs(text, p, q);
      SolidWs(text, q);
    } else {
      var a: nat, b: nat, c: nat :| p <= a <= |text| && Blank(text[p..a]) && ValueSpans(text, ns[0], a, b) && CommaSpans(text, b, c)
                     && ElementsSpan(text, ns[1..], c, q);
      ElementsComplete(text, ns[1..], c, q);
      BlankWs(text, p, a);
      ValueStarts(text, ns[0], a, b);
      CommaWithin(text, b, c);
      ValueComplete(text, ns[0], a, b);
      ValueFromWs(text, p, a);
      CommaComplete(text, b, c);
      SameList(text, AfterComma(text, b), c);
      assert [ns[0]] + ns[1..] == ns;
    }
  }

  lemma CommaWithin(text: Bytes, b: nat, c: nat)
    requires CommaSpans(text, b, c)
    ensures b <= c <= |text|
  {}

  lemma PairComplete(text: Bytes, key: Node, value: Node, p: nat, a: nat, q: nat)
    requires p <= a <= |text| && Blank(text[p..a]) && PairSpans(text, key, value, a, q) && q < |text|
    ensures a < |text| && text[a] !in {0x2C, 0x7D} && Ws(text, p) == a && PairF(text, p) == Items([key, value], q)
    decreases value, 2
  {
    hide KeySpans, ValueSpans, ValueF, KeyF, Ws, Blank;
    var b: nat, d: nat :| KeySpans(text, key, a, b) && ColonSpans(text, b, d) && ValueSpans(text, value, d, q);
    var m :| b <= m < d <= |text| && Blank(text[b..m]) && text[m] == 0x3A && Blank(text[m + 1..d]);
    KeyComplete(text, key, p, a, b);
    KeyStarts(text, key, a, b);
    BlankWs(text, b, m);
    SolidWs(text, m);
    BlankWs(text, m + 1, d);
    ValueStarts(text, value, d, q);
    ValueFromWs(text, m + 1, d);
    ValueComplete(text, value, d, q);
  }

  lemma KeyStarts(text: Bytes, n: Node, p: nat, q: nat)
    requires KeySpans(text, n, p, q)
    ensures p < |text| && text[p] != 0x2C
  {
    if !QuotedSpans(text, n, p, q) { assert text[p] == text[p..q][0]; }
  }

  lemma {:induction false} MembersComplete(text: Bytes, ns: seq<Node>, p: nat, q: nat)
    requires MembersSpan(text, ns, p, q) && q < |text| && text[q] == 0x7D
    ensures MembersF(text, p) == Items(ns, q + 1) && !Sees(text, p, 0x2C)
    decreases ns, 0
  {
    hide PairSpans, PairF, Blank, Ws, CommaSpans, AfterComma;
    if ns == [] {
      BlankWs(text, p, q);
      SolidWs(text, q);
    } else {
      var a: nat, b: nat, c: nat :| p <= a <= |text| && Blank(text[p..a]) && PairSpans(text, ns[0], ns[1], a, b) && CommaSpans(text, b, c)
                     && MembersSpan(text, ns[2..], c, q);
      MembersComplete(text, ns[2..], c, q);
      CommaWithin(text, b, c);
      PairComplete(text, ns[0], ns[1], p, a, b);
      CommaComplete(text, b, c);
      SameList(text, AfterComma(text, b), c);
      assert [ns[0], ns[1]] + ns[2..] == ns;
    }
  }

  /** The parser accepts exactly the texts that begin with white space and an object of this
      grammar, up to its end and with its tree. */
  lemma AcceptsExactly(text: Bytes, n: Node, q: nat)
    ensures RootF(text) == Ok(n, q) <==>
              n.kind.Obj? && exists p: nat :: p <= |text| && Blank(text[..p]) && ValueSpans(text, n, p, q)
  {
    hide ValueSpans, RootF, Blank;
    if RootF(text) == Ok(n, q) {
      RootSound(text);
      ObjectValue(text);
    }
    if n.kind.Obj? {
      if p: nat :| p <= |text| && Blank(text[..p]) && ValueSpans(text, n, p, q) {
        RootComplete(text, n, p, q);
      }
    }
  }

  lemma RootComplete(text: Bytes, n: Node, p: nat, q: nat)
    requires p <= |text| && Blank(text[..p]) && n.kind.Obj? && ValueSpans(text, n, p, q)
    ensures RootF(text) == Ok(n, q)
  {
    hide Blank, ObjectF, MembersSpan, Ws;
    assert text[0..p] == text[..p];
    BlankWs(text, 0, p);
    ValueStarts(text, n, p, q);
    ValueComplete(text, n, p, q);
    assert text[p] == 0x7B;
  }

  // ----- The codes -----

  /** Invalid is -1 and incomplete -2: incomplete if the text ends where something has to
      follow, invalid if something else follows. */
  lemma FaultCodes(text: Bytes, p: nat)
    requires p <= |text|
    ensures p == |text| ==> StringScan(text, p) == Scan.Stop(-2) && SomeDigits(text, p) == Scan.Stop(-2)
    ensures p < |text| && text[p] < 0x20 ==> StringScan(text, p) == Scan.Stop(-1)
    ensures p < |text| && !(0x30 <= text[p] <= 0x39) ==> SomeDigits(text, p) == Scan.Stop(-1)
    ensures 0 < p < |text| && text[p] !in {0x75, 0x22, 0x5C, 0x2F, 0x62, 0x66, 0x6E, 0x72, 0x74} ==> EscapeLen(text, p) == -1
    ensures 0 < p && p + 4 < |text| && text[p] == 0x75 && !(Hex(text[p + 1]) && Hex(text[p + 2]) && Hex(text[p + 3]) && Hex(text[p + 4]))
            ==> EscapeLen(text, p) == -1
    ensures forall word: Bytes :: word != [] && p < |text| && text[p] != word[0] ==> WordScan(text, p, word) == Scan.Stop(-1)
    ensures var q := Ws(text, p);
            && (q == |text| ==> ValueF(text, p) == Err(-2, 0) && KeyF(text, p) == Err(-2, 0) && Missing(text, p) == -2)
            && (q < |text| ==> Missing(text, p) == -1)
            && (q < |text| && text[q] !in DIGITS + {0x22, 0x7B, 0x5B, 0x6E, 0x74, 0x66, 0x2D} ==> ValueF(text, p) == Err(-1, 0))
            && (q < |text| && text[q] != 0x22 && !Letter(text[q]) ==> KeyF(text, p) == Err(-1, 0))
  {}
}
