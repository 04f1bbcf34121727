/** JSON text with any white space, given to the embedded parser: it accepts the text of
    every object whose strings are well-formed UTF-8, and its tree is that of the value. */
module FrozenReads {
  import opened Words
  import opened Numerals
  import opened JsonEvents
  import opened JsonDom
  import opened JsonString
  import opened JsonLayout
  import opened JsonSyntax
  import opened JsonSpelling
  import opened FrozenTree
  import G = FrozenGrammar
  import Utf

  // ----- What a tree says -----

  /** A string token whose span with the quotes around it is the literal of `s`. */
  predicate Quotes(text: Bytes, ascii: bool, n: Node, s: Bytes) {
    && n.kind.Str? && n.children == [] && 0 < n.at && n.at + n.len < |text|
    && text[n.at - 1..n.at + n.len + 1] == Literal(s, ascii)
  }

  /** The tree of tokens is the value: kinds, keys and values in turn, and spans that hold
      the texts of its scalars. */
  predicate Denotes(text: Bytes, ascii: bool, n: Node, v: Value)
    decreases v
  {
    match v
    case VNull => n.kind.Null? && n.children == []
    case VBool(b) => (if b then n.kind.True? else n.kind.False?) && n.children == []
    case VNumber(x) =>
      && n.kind.Num? && n.children == [] && n.at + n.len <= |text|
      && text[n.at..n.at + n.len] == if x < 0 then [0x2D] + Decimal(-x) else Decimal(x)
    case VDouble(_) => false
    case VString(s) => Quotes(text, ascii, n, s)
    case VArray(es) =>
      n.kind.Arr? && |n.children| == |es| && forall i :: 0 <= i < |es| ==> Denotes(text, ascii, n.children[i], es[i])
    case VObject(ms) =>
      && n.kind.Obj? && |n.children| == 2 * |ms|
      && forall i :: 0 <= i < |ms| ==>
           && Quotes(text, ascii, n.children[2 * i], ms[i].name)
           && Denotes(text, ascii, n.children[2 * i + 1], ms[i].value)
  }

  /** No doubles, and well-formed strings. */
  predicate Plain(v: Value)
    decreases v
  {
    match v
    case VDouble(_) => false
    case VString(s) => Utf.WellFormed(s)
    case VArray(es) => forall i :: 0 <= i < |es| ==> Plain(es[i])
    case VObject(ms) => forall i :: 0 <= i < |ms| ==> Utf.WellFormed(ms[i].name) && Plain(ms[i].value)
    case _ => true
  }

  // ----- Strings -----

  lemma HexPasses(d: nat)
    requires d < 0x10
    ensures G.HexDigit(HexDigit(d))
  {}

  /** An escape of four hexadecimal digits is passed over. */
  lemma UnicodePasses(text: Bytes, at: nat, v: nat)
    requires v < 0x1_0000 && Has(text, at, [BACKSLASH, LOWER_U] + HexDigits(v)) && at + 6 < |text|
    ensures G.StringScan(text, at) == G.StringScan(text, at + 6)
  {
    var b := [BACKSLASH, LOWER_U] + HexDigits(v);
    assert forall i :: 0 <= i < 6 ==> text[at + i] == text[at..at + 6][i] == b[i];
    HexPasses(v / 0x1000);
    HexPasses(v / 0x100 % 0x10);
    HexPasses(v / 0x10 % 0x10);
    HexPasses(v % 0x10);
  }

  /** And so is every other character the writers put. */
  lemma BytePasses(text: Bytes, at: nat, c: byte)
    requires c < 0x80 && Has(text, at, PutByte(c)) && at + |PutByte(c)| < |text|
    ensures G.StringScan(text, at) == G.StringScan(text, at + |PutByte(c)|)
  {
    var b := PutByte(c);
    if |b| == 6 {
      assert b == [BACKSLASH, LOWER_U] + HexDigits(c);
      UnicodePasses(text, at, c);
    } else {
      assert forall i :: 0 <= i < |b| ==> text[at + i] == text[at..at + |b|][i] == b[i];
    }
  }

  lemma EscapePasses(text: Bytes, at: nat, cp: nat)
    requires Utf.Scalar(cp) && Has(text, at, PutEscape(cp)) && at + |PutEscape(cp)| < |text|
    ensures G.StringScan(text, at) == G.StringScan(text, at + |PutEscape(cp)|)
  {
    hide G.StringScan, Has, HexDigits;
    if cp <= 0xFFFF {
      UnicodePasses(text, at, cp);
    } else {
      var s := cp - 0x1_0000;
      var hi, lo := [BACKSLASH, LOWER_U] + HexDigits(s / 0x400 + 0xD800), [BACKSLASH, LOWER_U] + HexDigits(s % 0x400 + 0xDC00);
      assert PutEscape(cp) == hi + lo;
      HasSplit(text, at, hi, lo);
      UnicodePasses(text, at, s / 0x400 + 0xD800);
      UnicodePasses(text, at + 6, s % 0x400 + 0xDC00);
    }
  }

  lemma SequencePasses(text: Bytes, at: nat, u: Bytes)
    requires Utf.Utf8Sequence(u) && |u| > 1 && Has(text, at, u) && at + |u| < |text|
    ensures G.StringScan(text, at) == G.StringScan(text, at + |u|)
  {
    assert text[at] == text[at..at + |u|][0] == u[0];
  }

  lemma {:induction false} BodyPasses(s: Bytes, p: nat, ascii: bool, text: Bytes, at: nat)
    requires p <= |s| && Utf.WellFormed(s[p..]) && Has(text, at, Body(s, p, ascii).out + [QUOTE])
    requires at + |Body(s, p, ascii).out| + 1 < |text|
    ensures G.StringScan(text, at) == G.End(at + |Body(s, p, ascii).out|)
    decreases |s| - p
  {
    hide Body, Has, Utf.WellFormed, Utf.Decode, Utf.Encode, Utf.Utf8Sequence, PutByte, PutEscape, G.StringScan;
    if p == |s| {
      BodyDone(s, ascii);
      QuoteEnds(text, at);
    } else {
      Utf.WellFormedStep(s, p);
      AsciiDecodes(s, p);
      var d := Utf.Decode(s, p);
      var part: Bytes;
      if s[p] < 0x80 {
        part := PutByte(s[p]);
        PlainUnit(s, p, ascii);
        UnitSplits(s, p, d.next, ascii, part, text, at);
        BytePasses(text, at, s[p]);
      } else if ascii {
        EscapedUnit(s, p);
        part := PutEscape(d.cp);
        UnitSplits(s, p, d.next, ascii, part, text, at);
        EscapePasses(text, at, d.cp);
      } else {
        CopiedUnit(s, p);
        part := s[p..d.next];
        UnitSplits(s, p, d.next, ascii, part, text, at);
        LongSequence(part, s[p]);
        SequencePasses(text, at, part);
      }
      BodyPasses(s, d.next, ascii, text, at + |part|);
    }
  }

  lemma LongSequence(u: Bytes, c: byte)
    requires Utf.Utf8Sequence(u) && u[0] == c >= 0x80
    ensures |u| > 1
  {}

  lemma BodyDone(s: Bytes, ascii: bool)
    ensures Body(s, |s|, ascii) == Written(true, []) && [] + [QUOTE] == [QUOTE]
  {}

  lemma QuoteEnds(text: Bytes, at: nat)
    requires Has(text, at, [QUOTE]) && at + 1 < |text|
    ensures G.StringScan(text, at) == G.End(at)
  {
    HasAt(text, at, [QUOTE], 0);
  }

  /** A literal is one string token. */
  lemma LiteralToken(text: Bytes, p: nat, s: Bytes, ascii: bool)
    requires Utf.WellFormed(s) && Has(text, p, Literal(s, ascii)) && p + |Literal(s, ascii)| < |text|
    ensures p < |text| && text[p] == 0x22
    ensures var r := G.StringF(text, p);
            r.Ok? && r.pos == p + |Literal(s, ascii)| && Quotes(text, ascii, r.node, s)
  {
    hide Body, Utf.WellFormed, G.StringScan;
    var out := Body(s, 0, ascii).out;
    HasAt(text, p, Literal(s, ascii), 0);
    Assoc([QUOTE], out, [QUOTE]);
    HasSplit(text, p, [QUOTE], out + [QUOTE]);
    assert s[0..] == s;
    BodyPasses(s, 0, ascii, text, p + 1);
  }

  // ----- Numbers and words -----

  lemma {:induction false} DigitsPass(text: Bytes, p: nat, q: nat)
    requires p <= q <= |text| && (forall i :: p <= i < q ==> 0x30 <= text[i] <= 0x39) && (q < |text| ==> !G.Digit(text[q]))
    ensures G.Digits(text, p) == q
    decreases q - p
  {
    if p < q { DigitsPass(text, p + 1, q); }
  }

  lemma NumberToken(text: Bytes, p: nat, x: int)
    requires var b := if x < 0 then [0x2D] + Decimal(-x) else Decimal(x);
             Has(text, p, b) && p + |b| < |text| && Delimited(text, p + |b|)
    ensures var b := if x < 0 then [0x2D] + Decimal(-x) else Decimal(x);
            && p < |text| && (text[p] == 0x2D || G.Digit(text[p])) && G.NumberScan(text, p) == G.End(p + |b|)
  {
    var b := if x < 0 then [0x2D] + Decimal(-x) else Decimal(x);
    var q := p + |b|;
    assert forall i :: p <= i < q ==> text[i] == text[p..q][i - p] == b[i - p];
    var a := if x < 0 then p + 1 else p;
    assert forall i :: a <= i < q ==> 0x30 <= text[i] <= 0x39;
    DigitsPass(text, a, q);
  }

  lemma {:induction false} WordPasses(text: Bytes, p: nat, word: Bytes)
    requires Has(text, p, word)
    ensures G.WordScan(text, p, word) == G.End(p + |word|)
    decreases |word|
  {
    if word != [] {
      HasAt(text, p, word, 0);
      assert word == word[..1] + word[1..];
      HasSplit(text, p, word[..1], word[1..]);
      WordPasses(text, p + 1, word[1..]);
    }
  }

  // ----- White space -----

  lemma {:induction false} WsPasses(text: Bytes, p: nat, b: Bytes)
    requires Has(text, p, b) && Blank(b) && p + |b| < |text| && text[p + |b|] !in {0x20, 0x09, 0x0A, 0x0D}
    ensures G.Ws(text, p) == p + |b|
    decreases |b|
  {
    if b != [] {
      HasAt(text, p, b, 0);
      assert b == b[..1] + b[1..];
      HasSplit(text, p, b[..1], b[1..]);
      WsPasses(text, p + 1, b[1..]);
    }
  }

  lemma ValueAfterWs(text: Bytes, p: nat, a: nat)
    requires p <= |text| && G.Ws(text, p) == a < |text| && G.Ws(text, a) == a
    ensures G.ValueF(text, p) == G.ValueF(text, a)
  {
    hide G.StringF, G.ObjectF, G.ArrayF, G.WordF, G.NumberF;
  }

  // ----- Values -----

  /** The tree stands in the text at `p`; behind a scalar there is a byte that ends it. */
  ghost predicate Placed(text: Bytes, ascii: bool, t: Syntax, v: Value, p: nat) {
    && (exists floating :: Spells(ascii, floating, t, v)) && Gaps(t) && Plain(v) && Has(text, p, Text(t))
    && (t.Leaf? ==> p + |Text(t)| < |text| && Delimited(text, p + |Text(t)|))
  }

  lemma PlacedStarts(text: Bytes, ascii: bool, t: Syntax, v: Value, p: nat)
    requires Placed(text, ascii, t, v, p)
    ensures p < |text| && text[p] !in {0x20, 0x09, 0x0A, 0x0D, 0x5D, 0x7D, 0x2C} && G.Ws(text, p) == p
  {
    hide Decimal, Literal, Has;
    match v
    case VNumber(x) => NumberToken(text, p, x);
    case VString(s) =>
      LiteralStarts(s, ascii);
      HasAt(text, p, Text(t), 0);
    case VArray(_) => HasAt(text, p, Text(t), 0);
    case VObject(_) => HasAt(text, p, Text(t), 0);
    case VNull => HasAt(text, p, Text(t), 0);
    case VBool(_) => HasAt(text, p, Text(t), 0);
  }

  lemma LiteralStarts(s: Bytes, ascii: bool)
    ensures Literal(s, ascii) != [] && Literal(s, ascii)[0] == 0x22
  {}

  lemma LeafReads(text: Bytes, ascii: bool, t: Syntax, v: Value, p: nat)
    requires Placed(text, ascii, t, v, p) && !v.VArray? && !v.VObject?
    ensures p <= |text|
    ensures var r := G.ValueF(text, p); r.Ok? && r.pos == p + |Text(t)| && Denotes(text, ascii, r.node, v)
  {
    hide G.NumberScan, G.WordScan, G.StringF, Decimal, Literal, Quotes, Utf.WellFormed;
    PlacedStarts(text, ascii, t, v, p);
    match v
    case VNumber(x) => NumberToken(text, p, x);
    case VString(s) => LiteralToken(text, p, s, ascii);
    case VNull =>
      HasAt(text, p, t.token, 0);
      WordPasses(text, p, [0x6E, 0x75, 0x6C, 0x6C]);
    case VBool(b) =>
      HasAt(text, p, t.token, 0);
      WordPasses(text, p, if b then [0x74, 0x72, 0x75, 0x65] else [0x66, 0x61, 0x6C, 0x73, 0x65]);
  }

  ghost predicate ItemPlain(ascii: bool, i: Item, v: Value) {
    (exists floating :: Spells(ascii, floating, i.value, v)) && ItemGaps(i) && Plain(v)
  }

  /** An item is read up to the comma or bracket behind it. */
  lemma {:induction false} ItemReads(text: Bytes, ascii: bool, i: Item, v: Value, p: nat, c: byte, rest: Bytes)
    requires ItemPlain(ascii, i, v) && Has(text, p, ItemText(i) + ([c] + rest)) && c in {0x2C, 0x5D, 0x7D}
    ensures var q := p + |ItemText(i)|;
            && p <= G.Ws(text, p) < |text| && text[G.Ws(text, p)] !in {0x5D, 0x7D}
            && q < |text| && text[q] == c && Has(text, q + 1, rest)
            && var r := G.ValueF(text, p); r.Ok? && G.Ws(text, r.pos) == q && Denotes(text, ascii, r.node, v)
    decreases v, 1
  {
    hide Has, Spells, Text, Gaps, Plain, Denotes, G.ValueF, G.Ws, Delimited;
    ItemParts(text, i, p, c, rest);
    var a := p + |i.before|;
    var e := a + |Text(i.value)|;
    GapDelimits(text, e, i.after);
    assert Placed(text, ascii, i.value, v, a);
    PlacedStarts(text, ascii, i.value, v, a);
    WsPasses(text, p, i.before);
    WsPasses(text, e, i.after);
    ValueAfterWs(text, p, a);
    ValueReads(text, ascii, i.value, v, a);
  }

  lemma CommaPasses(text: Bytes, p: nat, q: nat)
    requires p <= |text| && G.Ws(text, p) == q < |text|
    ensures G.AfterComma(text, p) == if text[q] == 0x2C then q + 1 else q
  {}

  lemma CloseFound(text: Bytes, q: nat)
    requires q < |text| && text[q] !in {0x20, 0x09, 0x0A, 0x0D}
    ensures G.Ws(text, q) == q
  {}

  lemma {:induction false} ItemsRead(text: Bytes, ascii: bool, items: seq<Item>, es: seq<Value>, p: nat)
    requires items != [] && |items| == |es| && Has(text, p, ItemsText(items) + [0x5D])
    requires forall i :: 0 <= i < |es| ==> ItemPlain(ascii, items[i], es[i])
    ensures p <= |text|
    ensures var r := G.ElementsF(text, p);
            && r.Items? && r.end == p + |ItemsText(items)| + 1 && |r.nodes| == |es|
            && forall i :: 0 <= i < |es| ==> Denotes(text, ascii, r.nodes[i], es[i])
    decreases es, 0
  {
    hide Has, ItemText, ItemPlain, Denotes, G.ValueF, G.Ws;
    var i, more := items[0], items[1..];
    var q := p + |ItemText(i)|;
    if more == [] {
      assert ItemsText(items) + [0x5D] == ItemText(i) + ([0x5D] + []);
      ItemReads(text, ascii, i, es[0], p, 0x5D, []);
      CommaPasses(text, G.ValueF(text, p).pos, q);
      CloseFound(text, q);
    } else {
      assert ItemsText(items) + [0x5D] == ItemText(i) + ([0x2C] + (ItemsText(more) + [0x5D]));
      ItemReads(text, ascii, i, es[0], p, 0x2C, ItemsText(more) + [0x5D]);
      CommaPasses(text, G.ValueF(text, p).pos, q);
      ItemsRead(text, ascii, more, es[1..], q + 1);
      var rest := G.ElementsF(text, q + 1).nodes;
      forall j | 0 <= j < |es| ensures Denotes(text, ascii, G.ElementsF(text, p).nodes[j], es[j]) {
        if j > 0 { assert es[1..][j - 1] == es[j]; }
      }
    }
  }

  ghost predicate FieldPlain(ascii: bool, f: Field, m: Member) {
    && f.token == Literal(m.name, ascii) && Utf.WellFormed(m.name) && Blank(f.before) && Blank(f.mid)
    && ItemPlain(ascii, f.item, m.value)
  }

  /** A name is one key token, with its colon behind it. */
  lemma NameReads(text: Bytes, ascii: bool, f: Field, m: Member, p: nat, rest: Bytes)
    requires FieldPlain(ascii, f, m) && Has(text, p, NameText(f) + rest)
    ensures var q := p + |NameText(f)|;
            && p <= G.Ws(text, p) < |text| && text[G.Ws(text, p)] != 0x7D
            && 0 < q <= |text| && Has(text, q, rest)
            && var r := G.KeyF(text, p);
               && r.Ok? && Quotes(text, ascii, r.node, m.name)
               && G.Ws(text, r.pos) == q - 1 && q - 1 < |text| && text[q - 1] == 0x3A
  {
    hide Has, Literal, ItemPlain, Utf.WellFormed, G.Ws, G.StringF, Quotes;
    NameParts(text, f, p, rest);
    var a := p + |f.before|;
    LiteralToken(text, a, m.name, ascii);
    WsPasses(text, p, f.before);
    WsPasses(text, a + |f.token|, f.mid);
  }

  lemma {:induction false} FieldReads(text: Bytes, ascii: bool, f: Field, m: Member, p: nat, c: byte, rest: Bytes)
    requires FieldPlain(ascii, f, m) && Has(text, p, FieldText(f) + ([c] + rest)) && c in {0x2C, 0x5D, 0x7D}
    ensures var q := p + |FieldText(f)|;
            && p <= G.Ws(text, p) < |text| && text[G.Ws(text, p)] != 0x7D
            && q < |text| && text[q] == c && Has(text, q + 1, rest)
            && var r := G.PairF(text, p);
               && r.Items? && |r.nodes| == 2 && G.Ws(text, r.end) == q
               && Quotes(text, ascii, r.nodes[0], m.name) && Denotes(text, ascii, r.nodes[1], m.value)
    decreases m, 1
  {
    hide Has, ItemText, NameText, ItemPlain, Denotes, Quotes, G.ValueF, G.KeyF, G.Ws, Literal, Utf.WellFormed;
    Assoc(NameText(f), ItemText(f.item), [c] + rest);
    NameReads(text, ascii, f, m, p, ItemText(f.item) + ([c] + rest));
    ItemReads(text, ascii, f.item, m.value, p + |NameText(f)|, c, rest);
  }

  /** The nodes from `i` on are keys and values of these members. */
  predicate Pairs(text: Bytes, ascii: bool, ns: seq<Node>, ms: seq<Member>) {
    && |ns| == 2 * |ms|
    && forall i :: 0 <= i < |ms| ==>
         Quotes(text, ascii, ns[2 * i], ms[i].name) && Denotes(text, ascii, ns[2 * i + 1], ms[i].value)
  }

  lemma PairsCons(text: Bytes, ascii: bool, pair: seq<Node>, rest: seq<Node>, ms: seq<Member>)
    requires ms != [] && |pair| == 2 && Quotes(text, ascii, pair[0], ms[0].name) && Denotes(text, ascii, pair[1], ms[0].value)
    requires Pairs(text, ascii, rest, ms[1..])
    ensures Pairs(text, ascii, pair + rest, ms)
  {
    hide Quotes, Denotes;
    var all := pair + rest;
    forall i | 0 <= i < |ms|
      ensures Quotes(text, ascii, all[2 * i], ms[i].name) && Denotes(text, ascii, all[2 * i + 1], ms[i].value)
    {
      if i > 0 {
        assert ms[1..][i - 1] == ms[i] && all[2 * i] == rest[2 * (i - 1)] && all[2 * i + 1] == rest[2 * (i - 1) + 1];
      }
    }
  }

  lemma {:induction false} FieldsRead(text: Bytes, ascii: bool, fields: seq<Field>, ms: seq<Member>, p: nat)
    requires fields != [] && |fields| == |ms| && Has(text, p, FieldsText(fields) + [0x7D])
    requires forall i :: 0 <= i < |ms| ==> FieldPlain(ascii, fields[i], ms[i])
    ensures p <= |text|
    ensures var r := G.MembersF(text, p);
            r.Items? && r.end == p + |FieldsText(fields)| + 1 && Pairs(text, ascii, r.nodes, ms)
    decreases ms, 0
  {
    hide Has, FieldText, FieldPlain, Denotes, Quotes, Pairs, G.PairF, G.Ws;
    var f, more := fields[0], fields[1..];
    var q := p + |FieldText(f)|;
    NoPairs(text, ascii);
    if more == [] {
      assert FieldsText(fields) + [0x7D] == FieldText(f) + ([0x7D] + []);
      FieldReads(text, ascii, f, ms[0], p, 0x7D, []);
      CommaPasses(text, G.PairF(text, p).end, q);
      CloseFound(text, q);
      assert ms[1..] == [];
      PairsCons(text, ascii, G.PairF(text, p).nodes, [], ms);
    } else {
      assert FieldsText(fields) + [0x7D] == FieldText(f) + ([0x2C] + (FieldsText(more) + [0x7D]));
      FieldReads(text, ascii, f, ms[0], p, 0x2C, FieldsText(more) + [0x7D]);
      CommaPasses(text, G.PairF(text, p).end, q);
      FieldsRead(text, ascii, more, ms[1..], q + 1);
      PairsCons(text, ascii, G.PairF(text, p).nodes, G.MembersF(text, q + 1).nodes, ms);
    }
  }

  lemma NoPairs(text: Bytes, ascii: bool)
    ensures Pairs(text, ascii, [], [])
  {}

  lemma HollowReads(text: Bytes, p: nat, open: byte, hollow: Bytes, close: byte)
    requires Has(text, p, [open] + hollow + [close]) && Blank(hollow) && close !in {0x20, 0x09, 0x0A, 0x0D}
    ensures var q := p + 1 + |hollow|; p < |text| && q < |text| && G.Ws(text, p + 1) == q && text[q] == close
  {
    hide Has;
    HasAt(text, p, [open] + hollow + [close], 0);
    HasSplit(text, p, [open] + hollow, [close]);
    HasSplit(text, p, [open], hollow);
    HasAt(text, p + 1 + |hollow|, [close], 0);
    WsPasses(text, p + 1, hollow);
  }

  lemma {:induction false} ListReads(text: Bytes, ascii: bool, t: Syntax, es: seq<Value>, p: nat)
    requires Placed(text, ascii, t, VArray(es), p)
    ensures p < |text| && text[p] == 0x5B
    ensures var r := G.ArrayF(text, p); r.Ok? && r.pos == p + |Text(t)| && Denotes(text, ascii, r.node, VArray(es))
    decreases es, 1
  {
    hide Has, ItemsText, G.ElementsF;
    HasAt(text, p, Text(t), 0);
    if es == [] {
      assert t.items == [];
      HollowReads(text, p, 0x5B, t.hollow, 0x5D);
      NoElements(text, p + 1);
    } else {
      Assoc([0x5B], ItemsText(t.items), [0x5D]);
      HasSplit(text, p, [0x5B], ItemsText(t.items) + [0x5D]);
      forall i | 0 <= i < |es| ensures ItemPlain(ascii, t.items[i], es[i]) {
        var floating :| Spells(ascii, floating, t, VArray(es));
        assert ItemGaps(t.items[i]) && Plain(es[i]) && Spells(ascii, floating, t.items[i].value, es[i]);
      }
      ItemsRead(text, ascii, t.items, es, p + 1);
    }
  }

  lemma NoElements(text: Bytes, p: nat)
    requires p <= |text|
    ensures G.Sees(text, p, 0x5D) ==> G.ElementsF(text, p) == G.Items([], G.Ws(text, p) + 1)
    ensures G.Sees(text, p, 0x7D) ==> G.MembersF(text, p) == G.Items([], G.Ws(text, p) + 1)
  {}

  lemma {:induction false} RecordReads(text: Bytes, ascii: bool, t: Syntax, ms: seq<Member>, p: nat)
    requires Placed(text, ascii, t, VObject(ms), p)
    ensures p < |text| && text[p] == 0x7B
    ensures var r := G.ObjectF(text, p); r.Ok? && r.pos == p + |Text(t)| && Denotes(text, ascii, r.node, VObject(ms))
    decreases ms, 1
  {
    hide Has, FieldsText, G.MembersF, Quotes, Literal, Utf.WellFormed;
    HasAt(text, p, Text(t), 0);
    if ms == [] {
      assert t.fields == [];
      HollowReads(text, p, 0x7B, t.hollow, 0x7D);
      NoElements(text, p + 1);
    } else {
      Assoc([0x7B], FieldsText(t.fields), [0x7D]);
      HasSplit(text, p, [0x7B], FieldsText(t.fields) + [0x7D]);
      forall i | 0 <= i < |ms| ensures FieldPlain(ascii, t.fields[i], ms[i]) {
        var floating :| Spells(ascii, floating, t, VObject(ms));
        assert FieldGaps(t.fields[i]) && Plain(ms[i].value) && SpellsMember(ascii, floating, t.fields[i], ms[i]);
        assert Spells(ascii, floating, t.fields[i].item.value, ms[i].value);
        assert ItemPlain(ascii, t.fields[i].item, ms[i].value);
      }
      FieldsRead(text, ascii, t.fields, ms, p + 1);
    }
  }

  lemma {:induction false} ValueReads(text: Bytes, ascii: bool, t: Syntax, v: Value, p: nat)
    requires Placed(text, ascii, t, v, p)
    ensures p <= |text|
    ensures var r := G.ValueF(text, p); r.Ok? && r.pos == p + |Text(t)| && Denotes(text, ascii, r.node, v)
    decreases v, 0
  {
    hide Placed, Denotes, Text, G.ArrayF, G.ObjectF;
    PlacedStarts(text, ascii, t, v, p);
    match v
    case VArray(es) => ListReads(text, ascii, t, es, p);
    case VObject(ms) => RecordReads(text, ascii, t, ms, p);
    case _ => LeafReads(text, ascii, t, v, p);
  }

  /** Wherever white space is put in the text of an object, and whatever follows it, the
      parser accepts up to the end of the object with the tree of the value. */
  lemma ObjectReads(text: Bytes, ascii: bool, floating: nat -> Bytes, before: Bytes, t: Syntax, ms: seq<Member>)
    requires Spells(ascii, floating, t, VObject(ms)) && Gaps(t) && Plain(VObject(ms)) && Blank(before)
    requires Has(text, 0, before + Text(t))
    ensures var r := G.RootF(text);
            r.Ok? && r.pos == |before| + |Text(t)| && Denotes(text, ascii, r.node, VObject(ms))
  {
    hide Has, Spells, Gaps, Plain, Denotes, Text, G.ObjectF, G.Ws;
    HasSplit(text, 0, before, Text(t));
    assert Placed(text, ascii, t, VObject(ms), |before|) by { RecordOf(ascii, floating, t, ms); }
    RecordReads(text, ascii, t, ms, |before|);
    WsPasses(text, 0, before);
  }

  lemma RecordOf(ascii: bool, floating: nat -> Bytes, t: Syntax, ms: seq<Member>)
    requires Spells(ascii, floating, t, VObject(ms))
    ensures t.Record?
  {}
}
