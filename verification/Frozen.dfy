/** The flat token array of the embedded JSON parser: the trees it encodes. */
module FrozenTree {
  import opened Words

  datatype Kind = Eof | Str | Num | Obj | True | False | Null | Arr

  /** `struct json_token`; the pointer is an offset into the text. */
  datatype Token = Token(at: int, len: int, numDesc: int, kind: Kind)

  /** A token with the tokens below it. The children of an object are keys and values
      in turn. */
  datatype Node = Node(kind: Kind, at: nat, len: nat, children: seq<Node>)

  /** The number of tokens of a tree. */
  function Count(n: Node): (c: nat)
    ensures c >= 1
    decreases n, 0
  {
    1 + CountAll(n.children)
  }

  function CountAll(ns: seq<Node>): nat
    decreases ns, 0
  {
    if ns == [] then 0 else Count(ns[0]) + CountAll(ns[1..])
  }

  /** Preorder, each token with the number of tokens below it. */
  function Flatten(n: Node): (ts: seq<Token>)
    ensures |ts| == Count(n)
    decreases n, 0
  {
    [Token(n.at, n.len, CountAll(n.children), n.kind)] + FlattenAll(n.children)
  }

  function FlattenAll(ns: seq<Node>): (ts: seq<Token>)
    ensures |ts| == CountAll(ns)
    decreases ns, 0
  {
    if ns == [] then [] else Flatten(ns[0]) + FlattenAll(ns[1..])
  }

  lemma {:induction false} FlattenSplit(ns: seq<Node>, ms: seq<Node>)
    ensures CountAll(ns + ms) == CountAll(ns) + CountAll(ms)
    ensures FlattenAll(ns + ms) == FlattenAll(ns) + FlattenAll(ms)
  {
    if ns == [] {
      assert ns + ms == ms;
    } else {
      FlattenSplit(ns[1..], ms);
      assert (ns + ms)[0] == ns[0] && (ns + ms)[1..] == ns[1..] + ms;
      Assoc(Flatten(ns[0]), FlattenAll(ns[1..]), FlattenAll(ms));
    }
  }

  lemma FlattenOne(n: Node)
    ensures CountAll([n]) == Count(n) && FlattenAll([n]) == Flatten(n)
  {
    assert Flatten(n) + [] == Flatten(n);
  }

  /** Keys and values alternate, keys are strings, and only objects and arrays have
      anything below them. */
  predicate Shaped(n: Node)
    decreases n, 0
  {
    && (!n.kind.Obj? && !n.kind.Arr? ==> n.children == [])
    && (n.kind.Obj? ==> |n.children| % 2 == 0)
    && (forall i :: 0 <= i < |n.children| ==> Shaped(n.children[i]))
    && (n.kind.Obj? ==> forall i :: 0 <= i < |n.children| && i % 2 == 0 ==> n.children[i].kind.Str?)
  }

  /** The spans of `ns` follow one another within `lo` and `hi`, and nest in turn. */
  predicate Nested(ns: seq<Node>, lo: nat, hi: nat)
    decreases ns, 0
  {
    if ns == [] then lo <= hi
    else
      && lo <= ns[0].at && ns[0].at + ns[0].len <= hi
      && NestedIn(ns[0]) && Nested(ns[1..], ns[0].at + ns[0].len, hi)
  }

  predicate NestedIn(n: Node)
    decreases n, 1
  {
    Nested(n.children, n.at, n.at + n.len)
  }

  lemma {:induction false} NestedWiden(ns: seq<Node>, lo: nat, hi: nat, lo': nat, hi': nat)
    requires Nested(ns, lo, hi) && lo' <= lo && hi <= hi'
    ensures Nested(ns, lo', hi')
  {
    if ns != [] { NestedWiden(ns[1..], ns[0].at + ns[0].len, hi, ns[0].at + ns[0].len, hi'); }
  }

  lemma {:induction false} NestedSplit(ns: seq<Node>, ms: seq<Node>, lo: nat, mid: nat, hi: nat)
    requires Nested(ns, lo, mid) && Nested(ms, mid, hi)
    ensures Nested(ns + ms, lo, hi)
    decreases |ns|
  {
    if ns == [] {
      assert ns + ms == ms;
      NestedWiden(ms, mid, hi, lo, hi);
    } else {
      NestedSplit(ns[1..], ms, ns[0].at + ns[0].len, mid, hi);
      NestedBounds(ms, mid, hi);
      assert (ns + ms)[0] == ns[0] && (ns + ms)[1..] == ns[1..] + ms;
    }
  }

  lemma {:induction false} NestedBounds(ns: seq<Node>, lo: nat, hi: nat)
    requires Nested(ns, lo, hi)
    ensures lo <= hi
  {
    if ns != [] { NestedBounds(ns[1..], ns[0].at + ns[0].len, hi); }
  }

  // ----- The array by itself -----

  /** Token `i` announces as many tokens as stand below it, and its span covers theirs. */
  ghost predicate Covers(ts: seq<Token>, i: nat)
    requires i < |ts|
  {
    && 0 <= ts[i].numDesc && i + ts[i].numDesc < |ts|
    && forall j :: i < j <= i + ts[i].numDesc ==> ts[i].at <= ts[j].at && ts[j].at + ts[j].len <= ts[i].at + ts[i].len
  }

  lemma {:induction false} SpanOf(n: Node, j: nat)
    requires NestedIn(n) && j < Count(n)
    ensures n.at <= Flatten(n)[j].at && Flatten(n)[j].at + Flatten(n)[j].len <= n.at + n.len
    decreases n, 1
  {
    if j > 0 { SpanAll(n.children, n.at, n.at + n.len, j - 1); }
  }

  lemma {:induction false} SpanAll(ns: seq<Node>, lo: nat, hi: nat, j: nat)
    requires Nested(ns, lo, hi) && j < CountAll(ns)
    ensures lo <= FlattenAll(ns)[j].at && FlattenAll(ns)[j].at + FlattenAll(ns)[j].len <= hi
    decreases ns, 0
  {
    var c := Count(ns[0]);
    NestedBounds(ns[1..], ns[0].at + ns[0].len, hi);
    if j < c {
      SpanOf(ns[0], j);
    } else {
      SpanAll(ns[1..], ns[0].at + ns[0].len, hi, j - c);
    }
  }

  /** In the array of a nested tree every token covers what it announces. */
  lemma {:induction false} SkipPointers(n: Node, i: nat)
    requires NestedIn(n) && i < Count(n)
    ensures Covers(Flatten(n), i)
    decreases n, 1
  {
    var ts, below := Flatten(n), FlattenAll(n.children);
    if i == 0 {
      forall j | 0 < j < Count(n) ensures ts[0].at <= ts[j].at && ts[j].at + ts[j].len <= ts[0].at + ts[0].len {
        SpanOf(n, j);
      }
    } else {
      SkipPointersAll(n.children, n.at, n.at + n.len, i - 1);
      assert forall j :: 0 < j < |ts| ==> ts[j] == below[j - 1];
    }
  }

  lemma {:induction false} SkipPointersAll(ns: seq<Node>, lo: nat, hi: nat, i: nat)
    requires Nested(ns, lo, hi) && i < CountAll(ns)
    ensures Covers(FlattenAll(ns), i)
    decreases ns, 0
  {
    var ts, first, rest := FlattenAll(ns), Flatten(ns[0]), FlattenAll(ns[1..]);
    var c := Count(ns[0]);
    assert ts == first + rest;
    if i < c {
      SkipPointers(ns[0], i);
    } else {
      SkipPointersAll(ns[1..], ns[0].at + ns[0].len, hi, i - c);
      assert forall j :: c <= j < |ts| ==> ts[j] == rest[j - c];
    }
  }
}

/** The language the parser accepts, as recursive functions of the text. Failures carry
    the number of tokens begun before them. */
module FrozenGrammar {
  import opened Words
  import opened FrozenTree

  const INVALID := -1
  const INCOMPLETE := -2
  const TOO_SMALL := -3

  datatype Parsed = Ok(node: Node, pos: nat) | Err(code: int, count: nat)
  datatype Listed = Items(nodes: seq<Node>, end: nat) | Fail(code: int, count: nat)

  predicate Space(c: byte) {
    c == 0x20 || c == 0x09 || c == 0x0D || c == 0x0A
  }

  predicate Alpha(c: byte) {
    0x61 <= c <= 0x7A || 0x41 <= c <= 0x5A
  }

  predicate Digit(c: byte) {
    0x30 <= c <= 0x39
  }

  predicate HexDigit(c: byte) {
    Digit(c) || 0x61 <= c <= 0x66 || 0x41 <= c <= 0x46
  }

  /** The next position that is not white space. */
  function Ws(text: Bytes, p: nat): (q: nat)
    requires p <= |text|
    ensures p <= q <= |text| && (q < |text| ==> !Space(text[q]))
    decreases |text| - p
  {
    if p < |text| && Space(text[p]) then Ws(text, p + 1) else p
  }

  predicate Sees(text: Bytes, p: nat, c: byte)
    requires p <= |text|
  {
    Ws(text, p) < |text| && text[Ws(text, p)] == c
  }

  /** The failure when something else was expected at `p`. */
  function Missing(text: Bytes, p: nat): int
    requires p <= |text|
  {
    if Ws(text, p) == |text| then INCOMPLETE else INVALID
  }

  // ----- Scalars -----

  datatype Scan = End(at: nat) | Stop(code: int)

  function CharLen(c: byte): nat {
    if c < 0x80 then 1 else if c >= 0xF0 then 4 else if c >= 0xE0 then 3 else 2
  }

  /** The length of an escape after its backslash, given what is left of the text from
      the backslash on; not positive for an error. */
  function EscapeLen(text: Bytes, p: nat): (n: int)
    requires 0 < p < |text|
    ensures if n > 0 then n <= |text| - p else n < 0
  {
    var c, left := text[p], |text| - p + 1;
    if c == 0x75 then
      if left < 6 then INCOMPLETE
      else if HexDigit(text[p + 1]) && HexDigit(text[p + 2]) && HexDigit(text[p + 3]) && HexDigit(text[p + 4]) then 5
      else INVALID
    else if c in {0x22, 0x5C, 0x2F, 0x62, 0x66, 0x6E, 0x72, 0x74} then
      if left < 2 then INCOMPLETE else 1
    else INVALID
  }

  /** The closing quote of a string whose characters start at `p`. */
  function StringScan(text: Bytes, p: nat): (r: Scan)
    requires p <= |text|
    ensures r.End? ==> p <= r.at < |text|
    ensures r.Stop? ==> r.code < 0
    decreases |text| - p
  {
    if p == |text| then Stop(INCOMPLETE)
    else
      var c := text[p];
      if c < 32 then Stop(INVALID)
      else if CharLen(c) >= |text| - p then Stop(INCOMPLETE)
      else if c == 0x5C then
        var n := EscapeLen(text, p + 1);
        if n > 0 then StringScan(text, p + 1 + n) else Stop(n)
      else if c == 0x22 then End(p)
      else StringScan(text, p + CharLen(c))
  }

  /** A string at its opening quote; the token is what is between the quotes. */
  function StringF(text: Bytes, p: nat): (r: Parsed)
    requires p < |text|
    ensures r.Ok? ==> p < r.pos <= |text|
    ensures r.Err? ==> r.code < 0
  {
    match StringScan(text, p + 1)
    case Stop(code) => Err(code, 1)
    case End(e) => Ok(Node(Str, p + 1, e - (p + 1), []), e + 1)
  }

  function Digits(text: Bytes, p: nat): (q: nat)
    requires p <= |text|
    ensures p <= q <= |text|
    decreases |text| - p
  {
    if p < |text| && Digit(text[p]) then Digits(text, p + 1) else p
  }

  /** At least one digit. */
  function SomeDigits(text: Bytes, p: nat): (r: Scan)
    requires p <= |text|
    ensures r.End? ==> p < r.at <= |text|
    ensures r.Stop? ==> r.code < 0
  {
    if p == |text| then Stop(INCOMPLETE)
    else if !Digit(text[p]) then Stop(INVALID)
    else End(Digits(text, p))
  }

  function Fraction(text: Bytes, p: nat): (r: Scan)
    requires p <= |text|
    ensures r.End? ==> p <= r.at <= |text|
    ensures r.Stop? ==> r.code < 0
  {
    if p < |text| && text[p] == 0x2E then SomeDigits(text, p + 1) else End(p)
  }

  function Exponent(text: Bytes, p: nat): (r: Scan)
    requires p <= |text|
    ensures r.End? ==> p <= r.at <= |text|
    ensures r.Stop? ==> r.code < 0
  {
    if p < |text| && (text[p] == 0x65 || text[p] == 0x45) then
      if p + 1 == |text| then Stop(INCOMPLETE)
      else SomeDigits(text, if text[p + 1] == 0x2B || text[p + 1] == 0x2D then p + 2 else p + 1)
    else End(p)
  }

  function NumberScan(text: Bytes, p: nat): (r: Scan)
    requires p < |text|
    ensures r.End? ==> p < r.at <= |text|
    ensures r.Stop? ==> r.code < 0
  {
    var whole := SomeDigits(text, if text[p] == 0x2D then p + 1 else p);
    if whole.Stop? then whole
    else
      var frac := Fraction(text, whole.at);
      if frac.Stop? then frac else Exponent(text, frac.at)
  }

  function NumberF(text: Bytes, p: nat): (r: Parsed)
    requires p < |text|
    ensures r.Ok? ==> p < r.pos <= |text|
    ensures r.Err? ==> r.code < 0
  {
    match NumberScan(text, p)
    case Stop(code) => Err(code, 1)
    case End(e) => Ok(Node(Num, p, e - p, []), e)
  }

  function WordScan(text: Bytes, p: nat, word: Bytes): (r: Scan)
    requires p <= |text|
    ensures r.End? ==> r.at == p + |word| <= |text|
    ensures r.Stop? ==> r.code < 0
    decreases |word|
  {
    if word == [] then End(p)
    else if p == |text| then Stop(INCOMPLETE)
    else if text[p] != word[0] then Stop(INVALID)
    else WordScan(text, p + 1, word[1..])
  }

  const NULL_TEXT: Bytes := [0x6E, 0x75, 0x6C, 0x6C]
  const TRUE_TEXT: Bytes := [0x74, 0x72, 0x75, 0x65]
  const FALSE_TEXT: Bytes := [0x66, 0x61, 0x6C, 0x73, 0x65]

  function WordF(text: Bytes, p: nat, word: Bytes, kind: Kind): (r: Parsed)
    requires p <= |text| && word != []
    ensures r.Ok? ==> p < r.pos <= |text|
    ensures r.Err? ==> r.code < 0
  {
    match WordScan(text, p, word)
    case Stop(code) => Err(code, 1)
    case End(e) => Ok(Node(kind, p, |word|, []), e)
  }

  function IdentifierEnd(text: Bytes, p: nat): (q: nat)
    requires p <= |text|
    ensures p <= q <= |text|
    decreases |text| - p
  {
    if p < |text| && (text[p] == 0x5F || Alpha(text[p]) || Digit(text[p])) then IdentifierEnd(text, p + 1) else p
  }

  /** A key: an identifier or a string. */
  function KeyF(text: Bytes, p: nat): (r: Parsed)
    requires p <= |text|
    ensures r.Ok? ==> p < r.pos <= |text| && Count(r.node) == 1 && r.node.kind.Str? && r.node.children == []
    ensures r.Err? ==> r.code < 0
  {
    var q := Ws(text, p);
    if q < |text| && Alpha(text[q]) then
      var e := IdentifierEnd(text, q + 1);
      Ok(Node(Str, q, e - q, []), e)
    else if Sees(text, p, 0x22) then StringF(text, q)
    else Err(Missing(text, p), 0)
  }

  // ----- Values -----

  function ValueF(text: Bytes, p: nat): (r: Parsed)
    requires p <= |text|
    ensures r.Ok? ==> p < r.pos <= |text|
    ensures r.Err? ==> r.code < 0
    decreases |text| - p, 1
  {
    var q := Ws(text, p);
    if q == |text| then Err(INCOMPLETE, 0)
    else
      var c := text[q];
      if c == 0x22 then StringF(text, q)
      else if c == 0x7B then ObjectF(text, q)
      else if c == 0x5B then ArrayF(text, q)
      else if c == 0x6E then WordF(text, q, NULL_TEXT, Null)
      else if c == 0x74 then WordF(text, q, TRUE_TEXT, True)
      else if c == 0x66 then WordF(text, q, FALSE_TEXT, False)
      else if c == 0x2D || Digit(c) then NumberF(text, q)
      else Err(INVALID, 0)
  }

  /** A container at its opening bracket. */
  function Container(kind: Kind, p: nat, r: Listed): Parsed
    requires r.Items? ==> p <= r.end
  {
    match r
    case Fail(code, n) => Err(code, 1 + n)
    case Items(nodes, e) => Ok(Node(kind, p, e - p, nodes), e)
  }

  function ArrayF(text: Bytes, p: nat): (r: Parsed)
    requires p < |text|
    ensures r.Ok? ==> p < r.pos <= |text|
    ensures r.Err? ==> r.code < 0
    decreases |text| - p, 0
  {
    Container(Arr, p, ElementsF(text, p + 1))
  }

  /** A comma is allowed, and not required, after an item. */
  function AfterComma(text: Bytes, p: nat): (q: nat)
    requires p <= |text|
    ensures p <= q <= |text|
  {
    if Sees(text, p, 0x2C) then Ws(text, p) + 1 else Ws(text, p)
  }

  function Prepend(nodes: seq<Node>, r: Listed): Listed {
    match r
    case Items(rest, e) => Items(nodes + rest, e)
    case Fail(code, n) => Fail(code, CountAll(nodes) + n)
  }

  /** Elements up to the closing bracket. */
  function ElementsF(text: Bytes, p: nat): (r: Listed)
    requires p <= |text|
    ensures r.Items? ==> p < r.end <= |text|
    ensures r.Fail? ==> r.code < 0
    decreases |text| - p, 2
  {
    if Sees(text, p, 0x5D) then Items([], Ws(text, p) + 1)
    else
      match ValueF(text, p)
      case Err(code, n) => Fail(code, n)
      case Ok(node, pos) => Prepend([node], ElementsF(text, AfterComma(text, pos)))
  }

  function ObjectF(text: Bytes, p: nat): (r: Parsed)
    requires p < |text|
    ensures r.Ok? ==> p < r.pos <= |text|
    ensures r.Err? ==> r.code < 0
    decreases |text| - p, 0
  {
    Container(Obj, p, MembersF(text, p + 1))
  }

  function PairF(text: Bytes, p: nat): (r: Listed)
    requires p <= |text|
    ensures r.Items? ==> p < r.end <= |text|
    ensures r.Fail? ==> r.code < 0
    decreases |text| - p, 1
  {
    match KeyF(text, p)
    case Err(code, n) => Fail(code, n)
    case Ok(key, pos) =>
      if !Sees(text, pos, 0x3A) then Fail(Missing(text, pos), 1)
      else
        match ValueF(text, Ws(text, pos) + 1)
        case Err(code, n) => Fail(code, 1 + n)
        case Ok(value, e) => Items([key, value], e)
  }

  function MembersF(text: Bytes, p: nat): (r: Listed)
    requires p <= |text|
    ensures r.Items? ==> p < r.end <= |text|
    ensures r.Fail? ==> r.code < 0
    decreases |text| - p, 2
  {
    if Sees(text, p, 0x7D) then Items([], Ws(text, p) + 1)
    else
      match PairF(text, p)
      case Fail(code, n) => Fail(code, n)
      case Items(pair, pos) => Prepend(pair, MembersF(text, AfterComma(text, pos)))
  }

  /** A whole text: one object. What follows it is not looked at. */
  function RootF(text: Bytes): (r: Parsed)
    ensures r.Err? ==> r.code < 0
  {
    if text == [] then Err(INCOMPLETE, 0)
    else if Sees(text, 0, 0x7B) then ObjectF(text, Ws(text, 0))
    else Err(Missing(text, 0), 0)
  }

  // ----- What the trees look like -----

  /** A well-shaped tree whose span lies between `lo` and `hi`. */
  predicate Fine(n: Node, lo: nat, hi: nat) {
    Shaped(n) && NestedIn(n) && lo <= n.at && n.at + n.len <= hi
  }

  predicate FineList(ns: seq<Node>, lo: nat, hi: nat) {
    Nested(ns, lo, hi) && forall i :: 0 <= i < |ns| ==> Shaped(ns[i])
  }

  predicate Keyed(ns: seq<Node>) {
    |ns| % 2 == 0 && forall i :: 0 <= i < |ns| && i % 2 == 0 ==> ns[i].kind.Str?
  }

  lemma Leaf(n: Node, lo: nat, hi: nat)
    requires n.children == [] && !n.kind.Obj? && lo <= n.at && n.at + n.len <= hi
    ensures Fine(n, lo, hi)
  {}

  lemma FineOne(n: Node, lo: nat, hi: nat)
    requires Fine(n, lo, hi)
    ensures FineList([n], lo, hi)
  {}

  lemma FineSplit(ns: seq<Node>, ms: seq<Node>, lo: nat, mid: nat, hi: nat)
    requires FineList(ns, lo, mid) && FineList(ms, mid, hi)
    ensures FineList(ns + ms, lo, hi)
  {
    NestedSplit(ns, ms, lo, mid, hi);
  }

  lemma KeyedSplit(k: Node, v: Node, ms: seq<Node>)
    requires k.kind.Str? && Keyed(ms)
    ensures Keyed([k, v] + ms)
  {
    var all := [k, v] + ms;
    forall i | 0 <= i < |all| && i % 2 == 0 ensures all[i].kind.Str? {
      if i >= 2 { assert all[i] == ms[i - 2] && (i - 2) % 2 == 0; }
    }
  }

  /** Every tree the parser builds has keys and values in turn, and spans that nest in
      order. */
  lemma {:induction false} ValueFine(text: Bytes, p: nat)
    requires p <= |text|
    ensures var r := ValueF(text, p); r.Ok? ==> Fine(r.node, p, r.pos)
    decreases |text| - p, 1
  {
    var q := Ws(text, p);
    if q < |text| {
      if text[q] == 0x7B {
        ObjectFine(text, q);
      } else if text[q] == 0x5B {
        ArrayFine(text, q);
      } else if ValueF(text, p).Ok? {
        Leaf(ValueF(text, p).node, p, ValueF(text, p).pos);
      }
    }
  }

  lemma {:induction false} ArrayFine(text: Bytes, p: nat)
    requires p < |text|
    ensures var r := ArrayF(text, p); r.Ok? ==> Fine(r.node, p, r.pos)
    decreases |text| - p, 0
  {
    hide ElementsF, ValueF;
    ElementsFine(text, p + 1);
    var r := ElementsF(text, p + 1);
    if r.Items? { NestedWiden(r.nodes, p + 1, r.end, p, r.end); }
  }

  lemma {:induction false} ElementsFine(text: Bytes, p: nat)
    requires p <= |text|
    ensures var r := ElementsF(text, p); r.Items? ==> FineList(r.nodes, p, r.end)
    decreases |text| - p, 2
  {
    if !Sees(text, p, 0x5D) {
      ValueFine(text, p);
      var v := ValueF(text, p);
      if v.Ok? {
        var next := AfterComma(text, v.pos);
        ElementsFine(text, next);
        var rest := ElementsF(text, next);
        if rest.Items? {
          hide Shaped, NestedIn, ValueF;
          FineOne(v.node, p, v.pos);
          NestedWiden(rest.nodes, next, rest.end, v.pos, rest.end);
          FineSplit([v.node], rest.nodes, p, v.pos, rest.end);
        }
      }
    }
  }

  lemma {:induction false} ObjectFine(text: Bytes, p: nat)
    requires p < |text|
    ensures var r := ObjectF(text, p); r.Ok? ==> Fine(r.node, p, r.pos)
    decreases |text| - p, 0
  {
    MembersFine(text, p + 1);
    var r := MembersF(text, p + 1);
    if r.Items? { NestedWiden(r.nodes, p + 1, r.end, p, r.end); }
  }

  lemma KeyFine(text: Bytes, p: nat)
    requires p <= |text|
    ensures var r := KeyF(text, p); r.Ok? ==> Fine(r.node, p, r.pos)
  {
    var r := KeyF(text, p);
    if r.Ok? { Leaf(r.node, p, r.pos); }
  }

  lemma {:induction false} PairFine(text: Bytes, p: nat)
    requires p <= |text|
    ensures var r := PairF(text, p);
            r.Items? ==> FineList(r.nodes, p, r.end) && |r.nodes| == 2 && r.nodes[0].kind.Str?
    decreases |text| - p, 1
  {
    var k := KeyF(text, p);
    KeyFine(text, p);
    if PairF(text, p).Items? {
      var at := Ws(text, k.pos) + 1;
      ValueFine(text, at);
      var v := ValueF(text, at);
      assert PairF(text, p) == Items([k.node, v.node], v.pos);
      hide ValueF, KeyF, Shaped, NestedIn;
      FineOne(k.node, p, k.pos);
      FineOne(v.node, k.pos, v.pos);
      FineSplit([k.node], [v.node], p, k.pos, v.pos);
      assert [k.node] + [v.node] == [k.node, v.node];
    }
  }

  lemma {:induction false} MembersFine(text: Bytes, p: nat)
    requires p <= |text|
    ensures var r := MembersF(text, p); r.Items? ==> FineList(r.nodes, p, r.end) && Keyed(r.nodes)
    decreases |text| - p, 2
  {
    if !Sees(text, p, 0x7D) {
      PairFine(text, p);
      var v := PairF(text, p);
      if v.Items? {
        var next := AfterComma(text, v.end);
        MembersFine(text, next);
        var rest := MembersF(text, next);
        if rest.Items? {
          NestedWiden(rest.nodes, next, rest.end, v.end, rest.end);
          FineSplit(v.nodes, rest.nodes, p, v.end, rest.end);
          assert v.nodes == [v.nodes[0], v.nodes[1]];
          KeyedSplit(v.nodes[0], v.nodes[1], rest.nodes);
        }
      }
    }
  }

  /** The root is a well-shaped object whose spans nest within the text. */
  lemma RootFine(text: Bytes)
    ensures var r := RootF(text);
            r.Ok? ==> r.node.kind.Obj? && Fine(r.node, 0, r.pos) && r.pos <= |text|
  {
    if text != [] && Sees(text, 0, 0x7B) {
      ObjectFine(text, Ws(text, 0));
    }
  }
}

/** The parser object: a cursor and a token array filled as it goes. */
module FrozenParser {
  import opened Words
  import opened FrozenTree
  import opened FrozenGrammar

  /** No array, an array that grows, or the caller's array. */
  datatype Mode = Off | Growing | Fixed(max: nat)

  predicate Fits(mode: Mode, n: nat) {
    mode.Fixed? ==> n <= mode.max
  }

  /** The tokens a construct begins, whether or not it succeeds. */
  function Weight(r: Parsed): nat {
    match r case Ok(n, _) => Count(n) case Err(_, n) => n
  }

  function ListWeight(r: Listed): nat {
    match r case Items(ns, _) => CountAll(ns) case Fail(_, n) => n
  }

  /** What a parse returns when `used` slots are taken: the grammar's answer, unless the
      array is too small for the tokens begun. */
  function Verdict(r: Parsed, mode: Mode, used: nat): int {
    if !Fits(mode, used + Weight(r)) then TOO_SMALL else match r case Ok(_, _) => 0 case Err(code, _) => code
  }

  function ListVerdict(r: Listed, mode: Mode, used: nat): int {
    if !Fits(mode, used + ListWeight(r)) then TOO_SMALL else match r case Items(_, _) => 0 case Fail(code, _) => code
  }

  function Kept(mode: Mode, ts: seq<Token>): seq<Token> {
    if mode.Off? then [] else ts
  }

  class Frozen {
    const text: Bytes
    const doRealloc: bool
    var cur: nat
    var tokens: array?<Token>
    var maxTokens: nat
    var numTokens: nat

    ghost predicate Valid()
      reads this
    {
      cur <= |text| && Stored()
    }

    ghost predicate Stored()
      reads this`tokens, this`maxTokens, this`numTokens
    {
      && (tokens != null ==> maxTokens <= tokens.Length)
      && (doRealloc ==> (tokens == null <==> maxTokens == 0))
      && (if tokens == null || maxTokens == 0 then numTokens == 0 else numTokens <= maxTokens)
    }

    ghost function Mode(): Mode
      reads this`tokens, this`maxTokens
    {
      if doRealloc then Growing else if tokens == null || maxTokens == 0 then Off else Fixed(maxTokens)
    }

    /** The tokens captured so far. */
    ghost function Log(): (ts: seq<Token>)
      requires Stored()
      reads this`tokens, this`maxTokens, this`numTokens, tokens
      ensures |ts| == numTokens
    {
      if tokens == null then [] else tokens[..numTokens]
    }

    constructor (text: Bytes, tokens: array?<Token>, maxTokens: nat, doRealloc: bool)
      requires tokens != null ==> maxTokens <= tokens.Length
      requires doRealloc ==> tokens == null && maxTokens == 0
      ensures Valid() && Log() == [] && cur == 0 && this.text == text && this.tokens == tokens
      ensures Mode() == if doRealloc then Growing else if tokens == null || maxTokens == 0 then Off else Fixed(maxTokens)
    {
      this.text, this.doRealloc, cur := text, doRealloc, 0;
      this.tokens, this.maxTokens, numTokens := tokens, maxTokens, 0;
    }

    /** `capture_ptr`: begin a token. */
    method CapturePtr(at: nat, kind: Kind) returns (code: int)
      requires Valid()
      modifies this`tokens, this`maxTokens, this`numTokens, tokens
      ensures Valid() && Mode() == old(Mode()) && (tokens == old(tokens) || (doRealloc && fresh(tokens)))
      ensures code == if Fits(Mode(), |old(Log())| + 1) then 0 else TOO_SMALL
      ensures code == 0 && Mode().Off? ==> Log() == old(Log())
      ensures code == 0 && !Mode().Off? ==>
                |Log()| == |old(Log())| + 1 && Log()[..|old(Log())|] == old(Log())
                && Log()[|old(Log())|].at == at && Log()[|old(Log())|].kind == kind
    {
      if doRealloc && numTokens >= maxTokens {
        var size := if maxTokens == 0 then 100 else maxTokens * 2;
        var bigger := new Token[size](_ => Token(0, 0, 0, Eof));
        if tokens != null {
          forall i | 0 <= i < numTokens { bigger[i] := tokens[i]; }
        }
        tokens, maxTokens := bigger, size;
      }
      if tokens == null || maxTokens == 0 { return 0; }
      if numTokens >= maxTokens { return TOO_SMALL; }
      tokens[numTokens] := tokens[numTokens].(at := at, kind := kind);
      numTokens := numTokens + 1;
      code := 0;
    }

    /** `capture_len`: complete a token. */
    method CaptureLen(i: int, at: nat) returns (code: int)
      requires Valid()
      modifies tokens
      ensures Valid() && Mode() == old(Mode()) && |Log()| == |old(Log())|
      ensures 0 <= i < |Log()| ==>
                var t := old(Log())[i];
                code == 0 && Log() == old(Log())[i := Token(t.at, at - t.at, |Log()| - 1 - i, t.kind)]
      ensures !(0 <= i < |Log()|) ==> Log() == old(Log())
    {
      if tokens == null || maxTokens == 0 { return 0; }
      if !(0 <= i < maxTokens) { return INVALID; }
      tokens[i] := tokens[i].(len := at - tokens[i].at, numDesc := numTokens - 1 - i);
      code := 0;
    }

    method SkipWhitespaces()
      requires Valid()
      modifies this`cur
      ensures Valid() && cur == Ws(text, old(cur))
    {
      while cur < |text| && Space(text[cur])
        invariant cur <= |text| && Ws(text, cur) == Ws(text, old(cur))
      {
        cur := cur + 1;
      }
    }

    /** `cur`: the next character after white space, or -1 at the end. */
    method Cur() returns (ch: int)
      requires Valid()
      modifies this`cur
      ensures Valid() && cur == Ws(text, old(cur)) && ch == if cur == |text| then -1 else text[cur]
    {
      SkipWhitespaces();
      ch := if cur >= |text| then -1 else text[cur];
    }

    method TestAndSkip(expected: byte) returns (code: int)
      requires Valid()
      modifies this`cur
      ensures Valid()
      ensures if Sees(text, old(cur), expected) then code == 0 && cur == Ws(text, old(cur)) + 1
              else code == Missing(text, old(cur)) && cur == Ws(text, old(cur))
    {
      var ch := Cur();
      if ch == expected {
        cur := cur + 1;
        return 0;
      }
      return if ch == -1 then INCOMPLETE else INVALID;
    }

    // ----- Scalars -----

    /** The loop of `parse_string`, up to the closing quote. */
    method ScanString() returns (code: int)
      requires Valid()
      modifies this`cur
      ensures Valid()
      ensures match StringScan(text, old(cur)) case End(e) => code == 0 && cur == e case Stop(c) => code == c
    {
      while cur < |text|
        invariant cur <= |text| && StringScan(text, cur) == StringScan(text, old(cur))
      {
        var ch := text[cur];
        var len := CharLen(ch);
        if ch < 32 { return INVALID; }
        if len >= |text| - cur { return INCOMPLETE; }
        if ch == 0x5C {
          var n := EscapeLen(text, cur + 1);
          if n <= 0 { return n; }
          len := len + n;
        } else if ch == 0x22 {
          return 0;
        }
        cur := cur + len;
      }
      return INCOMPLETE;
    }

    method ParseString() returns (code: int)
      requires Valid() && Sees(text, cur, 0x22)
      modifies this, tokens
      ensures Valid() && Mode() == old(Mode()) && (tokens == old(tokens) || (doRealloc && fresh(tokens)))
      ensures Result(StringF(text, Ws(text, old(cur))), code, Mode(), old(Log()), Log(), cur)
    {
      hide StringScan, Ws, Log, Flatten;
      code := TestAndSkip(0x22);
      ghost var at := cur;
      code := CapturePtr(cur, Str);
      if code < 0 { return; }
      ghost var mid := Log();
      code := ScanString();
      if code < 0 { return; }
      var done := CaptureLen(numTokens - 1, cur);
      Completed(Mode(), old(Log()), mid, Log(), Str, at, cur);
      cur := cur + 1;
    }

    method SkipDigits()
      requires Valid()
      modifies this`cur
      ensures Valid() && cur == Digits(text, old(cur))
    {
      while cur < |text| && Digit(text[cur])
        invariant cur <= |text| && Digits(text, cur) == Digits(text, old(cur))
      {
        cur := cur + 1;
      }
    }

    /** At least one digit. */
    method NeedDigits() returns (code: int)
      requires Valid()
      modifies this`cur
      ensures Valid()
      ensures match SomeDigits(text, old(cur)) case End(e) => code == 0 && cur == e case Stop(c) => code == c
    {
      if cur >= |text| { return INCOMPLETE; }
      if !Digit(text[cur]) { return INVALID; }
      SkipDigits();
      code := 0;
    }

    /** The characters of a number. */
    method ScanNumber() returns (code: int)
      requires Valid() && cur < |text|
      modifies this`cur
      ensures Valid()
      ensures match NumberScan(text, old(cur)) case End(e) => code == 0 && cur == e case Stop(c) => code == c
    {
      hide SomeDigits, Fraction, Exponent;
      if text[cur] == 0x2D { cur := cur + 1; }
      code := NeedDigits();
      if code < 0 { return; }
      code := ScanFraction();
      if code < 0 { return; }
      code := ScanExponent();
    }

    method ScanFraction() returns (code: int)
      requires Valid()
      modifies this`cur
      ensures Valid()
      ensures match Fraction(text, old(cur)) case End(e) => code == 0 && cur == e case Stop(c) => code == c
    {
      hide Digits, SomeDigits;
      code := 0;
      if cur < |text| && text[cur] == 0x2E {
        cur := cur + 1;
        code := NeedDigits();
      }
    }

    method ScanExponent() returns (code: int)
      requires Valid()
      modifies this`cur
      ensures Valid()
      ensures match Exponent(text, old(cur)) case End(e) => code == 0 && cur == e case Stop(c) => code == c
    {
      hide Digits, SomeDigits;
      code := 0;
      if cur < |text| && (text[cur] == 0x65 || text[cur] == 0x45) {
        cur := cur + 1;
        if cur >= |text| { return INCOMPLETE; }
        if text[cur] == 0x2B || text[cur] == 0x2D { cur := cur + 1; }
        code := NeedDigits();
      }
    }

    method ParseNumber() returns (code: int)
      requires Valid() && cur < |text| && cur == Ws(text, cur)
      modifies this, tokens
      ensures Valid() && Mode() == old(Mode()) && (tokens == old(tokens) || (doRealloc && fresh(tokens)))
      ensures Result(NumberF(text, old(cur)), code, Mode(), old(Log()), Log(), cur)
    {
      hide NumberScan, Log, Flatten;
      var ch := Cur();
      code := CapturePtr(cur, Num);
      if code < 0 { return; }
      ghost var mid := Log();
      code := ScanNumber();
      if code < 0 { return; }
      var done := CaptureLen(numTokens - 1, cur);
      Completed(Mode(), old(Log()), mid, Log(), Num, old(cur), cur);
    }

    /** `expect`: one of the three words. */
    method Expect(word: Bytes, kind: Kind) returns (code: int)
      requires Valid() && word != []
      modifies this, tokens
      ensures Valid() && Mode() == old(Mode()) && (tokens == old(tokens) || (doRealloc && fresh(tokens)))
      ensures Result(WordF(text, old(cur), word, kind), code, Mode(), old(Log()), Log(), cur)
    {
      hide Log, Flatten;
      code := CapturePtr(cur, kind);
      if code < 0 { return; }
      ghost var mid := Log();
      for i := 0 to |word|
        invariant cur + i <= |text|
        invariant WordScan(text, cur, word) == WordScan(text, cur + i, word[i..])
      {
        if cur + i >= |text| { return INCOMPLETE; }
        if text[cur + i] != word[i] { return INVALID; }
        assert word[i..][1..] == word[i + 1..];
      }
      cur := cur + |word|;
      code := CaptureLen(numTokens - 1, cur);
      Completed(Mode(), old(Log()), mid, Log(), kind, old(cur), cur);
      code := 0;
    }

    method SkipIdentifier()
      requires Valid()
      modifies this`cur
      ensures Valid() && cur == IdentifierEnd(text, old(cur))
    {
      while cur < |text| && (text[cur] == 0x5F || Alpha(text[cur]) || Digit(text[cur]))
        invariant cur <= |text| && IdentifierEnd(text, cur) == IdentifierEnd(text, old(cur))
      {
        cur := cur + 1;
      }
    }

    method ParseIdentifier() returns (code: int)
      requires Valid() && cur < |text| && Alpha(text[cur])
      modifies this, tokens
      ensures Valid() && Mode() == old(Mode()) && (tokens == old(tokens) || (doRealloc && fresh(tokens)))
      ensures Result(KeyF(text, old(cur)), code, Mode(), old(Log()), Log(), cur)
    {
      hide KeyF, IdentifierEnd, Log, Flatten;
      IdentifierKey(text, cur);
      code := CapturePtr(cur, Str);
      if code < 0 { return; }
      ghost var mid := Log();
      SkipIdentifier();
      var done := CaptureLen(numTokens - 1, cur);
      Completed(Mode(), old(Log()), mid, Log(), Str, old(cur), cur);
    }

    // ----- Values -----

    method ParseKey() returns (code: int)
      requires Valid()
      modifies this, tokens
      ensures Valid() && Mode() == old(Mode()) && (tokens == old(tokens) || (doRealloc && fresh(tokens)))
      ensures Result(KeyF(text, old(cur)), code, Mode(), old(Log()), Log(), cur)
    {
      hide StringF, IdentifierEnd, Flatten;
      var ch := Cur();
      KeySkips(text, old(cur));
      if ch >= 0 && Alpha(ch) {
        code := ParseIdentifier();
      } else if ch == 0x22 {
        code := ParseString();
      } else {
        code := if ch == -1 then INCOMPLETE else INVALID;
      }
    }

    method ParseValue() returns (code: int)
      requires Valid()
      modifies this, tokens
      ensures Valid() && Mode() == old(Mode()) && (tokens == old(tokens) || (doRealloc && fresh(tokens)))
      ensures Result(ValueF(text, old(cur)), code, Mode(), old(Log()), Log(), cur)
      decreases |text| - cur, 1
    {
      hide StringF, NumberF, WordF, ArrayF, ObjectF, Flatten;
      var ch := Cur();
      WsTwice(text, old(cur));
      if ch == -1 {
        code := INCOMPLETE;
      } else if ch == 0x22 {
        code := ParseString();
      } else if ch == 0x7B {
        code := ParseObject();
      } else if ch == 0x5B {
        code := ParseArray();
      } else if ch == 0x6E {
        code := Expect(NULL_TEXT, Null);
      } else if ch == 0x74 {
        code := Expect(TRUE_TEXT, True);
      } else if ch == 0x66 {
        code := Expect(FALSE_TEXT, False);
      } else if ch == 0x2D || Digit(ch) {
        code := ParseNumber();
      } else {
        code := INVALID;
      }
    }

    method ParsePair() returns (code: int)
      requires Valid()
      modifies this, tokens
      ensures Valid() && Mode() == old(Mode()) && (tokens == old(tokens) || (doRealloc && fresh(tokens)))
      ensures ListResult(PairF(text, old(cur)), code, Mode(), old(Log()), Log(), cur)
      decreases |text| - cur, 2
    {
      hide KeyF, ValueF, PairF, Flatten, FlattenAll, Count, CountAll, Log;
      ghost var p, log, mode := cur, Log(), Mode();
      PairSteps(text, p);
      code := ParseKey();
      if code < 0 {
        ComposeList(Alone(KeyF(text, p)), PairF(text, p), 0, mode, |log|, |log|);
        return;
      }
      ghost var key, pos := KeyF(text, p).node, cur;
      code := TestAndSkip(0x3A);
      if code < 0 {
        return;
      }
      ghost var log' := Log();
      code := ParseValue();
      if code < 0 {
        Compose(ValueF(text, Ws(text, pos) + 1), PairF(text, p), 1, mode, |log|, |log'|);
        return;
      }
      PairDone(mode, log, log', Log(), key, ValueF(text, Ws(text, pos) + 1).node);
    }

    method ParseArray() returns (code: int)
      requires Valid() && Sees(text, cur, 0x5B)
      modifies this, tokens
      ensures Valid() && Mode() == old(Mode()) && (tokens == old(tokens) || (doRealloc && fresh(tokens)))
      ensures Result(ArrayF(text, Ws(text, old(cur))), code, Mode(), old(Log()), Log(), cur)
      decreases |text| - cur, 0
    {
      hide ElementsF, FlattenAll, CountAll, Flatten, Count, Verdict, ListVerdict, Ws, Log;
      ghost var was, at := Log(), Ws(text, cur);
      code := TestAndSkip(0x5B);
      ContainerVerdict(Mode(), |was|, Arr, at, ElementsF(text, at + 1));
      code := CapturePtr(cur - 1, Arr);
      if code < 0 { return; }
      var ind := numTokens - 1;
      ghost var mid := Log();
      code := ParseElements();
      if code < 0 { return; }
      ghost var full := Log();
      var done := CaptureLen(ind, cur);
      ContainerDone(Mode(), was, mid, full, Log(), Arr, at, ElementsF(text, at + 1));
    }

    /** After an item: an optional comma and white space around it. */
    method SkipComma() returns (ch: int)
      requires Valid()
      modifies this`cur
      ensures Valid() && old(cur) <= cur && cur == Ws(text, AfterComma(text, old(cur))) && cur == Ws(text, cur)
      ensures ch == if cur == |text| then -1 else text[cur]
    {
      ch := Cur();
      if ch == 0x2C { cur := cur + 1; }
      ghost var next := cur;
      ch := Cur();
      WsTwice(text, next);
      WsTwice(text, old(cur));
    }

    /** The loop of `parse_array` and its closing bracket. */
    method ParseElements() returns (code: int)
      requires Valid()
      modifies this, tokens
      ensures Valid() && Mode() == old(Mode()) && (tokens == old(tokens) || (doRealloc && fresh(tokens)))
      ensures ListResult(ElementsF(text, old(cur)), code, Mode(), old(Log()), Log(), cur)
      decreases |text| - cur, 3
    {
      hide ElementsF, ValueF, Ws, Log, ArrayProgress, Result, ListResult;
      ghost var start, base, done: seq<Node>, mode := cur, Log(), [], Mode();
      var ch := Cur();
      ArrayBegins(text, start, mode, base);
      while ch != 0x5D
        invariant Valid() && Mode() == mode && (tokens == old(tokens) || (doRealloc && fresh(tokens)))
        invariant start <= cur && cur == Ws(text, cur) && ch == if cur == |text| then -1 else text[cur]
        invariant ArrayProgress(text, start, cur, done, mode, base, Log())
        decreases |text| - cur
      {
        ghost var p, log := cur, Log();
        code := ParseValue();
        ArraySteps(text, start, p, done, mode, base, log, code, Log(), cur);
        if code < 0 { return; }
        ch := SkipComma();
        done := done + [ValueF(text, p).node];
      }
      ArrayEnds(text, start, cur, done, mode, base, Log());
      code := TestAndSkip(0x5D);
    }

    method ParseObject() returns (code: int)
      requires Valid()
      modifies this, tokens
      ensures Valid() && Mode() == old(Mode()) && (tokens == old(tokens) || (doRealloc && fresh(tokens)))
      ensures Result(ObjectOr(text, old(cur)), code, Mode(), old(Log()), Log(), cur)
      decreases |text| - cur, 0
    {
      hide MembersF, FlattenAll, CountAll, Flatten, Count, Verdict, ListVerdict, Ws, Log;
      ghost var was, at := Log(), Ws(text, cur);
      code := TestAndSkip(0x7B);
      NoTokens(Mode(), |was|, Missing(text, old(cur)));
      if code < 0 { return; }
      ContainerVerdict(Mode(), |was|, Obj, at, MembersF(text, at + 1));
      code := CapturePtr(cur - 1, Obj);
      if code < 0 { return; }
      var ind := numTokens - 1;
      ghost var mid := Log();
      code := ParseMembers();
      if code < 0 { return; }
      ghost var full := Log();
      var done := CaptureLen(ind, cur);
      ContainerDone(Mode(), was, mid, full, Log(), Obj, at, MembersF(text, at + 1));
    }

    /** The loop of `parse_object` and its closing bracket. */
    method ParseMembers() returns (code: int)
      requires Valid()
      modifies this, tokens
      ensures Valid() && Mode() == old(Mode()) && (tokens == old(tokens) || (doRealloc && fresh(tokens)))
      ensures ListResult(MembersF(text, old(cur)), code, Mode(), old(Log()), Log(), cur)
      decreases |text| - cur, 3
    {
      hide MembersF, PairF, Ws, Log, ObjectProgress, Result, ListResult;
      ghost var start, base, done: seq<Node>, mode := cur, Log(), [], Mode();
      var ch := Cur();
      ObjectBegins(text, start, mode, base);
      while ch != 0x7D
        invariant Valid() && Mode() == mode && (tokens == old(tokens) || (doRealloc && fresh(tokens)))
        invariant start <= cur && cur == Ws(text, cur) && ch == if cur == |text| then -1 else text[cur]
        invariant ObjectProgress(text, start, cur, done, mode, base, Log())
        decreases |text| - cur
      {
        ghost var p, log := cur, Log();
        code := ParsePair();
        ObjectSteps(text, start, p, done, mode, base, log, code, Log(), cur);
        if code < 0 { return; }
        ch := SkipComma();
        done := done + PairF(text, p).nodes;
      }
      ObjectEnds(text, start, cur, done, mode, base, Log());
      code := TestAndSkip(0x7D);
    }


    /** `doit`: the object, then the end marker. */
    method DoIt() returns (code: int)
      requires Valid() && cur == 0 && Log() == []
      modifies this, tokens
      ensures Valid() && Mode() == old(Mode()) && (tokens == old(tokens) || (doRealloc && fresh(tokens)))
      ensures code == Outcome(text, Mode()).0
      ensures code == 0 ==>
                && RootF(text).Ok? && cur == RootF(text).pos
                && (!Mode().Off? ==>
                      |Log()| > 0 && Log()[..|Log()| - 1] == Flatten(RootF(text).node) && Log()[|Log()| - 1].kind.Eof?)
    {
      hide ObjectF, Flatten, Count, Ws, Log;
      if cur == |text| { return INCOMPLETE; }
      code := ParseObject();
      if code < 0 { return; }
      ghost var log := Log();
      assert [] + log == log;
      code := CapturePtr(cur, Eof);
      if code < 0 { return; }
      var done := CaptureLen(numTokens, cur);
    }
  }

  // ----- How the parts of a parse make up the whole -----

  /** A failing part decides the whole, and a part too big for the array does as well. */
  lemma Compose(part: Parsed, whole: Listed, before: nat, mode: Mode, used: nat, used': nat)
    requires mode.Fixed? ==> used' == used + before
    requires part.Err? ==> whole == Fail(part.code, before + part.count)
    requires part.Ok? ==> ListWeight(whole) >= before + Count(part.node)
    requires Verdict(part, mode, used') != 0
    ensures ListVerdict(whole, mode, used) == Verdict(part, mode, used')
  {}

  lemma ComposeList(part: Listed, whole: Listed, before: nat, mode: Mode, used: nat, used': nat)
    requires mode.Fixed? ==> used' == used + before
    requires part.Fail? ==> whole == Fail(part.code, before + part.count)
    requires part.Items? ==> ListWeight(whole) >= before + CountAll(part.nodes)
    requires ListVerdict(part, mode, used') != 0
    ensures ListVerdict(whole, mode, used) == ListVerdict(part, mode, used')
  {}

  function Alone(r: Parsed): Listed {
    match r case Ok(n, pos) => Items([n], pos) case Err(code, n) => Fail(code, n)
  }

  lemma PrependWeight(ns: seq<Node>, r: Listed)
    ensures ListWeight(Prepend(ns, r)) == CountAll(ns) + ListWeight(r)
  {
    if r.Items? { FlattenSplit(ns, r.nodes); }
  }

  lemma PrependTwice(ns: seq<Node>, ms: seq<Node>, r: Listed)
    ensures Prepend(ns, Prepend(ms, r)) == Prepend(ns + ms, r)
  {
    FlattenSplit(ns, ms);
    if r.Items? { Assoc(ns, ms, r.nodes); }
  }

  lemma ElementStep(text: Bytes, start: nat, p: nat, done: seq<Node>)
    requires start <= |text| && p <= |text| && !Sees(text, p, 0x5D)
    requires ElementsF(text, start) == Prepend(done, ElementsF(text, p))
    ensures var v, r := ValueF(text, p), ElementsF(text, start);
            if v.Err? then r == Fail(v.code, CountAll(done) + v.count)
            else
              && r == Prepend(done + [v.node], ElementsF(text, AfterComma(text, v.pos)))
              && ListWeight(r) >= CountAll(done) + Count(v.node)
  {
    hide ValueF, Flatten, Count;
    var v := ValueF(text, p);
    if v.Ok? {
      var rest := ElementsF(text, AfterComma(text, v.pos));
      PrependTwice(done, [v.node], rest);
      PrependWeight(done + [v.node], rest);
      FlattenSplit(done, [v.node]);
      FlattenOne(v.node);
    }
  }

  lemma MemberStep(text: Bytes, start: nat, p: nat, done: seq<Node>)
    requires start <= |text| && p <= |text| && !Sees(text, p, 0x7D)
    requires MembersF(text, start) == Prepend(done, MembersF(text, p))
    ensures var v, r := PairF(text, p), MembersF(text, start);
            if v.Fail? then r == Fail(v.code, CountAll(done) + v.count)
            else
              && r == Prepend(done + v.nodes, MembersF(text, AfterComma(text, v.end)))
              && ListWeight(r) >= CountAll(done) + CountAll(v.nodes)
  {
    hide PairF, Flatten, Count;
    var v := PairF(text, p);
    if v.Items? {
      var rest := MembersF(text, AfterComma(text, v.end));
      PrependTwice(done, v.nodes, rest);
      PrependWeight(done + v.nodes, rest);
      FlattenSplit(done, v.nodes);
    }
  }

  lemma ElementsSkip(text: Bytes, p: nat)
    requires p <= |text|
    ensures var q := Ws(text, p); Ws(text, q) == q && ElementsF(text, q) == ElementsF(text, p)
  {
    hide ValueF, Ws, Prepend;
    WsTwice(text, p);
    ValueSkips(text, p);
  }

  lemma ValueSkips(text: Bytes, p: nat)
    requires p <= |text|
    ensures ValueF(text, Ws(text, p)) == ValueF(text, p)
  {
    hide StringF, NumberF, WordF, ArrayF, ObjectF, Ws;
    WsTwice(text, p);
  }

  lemma PairSkips(text: Bytes, p: nat)
    requires p <= |text|
    ensures PairF(text, Ws(text, p)) == PairF(text, p)
  {
    hide KeyF, ValueF, Ws;
    KeySkips(text, p);
  }

  lemma MembersSkip(text: Bytes, p: nat)
    requires p <= |text|
    ensures var q := Ws(text, p); Ws(text, q) == q && MembersF(text, q) == MembersF(text, p)
  {
    hide PairF, Ws, Prepend;
    WsTwice(text, p);
    PairSkips(text, p);
  }

  lemma NothingDone(mode: Mode, base: seq<Token>, r: Listed)
    ensures base == base + Kept(mode, FlattenAll([])) && CountAll([]) == 0 && Prepend([], r) == r
  {
    if r.Items? { assert [] + r.nodes == r.nodes; }
  }

  lemma KeptCount(mode: Mode, base: seq<Token>, done: seq<Node>)
    ensures mode.Fixed? ==> |base + Kept(mode, FlattenAll(done))| == |base| + CountAll(done)
  {}

  lemma MoreDone(mode: Mode, base: seq<Token>, log: seq<Token>, log': seq<Token>, done: seq<Node>, ns: seq<Node>)
    requires log == base + Kept(mode, FlattenAll(done)) && log' == log + Kept(mode, FlattenAll(ns))
    ensures log' == base + Kept(mode, FlattenAll(done + ns)) && CountAll(done + ns) == CountAll(done) + CountAll(ns)
  {
    FlattenSplit(done, ns);
    Assoc(base, FlattenAll(done), FlattenAll(ns));
  }

  /** The items `done` have been parsed and recorded, and the rest is at `p`. */
  ghost predicate ArrayProgress(text: Bytes, start: nat, p: nat, done: seq<Node>, mode: Mode, base: seq<Token>,
                               log: seq<Token>)
  {
    && start <= |text| && p <= |text| && ElementsF(text, start) == Prepend(done, ElementsF(text, p))
    && log == base + Kept(mode, FlattenAll(done)) && Fits(mode, |base| + CountAll(done))
  }

  lemma ArrayBegins(text: Bytes, start: nat, mode: Mode, base: seq<Token>)
    requires start <= |text| && Fits(mode, |base|)
    ensures ArrayProgress(text, start, Ws(text, start), [], mode, base, base)
    ensures Ws(text, Ws(text, start)) == Ws(text, start)
  {
    ElementsSkip(text, start);
    hide ElementsF, Ws;
    NothingDone(mode, base, ElementsF(text, start));
  }

  /** One more item: it decides the whole if it fails, and is recorded otherwise. */
  lemma ArraySteps(text: Bytes, start: nat, p: nat, done: seq<Node>, mode: Mode, base: seq<Token>, log: seq<Token>,
                   code: int, log': seq<Token>, pos: nat)
    requires ArrayProgress(text, start, p, done, mode, base, log) && !Sees(text, p, 0x5D)
    requires Result(ValueF(text, p), code, mode, log, log', pos)
    ensures code < 0 ==> ListResult(ElementsF(text, start), code, mode, base, log', pos)
    ensures code >= 0 ==>
              && pos <= |text| && p < pos && ValueF(text, p).Ok?
              && ArrayProgress(text, start, Ws(text, AfterComma(text, pos)), done + [ValueF(text, p).node], mode, base, log')
  {
    hide ElementsF, ValueF, Flatten, FlattenAll, Count, CountAll, Ws, Prepend;
    ElementStep(text, start, p, done);
    KeptCount(mode, base, done);
    if code < 0 {
      Compose(ValueF(text, p), ElementsF(text, start), CountAll(done), mode, |base|, |log|);
    } else {
      ElementsSkip(text, AfterComma(text, pos));
      FlattenOne(ValueF(text, p).node);
      MoreDone(mode, base, log, log', done, [ValueF(text, p).node]);
    }
  }

  lemma ArrayEnds(text: Bytes, start: nat, p: nat, done: seq<Node>, mode: Mode, base: seq<Token>, log: seq<Token>)
    requires ArrayProgress(text, start, p, done, mode, base, log) && Sees(text, p, 0x5D)
    ensures ListResult(ElementsF(text, start), 0, mode, base, log, Ws(text, p) + 1)
  {
    assert done + [] == done;
  }

  /** The items `done` have been parsed and recorded, and the rest is at `p`. */
  ghost predicate ObjectProgress(text: Bytes, start: nat, p: nat, done: seq<Node>, mode: Mode, base: seq<Token>,
                               log: seq<Token>)
  {
    && start <= |text| && p <= |text| && MembersF(text, start) == Prepend(done, MembersF(text, p))
    && log == base + Kept(mode, FlattenAll(done)) && Fits(mode, |base| + CountAll(done))
  }

  lemma ObjectBegins(text: Bytes, start: nat, mode: Mode, base: seq<Token>)
    requires start <= |text| && Fits(mode, |base|)
    ensures ObjectProgress(text, start, Ws(text, start), [], mode, base, base)
    ensures Ws(text, Ws(text, start)) == Ws(text, start)
  {
    MembersSkip(text, start);
    hide MembersF, Ws;
    NothingDone(mode, base, MembersF(text, start));
  }

  /** One more item: it decides the whole if it fails, and is recorded otherwise. */
  lemma ObjectSteps(text: Bytes, start: nat, p: nat, done: seq<Node>, mode: Mode, base: seq<Token>, log: seq<Token>,
                   code: int, log': seq<Token>, pos: nat)
    requires ObjectProgress(text, start, p, done, mode, base, log) && !Sees(text, p, 0x7D)
    requires ListResult(PairF(text, p), code, mode, log, log', pos)
    ensures code < 0 ==> ListResult(MembersF(text, start), code, mode, base, log', pos)
    ensures code >= 0 ==>
              && pos <= |text| && p < pos && PairF(text, p).Items?
              && ObjectProgress(text, start, Ws(text, AfterComma(text, pos)), done + PairF(text, p).nodes, mode, base, log')
  {
    hide MembersF, PairF, Flatten, FlattenAll, Count, CountAll, Ws, Prepend;
    MemberStep(text, start, p, done);
    KeptCount(mode, base, done);
    if code < 0 {
      ComposeList(PairF(text, p), MembersF(text, start), CountAll(done), mode, |base|, |log|);
    } else {
      MembersSkip(text, AfterComma(text, pos));
      MoreDone(mode, base, log, log', done, PairF(text, p).nodes);
    }
  }

  lemma ObjectEnds(text: Bytes, start: nat, p: nat, done: seq<Node>, mode: Mode, base: seq<Token>, log: seq<Token>)
    requires ObjectProgress(text, start, p, done, mode, base, log) && Sees(text, p, 0x7D)
    ensures ListResult(MembersF(text, start), 0, mode, base, log, Ws(text, p) + 1)
  {
    assert done + [] == done;
  }

  lemma PairSteps(text: Bytes, p: nat)
    requires p <= |text|
    ensures var k, r := KeyF(text, p), PairF(text, p);
            if k.Err? then r == Fail(k.code, k.count)
            else
              && CountAll([k.node]) == 1 && ListWeight(r) >= 1
              && if !Sees(text, k.pos, 0x3A) then r == Fail(Missing(text, k.pos), 1)
                 else
                   var v := ValueF(text, Ws(text, k.pos) + 1);
                   if v.Err? then r == Fail(v.code, 1 + v.count)
                   else r == Items([k.node, v.node], v.pos) && ListWeight(r) == 1 + Count(v.node)
  {
    hide KeyF, ValueF, Ws, Missing, Flatten, FlattenAll, Count, CountAll;
    var k := KeyF(text, p);
    if k.Ok? {
      FlattenOne(k.node);
      if Sees(text, k.pos, 0x3A) {
        var v := ValueF(text, Ws(text, k.pos) + 1);
        if v.Ok? {
          FlattenSplit([k.node], [v.node]);
          FlattenOne(v.node);
          assert [k.node] + [v.node] == [k.node, v.node];
        }
      }
    }
  }

  lemma PairDone(mode: Mode, log: seq<Token>, log': seq<Token>, log'': seq<Token>, key: Node, value: Node)
    requires log' == log + Kept(mode, Flatten(key)) && log'' == log' + Kept(mode, Flatten(value))
    ensures log'' == log + Kept(mode, FlattenAll([key, value]))
  {
    FlattenOne(key);
    FlattenOne(value);
    FlattenSplit([key], [value]);
    assert [key] + [value] == [key, value];
    Assoc(log, Flatten(key), Flatten(value));
  }

  /** A container costs one token more than its contents. */
  lemma ContainerVerdict(mode: Mode, used: nat, kind: Kind, at: nat, r: Listed)
    requires (r.Items? ==> at <= r.end) && (r.Fail? ==> r.code < 0)
    ensures var c := Verdict(Container(kind, at, r), mode, used);
            && (!Fits(mode, used + 1) ==> c == TOO_SMALL)
            && c == ListVerdict(r, mode, if mode.Off? then used else used + 1)
            && (c == 0 <==> r.Items? && Fits(mode, used + 1 + CountAll(r.nodes)))
  {}

  /** A container's token completed after the tokens below it. */
  lemma ContainerDone(mode: Mode, was: seq<Token>, mid: seq<Token>, full: seq<Token>, now: seq<Token>,
                      kind: Kind, at: nat, r: Listed)
    requires r.Items? && at <= r.end && full == mid + Kept(mode, FlattenAll(r.nodes))
    requires mode.Off? ==> mid == was && now == full
    requires !mode.Off? ==>
               && |mid| == |was| + 1 && mid[..|was|] == was && mid[|was|].at == at && mid[|was|].kind == kind
               && now == full[|was| := Token(at, r.end - at, |full| - 1 - |was|, kind)]
    ensures now == was + Kept(mode, Flatten(Container(kind, at, r).node))
  {
    hide FlattenAll, CountAll;
    if mode.Off? {
      assert was + [] == was;
    } else {
      var t := Token(at, r.end - at, CountAll(r.nodes), kind);
      assert now == was + ([t] + FlattenAll(r.nodes));
    }
  }

  /** Where an object is required. */
  function ObjectOr(text: Bytes, p: nat): Parsed
    requires p <= |text|
  {
    if Sees(text, p, 0x7B) then ObjectF(text, Ws(text, p)) else Err(Missing(text, p), 0)
  }

  /** A failure before any token, with an array that is not overfull. */
  lemma NoTokens(mode: Mode, used: nat, code: int)
    requires Fits(mode, used)
    ensures Verdict(Err(code, 0), mode, used) == code
  {}

  lemma WsTwice(text: Bytes, p: nat)
    requires p <= |text|
    ensures Ws(text, Ws(text, p)) == Ws(text, p)
  {}

  lemma IdentifierKey(text: Bytes, p: nat)
    requires p < |text| && Alpha(text[p])
    ensures p < IdentifierEnd(text, p)
    ensures KeyF(text, p) == Ok(Node(Str, p, IdentifierEnd(text, p) - p, []), IdentifierEnd(text, p))
  {}

  lemma KeySkips(text: Bytes, p: nat)
    requires p <= |text|
    ensures KeyF(text, Ws(text, p)) == KeyF(text, p) && Ws(text, Ws(text, p)) == Ws(text, p)
  {
    WsTwice(text, p);
  }

  /** The outcome `r` of the grammar is what the parser reports and records. */
  ghost predicate Result(r: Parsed, code: int, mode: Mode, was: seq<Token>, now: seq<Token>, cur: nat) {
    && code == Verdict(r, mode, |was|) <= 0
    && (code == 0 ==> r.Ok? && cur == r.pos && now == was + Kept(mode, Flatten(r.node)))
  }

  ghost predicate ListResult(r: Listed, code: int, mode: Mode, was: seq<Token>, now: seq<Token>, cur: nat) {
    && code == ListVerdict(r, mode, |was|) <= 0
    && (code == 0 ==> r.Items? && cur == r.end && now == was + Kept(mode, FlattenAll(r.nodes)))
  }

  /** A token begun and completed with nothing below it. */
  lemma Completed(mode: Mode, was: seq<Token>, mid: seq<Token>, now: seq<Token>, kind: Kind, at: nat, end: nat)
    requires at <= end
    requires mode.Off? ==> mid == was && now == mid
    requires !mode.Off? ==>
               && |mid| == |was| + 1 && mid[..|was|] == was && mid[|was|].at == at && mid[|was|].kind == kind
               && now == mid[|was| := Token(at, end - at, 0, kind)]
    ensures now == was + Kept(mode, Flatten(Node(kind, at, end - at, [])))
  {
    if !mode.Off? {
      assert Flatten(Node(kind, at, end - at, [])) == [Token(at, end - at, 0, kind)];
    }
  }

  // ----- The entry points -----

  /** The tokens a whole run begins: those of the object, and the end marker. */
  function Begun(text: Bytes): nat {
    Weight(RootF(text)) + if RootF(text).Ok? then 1 else 0
  }

  /** The code and the cursor of a run. */
  function Outcome(text: Bytes, mode: Mode): (int, nat) {
    if !Fits(mode, Begun(text)) then (TOO_SMALL, 0)
    else match RootF(text) case Ok(_, pos) => (0, pos) case Err(code, _) => (code, 0)
  }

  /** What `parse_json` answers without an array: the length parsed, or an error. */
  function Answer(text: Bytes): int {
    match RootF(text) case Ok(_, pos) => pos case Err(code, _) => code
  }

  /** The array holds a tree in preorder, then the end marker. */
  ghost predicate Holds(ts: seq<Token>, n: Node) {
    |ts| > Count(n) && ts[..Count(n)] == Flatten(n) && ts[Count(n)].kind.Eof?
  }

  /** `parse_json`. With no array, or one with a slot for every token begun, the answer is
      that of the text alone; with fewer slots it is always the same error. On success
      the array holds the text's tree. */
  method ParseJson(text: Bytes, arr: array?<Token>, arrLen: nat) returns (n: int)
    requires arr != null ==> arrLen <= arr.Length
    modifies arr
    ensures n == if arr == null || arrLen == 0 || Begun(text) <= arrLen then Answer(text) else TOO_SMALL
    ensures n >= 0 ==> RootF(text).Ok? && n == RootF(text).pos <= |text|
    ensures n >= 0 && arr != null && arrLen > 0 ==> Holds(arr[..arrLen], RootF(text).node)
  {
    var f := new Frozen(text, arr, arrLen, false);
    var code := f.DoIt();
    RootFine(text);
    if code < 0 { return code; }
    n := f.cur;
  }

  /** `parse_json2`: the array grows as needed, so it fails only if the text does. */
  method ParseJson2(text: Bytes) returns (tokens: array?<Token>)
    ensures tokens == null <==> Answer(text) < 0
    ensures tokens != null ==> fresh(tokens) && RootF(text).Ok? && Holds(tokens[..], RootF(text).node)
  {
    var f := new Frozen(text, null, 0, true);
    var code := f.DoIt();
    RootFine(text);
    tokens := if code < 0 then null else f.tokens;
  }
}
