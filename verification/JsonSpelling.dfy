/** The trees that spell a value, and the one each layout of the writers makes. */
module JsonSpelling {
  import opened Words
  import opened Numerals
  import opened JsonEvents
  import opened JsonDom
  import opened JsonString
  import opened JsonNumber
  import opened JsonLayout
  import opened JsonWriter
  import opened JsonSyntax

  /** `t` is `v` with some white space: its scalars as the writers put them. */
  ghost predicate Spells(ascii: bool, floating: nat -> Bytes, t: Syntax, v: Value)
    decreases v, 0
  {
    match v
    case VNull => t == Leaf([0x6E, 0x75, 0x6C, 0x6C], Null)
    case VBool(b) => t == Leaf(if b then [0x74, 0x72, 0x75, 0x65] else [0x66, 0x61, 0x6C, 0x73, 0x65], Bool(b))
    case VNumber(n) => t == Leaf((if n < 0 then [0x2D] + Decimal(-n) else Decimal(n)), ReadEvent(n))
    case VDouble(bits) => t == Leaf(floating(bits), Double(bits))
    case VString(s) => t == Leaf(Literal(s, ascii), String(s))
    case VArray(es) =>
      && t.List? && |t.items| == |es|
      && forall i :: 0 <= i < |es| ==> Spells(ascii, floating, t.items[i].value, es[i])
    case VObject(ms) =>
      && t.Record? && |t.fields| == |ms|
      && forall i :: 0 <= i < |ms| ==> SpellsMember(ascii, floating, t.fields[i], ms[i])
  }

  ghost predicate SpellsMember(ascii: bool, floating: nat -> Bytes, f: Field, m: Member)
    decreases m, 0
  {
    f.token == Literal(m.name, ascii) && f.name == m.name && Spells(ascii, floating, f.item.value, m.value)
  }

  /** No number runs past a gap and the comma or bracket behind it. */
  lemma GapDelimits(text: Bytes, p: nat, b: Bytes)
    requires Has(text, p, b) && Blank(b) && p + |b| < |text| && text[p + |b|] in {0x2C, 0x5D, 0x7D}
    ensures Delimited(text, p)
  {
    if b != [] { HasAt(text, p, b, 0); }
  }

  // ----- The layouts -----

  /** A line feed and the indentation of a depth, or nothing. */
  function Line(style: Style, depth: nat): Bytes {
    match style
    case Compact => []
    case Pretty(c, n) => [0x0A] + seq(depth * n, i => c)
  }

  /** The tree of a value at nesting depth `depth`: each item and each name on a line of its
      own, one level deeper than the brackets around it, and a space after each colon. */
  function Laid(cfg: Config, depth: nat, v: Value): Syntax
    decreases v, 0
  {
    match v
    case VNull => Leaf([0x6E, 0x75, 0x6C, 0x6C], Null)
    case VBool(b) => Leaf(if b then [0x74, 0x72, 0x75, 0x65] else [0x66, 0x61, 0x6C, 0x73, 0x65], Bool(b))
    case VNumber(n) => Leaf((if n < 0 then [0x2D] + Decimal(-n) else Decimal(n)), ReadEvent(n))
    case VDouble(bits) => Leaf(cfg.floating(bits), Double(bits))
    case VString(s) => Leaf(Literal(s, cfg.ascii), String(s))
    case VArray(es) => List([], LaidItems(cfg, depth, es))
    case VObject(ms) => Record([], LaidFields(cfg, depth, ms))
  }

  /** The elements of an array at depth `depth`. */
  function LaidItems(cfg: Config, depth: nat, es: seq<Value>): (items: seq<Item>)
    ensures |items| == |es|
    decreases es, 0
  {
    if es == [] then []
    else
      var last := if |es| == 1 then Line(cfg.style, depth) else [];
      [Item(Line(cfg.style, depth + 1), Laid(cfg, depth + 1, es[0]), last)] + LaidItems(cfg, depth, es[1..])
  }

  function LaidField(cfg: Config, depth: nat, m: Member, last: Bytes): Field
    decreases m, 0
  {
    var space := if cfg.style.Compact? then [] else [0x20];
    Field(Line(cfg.style, depth + 1), Literal(m.name, cfg.ascii), m.name, [], Item(space, Laid(cfg, depth + 1, m.value), last))
  }

  function LaidFields(cfg: Config, depth: nat, ms: seq<Member>): (fields: seq<Field>)
    ensures |fields| == |ms|
    decreases ms, 0
  {
    if ms == [] then []
    else
      [LaidField(cfg, depth, ms[0], if |ms| == 1 then Line(cfg.style, depth) else [])] + LaidFields(cfg, depth, ms[1..])
  }

  // ----- It spells the value -----

  lemma {:induction false} LaidSpells(cfg: Config, depth: nat, v: Value)
    ensures Spells(cfg.ascii, cfg.floating, Laid(cfg, depth, v), v)
    decreases v, 0
  {
    hide Literal;
    match v
    case VArray(es) => LaidItemsSpell(cfg, depth, es);
    case VObject(ms) => LaidFieldsSpell(cfg, depth, ms);
    case _ =>
  }

  lemma {:induction false} LaidItemsSpell(cfg: Config, depth: nat, es: seq<Value>)
    ensures forall i :: 0 <= i < |es| ==> Spells(cfg.ascii, cfg.floating, LaidItems(cfg, depth, es)[i].value, es[i])
    decreases es, 0
  {
    hide Spells, Laid;
    if es != [] {
      LaidSpells(cfg, depth + 1, es[0]);
      LaidItemsSpell(cfg, depth, es[1..]);
      forall i | 0 < i < |es| ensures Spells(cfg.ascii, cfg.floating, LaidItems(cfg, depth, es)[i].value, es[i]) {
        assert es[1..][i - 1] == es[i];
      }
    }
  }

  lemma {:induction false} LaidFieldsSpell(cfg: Config, depth: nat, ms: seq<Member>)
    ensures forall i :: 0 <= i < |ms| ==> SpellsMember(cfg.ascii, cfg.floating, LaidFields(cfg, depth, ms)[i], ms[i])
    decreases ms, 0
  {
    hide Spells, Laid, Literal;
    if ms != [] {
      LaidSpells(cfg, depth + 1, ms[0].value);
      LaidFieldsSpell(cfg, depth, ms[1..]);
      forall i | 0 < i < |ms| ensures SpellsMember(cfg.ascii, cfg.floating, LaidFields(cfg, depth, ms)[i], ms[i]) {
        assert ms[1..][i - 1] == ms[i];
      }
    }
  }

  lemma LineBlank(style: Style, depth: nat)
    requires Spaced(style)
    ensures Blank(Line(style, depth))
  {}

  lemma {:induction false} LaidGaps(cfg: Config, depth: nat, v: Value)
    requires Spaced(cfg.style)
    ensures Gaps(Laid(cfg, depth, v))
    decreases v, 0
  {
    match v
    case VArray(es) => LaidItemsGaps(cfg, depth, es);
    case VObject(ms) => LaidFieldsGaps(cfg, depth, ms);
    case _ =>
  }

  lemma {:induction false} LaidItemsGaps(cfg: Config, depth: nat, es: seq<Value>)
    requires Spaced(cfg.style)
    ensures forall i :: 0 <= i < |es| ==> ItemGaps(LaidItems(cfg, depth, es)[i])
    decreases es, 0
  {
    hide Gaps, Laid, Line, Spaced;
    if es != [] {
      LineBlank(cfg.style, depth);
      LineBlank(cfg.style, depth + 1);
      LaidGaps(cfg, depth + 1, es[0]);
      LaidItemsGaps(cfg, depth, es[1..]);
    }
  }

  lemma {:induction false} LaidFieldsGaps(cfg: Config, depth: nat, ms: seq<Member>)
    requires Spaced(cfg.style)
    ensures forall i :: 0 <= i < |ms| ==> FieldGaps(LaidFields(cfg, depth, ms)[i])
    decreases ms, 0
  {
    hide Gaps, Laid, Line, Spaced;
    if ms != [] {
      LineBlank(cfg.style, depth);
      LineBlank(cfg.style, depth + 1);
      LaidGaps(cfg, depth + 1, ms[0].value);
      LaidFieldsGaps(cfg, depth, ms[1..]);
    }
  }

  // ----- It is what the writers put -----

  lemma {:induction false} CopiesAre(c: byte, n: nat)
    ensures Copies(c, n) == seq(n, i => c)
  {}

  lemma LineIsBreak(style: Style, depth: nat)
    ensures Line(style, depth) == Break(style, depth)
  {
    if style.Pretty? { CopiesAre(style.indentChar, depth * style.indentCharCount); }
  }

  /** The items after the first, each behind a comma. */
  function MoreItems(style: Style, depth: nat, texts: seq<Bytes>): Bytes {
    if texts == [] then [] else [COMMA] + Break(style, depth) + texts[0] + MoreItems(style, depth, texts[1..])
  }

  lemma {:induction false} MoreItemsLast(style: Style, depth: nat, texts: seq<Bytes>, t: Bytes)
    ensures MoreItems(style, depth, texts + [t]) == MoreItems(style, depth, texts) + [COMMA] + Break(style, depth) + t
  {
    hide Break;
    if texts == [] {
      assert texts + [t] == [t] && [t][1..] == [];
    } else {
      assert (texts + [t])[0] == texts[0] && (texts + [t])[1..] == texts[1..] + [t];
      MoreItemsLast(style, depth, texts[1..], t);
    }
  }

  lemma AppendMore(x: Bytes, y: Bytes, z: Bytes, u: Bytes, w: Bytes)
    ensures (x + y) + z + u + w == x + (y + z + u + w)
  {}

  lemma {:induction false} ItemsAre(style: Style, depth: nat, texts: seq<Bytes>)
    requires texts != []
    ensures Items(style, depth, texts) == Break(style, depth) + texts[0] + MoreItems(style, depth, texts[1..])
  {
    hide Break;
    var n := |texts| - 1;
    if n == 0 {
      assert texts[..0] == [] && texts[1..] == [];
      assert Items(style, depth, texts) == [] + [] + Break(style, depth) + texts[0];
    } else {
      var init := texts[..n];
      ItemsAre(style, depth, init);
      assert init[1..] == texts[1..][..n - 1] && texts[1..] == init[1..] + [texts[n]];
      MoreItemsLast(style, depth, init[1..], texts[n]);
      hide MoreItems, Items;
      AppendMore(Break(style, depth) + texts[0], MoreItems(style, depth, init[1..]), [COMMA], Break(style, depth), texts[n]);
    }
  }

  lemma {:induction false} ElementTextsCons(cfg: Config, depth: nat, es: seq<Value>)
    requires es != []
    ensures ElementTexts(cfg, depth, es) == [Render(cfg, depth, es[0])] + ElementTexts(cfg, depth, es[1..])
  {
    hide Render;
    var n := |es| - 1;
    if n > 0 {
      ElementTextsCons(cfg, depth, es[..n]);
      assert es[..n][1..] == es[1..][..n - 1] && es[1..][n - 1] == es[n];
    }
  }

  lemma {:induction false} MemberTextsCons(cfg: Config, depth: nat, ms: seq<Member>)
    requires ms != []
    ensures MemberTexts(cfg, depth, ms) == [MemberText(cfg, depth, ms[0])] + MemberTexts(cfg, depth, ms[1..])
  {
    hide MemberText;
    var n := |ms| - 1;
    if n > 0 {
      MemberTextsCons(cfg, depth, ms[..n]);
      assert ms[..n][1..] == ms[1..][..n - 1] && ms[1..][n - 1] == ms[n];
    }
  }

  lemma {:induction false} LaidText(cfg: Config, depth: nat, v: Value)
    ensures Text(Laid(cfg, depth, v)) == Render(cfg, depth, v)
    decreases v, 0
  {
    hide Listing, ItemsText, FieldsText, LaidItems, LaidFields, ElementTexts, MemberTexts, Literal;
    match v
    case VArray(es) =>
      LaidNone(cfg, depth);
      if es != [] {
        LaidItemsText(cfg, depth, es);
        ListingAre(cfg.style, depth, 0x5B, ElementTexts(cfg, depth + 1, es), 0x5D);
      }
    case VObject(ms) =>
      LaidNone(cfg, depth);
      if ms != [] {
        LaidFieldsText(cfg, depth, ms);
        ListingAre(cfg.style, depth, 0x7B, MemberTexts(cfg, depth + 1, ms), 0x7D);
      }
    case _ =>
  }

  lemma LaidNone(cfg: Config, depth: nat)
    ensures LaidItems(cfg, depth, []) == [] && LaidFields(cfg, depth, []) == []
    ensures Listing(cfg.style, depth, 0x5B, ElementTexts(cfg, depth + 1, []), 0x5D) == [0x5B] + [] + [0x5D]
    ensures Listing(cfg.style, depth, 0x7B, MemberTexts(cfg, depth + 1, []), 0x7D) == [0x7B] + [] + [0x7D]
  {}

  lemma ListingAre(style: Style, depth: nat, open: byte, texts: seq<Bytes>, close: byte)
    requires texts != []
    ensures Listing(style, depth, open, texts, close) ==
            [open] + (Break(style, depth + 1) + texts[0] + MoreItems(style, depth + 1, texts[1..]) + Break(style, depth)) + [close]
  {
    hide Items, Break;
    ItemsAre(style, depth + 1, texts);
    Assoc([open], Items(style, depth + 1, texts), Break(style, depth));
  }

  lemma {:induction false} LaidItemsText(cfg: Config, depth: nat, es: seq<Value>)
    requires es != []
    ensures var texts := ElementTexts(cfg, depth + 1, es);
            ItemsText(LaidItems(cfg, depth, es)) ==
            Break(cfg.style, depth + 1) + texts[0] + MoreItems(cfg.style, depth + 1, texts[1..]) + Break(cfg.style, depth)
    decreases es, 0
  {
    hide Text, Laid, Render, Break, Line;
    LineIsBreak(cfg.style, depth);
    LineIsBreak(cfg.style, depth + 1);
    LaidText(cfg, depth + 1, es[0]);
    ElementTextsCons(cfg, depth + 1, es);
    if |es| > 1 {
      LaidItemsText(cfg, depth, es[1..]);
    }
  }

  lemma {:induction false} LaidFieldText(cfg: Config, depth: nat, m: Member, last: Bytes)
    ensures FieldText(LaidField(cfg, depth, m, last)) == Break(cfg.style, depth + 1) + MemberText(cfg, depth + 1, m) + last
    decreases m, 1
  {
    hide Text, Laid, Render, Break, Line, Literal;
    LineIsBreak(cfg.style, depth + 1);
    LaidText(cfg, depth + 1, m.value);
  }

  lemma {:induction false} LaidFieldsText(cfg: Config, depth: nat, ms: seq<Member>)
    requires ms != []
    ensures var texts := MemberTexts(cfg, depth + 1, ms);
            FieldsText(LaidFields(cfg, depth, ms)) ==
            Break(cfg.style, depth + 1) + texts[0] + MoreItems(cfg.style, depth + 1, texts[1..]) + Break(cfg.style, depth)
    decreases ms, 0
  {
    hide FieldText, LaidField, MemberText, Break, Line;
    LineIsBreak(cfg.style, depth);
    var last := if |ms| == 1 then Line(cfg.style, depth) else [];
    LaidFieldText(cfg, depth, ms[0], last);
    MemberTextsCons(cfg, depth + 1, ms);
    if |ms| > 1 {
      LaidFieldsText(cfg, depth, ms[1..]);
    }
  }

  // ----- Without white space -----

  /** The same tree with nothing in its gaps. */
  function Bare(t: Syntax): Syntax
    decreases t, 0
  {
    match t
    case Leaf(token, event) => t
    case List(_, items) => List([], BareItems(items))
    case Record(_, fields) => Record([], BareFields(fields))
  }

  function BareItem(i: Item): Item
    decreases i, 0
  {
    Item([], Bare(i.value), [])
  }

  function BareItems(items: seq<Item>): (bare: seq<Item>)
    ensures |bare| == |items|
    decreases items, 0
  {
    if items == [] then [] else [BareItem(items[0])] + BareItems(items[1..])
  }

  function BareFields(fields: seq<Field>): (bare: seq<Field>)
    ensures |bare| == |fields|
    decreases fields, 0
  {
    if fields == [] then []
    else
      var f := fields[0];
      [Field([], f.token, f.name, [], BareItem(f.item))] + BareFields(fields[1..])
  }

  lemma {:induction false} BareLaid(cfg: Config, depth: nat, depth': nat, v: Value)
    ensures Bare(Laid(cfg, depth, v)) == Laid(cfg.(style := Compact), depth', v)
    decreases v, 0
  {
    match v
    case VArray(es) => BareLaidItems(cfg, depth, depth', es);
    case VObject(ms) => BareLaidFields(cfg, depth, depth', ms);
    case _ =>
  }

  lemma {:induction false} BareLaidItems(cfg: Config, depth: nat, depth': nat, es: seq<Value>)
    ensures BareItems(LaidItems(cfg, depth, es)) == LaidItems(cfg.(style := Compact), depth', es)
    decreases es, 0
  {
    hide Bare, Laid;
    if es != [] {
      BareLaid(cfg, depth + 1, depth' + 1, es[0]);
      BareLaidItems(cfg, depth, depth', es[1..]);
      assert LaidItems(cfg, depth, es)[1..] == LaidItems(cfg, depth, es[1..]);
    }
  }

  lemma {:induction false} BareLaidFields(cfg: Config, depth: nat, depth': nat, ms: seq<Member>)
    ensures BareFields(LaidFields(cfg, depth, ms)) == LaidFields(cfg.(style := Compact), depth', ms)
    decreases ms, 0
  {
    hide Bare, Laid, Literal;
    if ms != [] {
      BareLaid(cfg, depth + 1, depth' + 1, ms[0].value);
      BareLaidFields(cfg, depth, depth', ms[1..]);
      assert LaidFields(cfg, depth, ms)[1..] == LaidFields(cfg, depth, ms[1..]);
    }
  }

  lemma {:induction false} WritableAnyStyle(cfg: Config, style: Style, v: Value)
    requires Writable(cfg, v)
    ensures Writable(cfg.(style := style), v)
    decreases v
  {
    match v
    case VArray(es) =>
      forall i | 0 <= i < |es| ensures Writable(cfg.(style := style), es[i]) { WritableAnyStyle(cfg, style, es[i]); }
    case VObject(ms) =>
      forall i | 0 <= i < |ms| ensures Writable(cfg.(style := style), ms[i].value) {
        assert Writable(cfg, ms[i].value);
        WritableAnyStyle(cfg, style, ms[i].value);
      }
    case _ =>
  }

  /** For every value whose strings the target can encode, and every indentation by white
      space: the indenting writer leaves the text of the laid-out tree, whose gaps are white
      space, and the compact writer the text of the same tree without gaps. */
  lemma IndentationIsSpace(cfg: Config, v: Value)
    requires Spaced(cfg.style) && Writable(cfg, v)
    ensures var t := Laid(cfg, 0, v);
            && Gaps(t) && Spells(cfg.ascii, cfg.floating, t, v)
            && Run(cfg, Accept(v)) == Yes(Sheet([], true, Text(t)))
            && Run(cfg.(style := Compact), Accept(v)) == Yes(Sheet([], true, Text(Bare(t))))
  {
    hide Render, Run, Accept, Writable, Laid, Text, Bare, Gaps, Spells, Spaced;
    var compact := cfg.(style := Compact);
    LaidGaps(cfg, 0, v);
    LaidSpells(cfg, 0, v);
    LaidText(cfg, 0, v);
    LaidText(compact, 0, v);
    BareLaid(cfg, 0, 0, v);
    WritesText(cfg, v);
    WritableAnyStyle(cfg, Compact, v);
    WritesText(compact, v);
  }
}
