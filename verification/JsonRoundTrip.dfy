/** Values written by either writer and parsed by either parser. */
module JsonRoundTrip {
  import opened Words
  import opened JsonEvents
  import opened JsonReader
  import opened JsonDom
  import opened JsonString
  import opened JsonNumber
  import opened JsonLayout
  import opened JsonWriter
  import opened JsonSyntax
  import opened JsonSpelling
  import opened Numerals
  import Utf

  /** A string that an encoding-aware writer or reader lets through. */
  predicate Clean(cfg: Config, validate: bool, s: Bytes) {
    cfg.ascii || validate ==> Utf.WellFormed(s)
  }

  /** Values without doubles whose integers fit 64 bits. */
  predicate Sound(cfg: Config, validate: bool, v: Value)
    decreases v, 0
  {
    match v
    case VNumber(n) => -0x8000_0000_0000_0000 <= n < 0x1_0000_0000_0000_0000
    case VDouble(_) => false
    case VString(s) => Clean(cfg, validate, s)
    case VArray(es) => forall i :: 0 <= i < |es| ==> Sound(cfg, validate, es[i])
    case VObject(ms) => forall i :: 0 <= i < |ms| ==> Clean(cfg, validate, ms[i].name) && Sound(cfg, validate, ms[i].value)
    case _ => true
  }

  lemma CleanEncodable(cfg: Config, validate: bool, s: Bytes)
    requires Clean(cfg, validate, s)
    ensures Encodable(cfg, s)
  {
    BodyOk(s, 0, cfg.ascii);
    assert s[0..] == s;
  }

  lemma {:induction false} SoundWritable(cfg: Config, validate: bool, v: Value)
    requires Sound(cfg, validate, v)
    ensures Writable(cfg, v)
    decreases v, 0
  {
    hide Clean, Encodable;
    match v
    case VString(s) => CleanEncodable(cfg, validate, s);
    case VArray(es) =>
      forall i | 0 <= i < |es| ensures Writable(cfg, es[i]) { SoundWritable(cfg, validate, es[i]); }
    case VObject(ms) =>
      forall i | 0 <= i < |ms| ensures Encodable(cfg, ms[i].name) && Writable(cfg, ms[i].value) {
        CleanEncodable(cfg, validate, ms[i].name);
        SoundWritable(cfg, validate, ms[i].value);
      }
    case _ =>
  }

  /** A writer's configuration and a reader of some text. */
  datatype Setting = Setting(cfg: Config, validate: bool, floating: nat -> ScalarLex, inp: Input)

  ghost predicate Good(k: Setting) {
    && Willing(k.inp)
    && (forall p: nat :: k.inp.str(p) == ReadString(k.inp.text, p, k.validate))
    && (forall p: nat :: k.inp.scalar(p) == ScalarAt(k.inp.text, p, k.floating))
  }

  /** The tree spells a value the reader takes. */
  ghost predicate Takes(k: Setting, t: Syntax, v: Value) {
    Good(k) && Sound(k.cfg, k.validate, v) && Spells(k.cfg.ascii, k.cfg.floating, t, v) && Gaps(t)
  }

  // ----- Scalars -----

  lemma {:induction false} DecimalStarts(n: nat)
    ensures Digit(Decimal(n)[0])
  {
    if n >= 10 { DecimalStarts(n / 10); }
  }

  lemma NumberLexes(k: Setting, n: int, p: nat)
    requires Good(k) && -0x8000_0000_0000_0000 <= n < 0x1_0000_0000_0000_0000
    requires Has(k.inp.text, p, NumberText(n)) && Delimited(k.inp.text, p + |NumberText(n)|)
    ensures LeafAt(k.inp, NumberText(n), ReadEvent(n), p)
  {
    DecimalStarts(if n < 0 then -n else n);
    HasAt(k.inp.text, p, NumberText(n), 0);
    NumberRoundTrip(k.inp.text, p, n, k.floating);
    hide NumberAt, NumberText, Has, Lawful;
    assert k.inp.scalar(p) == ScalarAt(k.inp.text, p, k.floating);
  }

  lemma WordLexes(k: Setting, word: Bytes, e: Event, p: nat)
    requires Good(k) && Has(k.inp.text, p, word)
    requires || (word == [0x6E, 0x75, 0x6C, 0x6C] && e == Null)
             || (word == [0x74, 0x72, 0x75, 0x65] && e == Bool(true))
             || (word == [0x66, 0x61, 0x6C, 0x73, 0x65] && e == Bool(false))
    ensures LeafAt(k.inp, word, e, p)
  {
    HasAt(k.inp.text, p, word, 0);
    hide Has, Lawful, NumberAt;
    assert k.inp.scalar(p) == ScalarAt(k.inp.text, p, k.floating);
  }

  lemma StringLexes(k: Setting, s: Bytes, p: nat)
    requires Good(k) && Clean(k.cfg, k.validate, s) && Has(k.inp.text, p, Literal(s, k.cfg.ascii))
    ensures NameAt(k.inp, Literal(s, k.cfg.ascii), s, p) && LeafAt(k.inp, Literal(s, k.cfg.ascii), String(s), p)
  {
    CleanEncodable(k.cfg, k.validate, s);
    LiteralRoundTrip(s, k.cfg.ascii, k.validate, k.inp.text, p);
    HasAt(k.inp.text, p, Literal(s, k.cfg.ascii), 0);
    hide Has, ReadString, Literal, Body, Lawful;
    assert k.inp.str(p) == ReadString(k.inp.text, p, k.validate);
  }

  lemma LeafLexes(k: Setting, t: Syntax, v: Value, p: nat)
    requires Takes(k, t, v) && !v.VArray? && !v.VObject?
    requires Has(k.inp.text, p, Text(t)) && Delimited(k.inp.text, p + |Text(t)|)
    ensures Lexes(k.inp, t, p) && Events(t) == EventsOf(v, ReadEvent)
  {
    hide LeafAt, Has, Delimited, Literal, Decimal, Clean, Good;
    match v
    case VNull => WordLexes(k, t.token, t.event, p);
    case VBool(_) => WordLexes(k, t.token, t.event, p);
    case VNumber(n) => NumberLexes(k, n, p);
    case VString(s) => StringLexes(k, s, p);
  }

  // ----- Lists -----

  lemma {:induction false} ElementEventsCons(es: seq<Value>, num: int -> Event)
    requires es != []
    ensures ElementEvents(es, num) == EventsOf(es[0], num) + ElementEvents(es[1..], num)
  {
    hide EventsOf;
    var n := |es| - 1;
    if n == 0 {
      assert es[..0] == [] && es[1..] == [];
    } else {
      ElementEventsCons(es[..n], num);
      assert es[..n][1..] == es[1..][..n - 1] && es[1..][n - 1] == es[n];
      Assoc(EventsOf(es[0], num), ElementEvents(es[1..][..n - 1], num), EventsOf(es[n], num));
    }
  }

  lemma {:induction false} MemberEventsCons(ms: seq<Member>, num: int -> Event)
    requires ms != []
    ensures MemberEvents(ms, num) == [Key(ms[0].name)] + EventsOf(ms[0].value, num) + MemberEvents(ms[1..], num)
  {
    hide EventsOf;
    var n := |ms| - 1;
    if n == 0 {
      assert ms[..0] == [] && ms[1..] == [];
    } else {
      MemberEventsCons(ms[..n], num);
      assert ms[..n][1..] == ms[1..][..n - 1] && ms[1..][n - 1] == ms[n];
      AssocTail([Key(ms[0].name)] + EventsOf(ms[0].value, num), MemberEvents(ms[1..][..n - 1], num),
        [Key(ms[n].name)], EventsOf(ms[n].value, num));
    }
  }

  /** One item and the byte behind it. */
  lemma {:induction false} ItemLexes(k: Setting, i: Item, v: Value, p: nat, c: byte, rest: Bytes)
    requires Takes(k, i.value, v) && ItemGaps(i) && c in {0x2C, 0x5D, 0x7D}
    requires Has(k.inp.text, p, ItemText(i) + ([c] + rest))
    ensures Lexes(k.inp, i.value, p + |i.before|) && Events(i.value) == EventsOf(v, ReadEvent)
    ensures Has(k.inp.text, p + |ItemText(i)| + 1, rest)
    decreases v, 1
  {
    hide Has, Text, Takes, Lexes, Events, EventsOf, Delimited, Gaps;
    ItemParts(k.inp.text, i, p, c, rest);
    var e := p + |i.before| + |Text(i.value)|;
    GapDelimits(k.inp.text, e, i.after);
    ValueLexes(k, i.value, v, p + |i.before|);
  }

  lemma {:induction false} ItemsLexed(k: Setting, items: seq<Item>, es: seq<Value>, p: nat)
    requires items != [] && |items| == |es| && Has(k.inp.text, p, ItemsText(items) + [0x5D])
    requires forall i :: 0 <= i < |es| ==> Takes(k, items[i].value, es[i]) && ItemGaps(items[i])
    ensures ItemsLex(k.inp, items, p) && ItemEvents(items) == ElementEvents(es, ReadEvent)
    decreases es, 0
  {
    hide Has, ItemText, Takes, ItemGaps, Lexes, Events, EventsOf, ElementEvents;
    var i, more := items[0], items[1..];
    ElementEventsCons(es, ReadEvent);
    if more == [] {
      assert ItemsText(items) + [0x5D] == ItemText(i) + ([0x5D] + []);
      ItemLexes(k, i, es[0], p, 0x5D, []);
      NoValueEvents(es[1..]);
    } else {
      assert ItemsText(items) + [0x5D] == ItemText(i) + ([0x2C] + (ItemsText(more) + [0x5D]));
      ItemLexes(k, i, es[0], p, 0x2C, ItemsText(more) + [0x5D]);
      ItemsLexed(k, more, es[1..], p + |ItemText(i)| + 1);
    }
  }

  lemma NoValueEvents(es: seq<Value>)
    requires es == []
    ensures ElementEvents(es, ReadEvent) == [] && MemberEvents([], ReadEvent) == []
  {}

  /** One member and the byte behind it. */
  lemma {:induction false} FieldLexes(k: Setting, f: Field, m: Member, p: nat, c: byte, rest: Bytes)
    requires Good(k) && Clean(k.cfg, k.validate, m.name) && Sound(k.cfg, k.validate, m.value)
    requires SpellsMember(k.cfg.ascii, k.cfg.floating, f, m) && FieldGaps(f) && c in {0x2C, 0x5D, 0x7D}
    requires Has(k.inp.text, p, FieldText(f) + ([c] + rest))
    ensures NameAt(k.inp, f.token, f.name, p + |f.before|) && f.name == m.name
    ensures Lexes(k.inp, f.item.value, p + |NameText(f)| + |f.item.before|)
    ensures Events(f.item.value) == EventsOf(m.value, ReadEvent)
    ensures Has(k.inp.text, p + |FieldText(f)| + 1, rest)
    decreases m, 1
  {
    hide Has, ItemText, NameText, Sound, Clean, Good, Spells, Gaps, Lexes, Events, EventsOf, Literal, NameAt;
    Assoc(NameText(f), ItemText(f.item), [c] + rest);
    NameParts(k.inp.text, f, p, ItemText(f.item) + ([c] + rest));
    StringLexes(k, m.name, p + |f.before|);
    ItemLexes(k, f.item, m.value, p + |NameText(f)|, c, rest);
  }

  lemma {:induction false} FieldsLexed(k: Setting, fields: seq<Field>, ms: seq<Member>, p: nat)
    requires Good(k) && fields != [] && |fields| == |ms| && Has(k.inp.text, p, FieldsText(fields) + [0x7D])
    requires forall i :: 0 <= i < |ms| ==>
               && Clean(k.cfg, k.validate, ms[i].name) && Sound(k.cfg, k.validate, ms[i].value)
               && SpellsMember(k.cfg.ascii, k.cfg.floating, fields[i], ms[i]) && FieldGaps(fields[i])
    ensures FieldsLex(k.inp, fields, p) && FieldEvents(fields) == MemberEvents(ms, ReadEvent)
    decreases ms, 0
  {
    hide Has, FieldText, NameText, Good, Sound, Clean, SpellsMember, FieldGaps, Lexes, NameAt, Events, EventsOf, MemberEvents;
    var f, more := fields[0], fields[1..];
    MemberEventsCons(ms, ReadEvent);
    if more == [] {
      assert FieldsText(fields) + [0x7D] == FieldText(f) + ([0x7D] + []);
      FieldLexes(k, f, ms[0], p, 0x7D, []);
      assert ms[1..] == [];
      NoValueEvents([]);
    } else {
      assert FieldsText(fields) + [0x7D] == FieldText(f) + ([0x2C] + (FieldsText(more) + [0x7D]));
      FieldLexes(k, f, ms[0], p, 0x2C, FieldsText(more) + [0x7D]);
      FieldsLexed(k, more, ms[1..], p + |FieldText(f)| + 1);
    }
  }

  lemma {:induction false} ListLexes(k: Setting, t: Syntax, es: seq<Value>, p: nat)
    requires Takes(k, t, VArray(es)) && Has(k.inp.text, p, Text(t))
    ensures Lexes(k.inp, t, p) && Events(t) == EventsOf(VArray(es), ReadEvent)
    decreases es, 1
  {
    hide Has, Good, ItemsText;
    if es == [] {
      assert t.items == [];
    } else {
      Assoc([0x5B], ItemsText(t.items), [0x5D]);
      HasSplit(k.inp.text, p, [0x5B], ItemsText(t.items) + [0x5D]);
      forall i | 0 <= i < |es| ensures Takes(k, t.items[i].value, es[i]) && ItemGaps(t.items[i]) {
        assert ItemGaps(t.items[i]) && Sound(k.cfg, k.validate, es[i]);
      }
      ItemsLexed(k, t.items, es, p + 1);
    }
  }

  lemma {:induction false} RecordLexes(k: Setting, t: Syntax, ms: seq<Member>, p: nat)
    requires Takes(k, t, VObject(ms)) && Has(k.inp.text, p, Text(t))
    ensures Lexes(k.inp, t, p) && Events(t) == EventsOf(VObject(ms), ReadEvent)
    decreases ms, 1
  {
    hide Has, Good, FieldsText, Clean;
    if ms == [] {
      assert t.fields == [];
    } else {
      Assoc([0x7B], FieldsText(t.fields), [0x7D]);
      HasSplit(k.inp.text, p, [0x7B], FieldsText(t.fields) + [0x7D]);
      FieldsLexed(k, t.fields, ms, p + 1);
    }
  }

  /** A spelling of a value, in any text, is read as it says, with the events of the value,
      integers by value. */
  lemma {:induction false} ValueLexes(k: Setting, t: Syntax, v: Value, p: nat)
    requires Takes(k, t, v) && Has(k.inp.text, p, Text(t)) && Delimited(k.inp.text, p + |Text(t)|)
    ensures Lexes(k.inp, t, p) && Events(t) == EventsOf(v, ReadEvent)
    decreases v, 0
  {
    hide Takes, Has, Delimited, Text, Lexes, Events, EventsOf;
    match v
    case VArray(es) => ListLexes(k, t, es, p);
    case VObject(ms) => RecordLexes(k, t, ms, p);
    case _ => LeafLexes(k, t, v, p);
  }

  // ----- Whole texts -----

  /** A text with the reader's lexers and a handler that accepts every event. */
  function Read(text: Bytes, validate: bool, floating: nat -> ScalarLex, stop: bool): Input {
    TextInput(text, validate, floating, _ => true, stop)
  }

  lemma ReadGood(cfg: Config, text: Bytes, validate: bool, floating: nat -> ScalarLex, stop: bool)
    requires RealLawful(text, floating)
    ensures Good(Setting(cfg, validate, floating, Read(text, validate, floating, stop)))
  {
    TextLawful(text, validate, floating, _ => true, stop);
  }

  /** Wherever the four white-space bytes are put between the tokens of a value, before the
      first and after the last, the text parses to the events of the value; up to its end,
      or up to the end of the value if the parse stops there. */
  lemma SpacedParses(cfg: Config, v: Value, i: Item, validate: bool, floating: nat -> ScalarLex, stop: bool)
    requires Sound(cfg, validate, v) && Spells(cfg.ascii, cfg.floating, i.value, v) && ItemGaps(i)
    requires RealLawful(ItemText(i), floating)
    ensures var inp := Read(ItemText(i), validate, floating, stop);
            && Lawful(inp)
            && ParseF(inp) == Done(if stop then |i.before| + |Text(i.value)| else |ItemText(i)|, EventsOf(v, ReadEvent))
  {
    hide Sound, Spells, Text, Lexes, Events, EventsOf, Has, RealLawful, Gaps, ParseF, Lawful, Delimited;
    var text := ItemText(i);
    var inp := Read(text, validate, floating, stop);
    var k := Setting(cfg, validate, floating, inp);
    ReadGood(cfg, text, validate, floating, stop);
    HasWhole(text);
    HasSplit(text, 0, i.before + Text(i.value), i.after);
    HasSplit(text, 0, i.before, Text(i.value));
    EndDelimits(text, |i.before| + |Text(i.value)|, i.after);
    ValueLexes(k, i.value, v, |i.before|);
    if stop {
      var i' := Item(i.before, i.value, []);
      assert ItemText(i') == i.before + Text(i.value);
      DocumentParses(inp, i', |ItemText(i')|);
    } else {
      DocumentParses(inp, i, |text|);
    }
  }

  lemma HasWhole(text: Bytes)
    ensures Has(text, 0, text)
  {}

  lemma EndDelimits(text: Bytes, p: nat, b: Bytes)
    requires Has(text, p, b) && Blank(b) && p + |b| == |text|
    ensures Delimited(text, p)
  {
    if b != [] { HasAt(text, p, b, 0); }
  }

  /** The text a writer leaves of a value. */
  function ReadBack(cfg: Config, v: Value, validate: bool, floating: nat -> ScalarLex, stop: bool): Input {
    Read(Render(cfg, 0, v), validate, floating, stop)
  }

  /** Reading what either writer wrote: the parsers deliver the value's events. */
  lemma ParsesText(cfg: Config, v: Value, validate: bool, floating: nat -> ScalarLex, stop: bool)
    requires Spaced(cfg.style) && Sound(cfg, validate, v) && RealLawful(Render(cfg, 0, v), floating)
    ensures var inp := ReadBack(cfg, v, validate, floating, stop);
            Lawful(inp) && ParseF(inp) == Done(|inp.text|, EventsOf(v, ReadEvent))
  {
    hide Render, EventsOf, Sound, ParseF, Lawful, RealLawful, Spells, Gaps, Text, Laid;
    var i := Item([], Laid(cfg, 0, v), []);
    LaidText(cfg, 0, v);
    LaidSpells(cfg, 0, v);
    LaidGaps(cfg, 0, v);
    assert ItemText(i) == Render(cfg, 0, v);
    SpacedParses(cfg, v, i, validate, floating, stop);
  }

  /** The round trip. A value without doubles is written without complaint, compact or
      indented, as UTF-8 or ASCII. Either parser then accepts the whole text and
      delivers the events of the value, with integers by value; and the document those
      events build is the value itself. */
  lemma RoundTrip(cfg: Config, v: Value, validate: bool, floating: nat -> ScalarLex, stop: bool)
    requires Spaced(cfg.style) && Sound(cfg, validate, v) && RealLawful(Render(cfg, 0, v), floating)
    ensures var inp := ReadBack(cfg, v, validate, floating, stop);
            && Run(cfg, Accept(v)) == Yes(Sheet([], true, inp.text))
            && Lawful(inp) && ParseF(inp) == Done(|inp.text|, EventsOf(v, ReadEvent))
            && Replay(EventsOf(v, ReadEvent)) == Some([v])
  {
    hide *;
    SoundWritable(cfg, validate, v);
    WritesText(cfg, v);
    ReadBackText(cfg, v, validate, floating, stop);
    ParsesText(cfg, v, validate, floating, stop);
    ReadEventFaithful();
    Rebuilds(v, ReadEvent);
  }

  lemma ReadBackText(cfg: Config, v: Value, validate: bool, floating: nat -> ScalarLex, stop: bool)
    ensures ReadBack(cfg, v, validate, floating, stop).text == Render(cfg, 0, v)
  {}

  lemma ReadEventFaithful()
    ensures Faithful(ReadEvent)
  {
    forall n ensures ReadEvent(n).Scalar() && JsonDom.Leaf(ReadEvent(n)) == VNumber(n) {}
  }

  /** Indentation is only white space: both layouts parse to the same events. */
  lemma LayoutsAgree(a: Config, b: Config, v: Value, validate: bool, floating: nat -> ScalarLex, stop: bool)
    requires Spaced(a.style) && Sound(a, validate, v) && RealLawful(Render(a, 0, v), floating)
    requires Spaced(b.style) && Sound(b, validate, v) && RealLawful(Render(b, 0, v), floating)
    ensures var x, y := ReadBack(a, v, validate, floating, stop), ReadBack(b, v, validate, floating, stop);
            Lawful(x) && Lawful(y) && ParseF(x).Done? && ParseF(y).Done? && ParseF(x).log == ParseF(y).log
  {
    hide Replay, EventsOf, Render, Sound, ParseF, Run, RealLawful;
    RoundTrip(a, v, validate, floating, stop);
    RoundTrip(b, v, validate, floating, stop);
  }

  /** The objects at work: write a value, parse the text, and get the value back. */
  method WriteAndParse(cfg: Config, v: Value, validate: bool, iterative: bool, floating: nat -> ScalarLex)
    returns (text: Bytes, w: Value)
    requires Spaced(cfg.style) && Sound(cfg, validate, v) && RealLawful(Render(cfg, 0, v), floating)
    ensures text == Render(cfg, 0, v) && w == v
  {
    hide Replay, EventsOf, Render, Sound, ParseF, Run, RealLawful, Writable;
    SoundWritable(cfg, validate, v);
    var writer := new Writer(cfg);
    writer.Write(v);
    text := writer.out;
    RoundTrip(cfg, v, validate, floating, false);
    var doc := new Document();
    doc.ParseStream(TextInput(text, validate, floating, _ => true, false), iterative);
    w := doc.root;
  }
}
