/** The texts of section 2 of RFC 4627, as trees with their white space, and that the
    parsers accept exactly these. */
module JsonSyntax {
  import opened Words
  import opened JsonEvents
  import opened JsonReader
  import opened JsonString

  /** A value with the white space around it. */
  datatype Item = Item(before: Bytes, value: Syntax, after: Bytes)

  /** A name, as written and as read, with the white space around it, a colon and a value. */
  datatype Field = Field(before: Bytes, token: Bytes, name: Bytes, mid: Bytes, item: Item)

  /** A scalar as written and as read, or a bracketed list; an empty one has one gap. */
  datatype Syntax =
    | Leaf(token: Bytes, event: Event)
    | List(hollow: Bytes, items: seq<Item>)
    | Record(hollow: Bytes, fields: seq<Field>)

  // ----- Text -----

  function Text(t: Syntax): Bytes
    decreases t, 0
  {
    match t
    case Leaf(token, _) => token
    case List(hollow, items) => [0x5B] + (if items == [] then hollow else ItemsText(items)) + [0x5D]
    case Record(hollow, fields) => [0x7B] + (if fields == [] then hollow else FieldsText(fields)) + [0x7D]
  }

  function ItemText(i: Item): Bytes
    decreases i, 0
  {
    i.before + Text(i.value) + i.after
  }

  /** Items separated by commas. */
  function ItemsText(items: seq<Item>): Bytes
    requires items != []
    decreases items, 0
  {
    if |items| == 1 then ItemText(items[0]) else ItemText(items[0]) + [0x2C] + ItemsText(items[1..])
  }

  function NameText(f: Field): Bytes {
    f.before + f.token + f.mid + [0x3A]
  }

  function FieldText(f: Field): Bytes
    decreases f, 0
  {
    NameText(f) + ItemText(f.item)
  }

  function FieldsText(fields: seq<Field>): Bytes
    requires fields != []
    decreases fields, 0
  {
    if |fields| == 1 then FieldText(fields[0]) else FieldText(fields[0]) + [0x2C] + FieldsText(fields[1..])
  }

  predicate Gaps(t: Syntax)
    decreases t, 0
  {
    match t
    case Leaf(_, _) => true
    case List(hollow, items) => Blank(hollow) && forall i :: 0 <= i < |items| ==> ItemGaps(items[i])
    case Record(hollow, fields) => Blank(hollow) && forall i :: 0 <= i < |fields| ==> FieldGaps(fields[i])
  }

  predicate ItemGaps(i: Item)
    decreases i, 0
  {
    Blank(i.before) && Gaps(i.value) && Blank(i.after)
  }

  predicate FieldGaps(f: Field)
    decreases f, 0
  {
    Blank(f.before) && Blank(f.mid) && ItemGaps(f.item)
  }

  // ----- Events -----

  function Events(t: Syntax): Log
    decreases t, 0
  {
    match t
    case Leaf(_, event) => [event]
    case List(_, items) => [StartArray] + ItemEvents(items) + [EndArray(|items|)]
    case Record(_, fields) => [StartObject] + FieldEvents(fields) + [EndObject(|fields|)]
  }

  function ItemEvents(items: seq<Item>): Log
    decreases items, 0
  {
    if items == [] then [] else Events(items[0].value) + ItemEvents(items[1..])
  }

  function FieldEvents(fields: seq<Field>): Log
    decreases fields, 0
  {
    if fields == [] then [] else [Key(fields[0].name)] + Events(fields[0].item.value) + FieldEvents(fields[1..])
  }

  // ----- Scalars are what the lexers read -----

  /** A scalar or string begins at `p` and is read as `event`. */
  ghost predicate LeafAt(inp: Input, token: Bytes, event: Event, p: nat) {
    && p < |inp.text| && Peek(inp, p) !in {0x20, 0x09, 0x0A, 0x0D, LBRACE, LBRACKET} && !NoValueAt(Peek(inp, p))
    && if Peek(inp, p) == QUOTE then event.String? && inp.str(p) == StringOk(event.s, p + |token|)
       else inp.scalar(p) == ScalarOk(event, p + |token|)
  }

  ghost predicate NameAt(inp: Input, token: Bytes, name: Bytes, p: nat) {
    p < |inp.text| && Peek(inp, p) == QUOTE && inp.str(p) == StringOk(name, p + |token|)
  }

  /** The lexers read the scalars and names of `t`, whose text stands at `p`, as it says. */
  ghost predicate Lexes(inp: Input, t: Syntax, p: nat)
    decreases t, 0
  {
    match t
    case Leaf(token, event) => LeafAt(inp, token, event, p)
    case List(_, items) => ItemsLex(inp, items, p + 1)
    case Record(_, fields) => FieldsLex(inp, fields, p + 1)
  }

  ghost predicate ItemsLex(inp: Input, items: seq<Item>, p: nat)
    decreases items, 0
  {
    items != [] ==>
      && Lexes(inp, items[0].value, p + |items[0].before|)
      && ItemsLex(inp, items[1..], p + |ItemText(items[0])| + 1)
  }

  ghost predicate FieldsLex(inp: Input, fields: seq<Field>, p: nat)
    decreases fields, 0
  {
    fields != [] ==>
      && NameAt(inp, fields[0].token, fields[0].name, p + |fields[0].before|)
      && Lexes(inp, fields[0].item.value, p + |NameText(fields[0])| + |fields[0].item.before|)
      && FieldsLex(inp, fields[1..], p + |FieldText(fields[0])| + 1)
  }

  /** `t` stands in the text at `p`. */
  ghost predicate Stands(inp: Input, t: Syntax, p: nat) {
    Has(inp.text, p, Text(t)) && Gaps(t) && Lexes(inp, t, p)
  }

  /** Lexers that make progress and a handler that accepts every event. */
  ghost predicate Willing(inp: Input) {
    Lawful(inp) && forall log :: inp.accepts(log)
  }

  // ----- White space -----

  /** Exactly the four bytes are skipped. */
  lemma SkipStays(inp: Input, p: nat)
    requires Peek(inp, p) !in {0x20, 0x09, 0x0A, 0x0D}
    ensures Skip(inp, p) == p
  {}

  lemma {:induction false} SkipBlank(inp: Input, p: nat, b: Bytes)
    requires Has(inp.text, p, b) && Blank(b) && Peek(inp, p + |b|) !in {0x20, 0x09, 0x0A, 0x0D}
    ensures Skip(inp, p) == p + |b|
    decreases |b|
  {
    if b == [] {
      SkipStays(inp, p);
    } else {
      HasAt(inp.text, p, b, 0);
      HasSplit(inp.text, p, b[..1], b[1..]);
      assert b == b[..1] + b[1..];
      SkipBlank(inp, p + 1, b[1..]);
    }
  }

  lemma {:induction false} SkippedBlank(inp: Input, p: nat)
    requires p <= |inp.text|
    ensures Skip(inp, p) <= |inp.text| && Blank(inp.text[p..Skip(inp, p)])
    ensures Peek(inp, Skip(inp, p)) !in {0x20, 0x09, 0x0A, 0x0D}
    decreases |inp.text| - p
  {
    var q := Skip(inp, p);
    if p < q {
      SkippedBlank(inp, p + 1);
      assert inp.text[p..q] == [inp.text[p]] + inp.text[p + 1..q];
    }
  }

  // ----- Texts are parsed -----

  lemma Taken(inp: Input, p: nat, log: Log, e: Event)
    requires Willing(inp)
    ensures Emit(inp, p, log, e) == Done(p, log + [e])
  {}

  /** What stands somewhere starts with a byte that is neither white space nor one that
      no value starts with. */
  lemma StandsStarts(inp: Input, t: Syntax, p: nat)
    requires Willing(inp) && Stands(inp, t, p)
    ensures p < p + |Text(t)| <= |inp.text|
    ensures Peek(inp, p) !in {0x20, 0x09, 0x0A, 0x0D} && !NoValueAt(Peek(inp, p))
  {
    if !t.Leaf? {
      HasAt(inp.text, p, Text(t), 0);
    }
  }

  lemma LeafParses(inp: Input, t: Syntax, p: nat, log: Log)
    requires Willing(inp) && Stands(inp, t, p) && t.Leaf?
    ensures ValueF(inp, p, log) == Done(p + |Text(t)|, log + Events(t))
  {
    Taken(inp, p + |Text(t)|, log, t.event);
  }

  /** A gap, a value, a gap and a byte that ends it. */
  lemma ItemParts(text: Bytes, i: Item, p: nat, c: byte, rest: Bytes)
    requires Has(text, p, ItemText(i) + ([c] + rest))
    ensures var a := p + |i.before|; var e := a + |Text(i.value)|; var q := e + |i.after|;
            && Has(text, p, i.before) && Has(text, a, Text(i.value)) && Has(text, e, i.after)
            && q < |text| && text[q] == c && Has(text, q + 1, rest) && q == p + |ItemText(i)|
  {
    hide Has;
    HasSplit(text, p, ItemText(i), [c] + rest);
    HasSplit(text, p, i.before + Text(i.value), i.after);
    HasSplit(text, p, i.before, Text(i.value));
    HasSplit(text, p + |ItemText(i)|, [c], rest);
    HasAt(text, p + |ItemText(i)|, [c], 0);
  }

  /** An item is read up to the byte behind it. */
  lemma {:induction false} ItemParses(inp: Input, i: Item, p: nat, c: byte, rest: Bytes, log: Log)
    requires Willing(inp) && ItemGaps(i) && Lexes(inp, i.value, p + |i.before|)
    requires Has(inp.text, p, ItemText(i) + ([c] + rest)) && c !in {0x20, 0x09, 0x0A, 0x0D}
    ensures var a, q := p + |i.before|, p + |ItemText(i)|;
            var e := a + |Text(i.value)|;
            && Skip(inp, p) == a < |inp.text| && !NoValueAt(Peek(inp, a))
            && ValueF(inp, a, log) == Done(e, log + Events(i.value))
            && Skip(inp, e) == q < |inp.text| && Peek(inp, q) == c && Has(inp.text, q + 1, rest)
    decreases i, 1
  {
    hide Has, Lexes, Text, Events, ValueF, Skip, Lawful;
    ItemParts(inp.text, i, p, c, rest);
    var a := p + |i.before|;
    StandsStarts(inp, i.value, a);
    SkipBlank(inp, p, i.before);
    SkipBlank(inp, a + |Text(i.value)|, i.after);
    ValueParses(inp, i.value, a, log);
  }

  /** Items up to the closing bracket, `n` elements read before. */
  lemma {:induction false} ItemsParse(inp: Input, items: seq<Item>, p: nat, n: nat, log: Log)
    requires Willing(inp) && items != [] && (forall i :: 0 <= i < |items| ==> ItemGaps(items[i])) && ItemsLex(inp, items, p)
    requires Has(inp.text, p, ItemsText(items) + [0x5D])
    ensures Skip(inp, p) <= |inp.text| && Peek(inp, Skip(inp, p)) != RBRACKET
    ensures ElementsF(inp, Skip(inp, p), log, n)
         == Done(p + |ItemsText(items)| + 1, log + ItemEvents(items) + [EndArray(n + |items|)])
    decreases items, 1
  {
    hide Has, Lexes, Text, ItemText, Events, ValueF, Skip, Lawful, ItemGaps;
    var i, more := items[0], items[1..];
    if more == [] {
      assert ItemsText(items) + [0x5D] == ItemText(i) + ([0x5D] + []);
      ItemParses(inp, i, p, 0x5D, [], log);
      Taken(inp, p + |ItemText(i)| + 1, log + Events(i.value), EndArray(n + 1));
      assert Events(i.value) + [] == Events(i.value);
    } else {
      assert ItemsText(items) + [0x5D] == ItemText(i) + ([0x2C] + (ItemsText(more) + [0x5D]));
      ItemParses(inp, i, p, 0x2C, ItemsText(more) + [0x5D], log);
      var log' := log + Events(i.value);
      ItemsParse(inp, more, p + |ItemText(i)| + 1, n + 1, log');
      AssocMiddle(log, Events(i.value), ItemEvents(more), [EndArray(n + |items|)]);
    }
  }

  lemma NoEvents()
    ensures ItemEvents([]) == [] && FieldEvents([]) == []
  {}

  lemma HollowParts(inp: Input, p: nat, open: byte, hollow: Bytes, close: byte)
    requires Has(inp.text, p, [open] + hollow + [close]) && Blank(hollow) && close !in {0x20, 0x09, 0x0A, 0x0D}
    ensures var q := p + 1 + |hollow|;
            p < |inp.text| && Peek(inp, p) == open && Skip(inp, p + 1) == q < |inp.text| && Peek(inp, q) == close
  {
    hide Has;
    HasAt(inp.text, p, [open] + hollow + [close], 0);
    HasSplit(inp.text, p, [open] + hollow, [close]);
    HasSplit(inp.text, p, [open], hollow);
    HasAt(inp.text, p + 1 + |hollow|, [close], 0);
    SkipBlank(inp, p + 1, hollow);
  }

  lemma {:induction false} ListParses(inp: Input, t: Syntax, p: nat, log: Log)
    requires Willing(inp) && Stands(inp, t, p) && t.List?
    ensures ValueF(inp, p, log) == Done(p + |Text(t)|, log + Events(t))
    decreases t, 1
  {
    hide ItemsText, ItemsLex, ItemGaps, ElementsF, Lawful, ItemEvents, ObjectF, StringF;
    NoEvents();
    var log' := log + [StartArray];
    if t.items == [] {
      HollowParts(inp, p, 0x5B, t.hollow, 0x5D);
      Taken(inp, p + 1, log, StartArray);
      Taken(inp, p + |Text(t)|, log', EndArray(0));
      assert log' + [EndArray(0)] == log + Events(t);
    } else {
      hide Has, Skip;
      var inner := ItemsText(t.items);
      HasAt(inp.text, p, Text(t), 0);
      Assoc([0x5B], inner, [0x5D]);
      HasSplit(inp.text, p, [0x5B], inner + [0x5D]);
      Taken(inp, p + 1, log, StartArray);
      ItemsParse(inp, t.items, p + 1, 0, log');
      AssocTail(log, [StartArray], ItemEvents(t.items), [EndArray(|t.items|)]);
    }
  }

  // ----- Members -----

  lemma NameParts(text: Bytes, f: Field, p: nat, rest: Bytes)
    requires Has(text, p, NameText(f) + rest)
    ensures var a := p + |f.before|; var e := a + |f.token|; var q := e + |f.mid|;
            && Has(text, p, f.before) && Has(text, a, f.token) && Has(text, e, f.mid)
            && q < |text| && text[q] == 0x3A && Has(text, q + 1, rest) && q + 1 == p + |NameText(f)|
  {
    hide Has;
    HasSplit(text, p, NameText(f), rest);
    HasSplit(text, p, f.before + f.token + f.mid, [0x3A]);
    HasSplit(text, p, f.before + f.token, f.mid);
    HasSplit(text, p, f.before, f.token);
    HasAt(text, p + |f.before + f.token + f.mid|, [0x3A], 0);
  }

  /** A name and its colon are read up to the value. */
  lemma NameParses(inp: Input, f: Field, p: nat, rest: Bytes, log: Log)
    requires Willing(inp) && Blank(f.before) && Blank(f.mid) && NameAt(inp, f.token, f.name, p + |f.before|)
    requires Has(inp.text, p, NameText(f) + rest)
    ensures var a, q := p + |f.before|, p + |NameText(f)|;
            && Skip(inp, p) == a < |inp.text| && Peek(inp, a) == QUOTE && q <= |inp.text| && Has(inp.text, q, rest)
            && MemberF(inp, a, log) == ValueF(inp, Skip(inp, q), log + [Key(f.name)])
  {
    hide Has, ValueF, Skip, Lawful;
    NameParts(inp.text, f, p, rest);
    var a := p + |f.before|;
    SkipBlank(inp, p, f.before);
    SkipBlank(inp, a + |f.token|, f.mid);
    Taken(inp, a + |f.token|, log, Key(f.name));
  }

  /** A member is read up to the byte behind it. */
  lemma {:induction false} FieldParses(inp: Input, f: Field, p: nat, c: byte, rest: Bytes, log: Log)
    requires Willing(inp) && FieldGaps(f) && NameAt(inp, f.token, f.name, p + |f.before|)
    requires Lexes(inp, f.item.value, p + |NameText(f)| + |f.item.before|)
    requires Has(inp.text, p, FieldText(f) + ([c] + rest)) && c !in {0x20, 0x09, 0x0A, 0x0D}
    ensures var a, q := p + |f.before|, p + |FieldText(f)|;
            && Skip(inp, p) == a < |inp.text| && Peek(inp, a) == QUOTE
            && var r := MemberF(inp, a, log);
               && r.Done? && r.log == log + ([Key(f.name)] + Events(f.item.value))
               && Skip(inp, r.pos) == q < |inp.text| && Peek(inp, q) == c && Has(inp.text, q + 1, rest)
    decreases f, 1
  {
    hide Has, Lexes, ItemText, NameText, Events, ValueF, MemberF, Skip, Lawful, NameAt;
    var tail := ItemText(f.item) + ([c] + rest);
    Assoc(NameText(f), ItemText(f.item), [c] + rest);
    NameParses(inp, f, p, tail, log);
    ItemParses(inp, f.item, p + |NameText(f)|, c, rest, log + [Key(f.name)]);
    Assoc(log, [Key(f.name)], Events(f.item.value));
  }

  lemma {:induction false} FieldsParse(inp: Input, fields: seq<Field>, p: nat, n: nat, log: Log)
    requires Willing(inp) && fields != [] && (forall i :: 0 <= i < |fields| ==> FieldGaps(fields[i]))
    requires FieldsLex(inp, fields, p) && Has(inp.text, p, FieldsText(fields) + [0x7D])
    ensures Skip(inp, p) <= |inp.text| && Peek(inp, Skip(inp, p)) != RBRACE
    ensures MembersF(inp, Skip(inp, p), log, n)
         == Done(p + |FieldsText(fields)| + 1, log + FieldEvents(fields) + [EndObject(n + |fields|)])
    decreases fields, 1
  {
    hide Has, Lexes, NameAt, FieldText, NameText, Events, MemberF, Skip, Lawful, FieldGaps, Emit, Peek;
    var f, more := fields[0], fields[1..];
    var events := [Key(f.name)] + Events(f.item.value);
    if more == [] {
      assert FieldsText(fields) + [0x7D] == FieldText(f) + ([0x7D] + []);
      FieldParses(inp, f, p, 0x7D, [], log);
      Taken(inp, p + |FieldText(f)| + 1, log + events, EndObject(n + 1));
      assert FieldEvents(fields) == events;
    } else {
      assert FieldsText(fields) + [0x7D] == FieldText(f) + ([0x2C] + (FieldsText(more) + [0x7D]));
      FieldParses(inp, f, p, 0x2C, FieldsText(more) + [0x7D], log);
      FieldsParse(inp, more, p + |FieldText(f)| + 1, n + 1, log + events);
      AssocMiddle(log, events, FieldEvents(more), [EndObject(n + |fields|)]);
    }
  }

  lemma {:induction false} RecordParses(inp: Input, t: Syntax, p: nat, log: Log)
    requires Willing(inp) && Stands(inp, t, p) && t.Record?
    ensures ValueF(inp, p, log) == Done(p + |Text(t)|, log + Events(t))
    decreases t, 1
  {
    hide FieldsText, FieldsLex, FieldGaps, MembersF, Lawful, FieldEvents, ArrayF, StringF;
    NoEvents();
    var log' := log + [StartObject];
    if t.fields == [] {
      HollowParts(inp, p, 0x7B, t.hollow, 0x7D);
      Taken(inp, p + 1, log, StartObject);
      Taken(inp, p + |Text(t)|, log', EndObject(0));
      assert log' + [EndObject(0)] == log + Events(t);
    } else {
      hide Has, Skip;
      var inner := FieldsText(t.fields);
      HasAt(inp.text, p, Text(t), 0);
      Assoc([0x7B], inner, [0x7D]);
      HasSplit(inp.text, p, [0x7B], inner + [0x7D]);
      Taken(inp, p + 1, log, StartObject);
      FieldsParse(inp, t.fields, p + 1, 0, log');
      AssocTail(log, [StartObject], FieldEvents(t.fields), [EndObject(|t.fields|)]);
    }
  }

  /** A tree that stands in the text is parsed to its events, up to its end. */
  lemma {:induction false} ValueParses(inp: Input, t: Syntax, p: nat, log: Log)
    requires Willing(inp) && Stands(inp, t, p)
    ensures p <= |inp.text| && ValueF(inp, p, log) == Done(p + |Text(t)|, log + Events(t))
    decreases t, 2
  {
    hide ValueF;
    match t
    case Leaf(_, _) => LeafParses(inp, t, p, log);
    case List(_, _) => ListParses(inp, t, p, log);
    case Record(_, _) => RecordParses(inp, t, p, log);
  }

  // ----- What is parsed is such a text -----

  lemma LeafSpelt(inp: Input, p: nat, log: Log) returns (t: Syntax)
    requires Willing(inp) && p <= |inp.text| && Peek(inp, p) !in {0x20, 0x09, 0x0A, 0x0D, LBRACE, LBRACKET}
    requires ValueF(inp, p, log).Done?
    ensures Stands(inp, t, p)
  {
    if Peek(inp, p) == QUOTE {
      assert inp.str(p).StringOk?;
      t := Leaf(inp.text[p..inp.str(p).next], String(inp.str(p).s));
    } else {
      assert inp.scalar(p).ScalarOk?;
      t := Leaf(inp.text[p..inp.scalar(p).next], inp.scalar(p).event);
    }
  }

  lemma HollowSpelt(inp: Input, p: nat)
    requires p < |inp.text| && Skip(inp, p + 1) < |inp.text|
    ensures var q := Skip(inp, p + 1);
            Blank(inp.text[p + 1..q]) && Has(inp.text, p, [Peek(inp, p)] + inp.text[p + 1..q] + [Peek(inp, q)])
  {
    SkippedBlank(inp, p + 1);
  }

  /** The gap before a value, the value and the gap behind it. */
  lemma ItemSpelt(inp: Input, p: nat, v: Syntax) returns (i: Item)
    requires p <= |inp.text| && Stands(inp, v, Skip(inp, p))
    ensures i.value == v && ItemGaps(i) && Lexes(inp, v, p + |i.before|)
    ensures Skip(inp, p) == p + |i.before| && Has(inp.text, p, ItemText(i))
    ensures Skip(inp, Skip(inp, p) + |Text(v)|) == p + |ItemText(i)|
  {
    hide Text, Lexes, Gaps, Skip;
    SkippedBlank(inp, p);
    var a := Skip(inp, p);
    var e := a + |Text(v)|;
    assert e <= |inp.text|;
    SkippedBlank(inp, e);
    i := Item(inp.text[p..a], v, inp.text[e..Skip(inp, e)]);
    HasJoin(inp.text, p, i.before, Text(v));
    HasJoin(inp.text, p, i.before + Text(v), i.after);
  }

  lemma HasByte(inp: Input, q: nat, c: byte)
    requires q < |inp.text| && Peek(inp, q) == c
    ensures Has(inp.text, q, [c])
  {}

  /** The last item and the bracket behind it, or an item, a comma and more items. */
  lemma ItemsJoin(inp: Input, i: Item, more: seq<Item>, p: nat)
    requires Has(inp.text, p, ItemText(i)) && ItemGaps(i) && Lexes(inp, i.value, p + |i.before|)
    requires var q := p + |ItemText(i)|;
             if more == [] then Has(inp.text, q, [0x5D])
             else Has(inp.text, q, [0x2C]) && Has(inp.text, q + 1, ItemsText(more) + [0x5D])
    requires (forall j :: 0 <= j < |more| ==> ItemGaps(more[j])) && ItemsLex(inp, more, p + |ItemText(i)| + 1)
    ensures var items := [i] + more;
            && Has(inp.text, p, ItemsText(items) + [0x5D]) && ItemsLex(inp, items, p)
            && forall j :: 0 <= j < |items| ==> ItemGaps(items[j])
  {
    hide Has, ItemText, ItemGaps, Lexes;
    var items := [i] + more;
    assert items[1..] == more && items[0] == i;
    if more == [] {
      HasJoin(inp.text, p, ItemText(i), [0x5D]);
    } else {
      var rest := ItemsText(more) + [0x5D];
      HasJoin(inp.text, p + |ItemText(i)|, [0x2C], rest);
      HasJoin(inp.text, p, ItemText(i), [0x2C] + rest);
      assert ItemsText(items) + [0x5D] == ItemText(i) + ([0x2C] + rest);
    }
  }

  lemma {:induction false} ItemsSpelt(inp: Input, p: nat, n: nat, log: Log) returns (items: seq<Item>)
    requires Willing(inp) && p <= |inp.text| && ElementsF(inp, Skip(inp, p), log, n).Done?
    ensures items != [] && (forall j :: 0 <= j < |items| ==> ItemGaps(items[j])) && ItemsLex(inp, items, p)
    ensures Has(inp.text, p, ItemsText(items) + [0x5D])
    decreases |inp.text| - p, 3
  {
    hide Stands, Text, ItemText, ItemsText, ItemGaps, Lexes, ItemsLex, Skip, ValueF, Has, Lawful;
    var a := Skip(inp, p);
    SkippedBlank(inp, p);
    var v := ValueSpelt(inp, a, log);
    ValueParses(inp, v, a, log);
    var i := ItemSpelt(inp, p, v);
    var q := p + |ItemText(i)|;
    var r := ValueF(inp, a, log);
    var more := [];
    ItemsLexNone(inp, q + 1);
    if Peek(inp, q) == COMMA {
      HasByte(inp, q, 0x2C);
      more := ItemsSpelt(inp, q + 1, n + 1, r.log);
    } else {
      HasByte(inp, q, 0x5D);
    }
    ItemsJoin(inp, i, more, p);
    items := [i] + more;
  }

  lemma ItemsLexNone(inp: Input, p: nat)
    ensures ItemsLex(inp, [], p)
  {}

  lemma {:induction false} ValueSpelt(inp: Input, p: nat, log: Log) returns (t: Syntax)
    requires Willing(inp) && p <= |inp.text| && Peek(inp, p) !in {0x20, 0x09, 0x0A, 0x0D}
    requires ValueF(inp, p, log).Done?
    ensures Stands(inp, t, p)
    decreases |inp.text| - p, 2
  {
    if Peek(inp, p) == LBRACKET {
      t := ListSpelt(inp, p, log);
    } else if Peek(inp, p) == LBRACE {
      t := RecordSpelt(inp, p, log);
    } else {
      t := LeafSpelt(inp, p, log);
    }
  }

  lemma {:induction false} ListSpelt(inp: Input, p: nat, log: Log) returns (t: Syntax)
    requires Willing(inp) && p < |inp.text| && Peek(inp, p) == LBRACKET && ValueF(inp, p, log).Done?
    ensures Stands(inp, t, p)
    decreases |inp.text| - p, 1
  {
    hide Has, ItemsText, ItemsLex, ItemGaps, ElementsF, Skip, Lawful;
    Taken(inp, p + 1, log, StartArray);
    var q := Skip(inp, p + 1);
    if Peek(inp, q) == RBRACKET {
      HollowSpelt(inp, p);
      t := List(inp.text[p + 1..q], []);
      ItemsLexNone(inp, p + 1);
    } else {
      var items := ItemsSpelt(inp, p + 1, 0, log + [StartArray]);
      t := List([], items);
      HasByte(inp, p, 0x5B);
      HasJoin(inp.text, p, [0x5B], ItemsText(items) + [0x5D]);
      Assoc([0x5B], ItemsText(items), [0x5D]);
    }
  }

  // ----- Members -----

  lemma FieldSpelt(inp: Input, p: nat, log: Log) returns (f: Field)
    requires Willing(inp) && p <= |inp.text| && MemberF(inp, Skip(inp, p), log).Done?
    ensures Skip(inp, p) == p + |f.before| && Blank(f.before) && Blank(f.mid) && Has(inp.text, p, NameText(f))
    ensures NameAt(inp, f.token, f.name, p + |f.before|) && p + |NameText(f)| <= |inp.text|
    ensures MemberF(inp, Skip(inp, p), log) == ValueF(inp, Skip(inp, p + |NameText(f)|), log + [Key(f.name)])
    ensures |NameText(f)| > 0
  {
    hide Skip, ValueF, Has;
    SkippedBlank(inp, p);
    var a := Skip(inp, p);
    var lex := inp.str(a);
    Taken(inp, lex.next, log, Key(lex.s));
    SkippedBlank(inp, lex.next);
    var m := Skip(inp, lex.next);
    f := Field(inp.text[p..a], inp.text[a..lex.next], lex.s, inp.text[lex.next..m], Item([], Leaf([], Null), []));
    HasSlices(inp.text, p, a, lex.next, m);
    HasByte(inp, m, 0x3A);
    HasJoin(inp.text, p, f.before + f.token + f.mid, [0x3A]);
  }

  lemma HasSlices(text: Bytes, p: nat, a: nat, b: nat, c: nat)
    requires p <= a <= b <= c <= |text|
    ensures Has(text, p, text[p..a] + text[a..b] + text[b..c])
  {
    assert text[p..c] == text[p..a] + text[a..b] + text[b..c];
  }

  lemma FieldsJoin(inp: Input, f: Field, more: seq<Field>, p: nat)
    requires Has(inp.text, p, FieldText(f)) && FieldGaps(f) && NameAt(inp, f.token, f.name, p + |f.before|)
    requires Lexes(inp, f.item.value, p + |NameText(f)| + |f.item.before|)
    requires var q := p + |FieldText(f)|;
             if more == [] then Has(inp.text, q, [0x7D])
             else Has(inp.text, q, [0x2C]) && Has(inp.text, q + 1, FieldsText(more) + [0x7D])
    requires (forall j :: 0 <= j < |more| ==> FieldGaps(more[j])) && FieldsLex(inp, more, p + |FieldText(f)| + 1)
    ensures var fields := [f] + more;
            && Has(inp.text, p, FieldsText(fields) + [0x7D]) && FieldsLex(inp, fields, p)
            && forall j :: 0 <= j < |fields| ==> FieldGaps(fields[j])
  {
    hide Has, FieldText, NameText, FieldGaps, Lexes, NameAt;
    var fields := [f] + more;
    assert fields[1..] == more && fields[0] == f;
    if more == [] {
      HasJoin(inp.text, p, FieldText(f), [0x7D]);
    } else {
      var rest := FieldsText(more) + [0x7D];
      HasJoin(inp.text, p + |FieldText(f)|, [0x2C], rest);
      HasJoin(inp.text, p, FieldText(f), [0x2C] + rest);
      assert FieldsText(fields) + [0x7D] == FieldText(f) + ([0x2C] + rest);
    }
  }

  lemma {:induction false} FieldsSpelt(inp: Input, p: nat, n: nat, log: Log) returns (fields: seq<Field>)
    requires Willing(inp) && p <= |inp.text| && MembersF(inp, Skip(inp, p), log, n).Done?
    ensures fields != [] && (forall j :: 0 <= j < |fields| ==> FieldGaps(fields[j])) && FieldsLex(inp, fields, p)
    ensures Has(inp.text, p, FieldsText(fields) + [0x7D])
    decreases |inp.text| - p, 3
  {
    hide Stands, Text, NameText, ItemText, FieldsText, ItemGaps, Lexes, FieldsLex, Skip, ValueF, MemberF, NameAt, Has, Lawful;
    var name := FieldSpelt(inp, p, log);
    var m := p + |NameText(name)|;
    var a := Skip(inp, m);
    SkippedBlank(inp, m);
    var v := ValueSpelt(inp, a, log + [Key(name.name)]);
    ValueParses(inp, v, a, log + [Key(name.name)]);
    var i := ItemSpelt(inp, m, v);
    var f := name.(item := i);
    SameName(name, f);
    HasJoin(inp.text, p, NameText(f), ItemText(i));
    var q := p + |FieldText(f)|;
    var r := MemberF(inp, Skip(inp, p), log);
    var more := [];
    FieldsLexNone(inp, q + 1);
    if Peek(inp, q) == COMMA {
      HasByte(inp, q, 0x2C);
      more := FieldsSpelt(inp, q + 1, n + 1, r.log);
    } else {
      HasByte(inp, q, 0x7D);
    }
    FieldsJoin(inp, f, more, p);
    fields := [f] + more;
  }

  lemma SameName(f: Field, f': Field)
    requires f' == f.(item := f'.item)
    ensures NameText(f) == NameText(f')
  {}

  lemma FieldsLexNone(inp: Input, p: nat)
    ensures FieldsLex(inp, [], p)
  {}

  lemma {:induction false} RecordSpelt(inp: Input, p: nat, log: Log) returns (t: Syntax)
    requires Willing(inp) && p < |inp.text| && Peek(inp, p) == LBRACE && ValueF(inp, p, log).Done?
    ensures Stands(inp, t, p)
    decreases |inp.text| - p, 1
  {
    hide Has, FieldsText, FieldsLex, FieldGaps, MembersF, Skip, Lawful;
    Taken(inp, p + 1, log, StartObject);
    var q := Skip(inp, p + 1);
    if Peek(inp, q) == RBRACE {
      HollowSpelt(inp, p);
      t := Record(inp.text[p + 1..q], []);
      FieldsLexNone(inp, p + 1);
    } else {
      var fields := FieldsSpelt(inp, p + 1, 0, log + [StartObject]);
      t := Record([], fields);
      HasByte(inp, p, 0x7B);
      HasJoin(inp.text, p, [0x7B], FieldsText(fields) + [0x7D]);
      Assoc([0x7B], FieldsText(fields), [0x7D]);
    }
  }

  // ----- Documents -----

  /** The text begins with white space, the tree and white space; after that it ends, with
      the text or with a zero byte, unless the parse stops at the end of the tree. */
  ghost predicate Document(inp: Input, i: Item, q: nat) {
    && ItemGaps(i) && Has(inp.text, 0, ItemText(i)) && Lexes(inp, i.value, |i.before|)
    && if inp.stopWhenDone then i.after == [] && q == |ItemText(i)|
       else q == |ItemText(i)| && (q == |inp.text| || inp.text[q] == 0)
  }

  lemma DocumentParses(inp: Input, i: Item, q: nat)
    requires Willing(inp) && Document(inp, i, q)
    ensures ParseF(inp) == Done(q, Events(i.value))
  {
    hide Text, Lexes, Events, ValueF, Skip, Lawful, Has;
    var a := |i.before|;
    HasSplit(inp.text, 0, i.before + Text(i.value), i.after);
    HasSplit(inp.text, 0, i.before, Text(i.value));
    StandsStarts(inp, i.value, a);
    SkipBlank(inp, 0, i.before);
    ValueParses(inp, i.value, a, []);
    assert [] + Events(i.value) == Events(i.value);
    if !inp.stopWhenDone { SkipBlank(inp, a + |Text(i.value)|, i.after); }
  }

  lemma DocumentSpelt(inp: Input) returns (i: Item)
    requires Willing(inp) && ParseF(inp).Done?
    ensures Document(inp, i, ParseF(inp).pos)
  {
    hide Text, Lexes, Events, ValueF, Skip, Lawful, Has, Gaps, Stands;
    var a := Skip(inp, 0);
    SkippedBlank(inp, 0);
    var v := ValueSpelt(inp, a, []);
    ValueParses(inp, v, a, []);
    i := ItemSpelt(inp, 0, v);
    if inp.stopWhenDone {
      HasSplit(inp.text, 0, i.before + Text(v), i.after);
      i := Item(i.before, v, []);
      assert ItemText(i) == i.before + Text(v);
    }
  }

  /** The parsers accept exactly the documents, up to their end, with the events of the
      tree. */
  lemma ParsesExactly(inp: Input, q: nat, log: Log)
    requires Willing(inp)
    ensures ParseF(inp) == Done(q, log) <==> exists i :: Document(inp, i, q) && log == Events(i.value)
  {
    if ParseF(inp) == Done(q, log) {
      var i := DocumentSpelt(inp);
      DocumentParses(inp, i, q);
      assert Document(inp, i, q) && log == Events(i.value);
    }
    if i :| Document(inp, i, q) && log == Events(i.value) { DocumentParses(inp, i, q); }
  }
}
