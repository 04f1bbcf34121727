/** `Writer` and `PrettyWriter`: events in, text out, with a stack of levels. */
module JsonWriter {
  import opened Words
  import opened JsonEvents
  import opened JsonDom
  import opened JsonString
  import opened JsonNumber
  import opened JsonLayout
  import Utf

  /** How to lay out, what the target encoding is, and the rendering of doubles. */
  datatype Config = Config(style: Style, ascii: bool, floating: nat -> Bytes)

  /** The number of names and values so far, and whether this is an array. */
  datatype Level = Level(valueCount: nat, inArray: bool)

  /** The writer's state. */
  datatype Sheet = Sheet(levels: seq<Level>, hasRoot: bool, out: Bytes)

  const BLANK := Sheet([], false, [])

  // ----- The text of a value -----

  /** The text of a value at nesting depth `depth`. */
  function Render(cfg: Config, depth: nat, v: Value): Bytes
    decreases v, 0
  {
    match v
    case VNull => NULL_TEXT
    case VBool(b) => if b then TRUE_TEXT else FALSE_TEXT
    case VNumber(n) => NumberText(n)
    case VDouble(bits) => cfg.floating(bits)
    case VString(s) => Literal(s, cfg.ascii)
    case VArray(es) => Listing(cfg.style, depth, LBRACKET, ElementTexts(cfg, depth + 1, es), RBRACKET)
    case VObject(ms) => Listing(cfg.style, depth, LBRACE, MemberTexts(cfg, depth + 1, ms), RBRACE)
  }

  function ElementTexts(cfg: Config, depth: nat, es: seq<Value>): (texts: seq<Bytes>)
    ensures |texts| == |es|
    decreases es, 0
  {
    if es == [] then [] else ElementTexts(cfg, depth, es[..|es| - 1]) + [Render(cfg, depth, es[|es| - 1])]
  }

  function MemberText(cfg: Config, depth: nat, m: Member): Bytes
    decreases m, 1
  {
    Literal(m.name, cfg.ascii) + Gap(cfg.style) + Render(cfg, depth, m.value)
  }

  function MemberTexts(cfg: Config, depth: nat, ms: seq<Member>): (texts: seq<Bytes>)
    ensures |texts| == |ms|
    decreases ms, 0
  {
    if ms == [] then [] else MemberTexts(cfg, depth, ms[..|ms| - 1]) + [MemberText(cfg, depth, ms[|ms| - 1])]
  }

  // ----- The writer's steps -----

  /** What is put before a value or name at the top level of the stack. */
  function Lead(style: Style, level: Level, depth: nat): Bytes {
    if level.inArray || level.valueCount % 2 == 0 then Comma(level.valueCount) + Break(style, depth)
    else Gap(style)
  }

  function Top(w: Sheet): Level
    requires w.levels != []
  {
    w.levels[|w.levels| - 1]
  }

  function Pop(levels: seq<Level>): seq<Level>
    requires levels != []
  {
    levels[..|levels| - 1]
  }

  /** `Prefix` and `PrettyPrefix`; `None` where one of their assertions fails. */
  function PrefixF(style: Style, w: Sheet, isString: bool): Option<Sheet> {
    if w.levels == [] then
      if w.hasRoot then None else Some(w.(hasRoot := true))
    else
      var level := Top(w);
      if !level.inArray && level.valueCount % 2 == 0 && !isString then None
      else Some(Sheet(Pop(w.levels) + [Level(level.valueCount + 1, level.inArray)], w.hasRoot,
                      w.out + Lead(style, level, |w.levels|)))
  }

  function ScalarText(cfg: Config, e: Event): Bytes {
    match e
    case Null => NULL_TEXT
    case Bool(b) => if b then TRUE_TEXT else FALSE_TEXT
    case Int(i) => NumberText(i)
    case Uint(u) => NumberText(u)
    case Int64(i) => NumberText(i)
    case Uint64(u) => NumberText(u)
    case Double(bits) => cfg.floating(bits)
    case _ => []
  }

  /** The answer to an event: accepted, refused, or a failed assertion. */
  datatype Answer = Yes(w: Sheet) | No(w: Sheet) | Broken

  function Put(w: Sheet, b: Bytes): Sheet {
    w.(out := w.out + b)
  }

  function OpenMark(inArray: bool): byte {
    if inArray then LBRACKET else LBRACE
  }

  function CloseMark(inArray: bool): byte {
    if inArray then RBRACKET else RBRACE
  }

  function OpenF(cfg: Config, w: Sheet, inArray: bool): Answer {
    match PrefixF(cfg.style, w, false)
    case None => Broken
    case Some(w') => Yes(Sheet(w'.levels + [Level(0, inArray)], w'.hasRoot, w'.out + [OpenMark(inArray)]))
  }

  function CloseF(cfg: Config, w: Sheet, inArray: bool): Answer {
    if w.levels == [] || Top(w).inArray != inArray then Broken
    else
      var below := Pop(w.levels);
      Yes(Sheet(below, w.hasRoot,
                w.out + Closing(cfg.style, |below|, Top(w).valueCount) + [CloseMark(inArray)]))
  }

  function StringF(cfg: Config, w: Sheet, s: Bytes): Answer {
    match PrefixF(cfg.style, w, true)
    case None => Broken
    case Some(w') =>
      if Body(s, 0, cfg.ascii).ok then Yes(Put(w', Literal(s, cfg.ascii)))
      else No(Put(w', [QUOTE] + Body(s, 0, cfg.ascii).out))
  }

  function Step(cfg: Config, w: Sheet, e: Event): Answer {
    match e
    case StartObject => OpenF(cfg, w, false)
    case StartArray => OpenF(cfg, w, true)
    case EndObject(_) => CloseF(cfg, w, false)
    case EndArray(_) => CloseF(cfg, w, true)
    case String(s) => StringF(cfg, w, s)
    case Key(s) => StringF(cfg, w, s)
    case _ =>
      (match PrefixF(cfg.style, w, false)
       case None => Broken
       case Some(w') => Yes(Put(w', ScalarText(cfg, e))))
  }

  /** A run of events from a fresh writer, up to the first that is not accepted. */
  function Run(cfg: Config, log: Log): Answer {
    if log == [] then Yes(BLANK)
    else match Run(cfg, log[..|log| - 1])
      case Yes(w) => Step(cfg, w, log[|log| - 1])
      case No(w) => No(w)
      case Broken => Broken
  }

  lemma RunOne(cfg: Config, log: Log, e: Event)
    requires Run(cfg, log).Yes?
    ensures Run(cfg, log + [e]) == Step(cfg, Run(cfg, log).w, e)
  {
    assert (log + [e])[..|log|] == log;
  }

  // ----- A whole value is written as its text -----

  predicate Encodable(cfg: Config, s: Bytes) {
    Body(s, 0, cfg.ascii).ok
  }

  /** The strings of a value can be written for the target encoding. */
  predicate Writable(cfg: Config, v: Value)
    decreases v, 0
  {
    match v
    case VString(s) => Encodable(cfg, s)
    case VArray(es) => forall i :: 0 <= i < |es| ==> Writable(cfg, es[i])
    case VObject(ms) => forall i :: 0 <= i < |ms| ==> Encodable(cfg, ms[i].name) && Writable(cfg, ms[i].value)
    case _ => true
  }

  /** A value, rather than a name, may come next. */
  predicate ValueNext(w: Sheet) {
    if w.levels == [] then !w.hasRoot else Top(w).inArray || Top(w).valueCount % 2 == 1
  }

  /** The state after a value with text `b` has been written. */
  function After(cfg: Config, w: Sheet, b: Bytes): Sheet
    requires ValueNext(w)
  {
    Put(PrefixF(cfg.style, w, true).value, b)
  }

  lemma {:induction false} ValueWrites(cfg: Config, v: Value, num: int -> Event, log: Log, w: Sheet)
    requires Faithful(num) && Writable(cfg, v) && Run(cfg, log) == Yes(w) && ValueNext(w)
    ensures Run(cfg, log + EventsOf(v, num)) == Yes(After(cfg, w, Render(cfg, |w.levels|, v)))
    decreases v, 1
  {
    hide Run, Literal, NumberText;
    match v
    case VArray(es) => ArrayWrites(cfg, es, num, log, w);
    case VObject(ms) => ObjectWrites(cfg, ms, num, log, w);
    case VNumber(n) =>
      assert Leaf(num(n)) == VNumber(n);
      RunOne(cfg, log, num(n));
    case _ =>
      RunOne(cfg, log, EventsOf(v, num)[0]);
  }

  /** The state inside a container just opened, with `b` written and `n` values counted. */
  function Inside(cfg: Config, w: Sheet, inArray: bool, n: nat, b: Bytes): Sheet
    requires ValueNext(w)
  {
    var w' := PrefixF(cfg.style, w, true).value;
    Sheet(w'.levels + [Level(n, inArray)], w'.hasRoot, w'.out + [OpenMark(inArray)] + b)
  }

  lemma Opens(cfg: Config, log: Log, w: Sheet, inArray: bool)
    requires Run(cfg, log) == Yes(w) && ValueNext(w)
    ensures Run(cfg, log + [if inArray then StartArray else StartObject]) == Yes(Inside(cfg, w, inArray, 0, []))
  {
    RunOne(cfg, log, if inArray then StartArray else StartObject);
    hide Run;
  }

  lemma Closes(cfg: Config, log: Log, w: Sheet, e: Event, inArray: bool, n: nat, count: nat, b: Bytes)
    requires ValueNext(w) && Run(cfg, log) == Yes(Inside(cfg, w, inArray, n, b)) && (n == 0 <==> count == 0)
    requires if inArray then e.EndArray? else e.EndObject?
    ensures Run(cfg, log + [e]) ==
            Yes(After(cfg, w, [OpenMark(inArray)] + b + Closing(cfg.style, |w.levels|, count) + [CloseMark(inArray)]))
  {
    RunOne(cfg, log, e);
    AfterClose(cfg, w, inArray, n, count, b);
    hide Run, Inside, After, CloseF;
  }

  lemma AfterClose(cfg: Config, w: Sheet, inArray: bool, n: nat, count: nat, b: Bytes)
    requires ValueNext(w) && (n == 0 <==> count == 0)
    ensures CloseF(cfg, Inside(cfg, w, inArray, n, b), inArray) ==
            Yes(After(cfg, w, [OpenMark(inArray)] + b + Closing(cfg.style, |w.levels|, count) + [CloseMark(inArray)]))
  {
    hide OpenMark, CloseMark, Break, Lead;
    var w' := PrefixF(cfg.style, w, true).value;
    var open, close := [OpenMark(inArray)], [CloseMark(inArray)];
    var end := Closing(cfg.style, |w.levels|, count);
    assert Pop(w'.levels + [Level(n, inArray)]) == w'.levels && |w'.levels| == |w.levels|;
    assert w'.out + open + b + end + close == w'.out + (open + b + end + close);
  }

  lemma {:induction false} ArrayWrites(cfg: Config, es: seq<Value>, num: int -> Event, log: Log, w: Sheet)
    requires Faithful(num) && Writable(cfg, VArray(es)) && Run(cfg, log) == Yes(w) && ValueNext(w)
    ensures Run(cfg, log + EventsOf(VArray(es), num)) == Yes(After(cfg, w, Render(cfg, |w.levels|, VArray(es))))
    decreases es, 2
  {
    hide Run, After, Inside;
    Opens(cfg, log, w, true);
    ElementsWrite(cfg, es, num, log + [StartArray], w);
    var inner := log + [StartArray] + ElementEvents(es, num);
    var texts := ElementTexts(cfg, |w.levels| + 1, es);
    Closes(cfg, inner, w, EndArray(|es|), true, |es|, |es|, Items(cfg.style, |w.levels| + 1, texts));
    assert log + EventsOf(VArray(es), num) == inner + [EndArray(|es|)];
  }

  lemma {:induction false} ElementsWrite(cfg: Config, es: seq<Value>, num: int -> Event, log: Log, w: Sheet)
    requires ValueNext(w) && Faithful(num) && (forall i :: 0 <= i < |es| ==> Writable(cfg, es[i]))
    requires Run(cfg, log) == Yes(Inside(cfg, w, true, 0, []))
    ensures var texts := ElementTexts(cfg, |w.levels| + 1, es);
            Run(cfg, log + ElementEvents(es, num)) ==
            Yes(Inside(cfg, w, true, |es|, Items(cfg.style, |w.levels| + 1, texts)))
    decreases es, 0
  {
    hide Run, EventsOf, Render;
    if es == [] {
      assert log + ElementEvents(es, num) == log;
    } else {
      var n := |es| - 1;
      var depth := |w.levels| + 1;
      var texts := ElementTexts(cfg, depth, es[..n]);
      var before := Items(cfg.style, depth, texts);
      ElementsWrite(cfg, es[..n], num, log, w);
      var log' := log + ElementEvents(es[..n], num);
      var w' := Inside(cfg, w, true, n, before);
      ValueWrites(cfg, es[n], num, log', w');
      assert log + ElementEvents(es, num) == log' + EventsOf(es[n], num);
      AfterElement(cfg, w, n, before, Render(cfg, depth, es[n]));
      assert (texts + [Render(cfg, depth, es[n])])[..n] == texts;
    }
  }

  /** The separator before the next name or value of an open container. */
  lemma InsidePrefix(cfg: Config, w: Sheet, inArray: bool, k: nat, before: Bytes)
    requires ValueNext(w)
    ensures |Inside(cfg, w, inArray, k, before).levels| == |w.levels| + 1
    ensures Top(Inside(cfg, w, inArray, k, before)) == Level(k, inArray)
    ensures PrefixF(cfg.style, Inside(cfg, w, inArray, k, before), true) ==
            Some(Inside(cfg, w, inArray, k + 1, before + Lead(cfg.style, Level(k, inArray), |w.levels| + 1)))
  {
    hide Lead, OpenMark;
    var w' := PrefixF(cfg.style, w, true).value;
    assert Pop(w'.levels + [Level(k, inArray)]) == w'.levels;
    Assoc(w'.out + [OpenMark(inArray)], before, Lead(cfg.style, Level(k, inArray), |w.levels| + 1));
  }

  lemma PutInside(cfg: Config, w: Sheet, inArray: bool, k: nat, before: Bytes, b: Bytes)
    requires ValueNext(w)
    ensures Put(Inside(cfg, w, inArray, k, before), b) == Inside(cfg, w, inArray, k, before + b)
  {
    var w' := PrefixF(cfg.style, w, true).value;
    hide PrefixF, OpenMark;
    Assoc(w'.out + [OpenMark(inArray)], before, b);
  }

  lemma AfterElement(cfg: Config, w: Sheet, n: nat, before: Bytes, b: Bytes)
    requires ValueNext(w)
    ensures ValueNext(Inside(cfg, w, true, n, before)) && |Inside(cfg, w, true, n, before).levels| == |w.levels| + 1
    ensures After(cfg, Inside(cfg, w, true, n, before), b) ==
            Inside(cfg, w, true, n + 1, before + Comma(n) + Break(cfg.style, |w.levels| + 1) + b)
  {
    InsidePrefix(cfg, w, true, n, before);
    var lead := Lead(cfg.style, Level(n, true), |w.levels| + 1);
    Assoc(before, Comma(n), Break(cfg.style, |w.levels| + 1));
    assert before + lead == before + Comma(n) + Break(cfg.style, |w.levels| + 1);
    hide Inside, PrefixF, Put;
    PutInside(cfg, w, true, n + 1, before + lead, b);
  }

  lemma {:induction false} ObjectWrites(cfg: Config, ms: seq<Member>, num: int -> Event, log: Log, w: Sheet)
    requires Faithful(num) && Writable(cfg, VObject(ms)) && Run(cfg, log) == Yes(w) && ValueNext(w)
    ensures Run(cfg, log + EventsOf(VObject(ms), num)) == Yes(After(cfg, w, Render(cfg, |w.levels|, VObject(ms))))
    decreases ms, 2
  {
    hide Run, After, Inside;
    Opens(cfg, log, w, false);
    MembersWrite(cfg, ms, num, log + [StartObject], w);
    var inner := log + [StartObject] + MemberEvents(ms, num);
    var texts := MemberTexts(cfg, |w.levels| + 1, ms);
    Closes(cfg, inner, w, EndObject(|ms|), false, 2 * |ms|, |ms|, Items(cfg.style, |w.levels| + 1, texts));
    assert log + EventsOf(VObject(ms), num) == inner + [EndObject(|ms|)];
  }

  lemma {:induction false} MembersWrite(cfg: Config, ms: seq<Member>, num: int -> Event, log: Log, w: Sheet)
    requires ValueNext(w) && Faithful(num)
    requires forall i :: 0 <= i < |ms| ==> Encodable(cfg, ms[i].name) && Writable(cfg, ms[i].value)
    requires Run(cfg, log) == Yes(Inside(cfg, w, false, 0, []))
    ensures var texts := MemberTexts(cfg, |w.levels| + 1, ms);
            Run(cfg, log + MemberEvents(ms, num)) ==
            Yes(Inside(cfg, w, false, 2 * |ms|, Items(cfg.style, |w.levels| + 1, texts)))
    decreases ms, 0
  {
    hide Run, EventsOf, Render, MemberText, Inside, Encodable, Writable, ValueNext, Faithful, Comma, Break;
    if ms == [] {
      assert log + MemberEvents(ms, num) == log;
    } else {
      var n := |ms| - 1;
      var m := ms[n];
      MembersWrite(cfg, ms[..n], num, log, w);
      var log' := log + MemberEvents(ms[..n], num);
      var texts := MemberTexts(cfg, |w.levels| + 1, ms[..n]);
      MemberWrites(cfg, m, num, log', w, n, Items(cfg.style, |w.levels| + 1, texts));
      assert (texts + [MemberText(cfg, |w.levels| + 1, m)])[..n] == texts;
      assert log + MemberEvents(ms, num) == log' + [Key(m.name)] + EventsOf(m.value, num);
    }
  }

  lemma {:induction false} MemberWrites(cfg: Config, m: Member, num: int -> Event, log: Log, w: Sheet, n: nat, before: Bytes)
    requires ValueNext(w) && Faithful(num) && Encodable(cfg, m.name) && Writable(cfg, m.value)
    requires Run(cfg, log) == Yes(Inside(cfg, w, false, 2 * n, before))
    ensures Run(cfg, log + [Key(m.name)] + EventsOf(m.value, num)) ==
            Yes(Inside(cfg, w, false, 2 * n + 2,
                       before + Comma(n) + Break(cfg.style, |w.levels| + 1) + MemberText(cfg, |w.levels| + 1, m)))
    decreases m, 2
  {
    hide Run, EventsOf, Render, Literal, Break, Gap;
    var depth := |w.levels| + 1;
    RunOne(cfg, log, Key(m.name));
    AfterName(cfg, w, 2 * n, before, m.name);
    assert Comma(2 * n) == Comma(n);
    var named := before + Comma(n) + Break(cfg.style, depth) + Literal(m.name, cfg.ascii);
    var w' := Inside(cfg, w, false, 2 * n + 1, named);
    AfterMember(cfg, w, n, named, Render(cfg, depth, m.value));
    ValueWrites(cfg, m.value, num, log + [Key(m.name)], w');
    AssocTail(before + Comma(n) + Break(cfg.style, depth), Literal(m.name, cfg.ascii), Gap(cfg.style),
      Render(cfg, depth, m.value));
  }

  lemma AfterName(cfg: Config, w: Sheet, k: nat, before: Bytes, name: Bytes)
    requires ValueNext(w) && Encodable(cfg, name) && k % 2 == 0
    ensures StringF(cfg, Inside(cfg, w, false, k, before), name) ==
            Yes(Inside(cfg, w, false, k + 1,
                       before + Comma(k) + Break(cfg.style, |w.levels| + 1) + Literal(name, cfg.ascii)))
  {
    InsidePrefix(cfg, w, false, k, before);
    var lead := Lead(cfg.style, Level(k, false), |w.levels| + 1);
    Assoc(before, Comma(k), Break(cfg.style, |w.levels| + 1));
    assert before + lead == before + Comma(k) + Break(cfg.style, |w.levels| + 1);
    hide Inside, PrefixF, Put, Body, Literal, Break, Lead;
    PutInside(cfg, w, false, k + 1, before + lead, Literal(name, cfg.ascii));
  }

  lemma LeadGap(style: Style, n: nat, depth: nat)
    ensures Lead(style, Level(2 * n + 1, false), depth) == Gap(style)
  {}

  lemma AfterMember(cfg: Config, w: Sheet, n: nat, before: Bytes, b: Bytes)
    requires ValueNext(w)
    ensures var w' := Inside(cfg, w, false, 2 * n + 1, before);
            && ValueNext(w') && |w'.levels| == |w.levels| + 1
            && After(cfg, w', b) == Inside(cfg, w, false, 2 * n + 2, before + Gap(cfg.style) + b)
  {
    hide Inside, PrefixF, Put, Gap, Lead;
    InsidePrefix(cfg, w, false, 2 * n + 1, before);
    LeadGap(cfg.style, n, |w.levels| + 1);
    PutInside(cfg, w, false, 2 * n + 2, before + Gap(cfg.style), b);
  }

  /** Replaying a value through a fresh writer succeeds and leaves exactly its text. */
  lemma WritesText(cfg: Config, v: Value)
    requires Writable(cfg, v)
    ensures Run(cfg, Accept(v)) == Yes(Sheet([], true, Render(cfg, 0, v)))
  {
    NumberEventFaithful();
    assert Run(cfg, []) == Yes(BLANK);
    hide Run, Render, Writable, EventsOf, Faithful;
    ValueWrites(cfg, v, NumberEvent, [], BLANK);
    assert [] + Accept(v) == Accept(v);
    assert [] + Render(cfg, 0, v) == Render(cfg, 0, v);
  }

  // ----- The writer object -----

  /** The escaping loop of `WriteString`. */
  method Escape(s: Bytes, ascii: bool) returns (ok: bool, b: Bytes)
    ensures Written(ok, b) == Body(s, 0, ascii)
  {
    hide Body, Unit, Utf.Decode, Utf.Encode, PutByte, PutEscape;
    ghost var all := Body(s, 0, ascii);
    BodyEnd(s, ascii);
    var p := 0;
    b := [];
    while p < |s|
      invariant 0 <= p <= |s|
      invariant all.out == b + Body(s, p, ascii).out && all.ok == Body(s, p, ascii).ok
    {
      var part, q;
      if ascii && s[p] >= 0x80 {
        var d := Utf.Decode(s, p);
        if !d.ok {
          Undecoded(s, p);
          return false, b;
        }
        EscapedUnit(s, p);
        part, q := PutEscape(d.cp), d.next;
      } else {
        PlainUnit(s, p, ascii);
        part, q := PutByte(s[p]), p + 1;
      }
      UnitExtends(s, p, q, ascii, b, part);
      b, p := b + part, q;
    }
    ok := true;
  }

  lemma BodyEnd(s: Bytes, ascii: bool)
    ensures Body(s, |s|, ascii) == Written(true, [])
  {}

  lemma UnitExtends(s: Bytes, p: nat, q: nat, ascii: bool, b: Bytes, part: Bytes)
    requires Unit(s, p, q, ascii, part)
    ensures p < q <= |s| && Body(s, p, ascii).ok == Body(s, q, ascii).ok
    ensures b + Body(s, p, ascii).out == (b + part) + Body(s, q, ascii).out
  {
    hide Body;
    Assoc(b, part, Body(s, q, ascii).out);
  }

  lemma RunNext(cfg: Config, log: Log, i: nat)
    requires i < |log| && Run(cfg, log).Yes?
    ensures Run(cfg, log[..i]).Yes? && Run(cfg, log[..i + 1]).Yes?
    ensures Run(cfg, log[..i + 1]) == Step(cfg, Run(cfg, log[..i]).w, log[i])
  {
    RunPrefix(cfg, log, i);
    RunPrefix(cfg, log, i + 1);
    assert log[..i + 1] == log[..i] + [log[i]];
    RunOne(cfg, log[..i], log[i]);
  }

  class Writer {
    const cfg: Config
    var levels: seq<Level>
    var hasRoot: bool
    var out: Bytes

    constructor (cfg: Config)
      ensures this.cfg == cfg && State() == BLANK
    {
      this.cfg, levels, hasRoot, out := cfg, [], false, [];
    }

    function State(): Sheet
      reads this
    {
      Sheet(levels, hasRoot, out)
    }

    /** `WriteIndent`. */
    method WriteIndent()
      requires cfg.style.Pretty?
      modifies this`out
      ensures out == old(out) + Copies(cfg.style.indentChar, |levels| * cfg.style.indentCharCount)
    {
      for i := 0 to |levels| * cfg.style.indentCharCount
        invariant out == old(out) + Copies(cfg.style.indentChar, i)
      {
        out := out + [cfg.style.indentChar];
      }
    }

    /** The comma, colon and layout before the next name or value of the top level. */
    method Separate()
      requires levels != []
      modifies this`out
      ensures out == old(out) + Lead(cfg.style, Top(State()), |levels|)
    {
      hide Copies;
      var level := Top(State());
      if level.valueCount > 0 {
        if level.inArray {
          out := out + [COMMA];
        } else {
          out := out + [if level.valueCount % 2 == 0 then COMMA else COLON];
        }
      }
      if cfg.style.Pretty? {
        if !level.inArray && level.valueCount % 2 == 1 {
          out := out + [SPACE];
        } else {
          out := out + [LINE_FEED];
          WriteIndent();
        }
      }
    }

    /** `Prefix` and `PrettyPrefix`. */
    method Prefix(isString: bool)
      requires PrefixF(cfg.style, State(), isString).Some?
      modifies this
      ensures State() == PrefixF(cfg.style, old(State()), isString).value
    {
      if levels != [] {
        Separate();
        var level := Top(State());
        levels := levels[|levels| - 1 := Level(level.valueCount + 1, level.inArray)];
        assert levels == Pop(old(levels)) + [Level(level.valueCount + 1, level.inArray)];
      } else {
        hasRoot := true;
      }
    }

    method WriteString(s: Bytes) returns (ok: bool)
      modifies this`out
      ensures ok == Body(s, 0, cfg.ascii).ok
      ensures out == old(out) + if ok then Literal(s, cfg.ascii) else [QUOTE] + Body(s, 0, cfg.ascii).out
    {
      hide Body;
      out := out + [QUOTE];
      var b;
      ok, b := Escape(s, cfg.ascii);
      out := out + b;
      if ok { out := out + [QUOTE]; }
    }

    /** One handler call. */
    method Receive(e: Event) returns (ok: bool)
      requires Step(cfg, State(), e) != Broken
      modifies this
      ensures Step(cfg, old(State()), e) == if ok then Yes(State()) else No(State())
    {
      ok := true;
      match e {
        case StartObject => Open(false);
        case StartArray => Open(true);
        case EndObject(_) => Close(false);
        case EndArray(_) => Close(true);
        case String(s) => Prefix(true); ok := WriteString(s);
        case Key(s) => Prefix(true); ok := WriteString(s);
        case _ => Prefix(false); out := out + ScalarText(cfg, e);
      }
    }

    /** `StartObject` and `StartArray`. */
    method Open(inArray: bool)
      requires OpenF(cfg, State(), inArray).Yes?
      modifies this
      ensures OpenF(cfg, old(State()), inArray) == Yes(State())
    {
      Prefix(false);
      levels, out := levels + [Level(0, inArray)], out + [OpenMark(inArray)];
    }

    /** `EndObject` and `EndArray`. */
    method Close(inArray: bool)
      requires CloseF(cfg, State(), inArray).Yes?
      modifies this
      ensures CloseF(cfg, old(State()), inArray) == Yes(State())
    {
      var empty := Top(State()).valueCount == 0;
      levels := Pop(levels);
      if cfg.style.Pretty? && !empty {
        out := out + [LINE_FEED];
        WriteIndent();
      }
      out := out + [CloseMark(inArray)];
    }

    /** Replay a value into a fresh writer. */
    method Write(v: Value)
      requires State() == BLANK && Writable(cfg, v)
      modifies this
      ensures State() == Sheet([], true, Render(cfg, 0, v))
    {
      var log := Accept(v);
      WritesText(cfg, v);
      assert Run(cfg, log[..0]) == Yes(State());
      hide Run, Accept, Render, Writable, EventsOf, Step;
      for i := 0 to |log|
        invariant Run(cfg, log[..i]) == Yes(State())
      {
        RunNext(cfg, log, i);
        var ok := Receive(log[i]);
      }
      assert log[..|log|] == log;
    }
  }

  lemma {:induction false} RunPrefix(cfg: Config, log: Log, i: nat)
    requires i <= |log| && Run(cfg, log).Yes?
    ensures Run(cfg, log[..i]).Yes?
    decreases |log|
  {
    if i < |log| {
      RunPrefix(cfg, log[..|log| - 1], i);
      assert log[..|log| - 1][..i] == log[..i];
    } else {
      assert log[..i] == log;
    }
  }
}
