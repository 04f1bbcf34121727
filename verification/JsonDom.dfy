/** The document tree, its event stream, and the stack machine that rebuilds it. */
module JsonDom {
  import opened Words
  import opened JsonEvents
  import opened JsonReader

  datatype Value =
    | VNull
    | VBool(b: bool)
    | VNumber(n: int)
    | VDouble(bits: nat)
    | VString(s: Bytes)
    | VArray(elements: seq<Value>)
    | VObject(members: seq<Member>)

  datatype Member = Member(name: Bytes, value: Value)

  // ----- Integers: the type flags of a stored number -----

  datatype Flags = Flags(int32: bool, uint32: bool, int64: bool, uint64: bool)

  function FlagsOfInt(i: int): Flags {
    if i >= 0 then Flags(true, true, true, true) else Flags(true, false, true, false)
  }

  function FlagsOfUint(u: nat): Flags {
    if u < 0x8000_0000 then Flags(true, true, true, true) else Flags(false, true, true, true)
  }

  function FlagsOfInt64(i: int): Flags {
    if i >= 0 then Flags(i < 0x8000_0000, i < 0x1_0000_0000, true, true)
    else Flags(i >= -0x8000_0000, false, true, false)
  }

  function FlagsOfUint64(u: nat): Flags {
    Flags(u < 0x8000_0000, u < 0x1_0000_0000, u < 0x8000_0000_0000_0000, true)
  }

  /** The flags an integer has, however it was stored. */
  function FlagsOf(n: int): Flags {
    Flags(-0x8000_0000 <= n < 0x8000_0000, 0 <= n < 0x1_0000_0000,
          -0x8000_0000_0000_0000 <= n < 0x8000_0000_0000_0000, 0 <= n < 0x1_0000_0000_0000_0000)
  }

  /** The constructors agree wherever their ranges meet, so a stored integer is
      determined by its mathematical value. */
  lemma FlagsByValue(n: int)
    ensures -0x8000_0000 <= n < 0x8000_0000 ==> FlagsOfInt(n) == FlagsOf(n)
    ensures 0 <= n < 0x1_0000_0000 ==> FlagsOfUint(n) == FlagsOf(n)
    ensures -0x8000_0000_0000_0000 <= n < 0x8000_0000_0000_0000 ==> FlagsOfInt64(n) == FlagsOf(n)
    ensures 0 <= n < 0x1_0000_0000_0000_0000 ==> FlagsOfUint64(n) == FlagsOf(n)
  {}

  /** The event `Accept` sends for an integer: the first flag that is set. */
  function NumberEvent(n: int): Event {
    var f := FlagsOf(n);
    if f.int32 then Int(n)
    else if f.uint32 && n >= 0 then Uint(n)
    else if f.int64 || n < 0 then Int64(n)
    else Uint64(n)
  }

  /** An integer is sent as the first of int, unsigned, 64-bit int and 64-bit unsigned that
      holds it. */
  lemma NumberEventIs(n: int)
    requires -0x8000_0000_0000_0000 <= n < 0x1_0000_0000_0000_0000
    ensures NumberEvent(n) ==
            if -0x8000_0000 <= n < 0x8000_0000 then Int(n)
            else if 0 <= n < 0x1_0000_0000 then Uint(n)
            else if n < 0x8000_0000_0000_0000 then Int64(n)
            else Uint64(n)
  {}

  // ----- Accept -----

  /** The events of a value, its integers sent as `num` says. */
  function EventsOf(v: Value, num: int -> Event): Log
    decreases v, 0
  {
    match v
    case VNull => [Null]
    case VBool(b) => [Bool(b)]
    case VNumber(n) => [num(n)]
    case VDouble(bits) => [Double(bits)]
    case VString(s) => [String(s)]
    case VArray(es) => [StartArray] + ElementEvents(es, num) + [EndArray(|es|)]
    case VObject(ms) => [StartObject] + MemberEvents(ms, num) + [EndObject(|ms|)]
  }

  function ElementEvents(es: seq<Value>, num: int -> Event): Log {
    if es == [] then [] else ElementEvents(es[..|es| - 1], num) + EventsOf(es[|es| - 1], num)
  }

  function MemberEvents(ms: seq<Member>, num: int -> Event): Log {
    if ms == [] then []
    else MemberEvents(ms[..|ms| - 1], num) + [Key(ms[|ms| - 1].name)] + EventsOf(ms[|ms| - 1].value, num)
  }

  /** The events a value sends to a handler that accepts them all. */
  function Accept(v: Value): Log {
    EventsOf(v, NumberEvent)
  }

  // ----- The document's handlers -----

  function Leaf(e: Event): Value
    requires e.Scalar()
  {
    match e
    case Null => VNull
    case Bool(b) => VBool(b)
    case Int(i) => VNumber(i)
    case Uint(u) => VNumber(u)
    case Int64(i) => VNumber(i)
    case Uint64(u) => VNumber(u)
    case Double(bits) => VDouble(bits)
    case String(s) => VString(s)
  }

  /** Names and values alternate on the stack. */
  function Pairs(vs: seq<Value>): Option<seq<Member>>
    decreases |vs|
  {
    if vs == [] then Some([])
    else if |vs| == 1 || !vs[|vs| - 2].VString? then None
    else match Pairs(vs[..|vs| - 2])
      case None => None
      case Some(ms) => Some(ms + [Member(vs[|vs| - 2].s, vs[|vs| - 1])])
  }

  /** The effect of one event on the stack; `None` where an assertion of the stack
      would fail. */
  function Handle(stack: seq<Value>, e: Event): Option<seq<Value>> {
    match e
    case StartObject => Some(stack + [VObject([])])
    case StartArray => Some(stack + [VArray([])])
    case Key(k) => Some(stack + [VString(k)])
    case EndArray(n) =>
      if |stack| < n + 1 then None
      else Some(stack[..|stack| - n - 1] + [VArray(stack[|stack| - n..])])
    case EndObject(n) =>
      if |stack| < 2 * n + 1 then None
      else (match Pairs(stack[|stack| - 2 * n..])
            case None => None
            case Some(ms) => Some(stack[..|stack| - 2 * n - 1] + [VObject(ms)]))
    case _ => Some(stack + [Leaf(e)])
  }

  /** The stack after a whole run of events. */
  function Replay(log: Log): Option<seq<Value>> {
    if log == [] then Some([])
    else match Replay(log[..|log| - 1])
      case None => None
      case Some(stack) => Handle(stack, log[|log| - 1])
  }

  lemma ReplayNone()
    ensures Replay([]) == Some([])
  {}

  lemma ReplayOne(log: Log, e: Event)
    ensures Replay(log + [e]) == if Replay(log).None? then None else Handle(Replay(log).value, e)
  {
    assert (log + [e])[..|log|] == log;
  }

  function Flat(ms: seq<Member>): (vs: seq<Value>)
    ensures |vs| == 2 * |ms|
  {
    if ms == [] then [] else Flat(ms[..|ms| - 1]) + [VString(ms[|ms| - 1].name), ms[|ms| - 1].value]
  }

  lemma {:induction false} PairsOfFlat(ms: seq<Member>)
    ensures Pairs(Flat(ms)) == Some(ms)
  {
    if ms != [] {
      var init, m := ms[..|ms| - 1], ms[|ms| - 1];
      PairsOfFlat(init);
      assert Flat(ms)[..|Flat(ms)| - 2] == Flat(init);
      assert init + [m] == ms;
    }
  }

  /** `EndArray` collects the elements above the array it was started with. */
  lemma CloseArray(log: Log, stack: seq<Value>, es: seq<Value>)
    requires Replay(log) == Some(stack + [VArray([])] + es)
    ensures Replay(log + [EndArray(|es|)]) == Some(stack + [VArray(es)])
  {
    ReplayOne(log, EndArray(|es|));
    hide Replay;
    var st := stack + [VArray([])] + es;
    assert st[..|st| - |es| - 1] == stack && st[|st| - |es|..] == es;
  }

  /** `EndObject` pairs the names and values above the object. */
  lemma CloseObject(log: Log, stack: seq<Value>, ms: seq<Member>)
    requires Replay(log) == Some(stack + [VObject([])] + Flat(ms))
    ensures Replay(log + [EndObject(|ms|)]) == Some(stack + [VObject(ms)])
  {
    PairsOfFlat(ms);
    CloseWith(log, stack, Flat(ms), ms);
  }

  lemma CloseWith(log: Log, stack: seq<Value>, vs: seq<Value>, ms: seq<Member>)
    requires Replay(log) == Some(stack + [VObject([])] + vs) && |vs| == 2 * |ms| && Pairs(vs) == Some(ms)
    ensures Replay(log + [EndObject(|ms|)]) == Some(stack + [VObject(ms)])
  {
    ReplayOne(log, EndObject(|ms|));
    hide Replay, Pairs;
    var st := stack + [VObject([])] + vs;
    assert st[..|st| - 2 * |ms| - 1] == stack && st[|st| - 2 * |ms|..] == vs;
  }

  /** Every integer is sent as an event that carries its value. */
  ghost predicate Faithful(num: int -> Event) {
    forall n :: num(n).Scalar() && Leaf(num(n)) == VNumber(n)
  }

  /** Replaying a value pushes exactly that value. */
  lemma {:induction false} EventsPush(v: Value, num: int -> Event, log: Log, stack: seq<Value>)
    requires Faithful(num) && Replay(log) == Some(stack)
    ensures Replay(log + EventsOf(v, num)) == Some(stack + [v])
    decreases v, 0
  {
    hide Replay;
    match v
    case VArray(es) =>
      ReplayOne(log, StartArray);
      ElementsPush(es, num, log + [StartArray], stack + [VArray([])]);
      var inside := log + [StartArray] + ElementEvents(es, num);
      CloseArray(inside, stack, es);
      assert log + EventsOf(v, num) == inside + [EndArray(|es|)];
    case VObject(ms) =>
      ReplayOne(log, StartObject);
      MembersPush(ms, num, log + [StartObject], stack + [VObject([])]);
      var inside := log + [StartObject] + MemberEvents(ms, num);
      CloseObject(inside, stack, ms);
      assert log + EventsOf(v, num) == inside + [EndObject(|ms|)];
    case _ =>
      ReplayOne(log, EventsOf(v, num)[0]);
  }

  lemma {:induction false} ElementsPush(es: seq<Value>, num: int -> Event, log: Log, stack: seq<Value>)
    requires Faithful(num) && Replay(log) == Some(stack)
    ensures Replay(log + ElementEvents(es, num)) == Some(stack + es)
    decreases es, 0
  {
    hide Replay;
    if es == [] {
      assert log + ElementEvents(es, num) == log && stack + es == stack;
    } else {
      var init, v := es[..|es| - 1], es[|es| - 1];
      ElementsPush(init, num, log, stack);
      EventsPush(v, num, log + ElementEvents(init, num), stack + init);
      assert log + ElementEvents(es, num) == log + ElementEvents(init, num) + EventsOf(v, num);
      assert stack + es == stack + init + [v];
    }
  }

  lemma {:induction false} MembersPush(ms: seq<Member>, num: int -> Event, log: Log, stack: seq<Value>)
    requires Faithful(num) && Replay(log) == Some(stack)
    ensures Replay(log + MemberEvents(ms, num)) == Some(stack + Flat(ms))
    decreases ms, 0
  {
    hide Replay;
    if ms == [] {
      assert log + MemberEvents(ms, num) == log && stack + Flat(ms) == stack;
    } else {
      var init, m := ms[..|ms| - 1], ms[|ms| - 1];
      MembersPush(init, num, log, stack);
      var log' := log + MemberEvents(init, num);
      ReplayOne(log', Key(m.name));
      EventsPush(m.value, num, log' + [Key(m.name)], stack + Flat(init) + [VString(m.name)]);
      assert log + MemberEvents(ms, num) == log' + [Key(m.name)] + EventsOf(m.value, num);
      assert stack + Flat(ms) == stack + Flat(init) + [VString(m.name)] + [m.value];
    }
  }

  /** The events of a value, sent to an empty document, leave exactly that value. */
  lemma Rebuilds(v: Value, num: int -> Event)
    requires Faithful(num)
    ensures Replay(EventsOf(v, num)) == Some([v])
  {
    hide *;
    ReplayNone();
    EventsPush(v, num, [], []);
    assert [] + EventsOf(v, num) == EventsOf(v, num) && [] + [v] == [v];
  }

  lemma NumberEventFaithful()
    ensures Faithful(NumberEvent)
  {
    forall n ensures NumberEvent(n).Scalar() && Leaf(NumberEvent(n)) == VNumber(n) {}
  }

  /** The copy constructor: replay into an empty document and take the root. */
  lemma DeepCopy(v: Value)
    ensures Replay(Accept(v)) == Some([v])
  {
    NumberEventFaithful();
    Rebuilds(v, NumberEvent);
  }

  // ----- Every parse builds one tree -----

  /** The document took every event of the outcome without a failed assertion, and a
      completed one left `want` on its stack. */
  ghost predicate Built(r: Outcome, want: seq<Value>) {
    Replay(r.log).Some? && (r.Done? ==> Replay(r.log) == Some(want))
  }

  /** A value parsed on top of `stack` leaves `stack` and one more value. */
  lemma {:induction false} ValueBuilds(inp: Input, p: nat, log: Log, stack: seq<Value>) returns (v: Value)
    requires Lawful(inp) && p <= |inp.text| && Replay(log) == Some(stack)
    ensures Built(ValueF(inp, p, log), stack + [v])
    decreases |inp.text| - p, 2
  {
    hide Replay;
    var c := Peek(inp, p);
    v := VNull;
    if NoValueAt(c) {
    } else if c == LBRACE {
      ReplayOne(log, StartObject);
      if inp.accepts(log + [StartObject]) { v := ObjectBuilds(inp, Skip(inp, p + 1), log + [StartObject], stack); }
    } else if c == LBRACKET {
      ReplayOne(log, StartArray);
      if inp.accepts(log + [StartArray]) { v := ArrayBuilds(inp, Skip(inp, p + 1), log + [StartArray], stack); }
    } else if c == QUOTE {
      if inp.str(p).StringOk? {
        v := VString(inp.str(p).s);
        ReplayOne(log, String(inp.str(p).s));
      }
    } else if inp.scalar(p).ScalarOk? {
      v := Leaf(inp.scalar(p).event);
      ReplayOne(log, inp.scalar(p).event);
    }
  }

  lemma {:induction false} ArrayBuilds(inp: Input, p: nat, log: Log, stack: seq<Value>) returns (v: Value)
    requires Lawful(inp) && p <= |inp.text| && Replay(log) == Some(stack + [VArray([])])
    ensures Built(ArrayF(inp, p, log, 0), stack + [v])
    decreases |inp.text| - p, 4
  {
    hide Replay;
    assert stack + [VArray([])] + [] == stack + [VArray([])];
    if Peek(inp, p) == RBRACKET {
      CloseArray(log, stack, []);
      v := VArray([]);
    } else {
      var es := ElementsBuild(inp, p, log, stack, []);
      v := VArray(es);
    }
  }

  lemma {:induction false} ElementsBuild(inp: Input, p: nat, log: Log, stack: seq<Value>, es: seq<Value>)
    returns (es': seq<Value>)
    requires Lawful(inp) && p <= |inp.text| && Replay(log) == Some(stack + [VArray([])] + es)
    ensures Built(ElementsF(inp, p, log, |es|), stack + [VArray(es')])
    decreases |inp.text| - p, 3
  {
    hide Replay;
    var v := ValueBuilds(inp, p, log, stack + [VArray([])] + es);
    var r := ValueF(inp, p, log);
    es' := es + [v];
    if r.Done? {
      var q := Skip(inp, r.pos);
      assert stack + [VArray([])] + es + [v] == stack + [VArray([])] + es';
      if Peek(inp, q) == COMMA {
        es' := ElementsBuild(inp, Skip(inp, q + 1), r.log, stack, es');
      } else {
        CloseArray(r.log, stack, es');
      }
    }
  }

  lemma {:induction false} ObjectBuilds(inp: Input, p: nat, log: Log, stack: seq<Value>) returns (v: Value)
    requires Lawful(inp) && p <= |inp.text| && Replay(log) == Some(stack + [VObject([])])
    ensures Built(ObjectF(inp, p, log, 0), stack + [v])
    decreases |inp.text| - p, 4
  {
    hide Replay;
    assert stack + [VObject([])] + Flat([]) == stack + [VObject([])];
    if Peek(inp, p) == RBRACE {
      CloseObject(log, stack, []);
      v := VObject([]);
    } else {
      var ms := MembersBuild(inp, p, log, stack, []);
      v := VObject(ms);
    }
  }

  lemma {:induction false} MembersBuild(inp: Input, p: nat, log: Log, stack: seq<Value>, ms: seq<Member>)
    returns (ms': seq<Member>)
    requires Lawful(inp) && p <= |inp.text| && Replay(log) == Some(stack + [VObject([])] + Flat(ms))
    ensures Built(MembersF(inp, p, log, |ms|), stack + [VObject(ms')])
    decreases |inp.text| - p, 3
  {
    hide Replay;
    var k, v := MemberBuilds(inp, p, log, stack + [VObject([])] + Flat(ms));
    var r := MemberF(inp, p, log);
    ms' := ms + [Member(k, v)];
    if r.Done? {
      var q := Skip(inp, r.pos);
      FlatSnoc(stack + [VObject([])], ms, k, v);
      if Peek(inp, q) == COMMA {
        ms' := MembersBuild(inp, Skip(inp, q + 1), r.log, stack, ms');
      } else {
        CloseObject(r.log, stack, ms');
      }
    }
  }

  lemma {:induction false} MemberBuilds(inp: Input, p: nat, log: Log, stack: seq<Value>) returns (k: Bytes, v: Value)
    requires Lawful(inp) && p <= |inp.text| && Replay(log) == Some(stack)
    ensures Built(MemberF(inp, p, log), stack + [VString(k)] + [v])
    decreases |inp.text| - p, 2
  {
    hide Replay;
    k, v := [], VNull;
    if Peek(inp, p) == QUOTE && inp.str(p).StringOk? {
      k := inp.str(p).s;
      ReplayOne(log, Key(k));
      var log', q := log + [Key(k)], Skip(inp, inp.str(p).next);
      if inp.accepts(log') {
        assert MemberF(inp, p, log) == ColonF(inp, q, log');
        if Peek(inp, q) == COLON { v := ValueBuilds(inp, Skip(inp, q + 1), log', stack + [VString(k)]); }
      }
    }
  }

  lemma FlatSnoc(base: seq<Value>, ms: seq<Member>, k: Bytes, v: Value)
    ensures base + Flat(ms) + [VString(k)] + [v] == base + Flat(ms + [Member(k, v)])
  {
    assert (ms + [Member(k, v)])[..|ms|] == ms;
  }

  /** The assertion of `ParseStream`, and those of the stack under it: whatever the
      text, no handler call fails, and a successful parse leaves exactly one root. */
  lemma OneRoot(inp: Input) returns (v: Value)
    requires Lawful(inp)
    ensures Built(ParseF(inp), [v])
  {
    assert Replay([]) == Some([]);
    v := ValueBuilds(inp, Skip(inp, 0), [], []);
    assert [] + [v] == [v];
  }

  lemma {:induction false} PrefixReplays(log: Log, i: nat)
    requires i <= |log| && Replay(log).Some?
    ensures Replay(log[..i]).Some?
    decreases |log|
  {
    if i < |log| {
      PrefixReplays(log[..|log| - 1], i);
      assert log[..|log| - 1][..i] == log[..i];
    } else {
      assert log[..i] == log;
    }
  }

  class Document {
    var stack: seq<Value>
    var root: Value

    constructor ()
      ensures stack == [] && root == VNull
    {
      stack, root := [], VNull;
    }

    method EndObject(memberCount: nat)
      requires Handle(stack, Event.EndObject(memberCount)).Some?
      modifies this`stack
      ensures Some(stack) == Handle(old(stack), Event.EndObject(memberCount))
    {
      var at := |stack| - 2 * memberCount;
      var ms := Pairs(stack[at..]).value;
      stack := stack[..at];
      stack := stack[|stack| - 1 := VObject(ms)];
      assert stack == old(stack)[..at - 1] + [VObject(ms)];
    }

    method EndArray(elementCount: nat)
      requires Handle(stack, Event.EndArray(elementCount)).Some?
      modifies this`stack
      ensures Some(stack) == Handle(old(stack), Event.EndArray(elementCount))
    {
      var at := |stack| - elementCount;
      var es := stack[at..];
      stack := stack[..at];
      stack := stack[|stack| - 1 := VArray(es)];
      assert stack == old(stack)[..at - 1] + [VArray(es)];
    }

    /** One handler call. */
    method Receive(e: Event)
      requires Handle(stack, e).Some?
      modifies this`stack
      ensures Some(stack) == Handle(old(stack), e)
    {
      match e {
        case StartObject => stack := stack + [VObject([])];
        case StartArray => stack := stack + [VArray([])];
        case Key(k) => stack := stack + [VString(k)];
        case EndObject(n) => EndObject(n);
        case EndArray(n) => EndArray(n);
        case _ => stack := stack + [Leaf(e)];
      }
    }

    /** `ParseStream` with either parser: on success the root is the one value the
        events build; on failure it stays null. The stack ends cleared. */
    method ParseStream(inp: Input, iterative: bool)
      requires Lawful(inp)
      modifies this
      ensures stack == []
      ensures if ParseF(inp).Done? then Replay(ParseF(inp).log) == Some([root]) else root == VNull
    {
      hide Replay, ParseF, Lawful;
      root, stack := VNull, [];
      var reader := new Reader(inp);
      if iterative { reader.IterativeParse(); } else { reader.Parse(); }
      ghost var v := OneRoot(inp);
      ReplayAll(reader.log);
      if reader.error == None { root := stack[|stack| - 1]; }
      stack := [];
    }

    /** The handler calls of a parse, in order. */
    method ReplayAll(log: Log)
      requires Replay(log).Some? && stack == []
      modifies this`stack
      ensures Replay(log) == Some(stack)
    {
      for i := 0 to |log|
        invariant Replay(log[..i]) == Some(stack)
      {
        PrefixReplays(log, i + 1);
        ReplayOne(log[..i], log[i]);
        assert log[..i + 1] == log[..i] + [log[i]];
        Receive(log[i]);
      }
      assert log[..|log|] == log;
    }
  }
}
