/** The event interface between reader, writer and document. */
module JsonEvents {
  import opened Words

  datatype Event =
    | Null
    | Bool(b: bool)
    | Int(i: int)
    | Uint(u: nat)
    | Int64(i64: int)
    | Uint64(u64: nat)
    | Double(bits: nat)
    | String(s: Bytes)
    | StartObject
    | Key(k: Bytes)
    | EndObject(members: nat)
    | StartArray
    | EndArray(elements: nat)
  {
    predicate Scalar() {
      !StartObject? && !Key? && !EndObject? && !StartArray? && !EndArray?
    }
  }

  type Log = seq<Event>

  const LBRACE: byte := 0x7B
  const RBRACE: byte := 0x7D
  const LBRACKET: byte := 0x5B
  const RBRACKET: byte := 0x5D
  const COMMA: byte := 0x2C
  const COLON: byte := 0x3A
  const QUOTE: byte := 0x22

  predicate Space(c: byte) {
    c == 0x20 || c == 0x0A || c == 0x0D || c == 0x09
  }
}

/** The two parsers of `GenericReader` over one input: recursive descent, and a
    table-driven automaton with a stack of (state, count) frames.

    Scalars are lexed by functions of the input, and a handler is any function of
    the events it has received so far, so every statement holds for every lexer that
    makes progress and for every handler. */
module JsonReader {
  import opened Words
  import opened JsonEvents

  datatype Code =
    | DocumentEmpty | DocumentRootNotSingular | ValueInvalid | ObjectMissName | ObjectMissColon
    | ObjectMissCommaOrCurlyBracket | ArrayMissCommaOrSquareBracket
    | StringUnicodeEscapeInvalidHex | StringUnicodeSurrogateInvalid | StringEscapeInvalid
    | StringMissQuotationMark | StringInvalidEncoding
    | NumberTooBig | NumberMissFraction | NumberMissExponent | Termination | UnspecificSyntaxError

  datatype StringLex = StringOk(s: Bytes, next: nat) | StringBad(code: Code)
  datatype ScalarLex = ScalarOk(event: Event, next: nat) | ScalarBad(code: Code)

  /** A text, its lexers, the handler's answer to the events so far, and whether the
      parse stops at the end of the root value. */
  datatype Input = Input(
    text: Bytes,
    str: nat -> StringLex,
    scalar: nat -> ScalarLex,
    accepts: Log -> bool,
    stopWhenDone: bool)

  /** Peeking past the end yields the terminating zero. */
  function Peek(inp: Input, p: nat): byte {
    if p < |inp.text| then inp.text[p] else 0
  }

  function Skip(inp: Input, p: nat): (q: nat)
    ensures p <= q && (p <= |inp.text| ==> q <= |inp.text|)
    ensures !Space(Peek(inp, q))
    decreases |inp.text| - p
  {
    if Space(Peek(inp, p)) then Skip(inp, p + 1) else p
  }

  /** A byte no value starts with and that is not left to the number lexer to judge:
      a closing bracket, a separator or the end. */
  predicate NoValueAt(c: byte) {
    c == RBRACE || c == RBRACKET || c == COMMA || c == COLON || c == 0
  }

  /** Lexers consume at least one byte of the text, produce scalar events only, and
      find no number where no value can start. */
  ghost predicate Lawful(inp: Input) {
    && (forall p :: 0 <= p < |inp.text| && inp.str(p).StringOk? ==> p < inp.str(p).next <= |inp.text|)
    && (forall p :: 0 <= p < |inp.text| && inp.scalar(p).ScalarOk? ==>
          p < inp.scalar(p).next <= |inp.text| && inp.scalar(p).event.Scalar())
    && (forall p: nat :: NoValueAt(Peek(inp, p)) ==> inp.scalar(p) == ScalarBad(ValueInvalid))
  }

  /** Why a parse stopped. The parsers name a missing value differently. */
  datatype Fault = Coded(code: Code) | NoValue(root: bool)

  function RecursiveCode(f: Fault): Code {
    match f
    case Coded(c) => c
    case NoValue(_) => ValueInvalid
  }

  function IterativeCode(f: Fault): Code {
    match f
    case Coded(c) => c
    case NoValue(root) => if root then DocumentEmpty else UnspecificSyntaxError
  }

  /** A parse stops at the byte where the item it was about to read begins. */
  datatype Outcome = Done(pos: nat, log: Log) | Stop(fault: Fault, at: nat, log: Log)

  // ----- The language: what is parsed from a position -----

  function Emit(inp: Input, p: nat, log: Log, e: Event): Outcome {
    if inp.accepts(log + [e]) then Done(p, log + [e]) else Stop(Coded(Termination), p, log + [e])
  }

  ghost function ValueF(inp: Input, p: nat, log: Log): (r: Outcome)
    requires Lawful(inp) && p <= |inp.text|
    ensures r.Done? ==> p < r.pos <= |inp.text|
    decreases |inp.text| - p, 2
  {
    var c := Peek(inp, p);
    if NoValueAt(c) then Stop(NoValue(false), p, log)
    else if c == LBRACE then
      var r := Emit(inp, p + 1, log, StartObject);
      if r.Stop? then r else ObjectF(inp, Skip(inp, p + 1), r.log, 0)
    else if c == LBRACKET then
      var r := Emit(inp, p + 1, log, StartArray);
      if r.Stop? then r else ArrayF(inp, Skip(inp, p + 1), r.log, 0)
    else if c == QUOTE then StringF(inp, p, log, false)
    else ScalarF(inp, p, log)
  }

  function StringF(inp: Input, p: nat, log: Log, key: bool): Outcome {
    match inp.str(p)
    case StringBad(code) => Stop(Coded(code), p, log)
    case StringOk(s, next) => Emit(inp, next, log, if key then Key(s) else String(s))
  }

  function ScalarF(inp: Input, p: nat, log: Log): Outcome {
    match inp.scalar(p)
    case ScalarBad(code) => Stop(Coded(code), p, log)
    case ScalarOk(e, next) => Emit(inp, next, log, e)
  }

  /** After the opening brace and white space. */
  ghost function ObjectF(inp: Input, p: nat, log: Log, n: nat): (r: Outcome)
    requires Lawful(inp) && p <= |inp.text|
    ensures r.Done? ==> p < r.pos <= |inp.text|
    decreases |inp.text| - p, 5
  {
    if Peek(inp, p) == RBRACE then Emit(inp, p + 1, log, EndObject(n)) else MembersF(inp, p, log, n)
  }

  /** At a member name, `n` members complete. */
  ghost function MembersF(inp: Input, p: nat, log: Log, n: nat): (r: Outcome)
    requires Lawful(inp) && p <= |inp.text|
    ensures r.Done? ==> p < r.pos <= |inp.text|
    decreases |inp.text| - p, 4
  {
    var r := MemberF(inp, p, log);
    if r.Stop? then r else MemberTailF(inp, Skip(inp, r.pos), r.log, n)
  }

  /** One member: name, colon and value. */
  ghost function MemberF(inp: Input, p: nat, log: Log): (r: Outcome)
    requires Lawful(inp) && p <= |inp.text|
    ensures r.Done? ==> p < r.pos <= |inp.text|
    decreases |inp.text| - p, 3
  {
    if Peek(inp, p) != QUOTE then Stop(Coded(ObjectMissName), p, log)
    else
      var r := StringF(inp, p, log, true);
      if r.Stop? then r else ColonF(inp, Skip(inp, r.pos), r.log)
  }

  ghost function ColonF(inp: Input, p: nat, log: Log): (r: Outcome)
    requires Lawful(inp) && p <= |inp.text|
    ensures r.Done? ==> p < r.pos <= |inp.text|
    decreases |inp.text| - p, 3
  {
    if Peek(inp, p) != COLON then Stop(Coded(ObjectMissColon), p, log)
    else ValueF(inp, Skip(inp, p + 1), log)
  }

  ghost function MemberTailF(inp: Input, p: nat, log: Log, n: nat): (r: Outcome)
    requires Lawful(inp) && p <= |inp.text|
    ensures r.Done? ==> p < r.pos <= |inp.text|
    decreases |inp.text| - p, 0
  {
    var c := Peek(inp, p);
    if c == COMMA then MembersF(inp, Skip(inp, p + 1), log, n + 1)
    else if c == RBRACE then Emit(inp, p + 1, log, EndObject(n + 1))
    else Stop(Coded(ObjectMissCommaOrCurlyBracket), p, log)
  }

  ghost function ArrayF(inp: Input, p: nat, log: Log, n: nat): (r: Outcome)
    requires Lawful(inp) && p <= |inp.text|
    ensures r.Done? ==> p < r.pos <= |inp.text|
    decreases |inp.text| - p, 4
  {
    if Peek(inp, p) == RBRACKET then Emit(inp, p + 1, log, EndArray(n)) else ElementsF(inp, p, log, n)
  }

  /** At an element, `n` elements complete. */
  ghost function ElementsF(inp: Input, p: nat, log: Log, n: nat): (r: Outcome)
    requires Lawful(inp) && p <= |inp.text|
    ensures r.Done? ==> p < r.pos <= |inp.text|
    decreases |inp.text| - p, 3
  {
    var r := ValueF(inp, p, log);
    if r.Stop? then r else ElementTailF(inp, Skip(inp, r.pos), r.log, n)
  }

  ghost function ElementTailF(inp: Input, p: nat, log: Log, n: nat): (r: Outcome)
    requires Lawful(inp) && p <= |inp.text|
    ensures r.Done? ==> p < r.pos <= |inp.text|
    decreases |inp.text| - p, 0
  {
    var c := Peek(inp, p);
    if c == COMMA then ElementsF(inp, Skip(inp, p + 1), log, n + 1)
    else if c == RBRACKET then Emit(inp, p + 1, log, EndArray(n + 1))
    else Stop(Coded(ArrayMissCommaOrSquareBracket), p, log)
  }

  /** After the root value. */
  ghost function FinishF(inp: Input, p: nat, log: Log): Outcome {
    if inp.stopWhenDone then Done(p, log)
    else
      var q := Skip(inp, p);
      if Peek(inp, q) == 0 then Done(q, log) else Stop(Coded(DocumentRootNotSingular), q, log)
  }

  /** A whole text, from its first non-space byte. */
  ghost function RootF(inp: Input, p: nat, log: Log): Outcome
    requires Lawful(inp) && p <= |inp.text|
  {
    if Peek(inp, p) == 0 then Stop(Coded(DocumentEmpty), p, log)
    else if NoValueAt(Peek(inp, p)) then Stop(NoValue(true), p, log)
    else
      var r := ValueF(inp, p, log);
      if r.Stop? then r else FinishF(inp, r.pos, r.log)
  }

  ghost function ParseF(inp: Input): Outcome
    requires Lawful(inp)
  {
    RootF(inp, Skip(inp, 0), [])
  }

  // ----- What each fault is called -----

  /** The codes by what is missing: a name, a colon, a comma or bracket after a member or an
      element, the value of an empty text, and the end of the text after the value. */
  lemma FaultCodes(inp: Input, p: nat, log: Log, n: nat)
    requires Lawful(inp) && p <= |inp.text|
    ensures Peek(inp, p) != 0x22 ==> MemberF(inp, p, log) == Stop(Coded(ObjectMissName), p, log)
    ensures Peek(inp, p) != 0x3A ==> ColonF(inp, p, log) == Stop(Coded(ObjectMissColon), p, log)
    ensures Peek(inp, p) !in {0x2C, 0x7D} ==>
              MemberTailF(inp, p, log, n) == Stop(Coded(ObjectMissCommaOrCurlyBracket), p, log)
    ensures Peek(inp, p) !in {0x2C, 0x5D} ==>
              ElementTailF(inp, p, log, n) == Stop(Coded(ArrayMissCommaOrSquareBracket), p, log)
    ensures Peek(inp, p) == 0 ==> RootF(inp, p, log) == Stop(Coded(DocumentEmpty), p, log)
    ensures !inp.stopWhenDone && !Space(Peek(inp, p)) && Peek(inp, p) != 0 ==>
              FinishF(inp, p, log) == Stop(Coded(DocumentRootNotSingular), p, log)
    ensures Peek(inp, p) in {0x7D, 0x5D, 0x2C, 0x3A, 0} ==> ValueF(inp, p, log) == Stop(NoValue(false), p, log)
  {}

  // ----- What the handler sees -----

  /** From `log` on, every event but the last was accepted, and if the last was refused the
      parse stops there. */
  ghost predicate Heard(inp: Input, log: Log, r: Outcome) {
    && log <= r.log
    && (forall k :: |log| < k < |r.log| ==> inp.accepts(r.log[..k]))
    && (|log| < |r.log| && !inp.accepts(r.log) ==> r.Stop? && r.fault == Coded(Termination))
  }

  lemma HeardThen(inp: Input, log: Log, p: nat, mid: Log, r: Outcome)
    requires Heard(inp, log, Done(p, mid)) && Heard(inp, mid, r)
    ensures Heard(inp, log, r)
  {
    forall k | |log| < k < |r.log| ensures inp.accepts(r.log[..k]) {
      if k < |mid| { assert r.log[..k] == mid[..k]; }
      if k == |mid| { assert r.log[..k] == mid; }
    }
    if |r.log| == |mid| { assert r.log == mid; }
  }

  lemma EmitHeard(inp: Input, p: nat, log: Log, e: Event)
    ensures Heard(inp, log, Emit(inp, p, log, e))
  {}

  lemma {:induction false} ValueHeard(inp: Input, p: nat, log: Log)
    requires Lawful(inp) && p <= |inp.text|
    ensures Heard(inp, log, ValueF(inp, p, log))
    decreases |inp.text| - p, 2
  {
    hide Heard, MembersF, ElementsF, Emit, Skip, Lawful;
    QuietHeard(inp, log);
    var c := Peek(inp, p);
    if NoValueAt(c) {
    } else if c == LBRACE {
      EmitHeard(inp, p + 1, log, StartObject);
      var r := Emit(inp, p + 1, log, StartObject);
      if r.Done? {
        ObjectHeard(inp, Skip(inp, p + 1), r.log);
        EmitKeeps(inp, p + 1, log, StartObject);
        HeardThen(inp, log, r.pos, r.log, ObjectF(inp, Skip(inp, p + 1), r.log, 0));
      }
    } else if c == LBRACKET {
      EmitHeard(inp, p + 1, log, StartArray);
      var r := Emit(inp, p + 1, log, StartArray);
      if r.Done? {
        ArrayHeard(inp, Skip(inp, p + 1), r.log);
        EmitKeeps(inp, p + 1, log, StartArray);
        HeardThen(inp, log, r.pos, r.log, ArrayF(inp, Skip(inp, p + 1), r.log, 0));
      }
    } else {
      ScalarHeard(inp, p, log);
    }
  }

  lemma EmitKeeps(inp: Input, p: nat, log: Log, e: Event)
    ensures Emit(inp, p, log, e).Done? ==> Emit(inp, p, log, e).pos == p
  {}

  lemma QuietHeard(inp: Input, log: Log)
    ensures forall f, at :: Heard(inp, log, Stop(f, at, log))
  {}

  lemma ScalarHeard(inp: Input, p: nat, log: Log)
    ensures Heard(inp, log, ScalarF(inp, p, log))
    ensures Heard(inp, log, StringF(inp, p, log, true)) && Heard(inp, log, StringF(inp, p, log, false))
  {}

  lemma {:induction false} ObjectHeard(inp: Input, p: nat, log: Log)
    requires Lawful(inp) && p <= |inp.text|
    ensures Heard(inp, log, ObjectF(inp, p, log, 0))
    decreases |inp.text| - p, 5
  {
    hide Heard, MembersF, Emit;
    EmitHeard(inp, p + 1, log, EndObject(0));
    if Peek(inp, p) != RBRACE { MembersHeard(inp, p, log, 0); }
  }

  lemma {:induction false} ArrayHeard(inp: Input, p: nat, log: Log)
    requires Lawful(inp) && p <= |inp.text|
    ensures Heard(inp, log, ArrayF(inp, p, log, 0))
    decreases |inp.text| - p, 5
  {
    hide Heard, ElementsF, Emit;
    EmitHeard(inp, p + 1, log, EndArray(0));
    if Peek(inp, p) != RBRACKET { ElementsHeard(inp, p, log, 0); }
  }

  lemma {:induction false} MemberHeard(inp: Input, p: nat, log: Log)
    requires Lawful(inp) && p <= |inp.text|
    ensures Heard(inp, log, MemberF(inp, p, log))
    decreases |inp.text| - p, 3
  {
    hide Heard, ValueF, StringF, Skip;
    QuietHeard(inp, log);
    if Peek(inp, p) == QUOTE {
      ScalarHeard(inp, p, log);
      var r := StringF(inp, p, log, true);
      if r.Done? {
        KeyMoves(inp, p, log);
        var q := Skip(inp, r.pos);
        QuietHeard(inp, r.log);
        if Peek(inp, q) == COLON { ValueHeard(inp, Skip(inp, q + 1), r.log); }
        HeardThen(inp, log, r.pos, r.log, ColonF(inp, q, r.log));
      }
    }
  }

  lemma KeyMoves(inp: Input, p: nat, log: Log)
    requires Lawful(inp) && p < |inp.text| && StringF(inp, p, log, true).Done?
    ensures p < StringF(inp, p, log, true).pos <= |inp.text|
  {}

  lemma {:induction false} MembersHeard(inp: Input, p: nat, log: Log, n: nat)
    requires Lawful(inp) && p <= |inp.text|
    ensures Heard(inp, log, MembersF(inp, p, log, n))
    decreases |inp.text| - p, 4
  {
    hide Heard, MemberF, Emit, Skip, Lawful;
    MemberHeard(inp, p, log);
    var r := MemberF(inp, p, log);
    if r.Done? {
      var q := Skip(inp, r.pos);
      QuietHeard(inp, r.log);
      EmitHeard(inp, q + 1, r.log, EndObject(n + 1));
      if Peek(inp, q) == COMMA { MembersHeard(inp, Skip(inp, q + 1), r.log, n + 1); }
      HeardThen(inp, log, r.pos, r.log, MemberTailF(inp, q, r.log, n));
    }
  }

  lemma {:induction false} ElementsHeard(inp: Input, p: nat, log: Log, n: nat)
    requires Lawful(inp) && p <= |inp.text|
    ensures Heard(inp, log, ElementsF(inp, p, log, n))
    decreases |inp.text| - p, 3
  {
    hide Heard, ValueF, Emit, Skip, Lawful;
    ValueHeard(inp, p, log);
    var r := ValueF(inp, p, log);
    if r.Done? {
      var q := Skip(inp, r.pos);
      QuietHeard(inp, r.log);
      EmitHeard(inp, q + 1, r.log, EndArray(n + 1));
      if Peek(inp, q) == COMMA { ElementsHeard(inp, Skip(inp, q + 1), r.log, n + 1); }
      HeardThen(inp, log, r.pos, r.log, ElementTailF(inp, q, r.log, n));
    }
  }

  /** Over a whole parse the handler is sent an event only if it accepted all before, and its
      first refusal ends the parse with `Termination`. */
  lemma ParseHeard(inp: Input)
    requires Lawful(inp)
    ensures Heard(inp, [], ParseF(inp))
  {
    ValueHeard(inp, Skip(inp, 0), []);
  }

  // ----- Where an invalid value is found -----

  /** The recursive parser calls a fault an invalid value: no value can start at that byte
      if the value is missing, and one can if the lexer refused it. */
  ghost predicate Located(inp: Input, r: Outcome) {
    r.Stop? && RecursiveCode(r.fault) == ValueInvalid ==> (r.fault.NoValue? <==> NoValueAt(Peek(inp, r.at)))
  }

  lemma {:induction false} ValueLocated(inp: Input, p: nat, log: Log)
    requires Lawful(inp) && p <= |inp.text|
    ensures Located(inp, ValueF(inp, p, log))
    decreases |inp.text| - p, 2
  {
    var q := Skip(inp, p + 1);
    if Peek(inp, p) == LBRACE && Peek(inp, q) != RBRACE {
      MembersLocated(inp, q, log + [StartObject], 0);
    } else if Peek(inp, p) == LBRACKET && Peek(inp, q) != RBRACKET {
      ElementsLocated(inp, q, log + [StartArray], 0);
    }
  }

  lemma {:induction false} MemberLocated(inp: Input, p: nat, log: Log)
    requires Lawful(inp) && p <= |inp.text|
    ensures Located(inp, MemberF(inp, p, log))
    decreases |inp.text| - p, 3
  {
    hide ValueF;
    if Peek(inp, p) == QUOTE {
      var r := StringF(inp, p, log, true);
      if r.Done? && Peek(inp, Skip(inp, r.pos)) == COLON {
        ValueLocated(inp, Skip(inp, Skip(inp, r.pos) + 1), r.log);
      }
    }
  }

  lemma {:induction false} MembersLocated(inp: Input, p: nat, log: Log, n: nat)
    requires Lawful(inp) && p <= |inp.text|
    ensures Located(inp, MembersF(inp, p, log, n))
    decreases |inp.text| - p, 4
  {
    hide MemberF;
    MemberLocated(inp, p, log);
    var r := MemberF(inp, p, log);
    if r.Done? && Peek(inp, Skip(inp, r.pos)) == COMMA {
      MembersLocated(inp, Skip(inp, Skip(inp, r.pos) + 1), r.log, n + 1);
    }
  }

  lemma {:induction false} ElementsLocated(inp: Input, p: nat, log: Log, n: nat)
    requires Lawful(inp) && p <= |inp.text|
    ensures Located(inp, ElementsF(inp, p, log, n))
    decreases |inp.text| - p, 3
  {
    hide ValueF;
    ValueLocated(inp, p, log);
    var r := ValueF(inp, p, log);
    if r.Done? && Peek(inp, Skip(inp, r.pos)) == COMMA {
      ElementsLocated(inp, Skip(inp, Skip(inp, r.pos) + 1), r.log, n + 1);
    }
  }

  lemma ParseLocated(inp: Input)
    requires Lawful(inp)
    ensures Located(inp, ParseF(inp))
  {
    ValueLocated(inp, Skip(inp, 0), []);
  }

  // ----- The automaton -----

  datatype State =
    | Start | Finish | Error
    | ObjectInitial | MemberKey | KeyValueDelimiter | MemberValue | MemberDelimiter | ObjectFinish
    | ArrayInitial | Element | ElementDelimiter | ArrayFinish
    | SingleValue

  datatype Token =
    | LeftBracketToken | RightBracketToken | LeftCurlyBracketToken | RightCurlyBracketToken
    | CommaToken | ColonToken
    | StringToken | FalseToken | TrueToken | NullToken | NumberToken

  /** A saved state and the members or elements completed before the current one. */
  datatype Frame = Frame(state: State, count: nat)

  function Tokenize(c: byte): Token {
    if c == LBRACKET then LeftBracketToken
    else if c == RBRACKET then RightBracketToken
    else if c == LBRACE then LeftCurlyBracketToken
    else if c == RBRACE then RightCurlyBracketToken
    else if c == COMMA then CommaToken
    else if c == COLON then ColonToken
    else if c == QUOTE then StringToken
    else if c == 0x66 then FalseToken
    else if c == 0x74 then TrueToken
    else if c == 0x6E then NullToken
    else NumberToken
  }

  /** The transition table `G`, row by row. */
  function Predict(state: State, token: Token): State {
    match state
    case Start =>
      (match token
       case LeftBracketToken => ArrayInitial
       case LeftCurlyBracketToken => ObjectInitial
       case RightBracketToken | RightCurlyBracketToken | CommaToken | ColonToken => Error
       case _ => SingleValue)
    case ObjectInitial =>
      if token == RightCurlyBracketToken then ObjectFinish
      else if token == StringToken then MemberKey
      else Error
    case MemberKey =>
      if token == ColonToken then KeyValueDelimiter else Error
    case KeyValueDelimiter =>
      (match token
       case LeftBracketToken => ArrayInitial
       case LeftCurlyBracketToken => ObjectInitial
       case RightBracketToken | RightCurlyBracketToken | CommaToken | ColonToken => Error
       case _ => MemberValue)
    case MemberValue =>
      if token == RightCurlyBracketToken then ObjectFinish
      else if token == CommaToken then MemberDelimiter
      else Error
    case MemberDelimiter =>
      if token == StringToken then MemberKey else Error
    case ArrayInitial =>
      (match token
       case LeftBracketToken => ArrayInitial
       case RightBracketToken => ArrayFinish
       case LeftCurlyBracketToken => ObjectInitial
       case RightCurlyBracketToken | CommaToken | ColonToken => Error
       case _ => Element)
    case Element =>
      if token == RightBracketToken then ArrayFinish
      else if token == CommaToken then ElementDelimiter
      else Error
    case ElementDelimiter =>
      (match token
       case LeftBracketToken => ArrayInitial
       case LeftCurlyBracketToken => ObjectInitial
       case RightBracketToken | RightCurlyBracketToken | CommaToken | ColonToken => Error
       case _ => Element)
    case Finish | Error | ObjectFinish | ArrayFinish | SingleValue => Error
  }

  /** The code `HandleError` picks for the state an error was met in. */
  function ErrorIn(state: State): Code {
    match state
    case Start => DocumentEmpty
    case Finish => DocumentRootNotSingular
    case ObjectInitial | MemberDelimiter => ObjectMissName
    case MemberKey => ObjectMissColon
    case MemberValue => ObjectMissCommaOrCurlyBracket
    case Element => ArrayMissCommaOrSquareBracket
    case _ => UnspecificSyntaxError
  }

  /** The bottom frame was pushed at the root, every other one inside a container. */
  ghost predicate StackOk(stack: seq<Frame>) {
    && stack != [] && stack[0].state == Start
    && forall i :: 0 < i < |stack| ==> stack[i].state == Element || stack[i].state == MemberValue
  }

  /** States the loop is in between tokens, with the stack each goes with. */
  ghost predicate Resting(state: State, stack: seq<Frame>) {
    match state
    case Start | Finish => stack == []
    case Error | ObjectFinish | ArrayFinish | SingleValue => false
    case _ => StackOk(stack)
  }

  function Count(stack: seq<Frame>): nat
    requires stack != []
  {
    stack[|stack| - 1].count
  }

  /** What recursive descent goes on to do once the container of the top frame ended
      with `r`: finish the document, or continue the container around it. */
  ghost function Return(inp: Input, r: Outcome, stack: seq<Frame>): Outcome
    requires Lawful(inp) && StackOk(stack) && (r.Done? ==> r.pos <= |inp.text|)
    decreases |stack|
  {
    var saved, below := stack[|stack| - 1].state, stack[..|stack| - 1];
    if r.Stop? then r
    else if saved == Start then FinishF(inp, r.pos, r.log)
    else if saved == Element then
      Return(inp, ElementTailF(inp, Skip(inp, r.pos), r.log, Count(below)), below)
    else
      Return(inp, MemberTailF(inp, Skip(inp, r.pos), r.log, Count(below)), below)
  }

  ghost function AfterMember(inp: Input, r: Outcome, n: nat): (r': Outcome)
    requires Lawful(inp) && (r.Done? ==> r.pos <= |inp.text|)
    ensures r'.Done? ==> r'.pos <= |inp.text|
  {
    if r.Stop? then r else MemberTailF(inp, Skip(inp, r.pos), r.log, n)
  }

  /** What recursive descent would do from the point the automaton is at. */
  ghost function Resume(inp: Input, state: State, stack: seq<Frame>, p: nat, log: Log): Outcome
    requires Lawful(inp) && p <= |inp.text| && Resting(state, stack)
  {
    match state
    case Start => RootF(inp, p, log)
    case Finish => FinishF(inp, p, log)
    case ObjectInitial => Return(inp, ObjectF(inp, p, log, Count(stack)), stack)
    case MemberKey => Return(inp, AfterMember(inp, ColonF(inp, p, log), Count(stack)), stack)
    case KeyValueDelimiter => Return(inp, AfterMember(inp, ValueF(inp, p, log), Count(stack)), stack)
    case MemberValue => Return(inp, MemberTailF(inp, p, log, Count(stack)), stack)
    case MemberDelimiter => Return(inp, MembersF(inp, p, log, Count(stack)), stack)
    case ArrayInitial => Return(inp, ArrayF(inp, p, log, Count(stack)), stack)
    case Element => Return(inp, ElementTailF(inp, p, log, Count(stack)), stack)
    case ElementDelimiter => Return(inp, ElementsF(inp, p, log, Count(stack)), stack)
    case _ => Stop(Coded(UnspecificSyntaxError), p, log)
  }

  /** States in which a value may come next. */
  predicate WantsValue(state: State) {
    state == Start || state == KeyValueDelimiter || state == ArrayInitial || state == ElementDelimiter
  }

  /** What follows a value with outcome `r` met in `state`. */
  ghost function AfterValue(inp: Input, state: State, stack: seq<Frame>, r: Outcome): Outcome
    requires Lawful(inp) && WantsValue(state) && Resting(state, stack) && (r.Done? ==> r.pos <= |inp.text|)
  {
    if r.Stop? then r
    else if state == Start then FinishF(inp, r.pos, r.log)
    else if state == KeyValueDelimiter then
      Return(inp, MemberTailF(inp, Skip(inp, r.pos), r.log, Count(stack)), stack)
    else
      Return(inp, ElementTailF(inp, Skip(inp, r.pos), r.log, Count(stack)), stack)
  }

  lemma ResumeValue(inp: Input, state: State, stack: seq<Frame>, p: nat, log: Log)
    requires Lawful(inp) && p <= |inp.text| && WantsValue(state) && Resting(state, stack)
    requires !NoValueAt(Peek(inp, p))
    ensures Resume(inp, state, stack, p, log) == AfterValue(inp, state, stack, ValueF(inp, p, log))
  {
    if state == ArrayInitial {
      assert ArrayF(inp, p, log, Count(stack)) == ElementsF(inp, p, log, Count(stack));
    }
  }

  /** The state pushed on entering a container met in `state`. */
  function Saved(state: State): State {
    if state == ArrayInitial || state == ElementDelimiter then Element
    else if state == KeyValueDelimiter then MemberValue
    else state
  }

  lemma PushOk(state: State, stack: seq<Frame>, n: nat)
    requires WantsValue(state) && Resting(state, stack)
    ensures StackOk(stack + [Frame(Saved(state), n)])
  {}

  lemma PushReturn(inp: Input, state: State, stack: seq<Frame>, r: Outcome)
    requires Lawful(inp) && WantsValue(state) && Resting(state, stack) && (r.Done? ==> r.pos <= |inp.text|)
    ensures StackOk(stack + [Frame(Saved(state), 0)])
    ensures Return(inp, r, stack + [Frame(Saved(state), 0)]) == AfterValue(inp, state, stack, r)
  {
    PushOk(state, stack, 0);
    assert (stack + [Frame(Saved(state), 0)])[..|stack|] == stack;
  }

  /** Entering a container. */
  lemma OpenStep(inp: Input, state: State, stack: seq<Frame>, p: nat, log: Log, obj: bool)
    requires Lawful(inp) && p < |inp.text| && WantsValue(state) && Resting(state, stack)
    requires Peek(inp, p) == if obj then LBRACE else LBRACKET
    ensures var goal := Resume(inp, state, stack, p, log);
            var r := Emit(inp, p + 1, log, if obj then StartObject else StartArray);
            var stack' := stack + [Frame(Saved(state), 0)];
            && StackOk(stack')
            && goal == if r.Stop? then r
                       else Resume(inp, if obj then ObjectInitial else ArrayInitial, stack', Skip(inp, p + 1), r.log)
  {
    ResumeValue(inp, state, stack, p, log);
    PushReturn(inp, state, stack, ValueF(inp, p, log));
  }

  /** Reading a string or other scalar. */
  lemma ScalarStep(inp: Input, state: State, stack: seq<Frame>, p: nat, log: Log)
    requires Lawful(inp) && p < |inp.text| && WantsValue(state) && Resting(state, stack)
    requires !NoValueAt(Peek(inp, p)) && Peek(inp, p) != LBRACE && Peek(inp, p) != LBRACKET
    ensures var goal := Resume(inp, state, stack, p, log);
            var r := if Peek(inp, p) == QUOTE then StringF(inp, p, log, false) else ScalarF(inp, p, log);
            && (if r.Done? then p < r.pos <= |inp.text| else r.fault.Coded?)
            && goal == if r.Stop? then r
                       else if state == Start then FinishF(inp, r.pos, r.log)
                       else Resume(inp, Saved(state), stack, Skip(inp, r.pos), r.log)
  {
    hide Resume, Resting, AfterValue, ValueF, StringF, ScalarF, FinishF, Skip, Lawful;
    ResumeValue(inp, state, stack, p, log);
    ScalarValue(inp, p, log);
    AfterValueResume(inp, state, stack, ValueF(inp, p, log));
  }

  lemma ScalarValue(inp: Input, p: nat, log: Log)
    requires Lawful(inp) && p < |inp.text|
    requires !NoValueAt(Peek(inp, p)) && Peek(inp, p) != LBRACE && Peek(inp, p) != LBRACKET
    ensures ValueF(inp, p, log) == if Peek(inp, p) == QUOTE then StringF(inp, p, log, false) else ScalarF(inp, p, log)
    ensures ValueF(inp, p, log).Stop? ==> ValueF(inp, p, log).fault.Coded?
  {}

  lemma AfterValueResume(inp: Input, state: State, stack: seq<Frame>, r: Outcome)
    requires Lawful(inp) && WantsValue(state) && Resting(state, stack) && (r.Done? ==> r.pos <= |inp.text|)
    ensures r.Done? && state != Start ==> Resting(Saved(state), stack)
    ensures AfterValue(inp, state, stack, r)
         == if r.Stop? then r
            else if state == Start then FinishF(inp, r.pos, r.log)
            else Resume(inp, Saved(state), stack, Skip(inp, r.pos), r.log)
  {}

  lemma KeyStep(inp: Input, state: State, stack: seq<Frame>, p: nat, log: Log)
    requires Lawful(inp) && p < |inp.text| && (state == ObjectInitial || state == MemberDelimiter) && StackOk(stack)
    requires Peek(inp, p) == QUOTE
    ensures var goal := Resume(inp, state, stack, p, log);
            var r := StringF(inp, p, log, true);
            && (r.Done? ==> r.pos <= |inp.text|)
            && goal == if r.Stop? then r else Resume(inp, MemberKey, stack, Skip(inp, r.pos), r.log)
  {
    assert MembersF(inp, p, log, Count(stack)) == AfterMember(inp, MemberF(inp, p, log), Count(stack));
  }

  lemma ColonStep(inp: Input, stack: seq<Frame>, p: nat, log: Log)
    requires Lawful(inp) && p < |inp.text| && StackOk(stack) && Peek(inp, p) == COLON
    ensures Resume(inp, MemberKey, stack, p, log) == Resume(inp, KeyValueDelimiter, stack, Skip(inp, p + 1), log)
  {}

  function Bump(stack: seq<Frame>): seq<Frame>
    requires stack != []
  {
    var top := stack[|stack| - 1];
    stack[|stack| - 1 := top.(count := top.count + 1)]
  }

  lemma BumpReturn(inp: Input, r: Outcome, stack: seq<Frame>)
    requires Lawful(inp) && StackOk(stack) && (r.Done? ==> r.pos <= |inp.text|)
    ensures StackOk(Bump(stack)) && Return(inp, r, Bump(stack)) == Return(inp, r, stack)
  {
    assert Bump(stack)[..|stack| - 1] == stack[..|stack| - 1];
  }

  lemma CommaStep(inp: Input, stack: seq<Frame>, p: nat, log: Log, obj: bool)
    requires Lawful(inp) && p < |inp.text| && StackOk(stack) && Peek(inp, p) == COMMA
    ensures stack != [] && StackOk(Bump(stack))
    ensures Resume(inp, if obj then MemberValue else Element, stack, p, log)
         == Resume(inp, if obj then MemberDelimiter else ElementDelimiter, Bump(stack), Skip(inp, p + 1), log)
  {
    BumpReturn(inp, if obj then MemberTailF(inp, p, log, Count(stack)) else ElementTailF(inp, p, log, Count(stack)), stack);
  }

  /** Leaving a container: back to the saved state, or to the end of the document. */
  lemma CloseStep(inp: Input, state: State, stack: seq<Frame>, p: nat, log: Log, obj: bool)
    requires Lawful(inp) && p < |inp.text| && StackOk(stack)
    requires if obj then Peek(inp, p) == RBRACE && (state == ObjectInitial || state == MemberValue)
             else Peek(inp, p) == RBRACKET && (state == ArrayInitial || state == Element)
    ensures stack != [] && Resting(state, stack)
    ensures var goal := Resume(inp, state, stack, p, log);
            var n := if state == MemberValue || state == Element then Count(stack) + 1 else Count(stack);
            var r := Emit(inp, p + 1, log, if obj then EndObject(n) else EndArray(n));
            var saved, below := stack[|stack| - 1].state, stack[..|stack| - 1];
            if r.Stop? then goal == r
            else if saved == Start then Resting(Finish, below) && goal == FinishF(inp, p + 1, r.log)
            else Resting(saved, below) && saved != Finish && goal == Resume(inp, saved, below, Skip(inp, p + 1), r.log)
  {
    var below := stack[..|stack| - 1];
    if |stack| > 1 { assert below[0] == stack[0]; }
  }

  /** A token the table has no transition for, or the end of the text. */
  lemma ErrorStep(inp: Input, state: State, stack: seq<Frame>, p: nat, log: Log)
    requires Lawful(inp) && p <= |inp.text| && Resting(state, stack) && !Space(Peek(inp, p))
    requires state == Finish ==> !inp.stopWhenDone && Peek(inp, p) != 0
    requires Peek(inp, p) == 0 || Predict(state, Tokenize(Peek(inp, p))) == Error
    ensures var goal := Resume(inp, state, stack, p, log);
            && goal.Stop? && goal.log == log && IterativeCode(goal.fault) == ErrorIn(state)
            && (RecursiveCode(goal.fault) == ValueInvalid ==> goal.at == p)
  {
    if state == KeyValueDelimiter || state == ArrayInitial || state == ElementDelimiter {
      ValueError(inp, state, stack, p, log);
    } else if state == ObjectInitial || state == MemberDelimiter {
      MemberError(inp, state, stack, p, log);
    } else {
      hide Return, ValueF;
      if state != Start && state != Finish { StopReturns(inp, stack); }
    }
  }

  lemma StopReturns(inp: Input, stack: seq<Frame>)
    requires Lawful(inp) && StackOk(stack)
    ensures stack != [] && forall r: Outcome :: r.Stop? ==> Return(inp, r, stack) == r
  {}

  lemma ValueError(inp: Input, state: State, stack: seq<Frame>, p: nat, log: Log)
    requires Lawful(inp) && p <= |inp.text| && StackOk(stack)
    requires state == KeyValueDelimiter || state == ArrayInitial || state == ElementDelimiter
    requires Peek(inp, p) == 0 || Predict(state, Tokenize(Peek(inp, p))) == Error
    ensures Resume(inp, state, stack, p, log) == Stop(NoValue(false), p, log)
  {
    hide Return, Tokenize, Skip, Lawful, StackOk;
    assert NoValueAt(Peek(inp, p)) && (state == ArrayInitial ==> Peek(inp, p) != RBRACKET) by {
      ErrorTokens(state, Peek(inp, p));
    }
    assert ValueF(inp, p, log) == Stop(NoValue(false), p, log);
    StopReturns(inp, stack);
    assert ElementsF(inp, p, log, Count(stack)) == ValueF(inp, p, log);
  }

  lemma ErrorTokens(state: State, c: byte)
    requires c == 0 || Predict(state, Tokenize(c)) == Error
    ensures state == KeyValueDelimiter || state == ArrayInitial || state == ElementDelimiter ==> NoValueAt(c)
    ensures state == ArrayInitial ==> c != RBRACKET
    ensures state == ObjectInitial || state == MemberDelimiter ==> c != QUOTE
    ensures state == ObjectInitial ==> c != RBRACE
  {}

  lemma MemberError(inp: Input, state: State, stack: seq<Frame>, p: nat, log: Log)
    requires Lawful(inp) && p <= |inp.text| && StackOk(stack)
    requires state == ObjectInitial || state == MemberDelimiter
    requires Peek(inp, p) == 0 || Predict(state, Tokenize(Peek(inp, p))) == Error
    ensures Resume(inp, state, stack, p, log) == Stop(Coded(ObjectMissName), p, log)
  {
    hide Return, Tokenize, Skip, Lawful, StackOk, ValueF;
    ErrorTokens(state, Peek(inp, p));
    StopReturns(inp, stack);
    assert MemberF(inp, p, log) == Stop(Coded(ObjectMissName), p, log);
    assert MembersF(inp, p, log, Count(stack)) == MemberF(inp, p, log);
  }

  // ----- Recursive descent -----

  /** The cursor, the handler's log, the error slot and the automaton's stack. */
  class Reader {
    const inp: Input
    var pos: nat
    var log: Log
    var error: Option<Code>
    var stack: seq<Frame>

    constructor (inp: Input)
      ensures this.inp == inp && pos == 0 && log == [] && error == None && stack == []
    {
      this.inp, pos, log, error, stack := inp, 0, [], None, [];
    }

    ghost predicate Ready()
      reads this
    {
      Lawful(inp) && pos <= |inp.text| && error == None
    }

    /** The fields say what the outcome `r` says, with its fault named by `name`. */
    ghost predicate Shows(r: Outcome, name: Fault -> Code)
      reads this
    {
      && log == r.log
      && match r
         case Done(p, _) => error == None && pos == p
         case Stop(f, at, _) => error == Some(name(f)) && (RecursiveCode(f) == ValueInvalid ==> pos == at)
    }

    method SkipWhitespace()
      modifies this`pos
      ensures pos == Skip(inp, old(pos))
    {
      while Space(Peek(inp, pos))
        invariant Skip(inp, pos) == Skip(inp, old(pos))
        decreases |inp.text| - pos
      {
        pos := pos + 1;
      }
    }

    /** Deliver an event; a refusal terminates the parse. */
    method Deliver(e: Event)
      requires error == None
      modifies this`log, this`error
      ensures Shows(Emit(inp, pos, old(log), e), RecursiveCode)
    {
      log := log + [e];
      if !inp.accepts(log) { error := Some(Termination); }
    }

    method ParseString(key: bool)
      requires Ready() && Peek(inp, pos) == QUOTE
      modifies this`pos, this`log, this`error
      ensures Shows(StringF(inp, old(pos), old(log), key), RecursiveCode)
    {
      match inp.str(pos) {
        case StringBad(code) => error := Some(code);
        case StringOk(s, next) =>
          pos := next;
          Deliver(if key then Key(s) else String(s));
      }
    }

    method ParseScalar()
      requires Ready()
      modifies this`pos, this`log, this`error
      ensures Shows(ScalarF(inp, old(pos), old(log)), RecursiveCode)
    {
      match inp.scalar(pos) {
        case ScalarBad(code) => error := Some(code);
        case ScalarOk(e, next) =>
          pos := next;
          Deliver(e);
      }
    }

    method ParseValue()
      requires Ready()
      modifies this`pos, this`log, this`error
      ensures Shows(ValueF(inp, old(pos), old(log)), RecursiveCode)
      decreases |inp.text| - pos, 2
    {
      var c := Peek(inp, pos);
      if c == QUOTE {
        ParseString(false);
      } else if c == LBRACE {
        ParseObject();
      } else if c == LBRACKET {
        ParseArray();
      } else {
        ParseScalar();
      }
    }

    method ParseObject()
      requires Ready() && Peek(inp, pos) == LBRACE
      modifies this`pos, this`log, this`error
      ensures Shows(ValueF(inp, old(pos), old(log)), RecursiveCode)
      decreases |inp.text| - pos, 1
    {
      pos := pos + 1;
      Deliver(StartObject);
      if error.Some? { return; }
      SkipWhitespace();
      if Peek(inp, pos) == RBRACE {
        pos := pos + 1;
        Deliver(EndObject(0));
      } else {
        ParseMembers();
      }
    }

    /** The member loop of `ParseObject`. */
    method ParseMembers()
      requires Ready()
      modifies this`pos, this`log, this`error
      ensures Shows(MembersF(inp, old(pos), old(log), 0), RecursiveCode)
      decreases |inp.text| - pos, 4
    {
      hide MemberF, Skip, Lawful;
      var memberCount := 0;
      while true
        invariant Ready() && old(pos) <= pos
        invariant MembersF(inp, pos, log, memberCount) == MembersF(inp, old(pos), old(log), 0)
        decreases |inp.text| - pos
      {
        ParseMember();
        if error.Some? { return; }
        SkipWhitespace();
        memberCount := memberCount + 1;
        pos := pos + 1;
        var c := Peek(inp, pos - 1);
        if c == COMMA {
          SkipWhitespace();
        } else if c == RBRACE {
          Deliver(EndObject(memberCount));
          return;
        } else {
          error := Some(ObjectMissCommaOrCurlyBracket);
          return;
        }
      }
    }

    /** The name, colon and value inside the member loop of `ParseObject`. */
    method ParseMember()
      requires Ready()
      modifies this`pos, this`log, this`error
      ensures Shows(MemberF(inp, old(pos), old(log)), RecursiveCode)
      decreases |inp.text| - pos, 3
    {
      if Peek(inp, pos) != QUOTE {
        error := Some(ObjectMissName);
        return;
      }
      ParseString(true);
      if error.Some? { return; }
      SkipWhitespace();
      pos := pos + 1;
      if Peek(inp, pos - 1) != COLON {
        error := Some(ObjectMissColon);
        return;
      }
      SkipWhitespace();
      ParseValue();
    }

    method ParseArray()
      requires Ready() && Peek(inp, pos) == LBRACKET
      modifies this`pos, this`log, this`error
      ensures Shows(ValueF(inp, old(pos), old(log)), RecursiveCode)
      decreases |inp.text| - pos, 1
    {
      pos := pos + 1;
      Deliver(StartArray);
      if error.Some? { return; }
      SkipWhitespace();
      if Peek(inp, pos) == RBRACKET {
        pos := pos + 1;
        Deliver(EndArray(0));
      } else {
        ParseElements();
      }
    }

    /** The element loop of `ParseArray`. */
    method ParseElements()
      requires Ready()
      modifies this`pos, this`log, this`error
      ensures Shows(ElementsF(inp, old(pos), old(log), 0), RecursiveCode)
      decreases |inp.text| - pos, 4
    {
      hide ValueF, Skip, Lawful;
      var elementCount := 0;
      while true
        invariant Ready() && old(pos) <= pos
        invariant ElementsF(inp, pos, log, elementCount) == ElementsF(inp, old(pos), old(log), 0)
        decreases |inp.text| - pos
      {
        ParseValue();
        if error.Some? { return; }
        elementCount := elementCount + 1;
        SkipWhitespace();
        pos := pos + 1;
        var c := Peek(inp, pos - 1);
        if c == COMMA {
          SkipWhitespace();
        } else if c == RBRACKET {
          Deliver(EndArray(elementCount));
          return;
        } else {
          error := Some(ArrayMissCommaOrSquareBracket);
          return;
        }
      }
    }

    /** `Parse` without the iterative flag. */
    method Parse()
      requires Lawful(inp) && pos == 0 && log == []
      modifies this
      ensures Shows(ParseF(inp), RecursiveCode)
    {
      error, stack := None, [];
      SkipWhitespace();
      if Peek(inp, pos) == 0 {
        error := Some(DocumentEmpty);
      } else {
        ParseValue();
        if error.Some? { return; }
        if !inp.stopWhenDone {
          SkipWhitespace();
          if Peek(inp, pos) != 0 { error := Some(DocumentRootNotSingular); }
        }
      }
    }

    // The automaton's steps. `goal` is what recursive descent makes of the position
    // the step starts from.

    /** After a step to `d`: the position reached stands for the same outcome, or the
        outcome is the error that `HandleError` will report for `src`. */
    ghost predicate Steps(goal: Outcome, src: State, d: State)
      reads this
    {
      if d == Error then
        && goal.Stop? && log == goal.log && (RecursiveCode(goal.fault) == ValueInvalid ==> pos == goal.at)
        && IterativeCode(goal.fault) == if error.Some? then error.value else ErrorIn(src)
      else
        && Ready() && Resting(d, stack)
        && goal == if d == Finish then FinishF(inp, pos, log) else Resume(inp, d, stack, Skip(inp, pos), log)
    }

    /** Entering an object or array. */
    method Open(src: State, dst: State) returns (d: State)
      requires Ready() && Resting(src, stack) && pos < |inp.text|
      requires dst == Predict(src, Tokenize(Peek(inp, pos))) && (dst == ObjectInitial || dst == ArrayInitial)
      modifies this`pos, this`log, this`error, this`stack
      ensures Steps(Resume(inp, src, old(stack), old(pos), old(log)), src, d)
      ensures d != Error ==> pos > old(pos)
    {
      hide Predict, Tokenize, Resume, Resting, StackOk, FinishF, Lawful, Skip, WantsValue, Saved;
      OpenPredicted(src, Peek(inp, pos), dst);
      OpenStep(inp, src, stack, pos, log, dst == ObjectInitial);
      stack := stack + [Frame(Saved(src), 0)];
      Deliver(if dst == ObjectInitial then StartObject else StartArray);
      if error.Some? { return Error; }
      pos := pos + 1;
      assert Resting(dst, stack) by { RestingOk(dst, stack); }
      d := dst;
    }

    /** A member name. */
    method Name(src: State) returns (d: State)
      requires Ready() && StackOk(stack) && pos < |inp.text|
      requires MemberKey == Predict(src, Tokenize(Peek(inp, pos)))
      modifies this`pos, this`log, this`error
      ensures Resting(src, old(stack)) && Steps(Resume(inp, src, old(stack), old(pos), old(log)), src, d)
      ensures d != Error ==> pos > old(pos)
    {
      KeyStep(inp, src, stack, pos, log);
      hide Resume;
      ParseString(true);
      d := if error.Some? then Error else MemberKey;
    }

    /** A scalar value. */
    method Value(src: State, dst: State) returns (d: State)
      requires Ready() && Resting(src, stack) && pos < |inp.text| && Peek(inp, pos) != 0
      requires dst == Predict(src, Tokenize(Peek(inp, pos))) && (dst == SingleValue || dst == MemberValue || dst == Element)
      modifies this`pos, this`log, this`error
      ensures Steps(Resume(inp, src, old(stack), old(pos), old(log)), src, d)
      ensures d != Error ==> pos > old(pos)
    {
      hide Predict, Tokenize, Resume, Resting, FinishF, StackOk, StringF, ScalarF, Lawful;
      ValuePredicted(src, Peek(inp, pos), dst, stack);
      ScalarStep(inp, src, stack, pos, log);
      ParseScalarValue();
      d := if error.Some? then Error else if dst == SingleValue then Finish else dst;
    }

    /** `ParseValue` at a byte that opens no container. */
    method ParseScalarValue()
      requires Ready() && !NoValueAt(Peek(inp, pos)) && Peek(inp, pos) != LBRACE && Peek(inp, pos) != LBRACKET
      modifies this`pos, this`log, this`error
      ensures Shows(if Peek(inp, old(pos)) == QUOTE then StringF(inp, old(pos), old(log), false)
                    else ScalarF(inp, old(pos), old(log)), RecursiveCode)
    {
      ParseValue();
    }

    /** A comma between members or elements. */
    method Separator(src: State, dst: State) returns (d: State)
      requires Ready() && StackOk(stack) && pos < |inp.text|
      requires dst == Predict(src, Tokenize(Peek(inp, pos))) && (dst == MemberDelimiter || dst == ElementDelimiter)
      modifies this`pos, this`stack
      ensures Resting(src, old(stack)) && Steps(Resume(inp, src, old(stack), old(pos), old(log)), src, d)
      ensures d != Error && pos > old(pos)
    {
      hide Predict, Tokenize, Resume, StackOk, FinishF, Lawful, Bump;
      CommaPredicted(src, Peek(inp, pos), dst);
      CommaStep(inp, stack, pos, log, dst == MemberDelimiter);
      pos := pos + 1;
      stack := Bump(stack);
      d := dst;
    }

    /** Leaving an object or array. */
    method Close(src: State, dst: State) returns (d: State)
      requires Ready() && StackOk(stack) && pos < |inp.text|
      requires dst == Predict(src, Tokenize(Peek(inp, pos))) && (dst == ObjectFinish || dst == ArrayFinish)
      modifies this`pos, this`log, this`error, this`stack
      ensures Resting(src, old(stack)) && Steps(Resume(inp, src, old(stack), old(pos), old(log)), src, d)
      ensures d != Error ==> pos > old(pos)
    {
      hide Predict, Tokenize, Resume, Resting, StackOk, FinishF, Lawful;
      ClosePredicted(src, Peek(inp, pos), dst);
      CloseStep(inp, src, stack, pos, log, dst == ObjectFinish);
      var c := if src == MemberValue || src == Element then Count(stack) + 1 else Count(stack);
      var saved := stack[|stack| - 1].state;
      stack := stack[..|stack| - 1];
      Deliver(if dst == ObjectFinish then EndObject(c) else EndArray(c));
      if error.Some? { return Error; }
      pos := pos + 1;
      d := if saved == Start then Finish else saved;
    }

    /** `Transit`. */
    method Transit(src: State, token: Token, dst: State) returns (d: State)
      requires Ready() && Resting(src, stack) && pos < |inp.text| && Peek(inp, pos) != 0 && !Space(Peek(inp, pos))
      requires token == Tokenize(Peek(inp, pos)) && dst == Predict(src, token)
      requires src == Finish ==> !inp.stopWhenDone
      modifies this`pos, this`log, this`error, this`stack
      ensures Steps(Resume(inp, src, old(stack), old(pos), old(log)), src, d)
      ensures d != Error ==> pos > old(pos)
    {
      match dst {
        case ObjectInitial | ArrayInitial => d := Open(src, dst);
        case MemberKey => d := Name(src);
        case KeyValueDelimiter =>
          ColonStep(inp, stack, pos, log);
          hide Resume;
          pos := pos + 1;
          d := dst;
        case MemberValue | Element | SingleValue => d := Value(src, dst);
        case MemberDelimiter | ElementDelimiter => d := Separator(src, dst);
        case ObjectFinish | ArrayFinish => d := Close(src, dst);
        case Error =>
          ErrorStep(inp, src, stack, pos, log);
          d := Error;
        case Start | Finish => d := Error;
      }
    }

    method HandleError(src: State)
      modifies this`error
      ensures error == if old(error).Some? then old(error) else Some(ErrorIn(src))
    {
      if error.None? { error := Some(ErrorIn(src)); }
    }

    /** `IterativeParse`. */
    method IterativeParse()
      requires Lawful(inp) && pos == 0 && log == []
      modifies this
      ensures Shows(ParseF(inp), IterativeCode)
    {
      error, stack := None, [];
      var state := Start;
      SkipWhitespace();
      ghost var goal := ParseF(inp);
      while Peek(inp, pos) != 0
        invariant Ready() && Resting(state, stack) && !Space(Peek(inp, pos))
        invariant state == Finish ==> !inp.stopWhenDone
        invariant Resume(inp, state, stack, pos, log) == goal
        decreases |inp.text| - pos
      {
        var t := Tokenize(Peek(inp, pos));
        var n := Predict(state, t);
        var d := Transit(state, t, n);
        if d == Error {
          HandleError(state);
          return;
        }
        state := d;
        if inp.stopWhenDone && state == Finish { return; }
        if state == Finish { FinishSkips(inp, pos, log); }
        SkipWhitespace();
      }
      if state != Finish {
        ErrorStep(inp, state, stack, pos, log);
        HandleError(state);
      }
    }
  }

  lemma OpenPredicted(src: State, c: byte, dst: State)
    requires dst == Predict(src, Tokenize(c)) && (dst == ObjectInitial || dst == ArrayInitial)
    ensures WantsValue(src) && c == if dst == ObjectInitial then LBRACE else LBRACKET
  {}

  lemma ClosePredicted(src: State, c: byte, dst: State)
    requires dst == Predict(src, Tokenize(c)) && (dst == ObjectFinish || dst == ArrayFinish)
    ensures if dst == ObjectFinish then c == RBRACE && (src == ObjectInitial || src == MemberValue)
            else c == RBRACKET && (src == ArrayInitial || src == Element)
  {}

  lemma ValuePredicted(src: State, c: byte, dst: State, stack: seq<Frame>)
    requires dst == Predict(src, Tokenize(c)) && (dst == SingleValue || dst == MemberValue || dst == Element) && c != 0
    requires Resting(src, stack)
    ensures WantsValue(src) && !NoValueAt(c) && c != LBRACE && c != LBRACKET
    ensures if src == Start then dst == SingleValue && Resting(Finish, stack) else dst == Saved(src) && Resting(dst, stack)
  {}

  lemma CommaPredicted(src: State, c: byte, dst: State)
    requires dst == Predict(src, Tokenize(c)) && (dst == MemberDelimiter || dst == ElementDelimiter)
    ensures c == COMMA && src == if dst == MemberDelimiter then MemberValue else Element
  {}

  lemma RestingOk(state: State, stack: seq<Frame>)
    requires StackOk(stack) && (state == ObjectInitial || state == ArrayInitial)
    ensures Resting(state, stack)
  {}

  lemma SkipIdempotent(inp: Input, p: nat)
    ensures Skip(inp, Skip(inp, p)) == Skip(inp, p)
  {}

  lemma FinishSkips(inp: Input, p: nat, log: Log)
    requires !inp.stopWhenDone
    ensures FinishF(inp, Skip(inp, p), log) == FinishF(inp, p, log)
  {
    SkipIdempotent(inp, p);
  }

  /** The two parsers on the same input: the same events in the same order, the same
      verdict and final position. Their error codes differ exactly when the recursive
      parser finds an invalid value at a byte where no value can start. */
  method ParseBoth(inp: Input) returns (recursive: Reader, iterative: Reader)
    requires Lawful(inp)
    ensures recursive.log == iterative.log
    ensures recursive.error.None? <==> iterative.error.None?
    ensures recursive.error in {None, Some(ValueInvalid)} ==> recursive.pos == iterative.pos
    ensures recursive.error != iterative.error <==>
              recursive.error == Some(ValueInvalid) && NoValueAt(Peek(inp, recursive.pos))
    ensures recursive.error != iterative.error ==> iterative.error.value in {DocumentEmpty, UnspecificSyntaxError}
  {
    ParseLocated(inp);
    recursive := new Reader(inp);
    recursive.Parse();
    iterative := new Reader(inp);
    iterative.IterativeParse();
  }

  /** They do differ: on `[,]`, whatever the lexers, an element is missing. */
  lemma MissingElement(inp: Input)
    requires Lawful(inp) && inp.text == [LBRACKET, COMMA, RBRACKET] && inp.accepts([StartArray])
    ensures ParseF(inp) == Stop(NoValue(false), 1, [StartArray])
    ensures RecursiveCode(ParseF(inp).fault) == ValueInvalid
    ensures IterativeCode(ParseF(inp).fault) == UnspecificSyntaxError
  {
    assert Skip(inp, 0) == 0 && Skip(inp, 1) == 1;
    assert Emit(inp, 1, [], StartArray) == Done(1, [StartArray]) by { assert [] + [StartArray] == [StartArray]; }
    assert ValueF(inp, 1, [StartArray]) == Stop(NoValue(false), 1, [StartArray]);
    assert ElementsF(inp, 1, [StartArray], 0) == ValueF(inp, 1, [StartArray]);
    assert ArrayF(inp, 1, [StartArray], 0) == ElementsF(inp, 1, [StartArray], 0);
    assert ValueF(inp, 0, []) == ArrayF(inp, 1, [StartArray], 0);
  }
}
