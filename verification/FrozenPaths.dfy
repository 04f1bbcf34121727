/** What a path means: the text of a list of steps leads where the steps lead. */
module FrozenPaths {
  import opened Words
  import opened Numerals
  import opened FrozenTree
  import opened FrozenFind

  /** One step into a tree: to a numbered element or to a named member. */
  datatype Step = Element(index: nat) | Member(name: Bytes)

  /** Names a path can spell. */
  predicate Spellable(s: Step) {
    s.Member? ==> s.name != [] && forall i :: 0 <= i < |s.name| ==> s.name[i] !in {0, 0x2E, 0x5B}
  }

  predicate AllSpellable(steps: seq<Step>) {
    forall i :: 0 <= i < |steps| ==> Spellable(steps[i])
  }

  /** An index in decimal between brackets, or the name itself. */
  function StepText(s: Step): (b: Bytes) {
    match s
    case Element(index) => [0x5B] + Decimal(index) + [0x5D]
    case Member(name) => name
  }

  /** The steps after the first, a dot before each name. */
  function MoreText(steps: seq<Step>): Bytes {
    if steps == [] then []
    else (if steps[0].Member? then [0x2E] else []) + StepText(steps[0]) + MoreText(steps[1..])
  }

  function PathText(steps: seq<Step>): Bytes
    requires steps != []
  {
    StepText(steps[0]) + MoreText(steps[1..])
  }

  // ----- Where steps lead -----

  /** The key at child `k` reads `name`. */
  predicate Reads(text: Bytes, n: Node, k: nat, name: Bytes) {
    && k < |n.children| && n.children[k].at + n.children[k].len <= |text|
    && text[n.children[k].at..n.children[k].at + n.children[k].len] == name
  }

  /** No key from child `i` up to child `e` reads `name`. */
  ghost predicate NoneReads(text: Bytes, n: Node, i: nat, e: nat, name: Bytes) {
    forall k :: i <= k < e && k % 2 == 0 ==> !Reads(text, n, k, name)
  }

  /** Child `c` is the value behind the first key from child `i` on that reads `name`. */
  ghost predicate FirstFrom(text: Bytes, n: Node, i: nat, name: Bytes, c: nat) {
    i < c < |n.children| && c % 2 == 1 && Reads(text, n, c - 1, name) && NoneReads(text, n, i, c - 1, name)
  }

  /** Child `c` is the numbered element, or the value behind the first key of that name. */
  ghost predicate Selects(text: Bytes, n: Node, s: Step, c: nat) {
    match s
    case Element(index) => n.kind.Arr? && c == index < |n.children|
    case Member(name) =>
      n.kind.Obj? && FirstFrom(text, n, 0, name, c)
  }

  /** Following the steps from `n`, whose tokens are at `t`, ends with `r`. */
  ghost predicate Leads(text: Bytes, n: Node, t: nat, steps: seq<Step>, r: Option<(nat, Node)>)
    decreases |steps|
  {
    if steps == [] then r == Some((t, n))
    else if forall c: nat :: !Selects(text, n, steps[0], c) then r == None
    else exists c: nat :: Selects(text, n, steps[0], c) &&
                     Leads(text, n.children[c], t + 1 + CountAll(n.children[..c]), steps[1..], r)
  }

  // ----- Parts of a path -----

  lemma {:induction false} IndexDigits(path: Bytes, p: nat, k: nat)
    requires p + k <= |path| && DecimalDigits(path[p..p + k])
    ensures IndexFrom(path, p, 0) == IndexFrom(path, p + k, Value(10, DigitValues(path[p..p + k])))
    decreases k
  {
    if k == 0 {
      assert DigitValues(path[p..p]) == [];
    } else {
      var init, d := path[p..p + k - 1], path[p + k - 1];
      DigitsSnoc(init, d, path[p..p + k]);
      IndexDigits(path, p, k - 1);
      hide Value, DigitValues, DecimalDigits;
      IndexNext(path, p + k - 1, Value(10, DigitValues(init)));
    }
  }

  lemma IndexNext(path: Bytes, p: nat, n: nat)
    requires p < |path| && 0x30 <= path[p] <= 0x39
    ensures IndexFrom(path, p, n) == IndexFrom(path, p + 1, 10 * n + (path[p] as int - 0x30))
  {}

  lemma DigitsSnoc(init: Bytes, d: byte, b: Bytes)
    requires b == init + [d] && DecimalDigits(b)
    ensures DecimalDigits(init) && 0x30 <= d <= 0x39
    ensures Value(10, DigitValues(b)) == 10 * Value(10, DigitValues(init)) + (d as int - 0x30)
  {
    assert forall i :: 0 <= i < |init| ==> init[i] == b[i];
    assert b[|init|] == d;
    assert DigitValues(b) == DigitValues(init) + [d - 0x30];
    ValueSnoc(10, DigitValues(init), d - 0x30);
  }

  /** A part that begins with a bracket is an index exactly if digits and a bracket follow,
      and then it is the number the digits denote. */
  lemma PartOfBracket(path: Bytes, k: nat)
    requires path != [] && path[0] == 0x5B
    ensures 0 < k && k + 1 < |path| && DecimalDigits(path[1..k + 1]) && path[k + 1] == 0x5D ==>
              PartOf(path) == Index(Value(10, DigitValues(path[1..k + 1])), k + 2)
    ensures PartOf(path).Index? ==>
              var e := PartOf(path).end; 2 < e <= |path| && DecimalDigits(path[1..e - 1]) && path[e - 1] == 0x5D
    ensures !PartOf(path).Name?
  {
    if 0 < k && k + 1 < |path| && DecimalDigits(path[1..k + 1]) && path[k + 1] == 0x5D {
      assert path[1] == path[1..k + 1][0];
      IndexDigits(path, 1, k);
    }
    if PartOf(path).Index? {
      IndexEnds(path, 1, 0);
      var e := PartOf(path).end;
      var ds := path[1..e - 1];
      assert forall i :: 0 <= i < |ds| ==> ds[i] == path[1 + i];
    }
  }

  lemma {:induction false} IndexEnds(path: Bytes, p: nat, n: nat)
    requires IndexFrom(path, p, n).Index?
    ensures var e := IndexFrom(path, p, n).end;
            p < e <= |path| && path[e - 1] == 0x5D && forall i :: p <= i < e - 1 ==> 0x30 <= path[i] <= 0x39
    decreases |path| - p
  {
    var c := Char(path, p);
    if c != 0x5D { IndexEnds(path, p + 1, 10 * n + (c - 0x30)); }
  }

  /** A part that does not is the name up to the next dot or bracket. */
  lemma PartOfOther(path: Bytes, n: nat)
    requires path != [] && path[0] != 0x5B && n <= |path| && (n < |path| ==> path[n] in {0x2E, 0x5B})
    requires forall k :: 0 <= k < n ==> path[k] !in {0x2E, 0x5B}
    ensures PartOf(path) == Name(n)
  {
    PartLenReads(path, 0, n);
  }

  /** A bracketed numeral is read as its number. */
  lemma PartOfIndex(i: nat, rest: Bytes)
    ensures PartOf([0x5B] + Decimal(i) + [0x5D] + rest) == Index(i, |Decimal(i)| + 2)
  {
    hide PartOf, Value, Decimal;
    var ds := Decimal(i);
    var path := [0x5B] + ds + [0x5D] + rest;
    assert path[1..1 + |ds|] == ds && path[1 + |ds|] == 0x5D;
    DecimalValue(i);
    PartOfBracket(path, |ds|);
  }

  lemma {:induction false} PartLenReads(path: Bytes, i: nat, n: nat)
    requires i <= n <= |path| && (n < |path| ==> path[n] in {0x2E, 0x5B})
    requires forall k :: i <= k < n ==> path[k] !in {0x2E, 0x5B}
    ensures PartLen(path, i) == n
    decreases n - i
  {
    if i < n { PartLenReads(path, i + 1, n); }
  }

  /** A name is read up to the dot or bracket behind it. */
  lemma PartOfName(name: Bytes, rest: Bytes)
    requires Spellable(Member(name)) && (rest != [] ==> rest[0] in {0x2E, 0x5B})
    ensures PartOf(name + rest) == Name(|name|)
  {
    var path := name + rest;
    assert forall k :: 0 <= k < |name| ==> path[k] == name[k];
    PartLenReads(path, 0, |name|);
  }

  lemma MoreStarts(steps: seq<Step>)
    ensures MoreText(steps) != [] ==> steps != [] && MoreText(steps)[0] in {0x2E, 0x5B}
  {}

  /** The first step, read from the text of the path. */
  lemma FirstPart(steps: seq<Step>)
    requires steps != [] && AllSpellable(steps)
    ensures PathText(steps) != []
    ensures var part := PartOf(PathText(steps));
            && !part.Malformed? && part.end == |StepText(steps[0])|
            && (if steps[0].Element? then part.Index? && part.index == steps[0].index else part.Name?)
  {
    var rest := MoreText(steps[1..]);
    MoreStarts(steps[1..]);
    assert Spellable(steps[0]);
    match steps[0]
    case Element(i) => PartOfIndex(i, rest);
    case Member(name) => PartOfName(name, rest);
  }

  lemma ElementStarts(s: Step)
    requires s.Element?
    ensures StepText(s) != [] && StepText(s)[0] == 0x5B
  {}

  /** And what is left is the text of the other steps. */
  lemma OtherParts(steps: seq<Step>)
    requires steps != [] && AllSpellable(steps)
    ensures |StepText(steps[0])| <= |PathText(steps)|
    ensures var rest := Rest(PathText(steps), |StepText(steps[0])|);
            if |steps| == 1 then rest == [] else rest == PathText(steps[1..])
  {
    hide StepText;
    var first, more := StepText(steps[0]), MoreText(steps[1..]);
    var path := PathText(steps);
    assert path[|first|..] == more;
    if |steps| > 1 {
      var s, others := steps[1], MoreText(steps[2..]);
      assert steps[1..][0] == s && steps[1..][1..] == steps[2..];
      if s.Member? {
        assert more == [0x2E] + StepText(s) + others;
        assert path[|first|] == more[0] && path[|first| + 1..] == more[1..] == StepText(s) + others;
      } else {
        assert more == [] + StepText(s) + others == StepText(s) + others;
        ElementStarts(s);
        assert path[|first|] == more[0] == 0x5B;
      }
    }
  }

  // ----- Selecting a child -----

  lemma NoneReadsNext(text: Bytes, n: Node, i: nat, e: nat, name: Bytes)
    requires i % 2 == 0 && !Reads(text, n, i, name) && NoneReads(text, n, i + 2, e, name)
    ensures NoneReads(text, n, i, e, name)
  {
    hide Reads;
    forall k | i <= k < e && k % 2 == 0 ensures !Reads(text, n, k, name) {
      assert k == i || i + 2 <= k;
    }
  }

  lemma KeyReads(text: Bytes, n: Node, i: nat, name: Bytes)
    requires Spanned(text, n) && i < |n.children|
    ensures Reads(text, n, i, name) <==> KeyText(text, n.children[i]) == name
  {
    KeySpan(text, n, i);
  }

  lemma {:induction false} FirstKeyIs(text: Bytes, n: Node, i: nat, name: Bytes)
    requires Spanned(text, n) && i % 2 == 0 && |n.children| % 2 == 0
    ensures var r := FirstKey(text, n.children, i, name);
            if r.Some? then FirstFrom(text, n, i, name, r.value) else NoneReads(text, n, i, |n.children|, name)
    decreases |n.children| - i
  {
    hide Spanned, KeyText, Reads;
    if i + 1 < |n.children| {
      KeyReads(text, n, i, name);
      if KeyText(text, n.children[i]) != name {
        hide NoneReads;
        FirstKeyIs(text, n, i + 2, name);
        var r := FirstKey(text, n.children, i + 2, name);
        NoneReadsNext(text, n, i, if r.Some? then r.value - 1 else |n.children|, name);
      }
    }
  }

  lemma FirstReads(text: Bytes, n: Node, name: Bytes, c: nat)
    requires FirstFrom(text, n, 0, name, c)
    ensures !NoneReads(text, n, 0, |n.children|, name)
  {
    hide Reads;
    assert (c - 1) % 2 == 0;
  }

  lemma NoneFirst(text: Bytes, n: Node, name: Bytes)
    requires NoneReads(text, n, 0, |n.children|, name)
    ensures forall c: nat :: !FirstFrom(text, n, 0, name, c)
  {
    forall c: nat | FirstFrom(text, n, 0, name, c) ensures false { FirstReads(text, n, name, c); }
  }

  lemma ChildSelected(text: Bytes, n: Node, steps: seq<Step>)
    requires steps != [] && AllSpellable(steps) && Shaped(n) && Spanned(text, n)
    ensures PathText(steps) != []
    ensures var r := Child(text, n, PathText(steps));
            if r.Some? then Selects(text, n, steps[0], r.value) else forall c: nat :: !Selects(text, n, steps[0], c)
  {
    hide PartOf, FirstKey, FirstFrom, NoneReads, Reads, AllSpellable;
    var path := PathText(steps);
    FirstPart(steps);
    if steps[0].Member? {
      var name := steps[0].name;
      assert path[..|name|] == name;
      if n.kind.Obj? {
        hide Shaped, Spanned;
        FirstKeyIs(text, n, 0, name);
        if FirstKey(text, n.children, 0, name).None? { NoneFirst(text, n, name); }
      }
    }
  }

  /** The search by path is the walk by steps, for every tree the parser can make. */
  lemma {:induction false} PathLeads(text: Bytes, n: Node, t: nat, steps: seq<Step>)
    requires steps != [] && AllSpellable(steps) && Shaped(n) && Spanned(text, n)
    ensures CString(PathText(steps))
    ensures Leads(text, n, t, steps, Lookup(text, n, t, PathText(steps)))
    decreases |steps|
  {
    hide PartOf, PathText, Child, Selects, Shaped, Spanned, Lookup, CountAll, Rest;
    var path := PathText(steps);
    PathCString(steps);
    ChildSelected(text, n, steps);
    FirstPart(steps);
    OtherParts(steps);
    LookupStep(text, n, t, path);
    var r := Child(text, n, path);
    if r.Some? {
      var c := r.value;
      var at, rest := t + 1 + CountAll(n.children[..c]), steps[1..];
      ChildGood(text, n, c);
      if rest != [] {
        FirstPart(rest);
        PathLeads(text, n.children[c], at, rest);
      }
      assert Selects(text, n, steps[0], c) && Leads(text, n.children[c], at, rest, Lookup(text, n, t, path));
    }
  }

  lemma {:induction false} MoreCString(steps: seq<Step>)
    requires AllSpellable(steps)
    ensures CString(MoreText(steps))
  {
    if steps != [] {
      assert Spellable(steps[0]);
      MoreCString(steps[1..]);
    }
  }

  lemma PathCString(steps: seq<Step>)
    requires steps != [] && AllSpellable(steps)
    ensures CString(PathText(steps))
  {
    assert Spellable(steps[0]);
    MoreCString(steps[1..]);
  }
}
