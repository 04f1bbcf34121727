/** Looking a path up in the flat token array, and what that means in the tree. */
module FrozenFind {
  import opened Words
  import opened FrozenTree
  import opened FrozenGrammar
  import opened FrozenParser

  // ----- Token arrays -----

  /** The tokens of tree `n` stand at `t`. */
  predicate Encodes(toks: seq<Token>, t: nat, n: Node) {
    t + Count(n) <= |toks| && toks[t..t + Count(n)] == Flatten(n)
  }

  lemma {:induction false} ChildTokens(ns: seq<Node>, c: nat)
    requires c < |ns|
    ensures var k := CountAll(ns[..c]);
            && k + Count(ns[c]) == CountAll(ns[..c + 1]) && k + Count(ns[c]) + CountAll(ns[c + 1..]) == CountAll(ns)
            && FlattenAll(ns)[k..k + Count(ns[c])] == Flatten(ns[c])
  {
    hide Flatten;
    FlattenSplit(ns[..c], ns[c..]);
    FlattenSplit(ns[..c], [ns[c]]);
    FlattenOne(ns[c]);
    assert ns[..c] + ns[c..] == ns && ns[..c] + [ns[c]] == ns[..c + 1];
    FlattenSplit([ns[c]], ns[c + 1..]);
    assert [ns[c]] + ns[c + 1..] == ns[c..];
    var k := CountAll(ns[..c]);
    assert FlattenAll(ns) == FlattenAll(ns[..c]) + (Flatten(ns[c]) + FlattenAll(ns[c + 1..]));
  }

  /** The tokens of a child stand inside those of its parent. */
  lemma ChildEncoded(toks: seq<Token>, t: nat, n: Node, c: nat)
    requires Encodes(toks, t, n) && c < |n.children|
    ensures var k := CountAll(n.children[..c]);
            && Encodes(toks, t + 1 + k, n.children[c])
            && k + Count(n.children[c]) == CountAll(n.children[..c + 1]) <= CountAll(n.children)
  {
    hide FlattenAll, CountAll;
    var k, m := CountAll(n.children[..c]), Count(n.children[c]);
    ChildTokens(n.children, c);
    var ts := toks[t..t + Count(n)];
    assert ts[1..|ts|] == FlattenAll(n.children);
    Subslice(ts, 1, |ts|, k, k + m);
    Subslice(toks, t, t + Count(n), 1 + k, 1 + k + m);
  }

  lemma Subslice<T>(s: seq<T>, i: nat, j: nat, a: nat, b: nat)
    requires i <= j <= |s| && a <= b <= j - i
    ensures s[i..j][a..b] == s[i + a..i + b]
  {
    forall x | 0 <= x < b - a ensures s[i..j][a..b][x] == s[i + a..i + b][x] {
      assert s[i..j][a..b][x] == s[i..j][a + x] == s[i + a + x];
    }
  }

  lemma HeadToken(toks: seq<Token>, t: nat, n: Node)
    requires Encodes(toks, t, n)
    ensures t < |toks| && toks[t] == Token(n.at, n.len, CountAll(n.children), n.kind) && Count(n) == 1 + CountAll(n.children)
  {
    assert toks[t] == toks[t..t + Count(n)][0];
  }

  // ----- Paths -----

  /** A character of a path; zero ends it. */
  function Char(path: Bytes, p: nat): byte {
    if p < |path| then path[p] else 0
  }

  predicate CString(path: Bytes) {
    forall i :: 0 <= i < |path| ==> path[i] != 0
  }

  /** `path_part_len`. */
  function PartLen(path: Bytes, i: nat): (n: nat)
    requires i <= |path|
    ensures i <= n <= |path|
    ensures n == |path| || path[n] == 0x5B || path[n] == 0x2E
    decreases |path| - i
  {
    if i < |path| && path[i] != 0x5B && path[i] != 0x2E then PartLen(path, i + 1) else i
  }

  /** The first part of a path: a name, an index in brackets, or neither. */
  datatype Part = Name(end: nat) | Index(index: nat, end: nat) | Malformed

  function IndexFrom(path: Bytes, p: nat, index: nat): (r: Part)
    ensures !r.Name? && (r.Index? ==> p < r.end <= |path|)
    decreases |path| - p
  {
    var c := Char(path, p);
    if c == 0x5D then Index(index, p + 1)
    else if !Digit(c) then Malformed
    else IndexFrom(path, p + 1, 10 * index + (c - 0x30))
  }

  function PartOf(path: Bytes): (r: Part)
    requires path != []
    ensures r.Index? ==> 0 < r.end <= |path|
    ensures r.Name? ==> r.end <= |path| && (r.end == 0 ==> path[0] == 0x2E)
  {
    if path[0] != 0x5B then Name(PartLen(path, 0))
    else if !Digit(Char(path, 1)) then Malformed
    else IndexFrom(path, 1, 0)
  }

  /** What is left of a path after a part and the dot behind it. */
  function Rest(path: Bytes, end: nat): (r: Bytes)
    requires end <= |path|
    ensures |r| <= |path| - end && (end < |path| && path[end] == 0x2E ==> |r| < |path| - end)
  {
    if end < |path| && path[end] == 0x2E then path[end + 1..] else path[end..]
  }

  // ----- Lookup in the tree -----

  function KeyText(text: Bytes, n: Node): Bytes {
    if n.at + n.len <= |text| then text[n.at..n.at + n.len] else []
  }

  /** The value behind the first key from child `i` on that reads `name`. */
  function FirstKey(text: Bytes, ns: seq<Node>, i: nat, name: Bytes): (r: Option<nat>)
    ensures r.Some? ==> r.value < |ns|
    decreases |ns| - i
  {
    if i + 1 >= |ns| then None
    else if KeyText(text, ns[i]) == name then Some(i + 1)
    else FirstKey(text, ns, i + 2, name)
  }

  /** The child a part selects: an element by number, or the first member by name. */
  function Child(text: Bytes, n: Node, path: Bytes): (r: Option<nat>)
    requires path != []
    ensures r.Some? ==> r.value < |n.children| && !PartOf(path).Malformed?
  {
    match PartOf(path)
    case Malformed => None
    case Index(index, _) => if n.kind.Arr? && index < |n.children| then Some(index) else None
    case Name(end) => if n.kind.Obj? then FirstKey(text, n.children, 0, path[..end]) else None
  }

  /** The subtree a path leads to, and where its tokens stand if those of `n` are at `t`. */
  function Lookup(text: Bytes, n: Node, t: nat, path: Bytes): Option<(nat, Node)>
    decreases |path|
  {
    if path == [] then None
    else match Child(text, n, path)
      case None => None
      case Some(c) =>
        var at := t + 1 + CountAll(n.children[..c]);
        var rest := Rest(path, PartOf(path).end);
        if rest == [] then Some((at, n.children[c])) else Lookup(text, n.children[c], at, rest)
  }

  /** The position `Lookup` gives is where the subtree it gives is encoded. */
  lemma {:induction false} LookupEncoded(toks: seq<Token>, text: Bytes, n: Node, t: nat, path: Bytes)
    requires Encodes(toks, t, n)
    ensures var r := Lookup(text, n, t, path); r.Some? ==> Encodes(toks, r.value.0, r.value.1)
    decreases |path|
  {
    hide Encodes, Lookup, Child, PartOf, CountAll;
    LookupEmpty(text, n, t);
    if path != [] { LookupStep(text, n, t, path); }
    if path != [] && Child(text, n, path).Some? {
      var c := Child(text, n, path).value;
      ChildEncoded(toks, t, n, c);
      LookupEncoded(toks, text, n.children[c], t + 1 + CountAll(n.children[..c]), Rest(path, PartOf(path).end));
    }
  }

  // ----- The code -----

  method PathPartLen(path: Bytes) returns (n: nat)
    ensures n == PartLen(path, 0)
  {
    n := 0;
    while n < |path| && path[n] != 0x5B && path[n] != 0x2E
      invariant n <= |path| && PartLen(path, n) == PartLen(path, 0)
    {
      n := n + 1;
    }
  }

  /** The digits of a bracketed index, up to the bracket. */
  method ReadIndex(path: Bytes) returns (part: Part)
    requires path != [] && path[0] == 0x5B
    ensures part == PartOf(path)
  {
    if !Digit(Char(path, 1)) { return Malformed; }
    var n, index := 1, 0;
    while Char(path, n) != 0x5D && Char(path, n) != 0
      invariant 1 <= n && 0 <= index && IndexFrom(path, n, index) == PartOf(path)
      decreases |path| - n
    {
      if !Digit(Char(path, n)) { return Malformed; }
      index := 10 * index + (Char(path, n) - 0x30);
      n := n + 1;
    }
    if Char(path, n) != 0x5D { return Malformed; }
    return Index(index, n + 1);
  }

  /** `compare`. */
  method Compare(path: Bytes, text: Bytes, at: nat, len: nat) returns (same: bool)
    requires len <= |path| && at + len <= |text|
    ensures same <==> path[..len] == text[at..at + len]
  {
    var i := 0;
    while i < len && path[i] == text[at + i]
      invariant i <= len && path[..i] == text[at..at + i]
    {
      i := i + 1;
    }
    if i < len { assert path[..len][i] != text[at..at + len][i]; }
    same := i == len;
  }

  /** The spans of a tree lie in the text. */
  predicate Spanned(text: Bytes, n: Node)
    decreases n
  {
    n.at + n.len <= |text| && forall i :: 0 <= i < |n.children| ==> Spanned(text, n.children[i])
  }

  /** Walk over elements, skipping what is below each, to element number `index`. */
  method WalkArray(toks: seq<Token>, t: nat, index: nat, ghost n: Node) returns (r: Option<nat>)
    requires Encodes(toks, t, n) && Shaped(n) && n.kind.Arr?
    ensures r == if index < |n.children| then Some(t + 1 + CountAll(n.children[..index])) else None
  {
    hide Encodes, Flatten, FlattenAll;
    HeadToken(toks, t, n);
    var i, count := 0, 0;
    assert n.children[..0] == [] && n.children[..|n.children|] == n.children;
    while i < toks[t].numDesc
      invariant count <= |n.children| && count <= index && i == CountAll(n.children[..count]) <= CountAll(n.children)
      decreases toks[t].numDesc - i
    {
      assert count < |n.children|;
      ChildEncoded(toks, t, n, count);
      HeadToken(toks, t + 1 + i, n.children[count]);
      if count == index { return Some(t + 1 + i); }
      var child := toks[t + 1 + i];
      if child.kind.Arr? || child.kind.Obj? { i := i + child.numDesc; }
      i, count := i + 1, count + 1;
    }
    if count < |n.children| {
      ChildEncoded(toks, t, n, count);
      assert false;
    }
    r := None;
  }

  /** Walk over keys and values, skipping what is below each value, to the first key that
      reads as the front of the path. */
  method WalkObject(toks: seq<Token>, t: nat, text: Bytes, path: Bytes, len: nat, ghost n: Node) returns (r: Option<nat>)
    requires Encodes(toks, t, n) && Shaped(n) && Spanned(text, n) && n.kind.Obj? && len <= |path|
    ensures var c := FirstKey(text, n.children, 0, path[..len]);
            r == if c.None? then None else Some(t + 1 + CountAll(n.children[..c.value]))
  {
    hide Encodes, Flatten, FlattenAll, Shaped, Spanned, FirstKey, KeyText, CountAll, Count;
    HeadToken(toks, t, n);
    var i := 0;
    ghost var c, name, cs := 0, path[..len], n.children;
    NoneAndAll(cs);
    while i < toks[t].numDesc
      invariant c <= |cs| && c % 2 == 0 && i == CountAll(cs[..c]) <= CountAll(cs)
      invariant FirstKey(text, cs, c, name) == FirstKey(text, cs, 0, name)
      decreases toks[t].numDesc - i
    {
      assert c < |cs|;
      KeyAndValue(toks, t, n, c);
      KeyStep(text, n, c, name);
      var key := toks[t + 1 + i];
      if !key.kind.Str? { return None; }
      if key.len == len {
        var same := Compare(path, text, key.at, len);
        if same { return Some(t + 1 + i + 1); }
      }
      var value := toks[t + 1 + i + 1];
      if value.kind.Arr? || value.kind.Obj? { i := i + value.numDesc; }
      i, c := i + 2, c + 2;
    }
    if c < |cs| {
      KeyAndValue(toks, t, n, c);
      assert false;
    }
    NoKeyLeft(text, cs, name);
    r := None;
  }

  lemma NoneAndAll(cs: seq<Node>)
    ensures cs[..0] == [] && cs[..|cs|] == cs && CountAll([]) == 0
  {}

  /** The key at child `c` matches, or the search goes on behind its value. */
  lemma KeyStep(text: Bytes, n: Node, c: nat, name: Bytes)
    requires Spanned(text, n) && c + 1 < |n.children|
    ensures var key := n.children[c];
            && key.at + key.len <= |text|
            && FirstKey(text, n.children, c, name) ==
               if key.len == |name| && name == text[key.at..key.at + key.len] then Some(c + 1)
               else FirstKey(text, n.children, c + 2, name)
  {
    KeySpan(text, n, c);
  }

  lemma NoKeyLeft(text: Bytes, cs: seq<Node>, name: Bytes)
    ensures FirstKey(text, cs, |cs|, name) == None
  {}

  lemma KeyAndValue(toks: seq<Token>, t: nat, n: Node, c: nat)
    requires Encodes(toks, t, n) && Shaped(n) && n.kind.Obj? && c < |n.children| && c % 2 == 0
    ensures c + 1 < |n.children|
    ensures var k, key, value := CountAll(n.children[..c]), n.children[c], n.children[c + 1];
            && t + 2 + k < |toks| && toks[t + 1 + k] == Token(key.at, key.len, 0, Str)
            && toks[t + 2 + k] == Token(value.at, value.len, CountAll(value.children), value.kind)
            && (!value.kind.Arr? && !value.kind.Obj? ==> CountAll(value.children) == 0)
            && CountAll(n.children[..c + 1]) == k + 1
            && CountAll(n.children[..c + 2]) == k + 2 + CountAll(value.children) <= CountAll(n.children)
  {
    hide Encodes, Flatten, FlattenAll;
    var key, value := n.children[c], n.children[c + 1];
    assert Shaped(key) && key.kind.Str? && key.children == [] && Shaped(value);
    ChildEncoded(toks, t, n, c);
    ChildEncoded(toks, t, n, c + 1);
    HeadToken(toks, t + 1 + CountAll(n.children[..c]), key);
    HeadToken(toks, t + 1 + CountAll(n.children[..c + 1]), value);
  }

  lemma KeySpan(text: Bytes, n: Node, c: nat)
    requires Spanned(text, n) && c < |n.children|
    ensures var key := n.children[c];
            && key.at + key.len <= |text| && |KeyText(text, key)| == key.len
            && KeyText(text, key) == text[key.at..key.at + key.len]
  {
    assert Spanned(text, n.children[c]);
  }

  /** One round of `find_json_token`: the part of the path and the child it selects. */
  method Step(toks: seq<Token>, t: nat, text: Bytes, path: Bytes, ghost n: Node) returns (r: Option<nat>, end: nat)
    requires Encodes(toks, t, n) && Shaped(n) && Spanned(text, n) && path != []
    ensures var c := Child(text, n, path);
            if c.None? then r == None else r == Some(t + 1 + CountAll(n.children[..c.value])) && end == PartOf(path).end
  {
    hide Encodes, Flatten, FlattenAll, Spanned, FirstKey;
    HeadToken(toks, t, n);
    r, end := None, 0;
    if path[0] == 0x5B {
      if !toks[t].kind.Arr? { return; }
      var part := ReadIndex(path);
      if part.Malformed? { return; }
      end := part.end;
      r := WalkArray(toks, t, part.index, n);
    } else {
      if !toks[t].kind.Obj? { return; }
      end := PathPartLen(path);
      r := WalkObject(toks, t, text, path, end, n);
    }
  }

  /** `find_json_token`: the walk over the array finds exactly what the recursive lookup
      finds in the tree, and nothing exactly when that finds nothing. */
  method FindJsonToken(toks: seq<Token>, text: Bytes, path: Bytes, ghost root: Node) returns (r: Option<nat>)
    requires Encodes(toks, 0, root) && Shaped(root) && Spanned(text, root) && CString(path)
    ensures var found := Lookup(text, root, 0, path);
            r == if found.None? then None else Some(found.value.0)
    ensures r.Some? ==> Encodes(toks, r.value, Lookup(text, root, 0, path).value.1)
  {
    hide Encodes, Shaped, Spanned, Lookup, Child, PartOf, CountAll, CString;
    LookupEncoded(toks, text, root, 0, path);
    LookupEmpty(text, root, 0);
    var t, p := 0, path;
    ghost var n := root;
    while p != []
      invariant Encodes(toks, t, n) && Shaped(n) && Spanned(text, n)
      invariant Lookup(text, n, t, p) == Lookup(text, root, 0, path)
      decreases |p|
    {
      LookupStep(text, n, t, p);
      var found, end := Step(toks, t, text, p, n);
      if found.None? { return None; }
      ghost var c := Child(text, n, p).value;
      ChildEncoded(toks, t, n, c);
      ChildGood(text, n, c);
      p, t, n := Rest(p, end), found.value, n.children[c];
      if p == [] { return Some(t); }
    }
    LookupEmpty(text, n, t);
    r := None;
  }

  lemma LookupEmpty(text: Bytes, n: Node, t: nat)
    ensures Lookup(text, n, t, []) == None
  {}

  lemma LookupStep(text: Bytes, n: Node, t: nat, path: Bytes)
    requires path != []
    ensures var c := Child(text, n, path);
            if c.None? then Lookup(text, n, t, path) == None
            else
              var at, rest := t + 1 + CountAll(n.children[..c.value]), Rest(path, PartOf(path).end);
              && |rest| < |path|
              && Lookup(text, n, t, path) ==
                 if rest == [] then Some((at, n.children[c.value])) else Lookup(text, n.children[c.value], at, rest)
  {}

  lemma ChildGood(text: Bytes, n: Node, c: nat)
    requires Shaped(n) && Spanned(text, n) && c < |n.children|
    ensures Shaped(n.children[c]) && Spanned(text, n.children[c])
  {}

  // ----- Arrays that the parser made -----

  lemma {:induction false} NestedSpanned(text: Bytes, n: Node)
    requires NestedIn(n) && n.at + n.len <= |text|
    ensures Spanned(text, n)
    decreases n, 1
  {
    NestedAllSpanned(text, n.children, n.at, n.at + n.len);
  }

  lemma {:induction false} NestedAllSpanned(text: Bytes, ns: seq<Node>, lo: nat, hi: nat)
    requires Nested(ns, lo, hi) && hi <= |text|
    ensures forall i :: 0 <= i < |ns| ==> Spanned(text, ns[i])
    decreases ns, 0
  {
    if ns != [] {
      NestedSpanned(text, ns[0]);
      NestedAllSpanned(text, ns[1..], ns[0].at + ns[0].len, hi);
      forall i | 0 <= i < |ns| ensures Spanned(text, ns[i]) {
        if i > 0 { assert ns[i] == ns[1..][i - 1]; }
      }
    }
  }

  /** Every array `parse_json` fills answers every path as the text's tree does. */
  lemma ParsedSearchable(text: Bytes, toks: seq<Token>)
    requires RootF(text).Ok? && Holds(toks, RootF(text).node)
    ensures var n := RootF(text).node; Encodes(toks, 0, n) && Shaped(n) && Spanned(text, n)
  {
    RootFine(text);
    NestedSpanned(text, RootF(text).node);
  }

  method ParseAndFind(text: Bytes, path: Bytes) returns (found: Option<Token>)
    requires CString(path)
    ensures Answer(text) < 0 ==> found == None
    ensures Answer(text) >= 0 ==>
              var r := Lookup(text, RootF(text).node, 0, path);
              found == if r.None? then None else Some(Flatten(r.value.1)[0])
  {
    hide Encodes, Flatten, FlattenAll, CountAll, Lookup, Spanned, Shaped, RootF, Holds;
    var tokens := ParseJson2(text);
    if tokens == null { return None; }
    ParsedSearchable(text, tokens[..]);
    var r := FindJsonToken(tokens[..], text, path, RootF(text).node);
    if r == None { return None; }
    FirstToken(tokens[..], r.value, Lookup(text, RootF(text).node, 0, path).value.1);
    found := Some(tokens[r.value]);
  }

  lemma FirstToken(toks: seq<Token>, t: nat, n: Node)
    requires Encodes(toks, t, n)
    ensures t < |toks| && toks[t] == Flatten(n)[0]
  {
    assert toks[t] == toks[t..t + Count(n)][0];
  }
}
