/** `operator==` on values without doubles, member lookup and the two removals. */
module JsonEqual {
  import opened Words
  import opened JsonDom

  /** The 64-bit pattern integers are compared by. */
  function Pattern(n: int): nat {
    n % 0x1_0000_0000_0000_0000
  }

  predicate NoDoubles(v: Value)
    decreases v
  {
    match v
    case VDouble(_) => false
    case VArray(es) => forall i :: 0 <= i < |es| ==> NoDoubles(es[i])
    case VObject(ms) => forall i :: 0 <= i < |ms| ==> NoDoubles(ms[i].value)
    case _ => true
  }

  /** No object of the tree has two members of one name. */
  predicate UniqueNames(v: Value)
    decreases v
  {
    match v
    case VArray(es) => forall i :: 0 <= i < |es| ==> UniqueNames(es[i])
    case VObject(ms) => Distinct(ms) && forall i :: 0 <= i < |ms| ==> UniqueNames(ms[i].value)
    case _ => true
  }

  predicate Distinct(ms: seq<Member>) {
    forall i, j :: 0 <= i < j < |ms| ==> ms[i].name != ms[j].name
  }

  /** Index of the first member of that name, or the number of members. */
  function Find(ms: seq<Member>, name: Bytes): (i: nat)
    ensures i <= |ms|
    ensures i < |ms| ==> ms[i].name == name
    ensures forall j :: 0 <= j < i ==> ms[j].name != name
  {
    if ms == [] then 0 else if ms[0].name == name then 0 else 1 + Find(ms[1..], name)
  }

  /** `FindMember`. */
  method FindMember(ms: seq<Member>, name: Bytes) returns (i: nat)
    ensures i == Find(ms, name)
  {
    i := 0;
    while i < |ms|
      invariant i <= |ms| && forall j :: 0 <= j < i ==> ms[j].name != name
    {
      if ms[i].name == name { break; }
      i := i + 1;
    }
  }

  /** `operator==`: same type; equal integers by pattern; arrays element by element;
      objects of one size, each member of the left found on the right. */
  predicate Equal(a: Value, b: Value)
    decreases a
  {
    match (a, b)
    case (VNull, VNull) => true
    case (VBool(x), VBool(y)) => x == y
    case (VNumber(x), VNumber(y)) => Pattern(x) == Pattern(y)
    case (VString(x), VString(y)) => x == y
    case (VArray(x), VArray(y)) =>
      |x| == |y| && forall i :: 0 <= i < |x| ==> Equal(x[i], y[i])
    case (VObject(x), VObject(y)) =>
      |x| == |y| && forall i :: 0 <= i < |x| ==> FoundIn(x[i], y)
    case _ => false
  }

  predicate FoundIn(m: Member, ms: seq<Member>)
    decreases m
  {
    var j := Find(ms, m.name);
    j < |ms| && Equal(m.value, ms[j].value)
  }

  lemma FindUnique(ms: seq<Member>, i: nat)
    requires Distinct(ms) && i < |ms|
    ensures Find(ms, ms[i].name) == i
  {}

  // ----- An equivalence on values with unique names -----

  lemma {:induction false} Reflexive(v: Value)
    requires NoDoubles(v) && UniqueNames(v)
    ensures Equal(v, v)
    decreases v
  {
    match v
    case VArray(es) =>
      forall i | 0 <= i < |es| ensures Equal(es[i], es[i]) { Reflexive(es[i]); }
    case VObject(ms) =>
      forall i | 0 <= i < |ms| ensures FoundIn(ms[i], ms) {
        FindUnique(ms, i);
        Reflexive(ms[i].value);
      }
    case _ =>
  }

  function Names(ms: seq<Member>): set<Bytes> {
    set i | 0 <= i < |ms| :: ms[i].name
  }

  lemma {:induction false} NamesCount(ms: seq<Member>)
    requires Distinct(ms)
    ensures |Names(ms)| == |ms|
  {
    if ms != [] {
      var init, m := ms[..|ms| - 1], ms[|ms| - 1];
      NamesCount(init);
      assert Names(ms) == Names(init) + {m.name};
      assert m.name !in Names(init);
    }
  }

  lemma {:induction false} NamesAtMost(ms: seq<Member>)
    ensures |Names(ms)| <= |ms| && (|Names(ms)| == |ms| ==> Distinct(ms))
  {
    if ms != [] {
      var init, m := ms[..|ms| - 1], ms[|ms| - 1];
      NamesAtMost(init);
      assert Names(ms) == Names(init) + {m.name};
      if |Names(ms)| == |ms| {
        forall i, j | 0 <= i < j < |ms| ensures ms[i].name != ms[j].name {
          if j == |init| { assert ms[i].name in Names(init); }
        }
      }
    }
  }

  lemma {:induction false} SubsetCount<T>(a: set<T>, b: set<T>)
    requires a <= b
    ensures |a| <= |b|
  {
    if a != {} {
      var x :| x in a;
      SubsetCount(a - {x}, b - {x});
    }
  }

  /** The pigeonhole step: distinct names on the left, all found among as many
      members on the right, so the right has exactly those names, once each. */
  lemma SameNames(x: seq<Member>, y: seq<Member>)
    requires Distinct(x) && |x| == |y|
    requires forall i :: 0 <= i < |x| ==> FoundIn(x[i], y)
    ensures Distinct(y) && Names(x) == Names(y)
  {
    forall n | n in Names(x) ensures n in Names(y) {
      var i :| 0 <= i < |x| && x[i].name == n;
      assert FoundIn(x[i], y);
      assert y[Find(y, n)].name == n;
    }
    NamesCount(x);
    NamesAtMost(y);
    SubsetCount(Names(x), Names(y));
    if n :| n in Names(y) && n !in Names(x) { SubsetCount(Names(x), Names(y) - {n}); }
  }

  /** Each member on the right is the one some member on the left found. */
  lemma Finder(x: seq<Member>, y: seq<Member>, j: nat) returns (i: nat)
    requires Distinct(x) && |x| == |y| && j < |y|
    requires forall i :: 0 <= i < |x| ==> FoundIn(x[i], y)
    ensures i < |x| && x[i].name == y[j].name && Find(x, y[j].name) == i && Equal(x[i].value, y[j].value)
  {
    SameNames(x, y);
    assert y[j].name in Names(y);
    i :| 0 <= i < |x| && x[i].name == y[j].name;
    FindUnique(x, i);
    FindUnique(y, j);
    assert FoundIn(x[i], y);
  }

  /** What equals a value with unique names has unique names. */
  lemma {:induction false} EqualUnique(a: Value, b: Value)
    requires UniqueNames(a) && Equal(a, b)
    ensures UniqueNames(b)
    decreases a
  {
    match (a, b)
    case (VArray(x), VArray(y)) =>
      forall i | 0 <= i < |y| ensures UniqueNames(y[i]) { EqualUnique(x[i], y[i]); }
    case (VObject(x), VObject(y)) =>
      SameNames(x, y);
      forall j | 0 <= j < |y| ensures UniqueNames(y[j].value) {
        var i := Finder(x, y, j);
        EqualUnique(x[i].value, y[j].value);
      }
    case _ =>
  }

  /** Symmetric as soon as one side has unique names. */
  lemma {:induction false} Symmetric(a: Value, b: Value)
    requires UniqueNames(a) && Equal(a, b)
    ensures Equal(b, a)
    decreases a
  {
    match (a, b)
    case (VArray(x), VArray(y)) =>
      forall i | 0 <= i < |x| ensures Equal(y[i], x[i]) { Symmetric(x[i], y[i]); }
    case (VObject(x), VObject(y)) =>
      forall j | 0 <= j < |y| ensures FoundIn(y[j], x) {
        var i := Finder(x, y, j);
        Symmetric(x[i].value, y[j].value);
      }
    case _ =>
  }

  /** Transitive on all values without doubles. */
  lemma {:induction false} Transitive(a: Value, b: Value, c: Value)
    requires NoDoubles(a) && NoDoubles(b) && NoDoubles(c)
    requires Equal(a, b) && Equal(b, c)
    ensures Equal(a, c)
    decreases a
  {
    match (a, b, c)
    case (VArray(x), VArray(y), VArray(z)) =>
      forall i | 0 <= i < |x| ensures Equal(x[i], z[i]) { Transitive(x[i], y[i], z[i]); }
    case (VObject(x), VObject(y), VObject(z)) =>
      forall i | 0 <= i < |x| ensures FoundIn(x[i], z) {
        assert FoundIn(x[i], y);
        var j := Find(y, x[i].name);
        assert FoundIn(y[j], z);
        var k := Find(z, x[i].name);
        Transitive(x[i].value, y[j].value, z[k].value);
      }
    case _ =>
  }

  // ----- What is compared -----

  /** A value up to the order of members: numbers by their 64 bits, objects as maps. */
  datatype Meaning =
    | MNull
    | MBool(b: bool)
    | MNumber(bits: nat)
    | MString(s: Bytes)
    | MArray(elements: seq<Meaning>)
    | MObject(members: map<Bytes, Meaning>)

  function MeaningOf(v: Value): Meaning
    requires NoDoubles(v) && UniqueNames(v)
    decreases v, 0
  {
    match v
    case VNull => MNull
    case VBool(b) => MBool(b)
    case VNumber(n) => MNumber(n % 0x1_0000_0000_0000_0000)
    case VString(s) => MString(s)
    case VArray(es) => MArray(seq(|es|, i requires 0 <= i < |es| => MeaningOf(es[i])))
    case VObject(ms) => MObject(MembersMeaning(ms))
  }

  predicate Proper(ms: seq<Member>) {
    Distinct(ms) && forall i :: 0 <= i < |ms| ==> NoDoubles(ms[i].value) && UniqueNames(ms[i].value)
  }

  function MembersMeaning(ms: seq<Member>): (m: map<Bytes, Meaning>)
    requires Proper(ms)
    ensures m.Keys == Names(ms) && forall i :: 0 <= i < |ms| ==> m[ms[i].name] == MeaningOf(ms[i].value)
    decreases ms, 0
  {
    NamesCons(ms);
    if ms == [] then map[] else MembersMeaning(ms[1..])[ms[0].name := MeaningOf(ms[0].value)]
  }

  lemma NamesCons(ms: seq<Member>)
    ensures Names(ms) == if ms == [] then {} else {ms[0].name} + Names(ms[1..])
  {
    if ms != [] {
      forall n | n in Names(ms) ensures n in {ms[0].name} + Names(ms[1..]) {
        var i :| 0 <= i < |ms| && ms[i].name == n;
        if i > 0 { assert ms[1..][i - 1].name == n; }
      }
      forall n | n in Names(ms[1..]) ensures n in Names(ms) {
        var i :| 0 <= i < |ms[1..]| && ms[1..][i].name == n;
        assert ms[i + 1].name == n;
      }
    }
  }

  /** Equality is equality of meanings, for all values without doubles and with unique
      names. */
  lemma {:induction false} EqualMeans(a: Value, b: Value)
    requires NoDoubles(a) && UniqueNames(a) && NoDoubles(b) && UniqueNames(b)
    ensures Equal(a, b) <==> MeaningOf(a) == MeaningOf(b)
    decreases a
  {
    match (a, b)
    case (VArray(x), VArray(y)) =>
      if |x| == |y| {
        forall i | 0 <= i < |x| ensures Equal(x[i], y[i]) <==> MeaningOf(a).elements[i] == MeaningOf(b).elements[i] {
          EqualMeans(x[i], y[i]);
        }
        assert MeaningOf(a).elements == MeaningOf(b).elements <==>
                 forall i :: 0 <= i < |x| ==> MeaningOf(a).elements[i] == MeaningOf(b).elements[i];
      } else {
        assert |MeaningOf(a).elements| != |MeaningOf(b).elements|;
      }
    case (VObject(x), VObject(y)) =>
      forall i, j | 0 <= i < |x| && 0 <= j < |y|
        ensures Equal(x[i].value, y[j].value) <==> MeaningOf(x[i].value) == MeaningOf(y[j].value)
      {
        EqualMeans(x[i].value, y[j].value);
      }
      MembersMean(x, y);
    case _ =>
  }

  lemma MembersMean(x: seq<Member>, y: seq<Member>)
    requires Proper(x) && Proper(y)
    requires forall i, j :: 0 <= i < |x| && 0 <= j < |y| ==>
               (Equal(x[i].value, y[j].value) <==> MeaningOf(x[i].value) == MeaningOf(y[j].value))
    ensures Equal(VObject(x), VObject(y)) <==> MembersMeaning(x) == MembersMeaning(y)
  {
    hide MeaningOf, MembersMeaning, NoDoubles, UniqueNames, Find, Names;
    var m, m' := MembersMeaning(x), MembersMeaning(y);
    if Equal(VObject(x), VObject(y)) {
      SameNames(x, y);
      forall n | n in m.Keys ensures m[n] == m'[n] {
        var i := Holder(x, n);
        var j := Holder(y, n);
        FindUnique(y, j);
        assert FoundIn(x[i], y);
        assert m[x[i].name] == MeaningOf(x[i].value) && m'[y[j].name] == MeaningOf(y[j].value);
      }
    }
    if m == m' {
      NamesCount(x);
      NamesCount(y);
      forall i | 0 <= i < |x| ensures FoundIn(x[i], y) {
        NamedIn(x, i);
        var j := Holder(y, x[i].name);
        FindUnique(y, j);
        assert m[x[i].name] == MeaningOf(x[i].value) && m'[y[j].name] == MeaningOf(y[j].value);
      }
    }
  }

  lemma Holder(ms: seq<Member>, n: Bytes) returns (i: nat)
    requires n in Names(ms)
    ensures i < |ms| && ms[i].name == n
  {
    i :| 0 <= i < |ms| && ms[i].name == n;
  }

  lemma NamedIn(ms: seq<Member>, i: nat)
    requires i < |ms|
    ensures ms[i].name in Names(ms)
  {}

  /** Members in any order: a permutation of an object equals it. */
  lemma OrderIgnored(x: seq<Member>, y: seq<Member>)
    requires NoDoubles(VObject(x)) && UniqueNames(VObject(x)) && multiset(x) == multiset(y)
    ensures Equal(VObject(x), VObject(y))
  {
    PermutedLength(x, y);
    forall i | 0 <= i < |x| ensures FoundIn(x[i], y) {
      assert x[i] in multiset(y);
      var j := Find(y, x[i].name);
      assert j < |y|;
      assert y[j] in multiset(x);
      Reflexive(x[i].value);
    }
  }

  lemma PermutedLength(x: seq<Member>, y: seq<Member>)
    requires multiset(x) == multiset(y)
    ensures |x| == |y|
  {
    assert |multiset(x)| == |x| && |multiset(y)| == |y|;
  }

  // ----- Integers -----

  /** Two stored integers compare equal when they are the same or exactly 2^64 apart:
      a negative one equals the unsigned one with its bits. */
  lemma NumberEquality(x: int, y: int)
    requires -0x8000_0000_0000_0000 <= x < 0x1_0000_0000_0000_0000
    requires -0x8000_0000_0000_0000 <= y < 0x1_0000_0000_0000_0000
    ensures Equal(VNumber(x), VNumber(y)) <==>
              x == y || x - y == 0x1_0000_0000_0000_0000 || y - x == 0x1_0000_0000_0000_0000
  {
    assert Pattern(x) == if x >= 0 then x else x + 0x1_0000_0000_0000_0000;
    assert Pattern(y) == if y >= 0 then y else y + 0x1_0000_0000_0000_0000;
  }

  // ----- Removal -----

  /** Move the last member into the gap. */
  function Removed(ms: seq<Member>, m: nat): seq<Member>
    requires m < |ms|
  {
    if m < |ms| - 1 then ms[m := ms[|ms| - 1]][..|ms| - 1] else ms[..m]
  }

  /** Close the gap, keeping the order. */
  function Erased(ms: seq<Member>, first: nat, last: nat): seq<Member>
    requires first <= last <= |ms|
  {
    ms[..first] + ms[last..]
  }

  /** `RemoveMember` by iterator, on the member array. */
  method RemoveMember(members: array<Member>, size: nat, m: nat) returns (size': nat)
    requires m < size <= members.Length
    modifies members
    ensures size' == size - 1 && members[..size'] == Removed(old(members[..size]), m)
    ensures forall i :: 0 <= i < size' ==> members[i] == old(members[if i == m then size - 1 else i])
  {
    var last := size - 1;
    if size > 1 && m != last {
      members[m] := members[last];
    }
    size' := size - 1;
  }

  /** `EraseMember` of a range. */
  method EraseMember(members: array<Member>, size: nat, first: nat, last: nat) returns (size': nat)
    requires first <= last <= size <= members.Length
    modifies members
    ensures size' == size - (last - first) && members[..size'] == Erased(old(members[..size]), first, last)
    ensures forall i :: 0 <= i < size' ==> members[i] == old(members[if i < first then i else i + (last - first)])
  {
    forall i | 0 <= i < size - last { members[first + i] := members[last + i]; }
    size' := size - (last - first);
  }

  lemma ErasedMembers(ms: seq<Member>, m: nat)
    requires m < |ms|
    ensures multiset(Erased(ms, m, m + 1)) == multiset(ms) - multiset{ms[m]}
  {
    assert ms == ms[..m] + [ms[m]] + ms[m + 1..];
  }

  lemma RemovedMembers(ms: seq<Member>, m: nat)
    requires m < |ms|
    ensures multiset(Removed(ms, m)) == multiset(ms) - multiset{ms[m]}
  {
    var init, last := ms[..|ms| - 1], ms[|ms| - 1];
    assert ms == init + [last];
    if m < |ms| - 1 {
      assert Removed(ms, m) == init[m := last];
      assert multiset(init[m := last]) == multiset(init) - multiset{ms[m]} + multiset{last};
    }
  }

  lemma ErasedUnique(ms: seq<Member>, m: nat)
    requires m < |ms| && NoDoubles(VObject(ms)) && UniqueNames(VObject(ms))
    ensures NoDoubles(VObject(Erased(ms, m, m + 1))) && UniqueNames(VObject(Erased(ms, m, m + 1)))
    ensures Find(Erased(ms, m, m + 1), ms[m].name) == |ms| - 1
  {
    var e := Erased(ms, m, m + 1);
    assert forall i :: 0 <= i < |e| ==> e[i] == ms[if i < m then i else i + 1];
  }

  /** Both removals give equal objects, without the removed name. */
  lemma RemovalsAgree(ms: seq<Member>, m: nat)
    requires m < |ms| && NoDoubles(VObject(ms)) && UniqueNames(VObject(ms))
    ensures Equal(VObject(Erased(ms, m, m + 1)), VObject(Removed(ms, m)))
    ensures Find(Erased(ms, m, m + 1), ms[m].name) == |ms| - 1
  {
    ErasedMembers(ms, m);
    RemovedMembers(ms, m);
    ErasedUnique(ms, m);
    OrderIgnored(Erased(ms, m, m + 1), Removed(ms, m));
  }
}
