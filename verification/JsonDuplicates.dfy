/** `operator==` on values without doubles in which a name is repeated: when such a value
    equals anything at all, and when equality with it is symmetric. */
module JsonDuplicates {
  import opened Words
  import opened JsonDom
  import opened JsonEqual

  // ----- Values that one value can equal -----

  /** Levels of nesting. */
  function Height(v: Value): nat
    decreases v
  {
    match v
    case VArray(es) => 1 + TallestElement(es, |es|)
    case VObject(ms) => 1 + TallestMember(ms, |ms|)
    case _ => 0
  }

  function TallestElement(es: seq<Value>, n: nat): (h: nat)
    requires n <= |es|
    ensures forall i :: 0 <= i < n ==> Height(es[i]) <= h
    decreases es, n
  {
    if n == 0 then 0 else Max(TallestElement(es, n - 1), Height(es[n - 1]))
  }

  function TallestMember(ms: seq<Member>, n: nat): (h: nat)
    requires n <= |ms|
    ensures forall i :: 0 <= i < n ==> Height(ms[i].value) <= h
    decreases ms, n
  {
    if n == 0 then 0 else Max(TallestMember(ms, n - 1), Height(ms[n - 1].value))
  }

  function Max(a: nat, b: nat): nat {
    if a < b then b else a
  }

  ghost predicate Below(s: set<Value>, h: nat) {
    forall v :: v in s ==> Height(v) < h
  }

  /** Equal as far as the outermost level shows. */
  predicate Alike(v: Value, w: Value) {
    match (v, w)
    case (VNull, VNull) => true
    case (VBool(x), VBool(y)) => x == y
    case (VNumber(x), VNumber(y)) => Pattern(x) == Pattern(y)
    case (VString(x), VString(y)) => x == y
    case (VArray(x), VArray(y)) => |x| == |y|
    case (VObject(x), VObject(y)) => |x| == |y|
    case _ => false
  }

  /** The elements at one index of the arrays in `s`. */
  ghost function Column(s: set<Value>, i: nat): set<Value> {
    set v | v in s && v.VArray? && i < |v.elements| :: v.elements[i]
  }

  /** The names of the members of the objects in `s`. */
  ghost function AllNames(s: set<Value>): set<Bytes> {
    set v, j | v in s && v.VObject? && 0 <= j < |v.members| :: v.members[j].name
  }

  /** The values the objects in `s` hold under one name. */
  ghost function Under(s: set<Value>, name: Bytes): set<Value> {
    set v, j | v in s && v.VObject? && 0 <= j < |v.members| && v.members[j].name == name :: v.members[j].value
  }

  lemma ChildrenBelow(s: set<Value>, h: nat)
    requires Below(s, h) && s != {}
    ensures h > 0
    ensures forall i: nat :: Below(Column(s, i), h - 1)
    ensures forall name :: Below(Under(s, name), h - 1)
  {}

  /** The values in `s`, all of height below `h`, can be equal to one value: they look
      alike, what they hold at each index and under each name is joint again, and the
      names of the objects together are no more than each has members. */
  ghost predicate Joint(s: set<Value>, h: nat)
    requires Below(s, h)
    decreases h
  {
    if s == {} then true else
      ChildrenBelow(s, h);
      && (forall v, w :: v in s && w in s ==> Alike(v, w))
      && (forall v :: v in s && v.VObject? ==> |AllNames(s)| <= |v.members|)
      && (forall v, i :: v in s && v.VArray? && 0 <= i < |v.elements| ==> Joint(Column(s, i), h - 1))
      && (forall name :: name in AllNames(s) ==> Joint(Under(s, name), h - 1))
  }

  /** Nothing more is needed: joint values have a common equal, without doubles. */
  lemma {:induction false} Meet(s: set<Value>, h: nat) returns (z: Value)
    requires Below(s, h) && Joint(s, h) && s != {}
    ensures NoDoubles(z) && forall v :: v in s ==> Equal(v, z)
    decreases h, 1
  {
    var v :| v in s;
    assert forall w :: w in s ==> Alike(w, v);
    if v.VArray? {
      var zs := MeetColumns(s, h, v, |v.elements|);
      Lined(s, v, zs);
      z := VArray(zs);
    } else if v.VObject? {
      var zs := MeetNames(s, h, AllNames(s));
      z := Assembled(s, v, zs);
    } else {
      z := v;
      AlikeScalars(s, v);
    }
  }

  lemma AlikeScalars(s: set<Value>, v: Value)
    requires v in s && !v.VArray? && !v.VObject? && forall w :: w in s ==> Alike(w, v)
    ensures NoDoubles(v) && forall w :: w in s ==> Equal(w, v)
  {
    assert Alike(v, v);
  }

  /** Each of `zs` is equal to all that is held at its index. */
  ghost predicate ServesColumns(s: set<Value>, zs: seq<Value>) {
    forall i, w :: 0 <= i < |zs| && w in Column(s, i) ==> Equal(w, zs[i])
  }

  lemma JointColumn(s: set<Value>, h: nat, v: Value, i: nat)
    requires Below(s, h) && Joint(s, h) && v in s && v.VArray? && i < |v.elements|
    ensures h > 0 && Column(s, i) != {} && Below(Column(s, i), h - 1) && Joint(Column(s, i), h - 1)
  {
    ChildrenBelow(s, h);
    assert v.elements[i] in Column(s, i);
  }

  /** One element for each of the first `n` indices. */
  lemma {:induction false} MeetColumns(s: set<Value>, h: nat, v: Value, n: nat) returns (zs: seq<Value>)
    requires Below(s, h) && Joint(s, h) && v in s && v.VArray? && n <= |v.elements|
    ensures |zs| == n && ServesColumns(s, zs) && NoDoubles(VArray(zs))
    decreases h, 0, n
  {
    hide Joint, Column, Equal, Below;
    if n == 0 {
      zs := [];
    } else {
      zs := MeetColumns(s, h, v, n - 1);
      JointColumn(s, h, v, n - 1);
      var z := Meet(Column(s, n - 1), h - 1);
      zs := zs + [z];
    }
  }

  lemma Lined(s: set<Value>, v: Value, zs: seq<Value>)
    requires v in s && v.VArray? && (forall w :: w in s ==> Alike(w, v)) && |zs| == |v.elements| && ServesColumns(s, zs)
    ensures forall w :: w in s ==> Equal(w, VArray(zs))
  {
    forall w | w in s ensures Equal(w, VArray(zs)) {
      assert Alike(w, v);
      forall i | 0 <= i < |w.elements| ensures Equal(w.elements[i], zs[i]) {
        assert w.elements[i] in Column(s, i);
      }
    }
  }

  /** `zs` has, for each of its names, a value equal to all that is held under it. */
  ghost predicate Serves(s: set<Value>, zs: seq<Member>) {
    forall k, w :: 0 <= k < |zs| && w in Under(s, zs[k].name) ==> Equal(w, zs[k].value)
  }

  lemma JointUnder(s: set<Value>, h: nat, n: Bytes)
    requires Below(s, h) && Joint(s, h) && n in AllNames(s)
    ensures h > 0 && Under(s, n) != {} && Below(Under(s, n), h - 1) && Joint(Under(s, n), h - 1)
  {
    UnderSome(s, n);
    ChildrenBelow(s, h);
  }

  /** One member for each of these names. */
  lemma {:induction false} MeetNames(s: set<Value>, h: nat, names: set<Bytes>) returns (zs: seq<Member>)
    requires Below(s, h) && Joint(s, h) && names <= AllNames(s)
    ensures Distinct(zs) && Names(zs) == names && Serves(s, zs) && NoDoubles(VObject(zs))
    decreases h, 0, |names|
  {
    hide Joint, AllNames, Under, Equal, Below, Names;
    if names == {} {
      zs := [];
      NamesNone();
    } else {
      var n :| n in names;
      zs := MeetNames(s, h, names - {n});
      JointUnder(s, h, n);
      var z := Meet(Under(s, n), h - 1);
      NamesSnoc(zs, Member(n, z));
      zs := zs + [Member(n, z)];
    }
  }

  lemma NamesNone()
    ensures Names([]) == {}
  {}

  lemma UnderSome(s: set<Value>, n: Bytes)
    requires n in AllNames(s)
    ensures Under(s, n) != {}
  {
    var v, j :| v in s && v.VObject? && 0 <= j < |v.members| && v.members[j].name == n;
    assert v.members[j].value in Under(s, n);
  }

  lemma NamesSnoc(ms: seq<Member>, m: Member)
    requires Distinct(ms) && m.name !in Names(ms)
    ensures Distinct(ms + [m]) && Names(ms + [m]) == Names(ms) + {m.name}
  {
    var t := ms + [m];
    forall i | 0 <= i < |ms| ensures t[i].name in Names(ms) {}
    assert t[|ms|] == m;
    assert forall n :: n in Names(ms) ==> n in Names(t) by {
      forall n | n in Names(ms) ensures n in Names(t) {
        var i :| 0 <= i < |ms| && ms[i].name == n;
        assert t[i].name == n;
      }
    }
  }

  /** Repeat the first of these members until there are as many as in `v`. */
  lemma Assembled(s: set<Value>, v: Value, zs: seq<Member>) returns (z: Value)
    requires v in s && v.VObject? && (forall w :: w in s ==> Alike(w, v)) && |AllNames(s)| <= |v.members|
    requires Distinct(zs) && Names(zs) == AllNames(s) && Serves(s, zs) && NoDoubles(VObject(zs))
    ensures NoDoubles(z) && forall w :: w in s ==> Equal(w, z)
  {
    NamesCount(zs);
    if v.members != [] {
      assert v.members[0].name in AllNames(s);
    }
    var all := zs + seq(|v.members| - |zs|, i requires v.members != [] => zs[0]);
    z := VObject(all);
    forall w | w in s ensures Equal(w, z) {
      assert Alike(w, v);
      forall i | 0 <= i < |w.members| ensures FoundIn(w.members[i], all) {
        var m := w.members[i];
        assert m.name in Names(zs);
        var k :| 0 <= k < |zs| && zs[k].name == m.name;
        FindUnique(zs, k);
        assert all[k] == zs[k] && Find(all, m.name) == k;
        assert m.value in Under(s, zs[k].name);
      }
    }
  }

  /** And all of it is needed: values with a common equal are joint. */
  lemma {:induction false} MetJoint(s: set<Value>, z: Value, h: nat)
    requires Below(s, h) && NoDoubles(z) && forall v :: v in s ==> Equal(v, z)
    ensures Joint(s, h)
    decreases h
  {
    hide Equal, FoundIn, AllNames, Under, Column, Alike, Below, Find;
    if s != {} {
      ChildrenBelow(s, h);
      forall v, w | v in s && w in s ensures Alike(v, w) { MetAlike(v, w, z); }
      forall v, i | v in s && v.VArray? && 0 <= i < |v.elements| ensures Joint(Column(s, i), h - 1) {
        MetAlike(v, v, z);
        ColumnMet(s, z, i);
        MetJoint(Column(s, i), z.elements[i], h - 1);
      }
      forall name | name in AllNames(s) ensures Joint(Under(s, name), h - 1) {
        UnderMet(s, z, name);
        MetJoint(Under(s, name), z.members[Find(z.members, name)].value, h - 1);
      }
      forall v | v in s && v.VObject? ensures |AllNames(s)| <= |v.members| {
        MetAlike(v, v, z);
        NamesMet(s, z);
      }
    }
  }

  lemma MetAlike(v: Value, w: Value, z: Value)
    requires Equal(v, z) && Equal(w, z)
    ensures Alike(v, w)
    ensures v.VArray? ==> z.VArray? && |v.elements| == |z.elements|
    ensures v.VObject? ==> z.VObject? && |v.members| == |z.members|
  {}

  lemma ColumnMet(s: set<Value>, z: Value, i: nat)
    requires z.VArray? && i < |z.elements| && forall v :: v in s ==> Equal(v, z)
    ensures forall w :: w in Column(s, i) ==> Equal(w, z.elements[i])
  {
    forall w | w in Column(s, i) ensures Equal(w, z.elements[i]) {
      var u :| u in s && u.VArray? && i < |u.elements| && w == u.elements[i];
      assert Equal(u, z);
    }
  }

  lemma UnderMet(s: set<Value>, z: Value, name: Bytes)
    requires name in AllNames(s) && forall v :: v in s ==> Equal(v, z)
    ensures z.VObject? && Find(z.members, name) < |z.members|
    ensures forall w :: w in Under(s, name) ==> Equal(w, z.members[Find(z.members, name)].value)
  {
    var v, i :| v in s && v.VObject? && 0 <= i < |v.members| && v.members[i].name == name;
    assert Equal(v, z) && FoundIn(v.members[i], z.members);
    forall w | w in Under(s, name) ensures Equal(w, z.members[Find(z.members, name)].value) {
      var u, j :| u in s && u.VObject? && 0 <= j < |u.members| && u.members[j].name == name && w == u.members[j].value;
      assert Equal(u, z) && FoundIn(u.members[j], z.members);
    }
  }

  lemma NamesMet(s: set<Value>, z: Value)
    requires z.VObject? && forall v :: v in s ==> Equal(v, z)
    ensures |AllNames(s)| <= |z.members|
  {
    forall n | n in AllNames(s) ensures n in Names(z.members) {
      var v, j :| v in s && v.VObject? && 0 <= j < |v.members| && v.members[j].name == n;
      assert Equal(v, z) && FoundIn(v.members[j], z.members);
      assert z.members[Find(z.members, n)].name == n;
    }
    SubsetCount(AllNames(s), Names(z.members));
    NamesAtMost(z.members);
  }

  ghost predicate Matchable(v: Value) {
    Joint({v}, Height(v) + 1)
  }

  /** Without doubles on either side: a value equals some value exactly when what it holds
      under each repeated name, here and at every level below, is joint. */
  lemma EqualsSomething(v: Value)
    requires NoDoubles(v)
    ensures (exists b :: NoDoubles(b) && Equal(v, b)) <==> Matchable(v)
  {
    if Matchable(v) {
      var b := Meet({v}, Height(v) + 1);
      assert NoDoubles(b) && Equal(v, b);
    }
    if b :| NoDoubles(b) && Equal(v, b) { MetJoint({v}, b, Height(v) + 1); }
  }

  // ----- Symmetry -----

  /** Longer than the name of every member. */
  function Fresh(ms: seq<Member>): (name: Bytes)
    ensures forall i :: 0 <= i < |ms| ==> |ms[i].name| < |name|
  {
    if ms == [] then [0]
    else
      var name, last := Fresh(ms[..|ms| - 1]), ms[|ms| - 1].name;
      if |last| < |name| then name else last + [0]
  }

  /** The members of `y` that the members of `x` are looked up at. */
  function Targets(x: seq<Member>, y: seq<Member>): set<nat> {
    set i | 0 <= i < |x| :: Find(y, x[i].name)
  }

  lemma {:induction false} TargetsAtMost(x: seq<Member>, y: seq<Member>)
    ensures |Targets(x, y)| <= |x|
  {
    if x != [] {
      var init, m := x[..|x| - 1], x[|x| - 1];
      TargetsAtMost(init, y);
      assert Targets(x, y) == Targets(init, y) + {Find(y, m.name)};
    }
  }

  lemma {:induction false} Indices(n: nat) returns (s: set<nat>)
    ensures |s| == n && forall j :: j in s <==> 0 <= j < n
  {
    if n == 0 { s := {}; } else {
      s := Indices(n - 1);
      s := s + {n - 1};
    }
  }

  /** With a repeated name on the left, some member on the right is not looked at. */
  lemma Spare(x: seq<Member>, y: seq<Member>) returns (j: nat)
    requires !Distinct(x) && |x| == |y|
    ensures j < |y| && forall i :: 0 <= i < |x| ==> Find(y, x[i].name) != j
  {
    var p, q :| 0 <= p < q < |x| && x[p].name == x[q].name;
    var rest := x[..q] + x[q + 1..];
    forall t | t in Targets(x, y) ensures t in Targets(rest, y) {
      var i :| 0 <= i < |x| && t == Find(y, x[i].name);
      var k := if i < q then i else if i == q then p else i - 1;
      assert rest[k].name == x[i].name;
    }
    TargetsAtMost(rest, y);
    SubsetCount(Targets(x, y), Targets(rest, y));
    var all := Indices(|y|);
    if all <= Targets(x, y) { SubsetCount(all, Targets(x, y)); }
    j :| j in all && j !in Targets(x, y);
  }

  lemma FindUpdate(y: seq<Member>, j: nat, m: Member, name: Bytes)
    requires j < |y| && Find(y, name) < |y| && (Find(y, name) == j <==> m.name == name)
    ensures Find(y[j := m], name) == Find(y, name)
  {
    var y' := y[j := m];
    assert y'[Find(y, name)].name == name;
    assert forall l :: 0 <= l < Find(y, name) ==> y'[l].name != name;
  }

  /** Give a member that is not looked at a name the left does not have. */
  lemma Outsider(x: seq<Member>, y: seq<Member>) returns (y': seq<Member>)
    requires !Distinct(x) && Equal(VObject(x), VObject(y)) && NoDoubles(VObject(y))
    ensures Equal(VObject(x), VObject(y')) && !Equal(VObject(y'), VObject(x)) && NoDoubles(VObject(y'))
  {
    var j := Spare(x, y);
    y' := y[j := Member(Fresh(x), VNull)];
    forall i | 0 <= i < |x| ensures FoundIn(x[i], y') {
      assert FoundIn(x[i], y);
      FindUpdate(y, j, y'[j], x[i].name);
    }
    assert !FoundIn(y'[j], x);
  }

  /** Distinct names here: put the witness for one member in its place. */
  lemma Replaced(x: seq<Member>, y: seq<Member>, i: nat, z: Value) returns (y': seq<Member>)
    requires Distinct(x) && Equal(VObject(x), VObject(y)) && i < |x|
    requires Equal(x[i].value, z) && !Equal(z, x[i].value) && NoDoubles(VObject(y)) && NoDoubles(z)
    ensures Equal(VObject(x), VObject(y')) && !Equal(VObject(y'), VObject(x)) && NoDoubles(VObject(y'))
  {
    SameNames(x, y);
    assert FoundIn(x[i], y);
    var k := Find(y, x[i].name);
    y' := y[k := Member(y[k].name, z)];
    forall l | 0 <= l < |x| ensures FoundIn(x[l], y') {
      assert FoundIn(x[l], y);
      FindUpdate(y, k, y'[k], x[l].name);
    }
    FindUnique(x, i);
    assert !FoundIn(y'[k], x);
  }

  /** A repeated name anywhere in a value that equals something breaks symmetry. */
  lemma {:induction false} NotSymmetric(v: Value, b: Value) returns (b': Value)
    requires NoDoubles(b) && Equal(v, b) && !UniqueNames(v)
    ensures NoDoubles(b') && Equal(v, b') && !Equal(b', v)
    decreases v
  {
    match (v, b)
    case (VArray(x), VArray(y)) =>
      var i :| 0 <= i < |x| && !UniqueNames(x[i]);
      var z := NotSymmetric(x[i], y[i]);
      var y' := y[i := z];
      b' := VArray(y');
      assert !Equal(y'[i], x[i]);
    case (VObject(x), VObject(y)) =>
      if Distinct(x) {
        var i :| 0 <= i < |x| && !UniqueNames(x[i].value);
        assert FoundIn(x[i], y);
        var z := NotSymmetric(x[i].value, y[Find(y, x[i].name)].value);
        var y' := Replaced(x, y, i, z);
        b' := VObject(y');
      } else {
        var y' := Outsider(x, y);
        b' := VObject(y');
      }
  }

  /** Without doubles on either side: equality with a value is symmetric exactly when no
      object in it repeats a name or nothing equals it at all. */
  lemma SymmetricExactly(v: Value)
    requires NoDoubles(v)
    ensures (forall b :: NoDoubles(b) && Equal(v, b) ==> Equal(b, v)) <==> UniqueNames(v) || !Matchable(v)
  {
    EqualsSomething(v);
    if UniqueNames(v) {
      forall b | NoDoubles(b) && Equal(v, b) ensures Equal(b, v) { Symmetric(v, b); }
    } else if b :| NoDoubles(b) && Equal(v, b) {
      var b' := NotSymmetric(v, b);
      assert NoDoubles(b') && Equal(v, b') && !Equal(b', v);
    }
  }

  /** An input for both: an object with one name twice equals itself, and equals an object
      that does not equal it. */
  lemma DuplicateEquals()
    ensures var v := VObject([Member([0x61], VNull), Member([0x61], VNull)]);
            var b := VObject([Member([0x61], VNull), Member([0x62], VNull)]);
            Equal(v, v) && Equal(v, b) && !Equal(b, v)
  {
    var x, y := [Member([0x61], VNull), Member([0x61], VNull)], [Member([0x61], VNull), Member([0x62], VNull)];
    assert [0x61][0] != [0x62][0];
    assert Find(x, [0x61]) == 0 && Find(y, [0x61]) == 0 && Find(x, [0x62]) == 2;
    assert FoundIn(x[0], x) && FoundIn(x[1], x) && FoundIn(x[0], y) && FoundIn(x[1], y);
    assert !FoundIn(y[1], x);
  }

  // ----- Repeated names at one level only -----

  /** All members of one name have equal values. */
  ghost predicate Agreeing(ms: seq<Member>) {
    forall i, j :: 0 <= i < |ms| && 0 <= j < |ms| && ms[i].name == ms[j].name ==> Equal(ms[i].value, ms[j].value)
  }

  /** The documented note that an object with duplicate names equals nothing holds, when
      names repeat at the top only, exactly if two members of one name differ in value. */
  lemma DuplicateNote(ms: seq<Member>)
    requires forall i :: 0 <= i < |ms| ==> NoDoubles(ms[i].value) && UniqueNames(ms[i].value)
    ensures (exists b :: NoDoubles(b) && Equal(VObject(ms), b)) <==> Agreeing(ms)
  {
    if Agreeing(ms) {
      forall i | 0 <= i < |ms| ensures FoundIn(ms[i], ms) {
        assert ms[Find(ms, ms[i].name)].name == ms[i].name;
      }
      assert NoDoubles(VObject(ms)) && Equal(VObject(ms), VObject(ms));
    }
    if b :| NoDoubles(b) && Equal(VObject(ms), b) {
      forall i, j | 0 <= i < |ms| && 0 <= j < |ms| && ms[i].name == ms[j].name
        ensures Equal(ms[i].value, ms[j].value)
      {
        var k := Find(b.members, ms[i].name);
        assert FoundIn(ms[i], b.members) && FoundIn(ms[j], b.members);
        Symmetric(ms[j].value, b.members[k].value);
        Transitive(ms[i].value, b.members[k].value, ms[j].value);
      }
    }
  }

  /** There equality is symmetric exactly for distinct or disagreeing members. */
  lemma SymmetricObject(ms: seq<Member>)
    requires forall i :: 0 <= i < |ms| ==> NoDoubles(ms[i].value) && UniqueNames(ms[i].value)
    ensures (forall b :: NoDoubles(b) && Equal(VObject(ms), b) ==> Equal(b, VObject(ms)))
       <==> Distinct(ms) || !Agreeing(ms)
  {
    DuplicateNote(ms);
    EqualsSomething(VObject(ms));
    SymmetricExactly(VObject(ms));
  }
}
