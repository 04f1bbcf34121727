/** Positional numerals of fixed width, most significant digit first. */
module Numerals {
  import opened Words

  function Pow(base: nat, n: nat): nat {
    if n == 0 then 1 else Pow(base, n - 1) * base
  }

  ghost predicate AllBelow(base: nat, ds: seq<nat>) {
    forall i :: 0 <= i < |ds| ==> ds[i] < base
  }

  function Value(base: nat, ds: seq<nat>): nat {
    if ds == [] then 0 else Value(base, ds[..|ds| - 1]) * base + ds[|ds| - 1]
  }

  lemma ValueNone(base: nat)
    ensures Value(base, []) == 0
  {}

  lemma ValueSnoc(base: nat, ds: seq<nat>, d: nat)
    ensures Value(base, ds + [d]) == Value(base, ds) * base + d
  {
    assert (ds + [d])[..|ds|] == ds;
  }

  /** The `width` low digits of `n`. */
  function Digits(base: nat, width: nat, n: nat): (ds: seq<nat>)
    requires base > 0
    ensures |ds| == width && AllBelow(base, ds)
  {
    if width == 0 then [] else Digits(base, width - 1, n / base) + [n % base]
  }

  lemma StepBelow(base: nat, v: nat, p: nat, d: nat)
    requires v < p && d < base
    ensures v * base + d < p * base
  {
    MulMono(base, v + 1, p);
  }

  lemma {:induction false} ValueBelow(base: nat, ds: seq<nat>)
    requires AllBelow(base, ds)
    ensures Value(base, ds) < Pow(base, |ds|)
  {
    if ds != [] {
      var init := ds[..|ds| - 1];
      ValueBelow(base, init);
      StepBelow(base, Value(base, init), Pow(base, |init|), ds[|ds| - 1]);
    }
  }

  lemma DivModOf(q: nat, base: nat, r: nat)
    requires r < base
    ensures (q * base + r) / base == q && (q * base + r) % base == r
  {
    var n := q * base + r;
    var q', r' := n / base, n % base;
    assert base * (q - q') == r' - r;
    if q > q' { MulMono(base, 1, q - q'); }
    if q < q' { MulMono(base, q - q', -1); }
  }

  lemma {:induction false} DigitsOfValue(base: nat, ds: seq<nat>)
    requires base > 0 && AllBelow(base, ds)
    ensures Digits(base, |ds|, Value(base, ds)) == ds
  {
    if ds != [] {
      var init := ds[..|ds| - 1];
      DivModOf(Value(base, init), base, ds[|ds| - 1]);
      DigitsOfValue(base, init);
    }
  }

  lemma DivModParts(n: nat, base: nat)
    requires base > 0
    ensures n == n / base * base + n % base
  {}

  lemma DivBelow(n: nat, base: nat, bound: nat)
    requires base > 0 && n < bound * base
    ensures n / base < bound
  {
    var q := n / base;
    DivModParts(n, base);
    if q >= bound { MulMono(base, bound, q); }
  }

  lemma {:induction false} ValueOfDigits(base: nat, width: nat, n: nat)
    requires base > 0 && n < Pow(base, width)
    ensures Value(base, Digits(base, width, n)) == n
  {
    if width > 0 {
      var q, r := n / base, n % base;
      DivBelow(n, base, Pow(base, width - 1));
      ValueOfDigits(base, width - 1, q);
      DivModParts(n, base);
      ValueSnoc(base, Digits(base, width - 1, q), r);
    }
  }

  /** The low digits do not depend on how many digits are written before them. */
  lemma {:induction false} DigitsSuffix(base: nat, width: nat, more: nat, n: nat)
    requires base > 0 && width <= more
    ensures Digits(base, more, n)[more - width..] == Digits(base, width, n)
  {
    if width > 0 {
      DigitsSuffix(base, width - 1, more - 1, n / base);
    }
  }

  lemma Horner(v: nat, p: nat, w: nat, base: nat, d: nat)
    ensures (p * v + w) * base + d == (p * base) * v + (w * base + d)
  {
    assert (p * v + w) * base == p * v * base + w * base;
  }

  /** A digit in front of a numeral. */
  lemma {:induction false} ValueCons(base: nat, v: nat, lo: seq<nat>)
    ensures Value(base, [v] + lo) == Pow(base, |lo|) * v + Value(base, lo)
  {
    if lo == [] {
      assert [v] + lo == [v];
    } else {
      var init, d := lo[..|lo| - 1], lo[|lo| - 1];
      ValueCons(base, v, init);
      assert [v] + lo == [v] + init + [d];
      ValueSnoc(base, [v] + init, d);
      Horner(v, Pow(base, |init|), Value(base, init), base, d);
    }
  }

  /** A numeral in front of a numeral. */
  lemma {:induction false} ValueJoin(base: nat, hi: seq<nat>, lo: seq<nat>)
    ensures Value(base, hi + lo) == Pow(base, |lo|) * Value(base, hi) + Value(base, lo)
  {
    if lo == [] {
      assert hi + lo == hi;
    } else {
      var init, d := lo[..|lo| - 1], lo[|lo| - 1];
      ValueJoin(base, hi, init);
      assert hi + lo == hi + init + [d];
      ValueSnoc(base, hi + init, d);
      Horner(Value(base, hi), Pow(base, |init|), Value(base, init), base, d);
    }
  }

  // ----- Decimal numerals -----

  predicate DecimalDigits(b: Bytes) {
    forall i :: 0 <= i < |b| ==> 0x30 <= b[i] <= 0x39
  }

  function DigitValues(b: Bytes): (ds: seq<nat>)
    requires DecimalDigits(b)
    ensures |ds| == |b|
  {
    seq(|b|, i requires 0 <= i < |b| => b[i] - 0x30)
  }

  /** The decimal numeral of a number. */
  function Decimal(n: nat): (b: Bytes)
    ensures 1 <= |b| && DecimalDigits(b)
  {
    if n < 10 then [0x30 + n] else Decimal(n / 10) + [0x30 + n % 10]
  }

  /** It denotes the number and has no superfluous zero. */
  lemma {:induction false} DecimalValue(n: nat)
    ensures Value(10, DigitValues(Decimal(n))) == n
    ensures |Decimal(n)| > 1 ==> Decimal(n)[0] != 0x30
    decreases n
  {
    if n < 10 {
      assert DigitValues(Decimal(n)) == [] + [n];
      ValueSnoc(10, [], n);
    } else {
      var h, d := n / 10, n % 10;
      DecimalValue(h);
      assert DigitValues(Decimal(n)) == DigitValues(Decimal(h)) + [d];
      ValueSnoc(10, DigitValues(Decimal(h)), d);
    }
  }
}
