/** Machine integers as ranges of `int`; arithmetic on them is written out modulo
    their size wherever the code can wrap. */
module Words {
  type byte = x: int | 0 <= x < 0x100
  type u32 = x: int | 0 <= x < 0x1_0000_0000
  type u64 = x: int | 0 <= x < 0x1_0000_0000_0000_0000
  type Bytes = seq<byte>

  datatype Option<+T> = None | Some(value: T)

  lemma MulMono(d: int, x: int, y: int)
    requires 0 <= d && x <= y
    ensures d * x <= d * y
  {}

  lemma Assoc<T>(x: seq<T>, y: seq<T>, z: seq<T>)
    ensures x + y + z == x + (y + z)
  {}

  lemma AssocTail<T>(x: seq<T>, y: seq<T>, z: seq<T>, u: seq<T>)
    ensures x + y + z + u == x + (y + z + u)
  {}

  lemma AssocRight<T>(x: seq<T>, y: seq<T>, z: seq<T>, u: seq<T>)
    ensures x + y + z + u == x + (y + (z + u))
  {}

  lemma AssocMiddle<T>(x: seq<T>, y: seq<T>, z: seq<T>, u: seq<T>)
    ensures x + y + z + u == x + (y + z) + u
  {}

  lemma AssocPairs<T>(x: seq<T>, y: seq<T>, z: seq<T>, u: seq<T>)
    ensures x + (y + z) + u == (x + y) + (z + u)
  {}

  function Concat(chunks: seq<Bytes>): Bytes {
    if chunks == [] then [] else chunks[0] + Concat(chunks[1..])
  }

  /** White space of a text: space, tab, line feed and carriage return. */
  predicate Blank(b: Bytes) {
    forall i :: 0 <= i < |b| ==> b[i] in {0x20, 0x09, 0x0A, 0x0D}
  }

  // ----- Exclusive or, bit by bit -----

  function Pow2(n: nat): (p: nat)
    ensures p > 0
  {
    if n == 0 then 1 else 2 * Pow2(n - 1)
  }

  function XorBits(a: nat, b: nat, n: nat): (x: nat)
    ensures x < Pow2(n)
  {
    if n == 0 then 0 else 2 * XorBits(a / 2, b / 2, n - 1) + (if a % 2 == b % 2 then 0 else 1)
  }

  function Xor(a: byte, b: byte): byte {
    assert Pow2(8) == 0x10 * Pow2(4) && Pow2(4) == 0x10;
    XorBits(a, b, 8)
  }

  lemma Halves(y: nat, bit: nat)
    requires bit < 2
    ensures (2 * y + bit) / 2 == y && (2 * y + bit) % 2 == bit
  {}

  lemma {:induction false} XorBitsSwap(a: nat, b: nat, n: nat)
    ensures XorBits(a, b, n) == XorBits(b, a, n)
  {
    if n > 0 { XorBitsSwap(a / 2, b / 2, n - 1); }
  }

  lemma {:induction false} XorBitsZero(b: nat, n: nat)
    requires b < Pow2(n)
    ensures XorBits(0, b, n) == b
  {
    if n > 0 { XorBitsZero(b / 2, n - 1); }
  }

  lemma {:induction false} XorBitsTwice(a: nat, b: nat, n: nat)
    requires a < Pow2(n)
    ensures XorBits(XorBits(a, b, n), b, n) == a
  {
    if n > 0 {
      XorBitsTwice(a / 2, b / 2, n - 1);
      Halves(XorBits(a / 2, b / 2, n - 1), if a % 2 == b % 2 then 0 else 1);
      assert a == 2 * (a / 2) + a % 2;
    }
  }

  lemma XorLaws(a: byte, b: byte)
    ensures Xor(a, b) == Xor(b, a)
    ensures Xor(0, b) == b
    ensures Xor(Xor(a, b), b) == a
  {
    assert Pow2(8) == 0x10 * Pow2(4) && Pow2(4) == 0x10;
    XorBitsSwap(a, b, 8);
    XorBitsZero(b, 8);
    XorBitsTwice(a, b, 8);
  }
}
