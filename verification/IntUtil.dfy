/** 64x64 -> 128 bit multiplication and 128/32 bit long division on machine words. */
module IntUtil {
  import opened Words

  lemma MulBound(x: int, y: int, n: int)
    requires 0 <= x < n && 0 <= y < n
    ensures 0 <= x * y <= (n - 1) * (n - 1)
  {
    MulMono(x, y, n - 1);
    MulMono(n - 1, x, n - 1);
  }

  /** Schoolbook product of two two-digit numbers in base 2^32. */
  lemma Schoolbook(a: int, b: int, c: int, d: int)
    ensures (a * 0x1_0000_0000 + b) * (c * 0x1_0000_0000 + d)
         == a * c * 0x1_0000_0000_0000_0000 + (a * d + b * c) * 0x1_0000_0000 + b * d
  {
    var x, y := a * 0x1_0000_0000, c * 0x1_0000_0000;
    assert (x + b) * (y + d) == x * (y + d) + b * (y + d);
    assert x * (y + d) == x * y + x * d && b * (y + d) == b * y + b * d;
    assert x * y == a * c * 0x1_0000_0000_0000_0000;
    assert x * d == a * d * 0x1_0000_0000 && b * y == b * c * 0x1_0000_0000;
  }

  /** `mul128`: every intermediate is a 64-bit word, and the two words returned are
      the exact product. */
  method Mul128(multiplier: u64, multiplicand: u64) returns (productLo: u64, productHi: u64)
    ensures productHi * 0x1_0000_0000_0000_0000 + productLo == multiplier * multiplicand
  {
    var a, b := multiplier / 0x1_0000_0000, multiplier % 0x1_0000_0000;
    var c, d := multiplicand / 0x1_0000_0000, multiplicand % 0x1_0000_0000;
    MulBound(a, c, 0x1_0000_0000);
    MulBound(a, d, 0x1_0000_0000);
    MulBound(b, c, 0x1_0000_0000);
    MulBound(b, d, 0x1_0000_0000);
    var ac: u64 := a * c;
    var ad: u64 := a * d;
    var bc: u64 := b * c;
    var bd: u64 := b * d;
    Schoolbook(a, b, c, d);
    productLo, productHi := AddProducts(ac, ad, bc, bd);
  }

  /** The additions of `mul128`, with both carries. */
  method AddProducts(ac: u64, ad: u64, bc: u64, bd: u64) returns (productLo: u64, productHi: u64)
    requires ac <= 0xFFFF_FFFE_0000_0001 && ad <= 0xFFFF_FFFE_0000_0001
    requires bc <= 0xFFFF_FFFE_0000_0001 && bd <= 0xFFFF_FFFE_0000_0001
    requires ac * 0x1_0000_0000_0000_0000 + (ad + bc) * 0x1_0000_0000 + bd
          <= 0xFFFF_FFFF_FFFF_FFFF * 0xFFFF_FFFF_FFFF_FFFF
    ensures productHi * 0x1_0000_0000_0000_0000 + productLo
         == ac * 0x1_0000_0000_0000_0000 + (ad + bc) * 0x1_0000_0000 + bd
    ensures ac <= productHi
  {
    var adbc: int := (ad + bc) % 0x1_0000_0000_0000_0000;
    var adbcCarry := if adbc < ad then 1 else 0;
    productLo := (bd + adbc * 0x1_0000_0000 % 0x1_0000_0000_0000_0000) % 0x1_0000_0000_0000_0000;
    var productLoCarry := if productLo < bd then 1 else 0;
    productHi := (ac + adbc / 0x1_0000_0000 + adbcCarry * 0x1_0000_0000 + productLoCarry) % 0x1_0000_0000_0000_0000;
    Carried(ad, bc);
    Shifted(adbc);
    Carried(bd, adbc % 0x1_0000_0000 * 0x1_0000_0000);
  }

  /** The carry out of a 64-bit addition shows as a sum below its first operand. */
  lemma Carried(x: u64, y: u64)
    ensures var s := (x as int + y) % 0x1_0000_0000_0000_0000;
            x as int + y == s + (if s < x then 0x1_0000_0000_0000_0000 else 0)
  {}

  /** Shifting a 64-bit word left by 32 drops its upper half. */
  lemma Shifted(x: u64)
    ensures x as int * 0x1_0000_0000 % 0x1_0000_0000_0000_0000 == x % 0x1_0000_0000 * 0x1_0000_0000
    ensures x as int == x / 0x1_0000_0000 * 0x1_0000_0000 + x % 0x1_0000_0000
  {}

  /** `div_with_reminder`: one base-2^32 digit of the quotient. */
  method DivWithRemainder(dividend: u32, divisor: u32, remainder: u32) returns (quotient: u32, remainder': u32)
    requires remainder < divisor
    ensures remainder * 0x1_0000_0000 + dividend == quotient * divisor + remainder'
    ensures remainder' < divisor
  {
    var full := remainder * 0x1_0000_0000 + dividend;
    remainder' := full % divisor;
    QuotientFits(full, divisor);
    quotient := full / divisor;
    assert full == divisor * (full / divisor) + full % divisor;
  }

  lemma QuotientFits(full: nat, divisor: u32)
    requires 0 < divisor && full < divisor * 0x1_0000_0000
    ensures full / divisor < 0x1_0000_0000
  {
    var q := full / divisor;
    assert full == divisor * q + full % divisor;
    if q >= 0x1_0000_0000 {
      MulMono(divisor, 0x1_0000_0000, q);
    }
  }

  /** `div128_32`: long division, one 32-bit digit at a time. */
  method Div128By32(dividendHi: u64, dividendLo: u64, divisor: u32)
    returns (quotientHi: u64, quotientLo: u64, remainder: u32)
    requires divisor != 0
    ensures dividendHi * 0x1_0000_0000_0000_0000 + dividendLo
         == (quotientHi * 0x1_0000_0000_0000_0000 + quotientLo) * divisor + remainder
    ensures remainder < divisor
  {
    var d3, d2 := dividendHi / 0x1_0000_0000, dividendHi % 0x1_0000_0000;
    var d1, d0 := dividendLo / 0x1_0000_0000, dividendLo % 0x1_0000_0000;
    var q3, r3 := DivWithRemainder(d3, divisor, 0);
    var q2, r2 := DivWithRemainder(d2, divisor, r3);
    var q1, r1 := DivWithRemainder(d1, divisor, r2);
    var q0, r0 := DivWithRemainder(d0, divisor, r1);
    quotientHi := q3 as int * 0x1_0000_0000 + q2;
    quotientLo := q1 as int * 0x1_0000_0000 + q0;
    remainder := r0;
    FourDigits(q3, q2, q1, q0, divisor);
  }

  lemma FourDigits(q3: int, q2: int, q1: int, q0: int, d: int)
    ensures ((q3 * 0x1_0000_0000 + q2) * 0x1_0000_0000_0000_0000 + (q1 * 0x1_0000_0000 + q0)) * d
         == (q3 * d) * 0x1_0000_0000_0000_0000_0000_0000 + (q2 * d) * 0x1_0000_0000_0000_0000
            + (q1 * d) * 0x1_0000_0000 + q0 * d
  {
    var a, b := q3 * 0x1_0000_0000_0000_0000_0000_0000, q2 * 0x1_0000_0000_0000_0000;
    var c := q1 * 0x1_0000_0000;
    assert (a + b + c + q0) * d == a * d + b * d + c * d + q0 * d;
    assert a * d == (q3 * d) * 0x1_0000_0000_0000_0000_0000_0000;
    assert b * d == (q2 * d) * 0x1_0000_0000_0000_0000;
    assert c * d == (q1 * d) * 0x1_0000_0000;
  }

  /** Quotient and remainder are unique. */
  lemma DivisionUnique(q: int, r: int, q': int, r': int, d: int)
    requires 0 <= r < d && 0 <= r' < d && q * d + r == q' * d + r'
    ensures q == q' && r == r'
  {
    assert d * (q - q') == r' - r;
    if q > q' { MulMono(d, 1, q - q'); }
    if q < q' { MulMono(d, q - q', -1); }
  }

  /** Multiplying by a nonzero 32-bit value and dividing by it again is the identity. */
  method MulThenDivide(x: u64, d: u32) returns (quotientHi: u64, quotientLo: u64, remainder: u32)
    requires d != 0
    ensures quotientHi == 0 && quotientLo == x && remainder == 0
  {
    var lo, hi := Mul128(x, d);
    quotientHi, quotientLo, remainder := Div128By32(hi, lo, d);
    DivisionUnique(quotientHi * 0x1_0000_0000_0000_0000 + quotientLo, remainder, x, 0, d);
  }
}
