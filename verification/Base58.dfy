/** Monero's block base58: eight bytes to eleven symbols, shorter last block. */
module Base58 {
  import opened Words
  import opened Numerals
  import IntUtil

  /** The alphabet: digits and letters without 0, O, I and l. */
  function Symbol(d: nat): char
    requires d < 58
  {
    if d < 9 then '1' + d as char
    else if d < 17 then 'A' + (d - 9) as char
    else if d < 22 then 'J' + (d - 17) as char
    else if d < 33 then 'P' + (d - 22) as char
    else if d < 44 then 'a' + (d - 33) as char
    else 'm' + (d - 44) as char
  }

  /** Position of a letter in the alphabet; 58 for any other character. */
  function Letter(c: char): (d: nat)
    ensures d <= 58
  {
    if '1' <= c <= '9' then c as int - '1' as int
    else if 'A' <= c <= 'H' then c as int - 'A' as int + 9
    else if 'J' <= c <= 'N' then c as int - 'J' as int + 17
    else if 'P' <= c <= 'Z' then c as int - 'P' as int + 22
    else if 'a' <= c <= 'k' then c as int - 'a' as int + 33
    else if 'm' <= c <= 'z' then c as int - 'm' as int + 44
    else 58
  }

  const ALPHABET := "123456789" + "ABCDEFGH" + "JKLMN" + "PQRSTUVWXYZ" + "abcdefghijk" + "mnopqrstuvwxyz"

  lemma SymbolIs(d: nat)
    requires d < 58
    ensures |ALPHABET| == 58 && Symbol(d) == ALPHABET[d]
  {
    hide Symbol;
    SymbolCode(d);
    if d < 9 {
      assert ALPHABET[d] == "123456789"[d];
    } else if d < 17 {
      assert ALPHABET[d] == "ABCDEFGH"[d - 9];
    } else if d < 22 {
      assert ALPHABET[d] == "JKLMN"[d - 17];
    } else if d < 33 {
      assert ALPHABET[d] == "PQRSTUVWXYZ"[d - 22];
    } else if d < 44 {
      assert ALPHABET[d] == "abcdefghijk"[d - 33];
    } else {
      assert ALPHABET[d] == "mnopqrstuvwxyz"[d - 44];
    }
  }

  lemma SymbolCode(d: nat)
    requires d < 58
    ensures Symbol(d) as int == if d < 9 then 49 + d else if d < 17 then 56 + d else if d < 22 then 57 + d
                                else if d < 33 then 58 + d else if d < 44 then 64 + d else 65 + d
  {}

  lemma LetterOfSymbol(d: nat)
    requires d < 58
    ensures Letter(Symbol(d)) == d
  {}

  lemma SymbolOfLetter(c: char)
    requires Letter(c) < 58
    ensures Symbol(Letter(c)) == c
  {}

  /** A reverse lookup table: -1 except at alphabet letters. */
  ghost predicate IsReverse(table: seq<int>) {
    && |table| == 74
    && forall c: char :: '1' <= c <= 'z' ==>
         table[c as int - '1' as int] == if Letter(c) < 58 then Letter(c) else -1
  }

  /** The table built at start-up. */
  method ReverseAlphabet() returns (table: array<int>)
    ensures fresh(table) && IsReverse(table[..])
  {
    table := new int[74](i => -1);
    for i := 0 to 58
      invariant forall c: char :: '1' <= c <= 'z' ==>
                  table[c as int - '1' as int] == if Letter(c) < i then Letter(c) else -1
    {
      LetterOfSymbol(i);
      table[Symbol(i) as int - '1' as int] := i;
      forall c: char | '1' <= c <= 'z' && Letter(c) == i
        ensures c == Symbol(i)
      {
        SymbolOfLetter(c);
      }
    }
  }

  method Lookup(c: char, table: array<int>) returns (d: int)
    requires IsReverse(table[..])
    ensures d == if Letter(c) < 58 then Letter(c) else -1
  {
    assert table.Length == |table[..]|;
    if '1' <= c <= 'z' {
      d := table[c as int - '1' as int];
      assert d == table[..][c as int - '1' as int];
    } else {
      d := -1;
    }
  }

  // ----- Specification -----

  /** Symbols that a block of `k` bytes takes. */
  function EncodedSize(k: nat): (w: nat)
    requires k <= 8
    ensures w <= 11 && (k == 0 <==> w == 0)
  {
    if k == 0 then 0 else if k <= 2 then k + 1 else if k <= 5 then k + 2 else k + 3
  }

  /** Bytes that a block of `w` symbols holds; -1 if no block has that size. */
  function DecodedSize(w: nat): (k: int)
    requires w <= 11
    ensures k <= 8 && (k >= 0 ==> EncodedSize(k) == w)
  {
    if w == 0 then 0 else if w == 1 || w == 4 || w == 8 then -1
    else if w <= 3 then w - 1 else if w <= 7 then w - 2 else w - 3
  }

  lemma DecodedOfEncoded(k: nat)
    requires k <= 8
    ensures DecodedSize(EncodedSize(k)) == k
  {}

  function Symbols(ds: seq<nat>): (t: string)
    requires AllBelow(58, ds)
    ensures |t| == |ds|
  {
    seq(|ds|, i requires 0 <= i < |ds| => Symbol(ds[i]))
  }

  function Letters(t: string): (ds: seq<nat>)
    ensures |ds| == |t|
  {
    seq(|t|, i requires 0 <= i < |t| => Letter(t[i]))
  }

  /** The block's big-endian value as a fixed-width base-58 numeral. */
  function EncodeBlockF(b: Bytes): (t: string)
    requires |b| <= 8
    ensures |t| == EncodedSize(|b|)
  {
    Symbols(Digits(58, EncodedSize(|b|), Value(256, b)))
  }

  /** The inverse: only letters, a block size, and a value the bytes can hold. */
  function DecodeBlockF(t: string): Option<Bytes>
    requires |t| <= 11
  {
    var k := DecodedSize(|t|);
    var ds := Letters(t);
    if k <= 0 || !AllLetters(t) || Value(58, ds) >= Pow(256, k)
    then None
    else Some(Digits(256, k, Value(58, ds)))
  }

  function EncodeF(data: Bytes): string {
    if data == [] then ""
    else if |data| < 8 then EncodeBlockF(data)
    else EncodeBlockF(data[..8]) + EncodeF(data[8..])
  }

  function DecodeF(t: string): Option<Bytes> {
    if t == "" then Some([])
    else if |t| < 11 then DecodeBlockF(t)
    else
      match (DecodeBlockF(t[..11]), DecodeF(t[11..]))
      case (Some(b), Some(rest)) => Some(b + rest)
      case _ => None
  }

  // ----- Blocks -----

  /** A block of symbols has room for every value of its bytes. */
  lemma BlockRoom(k: nat)
    requires k <= 8
    ensures Pow(256, k) <= Pow(58, EncodedSize(k))
    ensures EncodedSize(k) == [0, 2, 3, 5, 6, 7, 9, 10, 11][k]
  {
    PowValues();
  }

  lemma PowValues()
    ensures Pow(256, 0) == 1 && Pow(256, 1) == 0x100 && Pow(256, 2) == 0x1_0000 && Pow(256, 3) == 0x100_0000
    ensures Pow(256, 4) == 0x1_0000_0000 && Pow(256, 5) == 0x100_0000_0000
    ensures Pow(256, 6) == 0x1_0000_0000_0000 && Pow(256, 7) == 0x100_0000_0000_0000
    ensures Pow(256, 8) == 0x1_0000_0000_0000_0000
    ensures Pow(58, 0) == 1 && Pow(58, 2) == 3364 && Pow(58, 3) == 195112 && Pow(58, 5) == 656356768
    ensures Pow(58, 6) == 38068692544 && Pow(58, 7) == 2207984167552 && Pow(58, 9) == 7427658739644928
    ensures Pow(58, 10) == 430804206899405824 && Pow(58, 11) == 24986644000165537792
  {}

  lemma LettersOfSymbols(ds: seq<nat>)
    requires AllBelow(58, ds)
    ensures Letters(Symbols(ds)) == ds
  {
    forall i | 0 <= i < |ds| ensures Letters(Symbols(ds))[i] == ds[i] { LetterOfSymbol(ds[i]); }
  }

  /** The symbols of a block and its bytes are numerals of one number, most significant
      first. */
  lemma BlockMeans(b: Bytes)
    requires |b| <= 8
    ensures Value(58, Letters(EncodeF(b))) == Value(256, b)
  {
    hide Digits;
    var w := EncodedSize(|b|);
    assert AllBelow(256, b);
    ValueBelow(256, b);
    BlockRoom(|b|);
    LettersOfSymbols(Digits(58, w, Value(256, b)));
    ValueOfDigits(58, w, Value(256, b));
    OneBlock(b);
  }

  lemma OneBlock(b: Bytes)
    requires |b| <= 8
    ensures EncodeF(b) == EncodeBlockF(b)
  {
    if |b| == 8 {
      assert b[..8] == b && b[8..] == [];
      assert EncodeBlockF(b) + "" == EncodeBlockF(b);
    }
  }

  /** Whole blocks of eight bytes are encoded one by one. */
  lemma {:induction false} EncodeJoins(a: Bytes, b: Bytes)
    requires |a| % 8 == 0
    ensures EncodeF(a + b) == EncodeF(a) + EncodeF(b)
    decreases |a|
  {
    hide EncodeBlockF;
    if a == [] {
      assert a + b == b;
    } else {
      assert (a + b)[..8] == a[..8] && (a + b)[8..] == a[8..] + b;
      EncodeJoins(a[8..], b);
      Assoc(EncodeBlockF(a[..8]), EncodeF(a[8..]), EncodeF(b));
    }
  }

  /** Eleven symbols for eight bytes, and for a shorter rest what the table says. */
  lemma {:induction false} EncodedLength(data: Bytes)
    ensures |EncodeF(data)| == 11 * (|data| / 8) + [0, 2, 3, 5, 6, 7, 9, 10][|data| % 8]
    decreases |data|
  {
    hide EncodeBlockF, EncodedSize;
    BlockRoom(8);
    if |data| < 8 {
      OneBlock(data);
      BlockRoom(|data|);
    } else {
      EncodedLength(data[8..]);
      assert |data[8..]| / 8 == |data| / 8 - 1 && |data[8..]| % 8 == |data| % 8;
    }
  }

  lemma SymbolsOfLetters(t: string)
    requires AllBelow(58, Letters(t))
    ensures Symbols(Letters(t)) == t
  {
    forall i | 0 <= i < |t| ensures Symbols(Letters(t))[i] == t[i] {
      assert Letters(t)[i] == Letter(t[i]);
      SymbolOfLetter(t[i]);
    }
  }

  lemma DecodeEncodeBlock(b: Bytes)
    requires 1 <= |b| <= 8
    ensures DecodeBlockF(EncodeBlockF(b)) == Some(b)
  {
    var k := |b|;
    var w, n := EncodedSize(k), Value(256, b);
    DecodedOfEncoded(k);
    ValueBelow(256, b);
    BlockRoom(k);
    LettersOfSymbols(Digits(58, w, n));
    ValueOfDigits(58, w, n);
    DigitsOfValue(256, b);
  }

  lemma EncodeDecodeBlock(t: string)
    requires |t| <= 11 && DecodeBlockF(t).Some?
    ensures var b := DecodeBlockF(t).value;
            1 <= |b| <= 8 && EncodeBlockF(b) == t
  {
    var k := DecodedSize(|t|);
    var ds := Letters(t);
    ValueOfDigits(256, k, Value(58, ds));
    DigitsOfValue(58, ds);
    SymbolsOfLetters(t);
  }

  /** Every byte string comes back. */
  lemma {:induction false} DecodeEncode(data: Bytes)
    ensures DecodeF(EncodeF(data)) == Some(data)
    decreases |data|
  {
    if 0 < |data| < 8 {
      DecodeEncodeBlock(data);
    } else if |data| >= 8 {
      var b, rest := data[..8], data[8..];
      DecodeEncodeBlock(b);
      DecodeEncode(rest);
      var t := EncodeF(data);
      assert t[..11] == EncodeBlockF(b) && t[11..] == EncodeF(rest);
      assert b + rest == data;
    }
  }

  /** Every accepted string is the encoding of its value. */
  lemma {:induction false} EncodeDecode(t: string)
    requires DecodeF(t).Some?
    ensures EncodeF(DecodeF(t).value) == t
    decreases |t|
  {
    if 0 < |t| < 11 {
      EncodeDecodeBlock(t);
      DecodedBelow8(t);
    } else if |t| >= 11 {
      EncodeDecodeBlock(t[..11]);
      EncodeDecode(t[11..]);
      var b, rest := DecodeBlockF(t[..11]).value, DecodeF(t[11..]).value;
      assert (b + rest)[..8] == b && (b + rest)[8..] == rest;
    }
  }

  lemma DecodedBelow8(t: string)
    requires |t| < 11 && DecodeBlockF(t).Some?
    ensures |DecodeBlockF(t).value| < 8
  {}

  // ----- The code: blocks written in place -----

  /** `uint_8be_to_64`. */
  method BytesToWord(b: Bytes) returns (res: u64)
    requires 1 <= |b| <= 8
    ensures res == Value(256, b)
  {
    res := 0;
    PowValues();
    for i := 0 to |b|
      invariant res == Value(256, b[..i])
    {
      assert b[..i + 1] == b[..i] + [b[i]];
      ValueSnoc(256, b[..i], b[i]);
      ByteValueFits(b[..i + 1]);
      res := res as int * 256 + b[i];
    }
    assert b[..|b|] == b;
  }

  lemma ByteValueFits(b: Bytes)
    requires |b| <= 8
    ensures Value(256, b) < 0x1_0000_0000_0000_0000
  {
    ValueBelow(256, b);
    PowValues();
  }

  lemma {:induction false} DigitsOfZero(w: nat)
    ensures Symbols(Digits(58, w, 0)) == Fill(w)
  {
    if w > 0 {
      DigitsOfZero(w - 1);
      SymbolStep(w, 0);
    }
  }

  /** One more symbol from the right. */
  lemma SymbolStep(w: nat, n: nat)
    requires w > 0
    ensures Symbols(Digits(58, w, n)) == Symbols(Digits(58, w - 1, n / 58)) + [Symbol(n % 58)]
  {}

  lemma NumStep(w: nat, n: nat, t: string)
    requires 0 < n < Pow(58, w) && w <= |t| && Symbols(Digits(58, w, n)) == t[..w]
    ensures w > 0 && n / 58 < Pow(58, w - 1)
    ensures Symbols(Digits(58, w - 1, n / 58)) == t[..w - 1] && Symbol(n % 58) == t[w - 1]
  {
    if w > 0 {
      DivBelow(n, 58, Pow(58, w - 1));
      SymbolStep(w, n);
      hide Symbols, Digits, Symbol, Pow;
      var u := Symbols(Digits(58, w - 1, n / 58));
      assert t[..w][..w - 1] == t[..w - 1];
      assert (u + [Symbol(n % 58)])[..w - 1] == u;
      assert t[..w][w - 1] == t[w - 1];
    }
  }

  function Fill(n: nat): (t: string)
    ensures |t| == n
  {
    seq(n, i => '1')
  }

  lemma PutStep(r: string, before: string, i: nat, t: string, after: string)
    requires i < |t| && r == before + Fill(i + 1) + t[i + 1..] + after
    ensures r[|before| + i := t[i]] == before + Fill(i) + t[i..] + after
  {}

  lemma BlockStarts(block: Bytes)
    requires 1 <= |block| <= 8
    ensures var w, t, num := EncodedSize(|block|), EncodeBlockF(block), Value(256, block);
            num < Pow(58, w) && Symbols(Digits(58, w, num)) == t[..w]
  {
    ValueBelow(256, block);
    BlockRoom(|block|);
    hide EncodedSize, Value, Pow, Digits, Symbols;
    var t := EncodeBlockF(block);
    assert t[..|t|] == t;
  }

  lemma FillStarts(r: string, at: nat, w: nat, t: string)
    requires at + w <= |r| && |t| == w && r[at..at + w] == Fill(w)
    ensures r == r[..at] + Fill(w) + t[w..] + r[at + w..]
  {
    hide Fill;
    assert r == r[..at] + r[at..at + w] + r[at + w..];
    assert t[w..] == [];
  }

  /** `encode_block`: writes into a stretch of `res` pre-filled with the zero symbol
      and never before its start. */
  method EncodeBlock(block: Bytes, res: array<char>, at: nat)
    requires 1 <= |block| <= 8 && at + EncodedSize(|block|) <= res.Length
    requires res[at..at + EncodedSize(|block|)] == Fill(EncodedSize(|block|))
    modifies res
    ensures res[..] == old(res[..at]) + EncodeBlockF(block) + old(res[at + EncodedSize(|block|)..])
  {
    var num := BytesToWord(block);
    ghost var t, w := EncodeBlockF(block), EncodedSize(|block|);
    BlockStarts(block);
    FillStarts(res[..], at, w, t);
    hide EncodeBlockF, Symbols, Digits, Pow, Value, Fill;
    PutSymbols(num, EncodedSize(|block|) - 1, res, at, t, res[..at], res[at + w..]);
  }

  /** The digit loop of `encode_block`; `t` is the text to appear between `before`
      and `after`, and only zero symbols stand where it goes. */
  method PutSymbols(number: u64, last: nat, res: array<char>, at: nat,
                    ghost t: string, ghost before: string, ghost after: string)
    requires |t| == last + 1 && |before| == at && number < Pow(58, last + 1)
    requires Symbols(Digits(58, last + 1, number)) == t[..last + 1]
    requires res[..] == before + Fill(last + 1) + t[last + 1..] + after
    modifies res
    ensures res[..] == before + t + after
  {
    hide Symbols, Digits, Symbol, Pow, Fill;
    var num, i: int := number, last;
    while 0 < num
      invariant -1 <= i <= last && 0 <= num < Pow(58, i + 1)
      invariant Symbols(Digits(58, i + 1, num)) == t[..i + 1]
      invariant res[..] == before + Fill(i + 1) + t[i + 1..] + after
    {
      NumStep(i + 1, num, t);
      PutStep(res[..], before, i, t, after);
      var remainder := num % 58;
      num := num / 58;
      res[at + i] := Symbol(remainder);
      i := i - 1;
    }
    DigitsOfZero(i + 1);
    AssocMiddle(before, t[..i + 1], t[i + 1..], after);
    assert t[..i + 1] + t[i + 1..] == t;
  }

  /** What the digit loop of `decode_block` computes: `None` on a foreign symbol or
      on 64-bit overflow, else the value. */
  function DigitSum(t: string): Option<u64> {
    if AllLetters(t) && Value(58, Letters(t)) < 0x1_0000_0000_0000_0000
    then Some(Value(58, Letters(t)))
    else None
  }

  predicate AllLetters(t: string) {
    forall i :: 0 <= i < |t| ==> Letter(t[i]) < 58
  }

  lemma AllLettersCons(c: char, t: string)
    ensures AllLetters([c] + t) <==> Letter(c) < 58 && AllLetters(t)
  {
    hide Letter;
    var u := [c] + t;
    assert u[0] == c && forall i :: 0 <= i < |t| ==> u[i + 1] == t[i];
  }

  lemma LettersCons(c: char, t: string)
    ensures Letters([c] + t) == [Letter(c)] + Letters(t)
  {
    hide Letter;
  }

  lemma DigitSumCons(c: char, t: string)
    ensures Value(58, Letters([c] + t)) == Pow(58, |t|) * Letter(c) + Value(58, Letters(t))
  {
    LettersCons(c, t);
    hide Value, Pow, Letter, Letters;
    ValueCons(58, Letter(c), Letters(t));
  }

  lemma SumSuffix(c: char, u: string)
    requires DigitSum([c] + u).Some?
    ensures DigitSum(u).Some?
  {
    DigitSumCons(c, u);
    AllLettersCons(c, u);
    hide Value, Letter, Pow, AllLetters, Letters;
    MulMono(Pow(58, |u|), 0, Letter(c));
  }

  /** Dropping leading symbols of an accepted text leaves an accepted text. */
  lemma {:induction false} DigitSumSuffix(t: string, i: nat)
    requires i <= |t| && DigitSum(t).Some?
    ensures DigitSum(t[i..]).Some?
    decreases i
  {
    if i > 0 {
      DigitSumSuffix(t, i - 1);
      assert t[i - 1..] == [t[i - 1]] + t[i..];
      SumSuffix(t[i - 1], t[i..]);
    } else {
      assert t[0..] == t;
    }
  }

  lemma {:induction false} PowSmall(n: nat)
    requires n <= 10
    ensures Pow(58, n) < 0x1_0000_0000_0000_0000
  {
    if n < 10 { PowMono(n, 10); }
    PowValues();
  }

  lemma {:induction false} PowMono(a: nat, b: nat)
    requires a <= b
    ensures Pow(58, a) <= Pow(58, b)
    decreases b
  {
    if a < b { PowMono(a, b - 1); }
  }

  /** The sum of one more leading symbol worth `product`. */
  lemma SumCase(c: char, u: string, sum: u64, product: nat)
    requires DigitSum(u) == Some(sum) && Value(58, Letters([c] + u)) == product + sum
    requires Letter(c) < 58
    ensures DigitSum([c] + u) == if sum + product < 0x1_0000_0000_0000_0000 then Some(sum + product) else None
  {
    AllLettersCons(c, u);
    hide Value, Letter, AllLetters, Letters;
  }

  lemma NotLetter(c: char, u: string)
    requires Letter(c) == 58
    ensures DigitSum([c] + u) == None
  {
    AllLettersCons(c, u);
  }

  lemma ProductIs(c: char, u: string, sum: u64, order: nat, digit: nat, product: nat)
    requires DigitSum(u) == Some(sum) && order == Pow(58, |u|) && digit == Letter(c) && product == order * digit
    ensures Value(58, Letters([c] + u)) == product + sum
  {
    hide Value, Letter, Pow, AllLetters, Letters;
    DigitSumCons(c, u);
  }

  lemma OrderStep(order: u64, n: nat)
    requires n <= 10 && order == Pow(58, n)
    ensures n < 10 ==> order as int * 58 % 0x1_0000_0000_0000_0000 == Pow(58, n + 1)
  {
    if n < 10 { PowSmall(n + 1); }
  }

  /** One digit times its weight added to the sum, with both overflow tests. */
  method AddDigit(resNum: u64, order: u64, digit: u64, ghost c: char, ghost u: string) returns (fits: bool, tmp: u64)
    requires DigitSum(u) == Some(resNum) && order == Pow(58, |u|) && digit == Letter(c) < 58
    ensures DigitSum([c] + u) == if fits then Some(tmp) else None
  {
    hide DigitSum, Pow, Letter;
    var lo, hi := IntUtil.Mul128(order, digit);
    ghost var product := hi as int * 0x1_0000_0000_0000_0000 + lo;
    ProductIs(c, u, resNum, order, digit, product);
    SumCase(c, u, resNum, product);
    tmp := (resNum as int + lo) % 0x1_0000_0000_0000_0000;
    fits := !(tmp < resNum || hi != 0);
    OverflowTests(resNum, lo, hi, tmp);
  }

  lemma OverflowTests(a: u64, lo: u64, hi: u64, tmp: u64)
    requires tmp == (a as int + lo) % 0x1_0000_0000_0000_0000
    ensures var sum := a + (hi as int * 0x1_0000_0000_0000_0000 + lo);
            if tmp < a || hi != 0 then sum >= 0x1_0000_0000_0000_0000
            else sum == tmp
  {}

  lemma SuffixCons(t: string, i: nat)
    requires i < |t|
    ensures t[i..] == [t[i]] + t[i + 1..]
  {}

  lemma Refused(t: string, i: nat)
    requires i < |t| && DigitSum([t[i]] + t[i + 1..]) == None
    ensures DigitSum(t) == None
  {
    SuffixCons(t, i);
    if DigitSum(t).Some? { DigitSumSuffix(t, i); }
  }

  /** The loop of `decode_block`: least significant symbol first, with both overflow
      tests. `order` wraps after the eleventh symbol, when it is no longer used. */
  method SumDigits(t: string, table: array<int>) returns (ok: bool, resNum: u64)
    requires 1 <= |t| <= 11 && IsReverse(table[..])
    ensures DigitSum(t) == if ok then Some(resNum) else None
  {
    resNum := 0;
    var order: u64 := 1;
    var i: int := |t| - 1;
    assert DigitSum(t[i + 1..]) == Some(0);
    assert order == Pow(58, 0);
    hide DigitSum, Pow, Letter, IsReverse, AllLetters;
    while i >= 0
      invariant -1 <= i < |t|
      invariant DigitSum(t[i + 1..]) == Some(resNum)
      invariant |t| - 1 - i <= 10 ==> order == Pow(58, |t| - 1 - i)
    {
      ghost var u := t[i + 1..];
      var digit := Lookup(t[i], table);
      if digit < 0 {
        NotLetter(t[i], u);
        Refused(t, i);
        return false, 0;
      }
      var fits;
      fits, resNum := AddDigit(resNum, order, digit, t[i], u);
      if !fits {
        Refused(t, i);
        return false, 0;
      }
      OrderStep(order, |u|);
      SuffixCons(t, i);
      order := (order as int * 58) % 0x1_0000_0000_0000_0000;
      i := i - 1;
    }
    assert t[0..] == t;
    ok := true;
  }

  /** The `k` low bytes of a word: a byte-swapped copy taken from its end. */
  function WordToBytes(n: u64, k: nat): (b: Bytes)
    requires 1 <= k <= 8
    ensures |b| == k
  {
    Digits(256, 8, n)[8 - k..]
  }

  /** `decode_block`: fills `res` from `at` if and only if the block is accepted. */
  method DecodeBlock(block: string, table: array<int>, res: array<byte>, at: nat) returns (ok: bool)
    requires 1 <= |block| <= 11 && IsReverse(table[..])
    requires at + DecodedSize(|block|) <= res.Length
    modifies res
    ensures ok <==> DecodeBlockF(block).Some?
    ensures ok ==> res[..] == old(res[..at]) + DecodeBlockF(block).value + old(res[at + DecodedSize(|block|)..])
  {
    hide DigitSum, WordToBytes, Pow, IsReverse, AllLetters, Letters, Value, Digits;
    var k := DecodedSize(|block|);
    if k <= 0 { return false; }
    var sum;
    ok, sum := SumDigits(block, table);
    BlockVerdict(block);
    if !ok { return; }
    if k < 8 && Pow(256, k) <= sum { return false; }
    hide DecodeBlockF;
    PutBytes(WordToBytes(sum, k), res, at);
  }

  method PutBytes(b: Bytes, res: array<byte>, at: nat)
    requires at + |b| <= res.Length
    modifies res
    ensures res[..] == old(res[..at]) + b + old(res[at + |b|..])
  {
    forall j | 0 <= j < |b| { res[at + j] := b[j]; }
  }

  lemma BlockVerdict(t: string)
    requires 1 <= |t| <= 11 && DecodedSize(|t|) > 0
    ensures var k := DecodedSize(|t|);
            match DigitSum(t)
            case None => DecodeBlockF(t) == None
            case Some(n) =>
              if k < 8 && Pow(256, k) <= n then DecodeBlockF(t) == None
              else DecodeBlockF(t) == Some(WordToBytes(n, k))
  {
    var k := DecodedSize(|t|);
    PowValues();
    PowMono256(k);
    if DigitSum(t).Some? { DigitsSuffix(256, k, 8, DigitSum(t).value); }
  }

  lemma PowMono256(k: nat)
    requires k <= 8
    ensures Pow(256, k) <= 0x1_0000_0000_0000_0000
    ensures k == 8 ==> Pow(256, k) == 0x1_0000_0000_0000_0000
  {
    PowValues();
  }

  // ----- The code: whole strings -----

  lemma Less8(n: nat)
    requires n >= 8
    ensures (n - 8) % 8 == n % 8 && (n - 8) / 8 == n / 8 - 1
  {}

  lemma {:induction false} EncodeLength(data: Bytes)
    ensures |EncodeF(data)| == |data| / 8 * 11 + EncodedSize(|data| % 8)
    decreases |data|
  {
    if |data| >= 8 {
      hide EncodedSize, EncodeBlockF;
      EncodeLength(data[8..]);
      Less8(|data|);
    }
  }

  /** Where block `i` of the data lands in the text. */
  lemma {:induction false} EncodeAt(data: Bytes, i: nat)
    requires 8 * i <= |data|
    ensures |EncodeF(data)| >= 11 * i && EncodeF(data)[11 * i..] == EncodeF(data[8 * i..])
    decreases i
  {
    if i == 0 {
      assert data[0..] == data;
    } else {
      var t := EncodeF(data);
      EncodeAt(data[8..], i - 1);
      assert data[8..][8 * (i - 1)..] == data[8 * i..];
      assert t[11..] == EncodeF(data[8..]);
      assert t[11..][11 * (i - 1)..] == t[11 * i..];
    }
  }

  /** The next stretch of a text is written between what was and what is to come. */
  lemma Written(r: string, t: string, at: nat, w: nat, piece: string)
    requires at + w <= |t| && |piece| == w && t[at..at + w] == piece
    requires r == t[..at] + Fill(|t| - at)
    ensures r[at..at + w] == Fill(w)
    ensures r[..at] + piece + r[at + w..] == t[..at + w] + Fill(|t| - (at + w))
  {}

  /** The full blocks of `encode`. */
  method EncodeFull(data: Bytes, full: nat, res: array<char>)
    requires 8 * full <= |data| && res[..] == Fill(|EncodeF(data)|)
    modifies res
    ensures |EncodeF(data)| >= 11 * full
    ensures res[..] == EncodeF(data)[..11 * full] + Fill(|EncodeF(data)| - 11 * full)
  {
    ghost var t := EncodeF(data);
    assert t[..0] + Fill(|t|) == Fill(|t|);
    hide EncodeBlockF, Fill, EncodeF;
    for i := 0 to full
      invariant |t| >= 11 * i && res[..] == t[..11 * i] + Fill(|t| - 11 * i)
    {
      var block := data[i * 8..i * 8 + 8];
      NextBlock(data, i);
      Written(res[..], t, 11 * i, 11, EncodeBlockF(block));
      EncodeBlock(block, res, i * 11);
    }
  }

  /** `encode`. */
  method Encode(data: Bytes) returns (text: string)
    ensures text == EncodeF(data)
  {
    hide EncodeBlockF, EncodeF, EncodedSize;
    if data == [] {
      EncodeNothing();
      return "";
    }
    var full, last := |data| / 8, |data| % 8;
    assert |data| == 8 * full + last;
    ghost var t := EncodeF(data);
    EncodeLength(data);
    var res := new char[full * 11 + EncodedSize(last)](i => '1');
    assert res[..] == Fill(|t|);
    EncodeFull(data, full, res);
    if 0 < last {
      var block := data[full * 8..];
      LastBlock(data, full, last);
      Written(res[..], t, 11 * full, EncodedSize(last), EncodeBlockF(block));
      EncodeBlock(block, res, full * 11);
    }
    text := res[..];
    assert t[..|t|] + Fill(0) == t;
  }

  lemma EncodeNothing()
    ensures EncodeF([]) == ""
  {}

  lemma LastBlock(data: Bytes, full: nat, last: nat)
    requires |data| == 8 * full + last && 0 < last < 8
    ensures |EncodeF(data)| == 11 * full + EncodedSize(last)
    ensures EncodeF(data)[11 * full..11 * full + EncodedSize(last)] == EncodeBlockF(data[full * 8..])
  {
    hide EncodeBlockF, EncodedSize;
    EncodeAt(data, full);
    var t, block := EncodeF(data), data[8 * full..];
    assert EncodeF(block) == EncodeBlockF(block);
    assert t[11 * full..] == t[11 * full..|t|];
  }

  lemma NextBlock(data: Bytes, i: nat)
    requires 8 * i + 8 <= |data|
    ensures |EncodeF(data)| >= 11 * i + 11
    ensures EncodeF(data)[11 * i..11 * i + 11] == EncodeBlockF(data[i * 8..i * 8 + 8])
  {
    EncodeAt(data, i);
    var rest := data[8 * i..];
    assert rest[..8] == data[i * 8..i * 8 + 8];
    assert EncodeF(data)[11 * i..][..11] == EncodeF(data)[11 * i..11 * i + 11];
  }

  function Prepend(b: Bytes, o: Option<Bytes>): Option<Bytes> {
    if o.None? then None else Some(b + o.value)
  }

  lemma DecodeStep(t: string, done: Bytes)
    requires |t| >= 11
    ensures Prepend(done, DecodeF(t)) ==
            if DecodeBlockF(t[..11]).None? then None
            else Prepend(done + DecodeBlockF(t[..11]).value, DecodeF(t[11..]))
  {
    hide DecodeBlockF;
    if DecodeBlockF(t[..11]).Some? && DecodeF(t[11..]).Some? {
      var b, rest := DecodeBlockF(t[..11]).value, DecodeF(t[11..]).value;
      assert done + (b + rest) == done + b + rest;
    }
  }

  /** A text whose last block has no valid size is refused. */
  lemma {:induction false} BadLength(t: string)
    requires DecodedSize(|t| % 11) < 0
    ensures DecodeF(t) == None
    decreases |t|
  {
    if |t| >= 11 {
      assert |t[11..]| % 11 == |t| % 11;
      BadLength(t[11..]);
    }
  }

  lemma DecodeTail(t: string, done: Bytes)
    requires |t| < 11
    ensures Prepend(done, DecodeF(t)) == if t == "" then Some(done) else Prepend(done, DecodeBlockF(t))
  {
    assert done + [] == done;
  }

  /** The full blocks of `decode`. */
  method DecodeFull(enc: string, full: nat, table: array<int>, res: array<byte>) returns (ok: bool)
    requires 11 * full <= |enc| && 8 * full <= res.Length && IsReverse(table[..])
    modifies res
    ensures if ok then DecodeF(enc) == Prepend(res[..8 * full], DecodeF(enc[11 * full..]))
            else DecodeF(enc) == None
  {
    hide DecodeBlockF, IsReverse, DecodeF;
    assert enc[0..] == enc;
    PrependEmpty(DecodeF(enc));
    for i := 0 to full
      invariant DecodeF(enc) == Prepend(res[..8 * i], DecodeF(enc[11 * i..]))
    {
      ghost var rest, done := enc[11 * i..], res[..8 * i];
      var block := enc[11 * i..11 * i + 11];
      DecodeStep(rest, done);
      assert rest[..11] == block && rest[11..] == enc[11 * (i + 1)..];
      ok := DecodeBlock(block, table, res, 8 * i);
      if !ok { return; }
      assert res[..8 * (i + 1)] == done + DecodeBlockF(block).value;
    }
    ok := true;
  }

  /** `decode`. */
  method Decode(enc: string) returns (ok: bool, data: Bytes)
    ensures DecodeF(enc) == if ok then Some(data) else None
  {
    if enc == "" { return true, []; }
    var table := ReverseAlphabet();
    var full, last := |enc| / 11, |enc| % 11;
    var lastSize := DecodedSize(last);
    if lastSize < 0 {
      BadLength(enc);
      return false, [];
    }
    var res := new byte[full * 8 + lastSize](i => 0);
    hide DecodeBlockF, IsReverse, DecodeF;
    ok := DecodeFull(enc, full, table, res);
    if !ok { return false, []; }
    ghost var tail, done := enc[11 * full..], res[..8 * full];
    DecodeTail(tail, done);
    if 0 < last {
      ok := DecodeBlock(enc[11 * full..], table, res, 8 * full);
      if !ok { return false, []; }
      assert res[..] == done + DecodeBlockF(tail).value;
    } else {
      assert res[..] == done;
    }
    return true, res[..];
  }

  lemma PrependEmpty(o: Option<Bytes>)
    ensures Prepend([], o) == o
  {
    if o.Some? { assert [] + o.value == o.value; }
  }
}
