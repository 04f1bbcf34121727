/** BLAKE-256 buffering, counter and padding.

    The compression function is a parameter: everything here holds for every
    function from (chaining value, 64-byte block, low and high counter word) to a
    chaining value. A state whose `nullt` flag is set hands it a zero counter,
    which is what not xoring the counter words in amounts to. */
module Blake256 {
  import opened Words
  import opened Numerals

  type Chain = h: seq<u32> | |h| == 8 witness [0, 0, 0, 0, 0, 0, 0, 0]
  type Compress = (Chain, Bytes, u32, u32) -> Chain

  /** Messages are shorter than 2^61 bytes, so that a bit count fits 64 bits. */
  predicate Countable(n: nat) {
    n < 0x2000_0000_0000_0000
  }

  const IV256: Chain := [0x6A09E667, 0xBB67AE85, 0x3C6EF372, 0xA54FF53A,
                         0x510E527F, 0x9B05688C, 0x1F83D9AB, 0x5BE0CD19]
  const IV224: Chain := [0xC1059ED8, 0x367CD507, 0x3070DD17, 0xF70E5939,
                         0xFFC00B31, 0x68581511, 0x64F98FA7, 0xBEFA4FA4]

  /** `root` is the integer part of the square root of `n`. */
  predicate Root(root: nat, n: nat) {
    root * root <= n < (root + 1) * (root + 1)
  }

  /** The initial values are fractional bits of square roots of primes: for BLAKE-256 the
      first 32 of the first eight primes, for BLAKE-224 the second 32 of the next eight. */
  lemma InitialValues(i: nat)
    requires i < 8
    ensures var p, whole := [2, 3, 5, 7, 11, 13, 17, 19][i], [1, 1, 2, 2, 3, 3, 4, 4][i];
            Root(whole * 0x1_0000_0000 + IV256[i] as int, p * 0x1_0000_0000_0000_0000)
    ensures var p, whole := [23, 29, 31, 37, 41, 43, 47, 53][i], [4, 5, 5, 6, 6, 6, 6, 7][i];
            var first := [0xCBBB9D5D, 0x629A292A, 0x9159015A, 0x152FECD8, 0x67332667, 0x8EB44A87, 0xDB0C2E0D, 0x47B5481D][i];
            Root(whole * 0x1_0000_0000_0000_0000 + first * 0x1_0000_0000 + IV224[i] as int,
                 p * 0x1_0000_0000_0000_0000_0000_0000_0000_0000)
  {
    if i == 0 {} else if i == 1 {} else if i == 2 {} else if i == 3 {} else if i == 4 {} else if i == 5 {} else if i == 6 {}
  }

  function Zeros(n: nat): (z: Bytes)
    ensures |z| == n && forall i :: 0 <= i < n ==> z[i] == 0
  {
    seq(n, i => 0)
  }

  /** The 64 byte table of one 0x80 followed by zeros. */
  function Padding(): (p: Bytes)
    ensures |p| == 64
  {
    [0x80] + Zeros(63)
  }

  /** Big-endian bytes of a 32-bit word. */
  function BE32(v: u32): (b: Bytes)
    ensures |b| == 4
  {
    [v / 0x100_0000, v / 0x1_0000 % 0x100, v / 0x100 % 0x100, v % 0x100]
  }

  function BE64(hi: u32, lo: u32): (b: Bytes)
    ensures |b| == 8
  {
    BE32(hi) + BE32(lo)
  }

  /** The digest bytes of a chaining value. */
  function WordBytes(h: Chain): (b: Bytes)
    ensures |b| == 32
  {
    BE32(h[0]) + BE32(h[1]) + BE32(h[2]) + BE32(h[3]) + BE32(h[4]) + BE32(h[5]) + BE32(h[6]) + BE32(h[7])
  }

  lemma FourBytes(a: byte, b: byte, c: byte, d: byte)
    ensures Value(256, [a, b, c, d]) == 0x100_0000 * a as int + 0x1_0000 * b as int + 0x100 * c as int + d as int
  {
    hide Value;
    ValueNone(256);
    ValueSnoc(256, [], a);
    ValueSnoc(256, [a], b);
    ValueSnoc(256, [a, b], c);
    ValueSnoc(256, [a, b, c], d);
    assert [] + [a] == [a] && [a] + [b] == [a, b] && [a, b] + [c] == [a, b, c] && [a, b, c] + [d] == [a, b, c, d];
  }

  lemma BE32Value(v: u32)
    ensures Value(256, BE32(v)) == v
  {
    FourBytes(BE32(v)[0], BE32(v)[1], BE32(v)[2], BE32(v)[3]);
    ByteSplit(v);
  }

  lemma ByteSplit(v: int)
    ensures v / 0x1_0000 == 0x100 * (v / 0x100_0000) + v / 0x1_0000 % 0x100
    ensures v / 0x100 == 0x100 * (v / 0x1_0000) + v / 0x100 % 0x100
  {
    assert v / 0x1_0000 / 0x100 == v / 0x100_0000;
    assert v / 0x100 / 0x100 == v / 0x1_0000;
  }

  /** Four bytes of the digest are one word of the chaining value, in base 256 with the
      most significant byte first. */
  lemma DigestWords(h: Chain, i: nat)
    requires i < 8
    ensures Value(256, WordBytes(h)[4 * i..4 * i + 4]) == h[i]
  {
    hide BE32;
    BE32Value(h[i]);
    assert WordBytes(h)[4 * i..4 * i + 4] == BE32(h[i]);
  }

  // ----- Specification: section 2.1.3 of the BLAKE submission, in bytes -----

  /** The 64-bit big-endian message length in bits. */
  function LengthField(bits: nat): (b: Bytes)
    requires bits < 0x1_0000_0000_0000_0000
    ensures |b| == 8
  {
    BE64(bits / 0x1_0000_0000, bits % 0x1_0000_0000)
  }

  /** A one bit, zero bits up to 447 modulo 512, the closing bit. `one` is the byte
      used when both marker bits share it, `close` the byte that holds the closing
      bit alone. */
  function Markers(r: nat, one: byte, close: byte): (p: Bytes)
    requires r < 64
    ensures r + |p| == if r <= 55 then 56 else 120
  {
    var gap := (if r <= 55 then 55 else 119) - r;
    if gap == 0 then [one] else [0x80] + Zeros(gap - 1) + [close]
  }

  function Padded(m: Bytes, one: byte, close: byte): (p: Bytes)
    requires Countable(|m|)
    ensures |p| == 64 * (|m| / 64 + (if |m| % 64 <= 55 then 1 else 2))
  {
    m + Markers(|m| % 64, one, close) + LengthField(8 * |m|)
  }

  /** Byte by byte: the message, the one bit, zeros, the closing bit, the length. */
  lemma PaddedBytes(m: Bytes, one: byte, close: byte, i: nat)
    requires Countable(|m|) && i < |Padded(m, one, close)|
    ensures var p := Padded(m, one, close);
            p[i] == if i < |m| then m[i]
                    else if |p| - 8 <= i then LengthField(8 * |m|)[i - (|p| - 8)]
                    else if |m| % 64 == 55 then one
                    else if i == |m| then 0x80
                    else if i == |p| - 9 then close
                    else 0
  {
    var d := Markers(|m| % 64, one, close);
    if |m| <= i < |m| + |d| { assert Padded(m, one, close)[i] == d[i - |m|]; }
  }

  /** The length field is the length in bits, in base 256 with the most significant byte
      first. */
  lemma LengthFieldValue(bits: nat)
    requires bits < 0x1_0000_0000_0000_0000
    ensures Value(256, LengthField(bits)) == bits
  {
    hide BE32;
    var hi, lo := BE32(bits / 0x1_0000_0000), BE32(bits % 0x1_0000_0000);
    BE32Value(bits / 0x1_0000_0000);
    BE32Value(bits % 0x1_0000_0000);
    ValueJoin(256, hi, lo);
    assert Pow(256, 4) == 0x1_0000 * Pow(256, 2) && Pow(256, 2) == 0x1_0000;
  }

  /** Padding loses nothing: different messages have different padded messages. */
  lemma PaddedInjective(m: Bytes, m': Bytes, one: byte, close: byte)
    requires Countable(|m|) && Countable(|m'|)
    requires Padded(m, one, close) == Padded(m', one, close)
    ensures m == m'
  {
    hide Markers, LengthField, Value;
    var p := Padded(m, one, close);
    assert p[|p| - 8..] == LengthField(8 * |m|) == LengthField(8 * |m'|);
    LengthFieldValue(8 * |m|);
    LengthFieldValue(8 * |m'|);
    assert p[..|m|] == m && p[..|m'|] == m';
  }

  /** Message bits up to and including block `i` of a padded message; zero for a
      block that holds no message bit. */
  function Counter(len: nat, i: nat): nat {
    if len <= 64 * i then 0 else if len < 64 * i + 64 then 8 * len else 512 * (i + 1)
  }

  /** The count handed over with a block: the message bits before its end, if the block
      has any. */
  lemma CounterBits(len: nat, i: nat)
    ensures Counter(len, i) <= 8 * len && Counter(len, i) <= 512 * (i + 1)
    ensures Counter(len, i) == 0 <==> len <= 64 * i
    ensures len > 64 * i ==> Counter(len, i) == 8 * len || (Counter(len, i) == 512 * (i + 1) && 64 * (i + 1) <= len)
  {}

  function CompressCounted(c: Compress, h: Chain, b: Bytes, bits: nat): Chain {
    c(h, b, bits % 0x1_0000_0000, bits / 0x1_0000_0000 % 0x1_0000_0000)
  }

  /** Chaining value after the first `n` blocks of `p`, `len` bytes of it message. */
  function Fold(c: Compress, iv: Chain, p: Bytes, len: nat, n: nat): Chain
    requires 64 * n <= |p|
  {
    if n == 0 then iv
    else CompressCounted(c, Fold(c, iv, p, len, n - 1), p[64 * (n - 1)..64 * n], Counter(len, n - 1))
  }

  /** The final chaining value of a message; a digest is its bytes. */
  function HashSpec(c: Compress, iv: Chain, m: Bytes, one: byte, close: byte): Chain
    requires Countable(|m|)
  {
    var p := Padded(m, one, close);
    Fold(c, iv, p, |m|, |p| / 64)
  }

  // ----- The state and its operations -----

  /** The fields the compression step reads and writes. */
  datatype Core = Core(h: Chain, t0: u32, t1: u32, nullt: bool)

  datatype St = St(core: Core, buflen: nat, buf: Bytes)

  predicate Wf(s: St) {
    |s.buf| == 64 && s.buflen < 512 && s.buflen % 8 == 0
  }

  function AddT0(k: Core, bits: int): Core {
    k.(t0 := (k.t0 + bits) % 0x1_0000_0000)
  }

  /** Count 512 more bits and compress block `b`. */
  function BlockF(c: Compress, k: Core, b: Bytes): Core {
    var t0: u32 := (k.t0 + 512) % 0x1_0000_0000;
    var t1: u32 := if t0 == 0 then (k.t1 + 1) % 0x1_0000_0000 else k.t1;
    k.(t0 := t0, t1 := t1, h := if k.nullt then c(k.h, b, 0, 0) else c(k.h, b, t0, t1))
  }

  /** Compress the whole blocks of `data` in order; also returns what is left over. */
  function RunF(c: Compress, k: Core, data: Bytes): (r: (Core, Bytes))
    ensures |r.1| == |data| % 64
    decreases |data|
  {
    if |data| < 64 then (k, data) else RunF(c, BlockF(c, k, data[..64]), data[64..])
  }

  /** The buffer and its bit count after the final copy of an update. */
  function StoreF(run: (Core, Bytes), buf: Bytes, left: nat): St
    requires |buf| == 64 && left + |run.1| <= 64
  {
    var rest := run.1;
    if |rest| > 0
    then St(run.0, 8 * (left + |rest|), buf[..left] + rest + buf[left + |rest|..])
    else St(run.0, 0, buf)
  }

  /** What `blake256_update` does to the whole state. */
  function UpdateF(c: Compress, s: St, data: Bytes): (r: St)
    requires Wf(s)
    ensures Wf(r)
  {
    var left := s.buflen / 8;
    var fill := 64 - left;
    if left > 0 && |data| % 64 >= fill then
      var b := s.buf[..left] + data[..fill];
      StoreF(RunF(c, BlockF(c, s.core, b), data[fill..]), b, 0)
    else
      StoreF(RunF(c, s.core, data), s.buf, left)
  }

  /** High and low message-length word computed on entry to `blake256_final_h`. */
  function MsgHi(s: St): u32 {
    if MsgLo(s) < s.buflen then (s.core.t1 + 1) % 0x1_0000_0000 else s.core.t1
  }

  function MsgLo(s: St): u32 {
    (s.core.t0 + s.buflen) % 0x1_0000_0000
  }

  /** The updates of `blake256_final_h` before the one that appends the length. */
  function PadF(c: Compress, s: St, pa: byte, pb: byte): (r: St)
    requires Wf(s)
    ensures Wf(r)
  {
    if s.buflen == 440 then
      UpdateF(c, s.(core := AddT0(s.core, -8)), [pa])
    else if s.buflen < 440 then
      var k := if s.buflen == 0 then s.core.(nullt := true) else s.core;
      var s1 := UpdateF(c, s.(core := AddT0(k, s.buflen - 440)), Padding()[..55 - s.buflen / 8]);
      var s2 := UpdateF(c, s1, [pb]);
      s2.(core := AddT0(s2.core, -8))
    else
      var s1 := UpdateF(c, s.(core := AddT0(s.core, s.buflen - 512)), Padding()[..64 - s.buflen / 8]);
      var s2 := UpdateF(c, s1.(core := AddT0(s1.core, -440)), Padding()[1..56]);
      var s3 := UpdateF(c, s2.(core := s2.core.(nullt := true)), [pb]);
      s3.(core := AddT0(s3.core, -8))
  }

  /** What `blake256_final_h` does to the whole state. */
  function FinalF(c: Compress, s: St, pa: byte, pb: byte): (r: St)
    requires Wf(s)
    ensures Wf(r)
  {
    var s' := PadF(c, s, pa, pb);
    UpdateF(c, s'.(core := AddT0(s'.core, -64)), BE64(MsgHi(s), MsgLo(s)))
  }

  // ----- What a state stands for -----

  /** `k` is the result of compressing exactly the first `q` blocks of `m`. */
  ghost predicate Compressed(c: Compress, iv: Chain, k: Core, m: Bytes, q: nat) {
    && 64 * q <= |m|
    && !k.nullt
    && k.t0 + 0x1_0000_0000 * k.t1 == 512 * q
    && k.h == Fold(c, iv, m, |m|, q)
  }

  ghost predicate AbsorbedAt(c: Compress, iv: Chain, s: St, m: Bytes, q: nat) {
    && 64 * q <= |m| < 64 * q + 64
    && |s.buf| == 64
    && s.buflen == 8 * (|m| - 64 * q)
    && s.buf[..|m| - 64 * q] == m[64 * q..]
    && Compressed(c, iv, s.core, m, q)
  }

  /** `s` is what hashing is at after absorbing exactly the message `m`. */
  ghost predicate Absorbed(c: Compress, iv: Chain, s: St, m: Bytes) {
    AbsorbedAt(c, iv, s, m, |m| / 64)
  }

  /** Chunk lengths for which an update with `r` buffered bytes loses nothing. */
  predicate Streams(r: nat, n: nat) {
    r == 0 || 0 < n < 64 || n % 64 >= 64 - r
  }

  lemma {:induction false} FoldPrefix(c: Compress, iv: Chain, p: Bytes, len: nat, p': Bytes, len': nat, n: nat)
    requires 64 * n <= |p| && 64 * n <= |p'| && p[..64 * n] == p'[..64 * n]
    requires 64 * n <= len && 64 * n <= len'
    ensures Fold(c, iv, p, len, n) == Fold(c, iv, p', len', n)
  {
    if n > 0 {
      assert p[..64 * (n - 1)] == p[..64 * n][..64 * (n - 1)];
      assert p'[..64 * (n - 1)] == p'[..64 * n][..64 * (n - 1)];
      assert p[64 * (n - 1)..64 * n] == p[..64 * n][64 * (n - 1)..];
      assert p'[64 * (n - 1)..64 * n] == p'[..64 * n][64 * (n - 1)..];
      FoldPrefix(c, iv, p, len, p', len', n - 1);
    }
  }

  lemma CompressWords(c: Compress, h: Chain, b: Bytes, lo: u32, hi: u32)
    ensures CompressCounted(c, h, b, lo + 0x1_0000_0000 * hi) == c(h, b, lo, hi)
  {
    var bits := lo + 0x1_0000_0000 * hi;
    assert bits / 0x1_0000_0000 == hi && bits % 0x1_0000_0000 == lo;
  }

  /** Adding 512 to the low word carries exactly when it reaches zero. */
  lemma CounterStep(c: Compress, k: Core, b: Bytes, q: nat)
    requires k.t0 + 0x1_0000_0000 * k.t1 == 512 * q && Countable(64 * q + 64)
    ensures var k' := BlockF(c, k, b);
            && k'.t0 + 0x1_0000_0000 * k'.t1 == 512 * (q + 1)
            && (!k.nullt ==> k'.h == c(k.h, b, k'.t0, k'.t1))
  {
    assert k.t0 == 512 * (q - 0x80_0000 * k.t1);
  }

  lemma BlockAbsorbs(c: Compress, iv: Chain, k: Core, m: Bytes, q: nat, b: Bytes, m': Bytes)
    requires Compressed(c, iv, k, m, q) && |b| == 64 && Countable(64 * q + 64)
    requires |m'| >= 64 * q + 64 && m'[..64 * q] == m[..64 * q] && m'[64 * q..64 * (q + 1)] == b
    ensures Compressed(c, iv, BlockF(c, k, b), m', q + 1)
  {
    var k' := BlockF(c, k, b);
    CounterStep(c, k, b, q);
    FoldPrefix(c, iv, m, |m|, m', |m'|, q);
    assert Counter(|m'|, q) == 512 * (q + 1);
    CompressWords(c, k.h, b, k'.t0, k'.t1);
  }

  lemma CompressedPrefix(c: Compress, iv: Chain, k: Core, m: Bytes, q: nat, m': Bytes)
    requires Compressed(c, iv, k, m, q) && |m'| >= 64 * q && m'[..64 * q] == m[..64 * q]
    ensures Compressed(c, iv, k, m', q)
  {
    FoldPrefix(c, iv, m, |m|, m', |m'|, q);
  }

  /** Reading the rest of `m` from a block boundary with an empty buffer. */
  lemma {:induction false} RunAbsorbs(c: Compress, iv: Chain, k: Core, buf: Bytes, m: Bytes, q: nat, data: Bytes)
    requires Compressed(c, iv, k, m, q) && Countable(|m|) && |buf| == 64
    requires data == m[64 * q..]
    ensures Absorbed(c, iv, StoreF(RunF(c, k, data), buf, 0), m)
    decreases |data|
  {
    if |data| < 64 {
      DivMod64(|m|, q);
    } else {
      BlockAbsorbs(c, iv, k, m, q, data[..64], m);
      RunAbsorbs(c, iv, BlockF(c, k, data[..64]), buf, m, q + 1, data[64..]);
    }
  }

  lemma DivMod64(n: nat, q: nat)
    requires 64 * q <= n < 64 * q + 64
    ensures n / 64 == q && n % 64 == n - 64 * q
  {}

  lemma AbsorbedWf(c: Compress, iv: Chain, s: St, m: Bytes)
    requires Absorbed(c, iv, s, m)
    ensures Wf(s)
  {}

  lemma UpdateAligned(c: Compress, iv: Chain, s: St, m: Bytes, q: nat, data: Bytes)
    requires AbsorbedAt(c, iv, s, m, q) && Countable(|m| + |data|) && |m| == 64 * q
    ensures Wf(s) && Absorbed(c, iv, UpdateF(c, s, data), m + data)
  {
    CompressedPrefix(c, iv, s.core, m, q, m + data);
    RunAbsorbs(c, iv, s.core, s.buf, m + data, q, data);
  }

  lemma BlockOfSum(m: Bytes, data: Bytes, q: nat)
    requires 64 * q <= |m| <= 64 * (q + 1) <= |m| + |data|
    ensures (m + data)[..64 * q] == m[..64 * q]
    ensures (m + data)[64 * q..64 * (q + 1)] == m[64 * q..] + data[..64 * (q + 1) - |m|]
    ensures (m + data)[64 * (q + 1)..] == data[64 * (q + 1) - |m|..]
  {}

  lemma UpdateFills(c: Compress, iv: Chain, s: St, m: Bytes, q: nat, data: Bytes)
    requires AbsorbedAt(c, iv, s, m, q) && Countable(|m| + |data|)
    requires |m| > 64 * q && |data| % 64 >= 64 * q + 64 - |m|
    ensures Wf(s) && Absorbed(c, iv, UpdateF(c, s, data), m + data)
  {
    hide UpdateF, BlockF, RunF, StoreF, Fold;
    var r := |m| - 64 * q;
    var m' := m + data;
    var b := m[64 * q..] + data[..64 - r];
    BlockOfSum(m, data, q);
    BlockAbsorbs(c, iv, s.core, m, q, b, m');
    RunAbsorbs(c, iv, BlockF(c, s.core, b), b, m', q + 1, data[64 - r..]);
    UpdateFilled(c, s, data, r);
  }

  lemma UpdateFilled(c: Compress, s: St, data: Bytes, r: nat)
    requires Wf(s) && s.buflen == 8 * r > 0 && |data| % 64 >= 64 - r
    ensures var b := s.buf[..r] + data[..64 - r];
            UpdateF(c, s, data) == StoreF(RunF(c, BlockF(c, s.core, b), data[64 - r..]), b, 0)
  {
    hide BlockF, StoreF;
    assert s.buflen / 8 == r;
  }

  lemma UpdateSmall(c: Compress, s: St, data: Bytes)
    requires Wf(s) && |data| < 64 - s.buflen / 8
    ensures UpdateF(c, s, data) == StoreF((s.core, data), s.buf, s.buflen / 8)
  {}

  lemma UpdateAppends(c: Compress, iv: Chain, s: St, m: Bytes, q: nat, data: Bytes)
    requires AbsorbedAt(c, iv, s, m, q) && 0 < |data| < 64 * q + 64 - |m|
    ensures Wf(s) && Absorbed(c, iv, UpdateF(c, s, data), m + data)
  {
    UpdateSmall(c, s, data);
    CompressedPrefix(c, iv, s.core, m, q, m + data);
    DivMod64(|m + data|, q);
  }

  /** An update that streams leaves the state of the longer message. */
  lemma UpdateAbsorbs(c: Compress, iv: Chain, s: St, m: Bytes, data: Bytes)
    requires Absorbed(c, iv, s, m) && Countable(|m| + |data|)
    requires Streams(|m| % 64, |data|)
    ensures Wf(s) && Absorbed(c, iv, UpdateF(c, s, data), m + data)
  {
    var q, r := |m| / 64, |m| % 64;
    if r == 0 {
      UpdateAligned(c, iv, s, m, q, data);
    } else if |data| % 64 >= 64 - r {
      UpdateFills(c, iv, s, m, q, data);
    } else {
      UpdateAppends(c, iv, s, m, q, data);
    }
  }

  // ----- Finalisation -----

  lemma UpdateFull(c: Compress, s: St, data: Bytes)
    requires Wf(s) && s.buflen > 0 && |data| == 64 - s.buflen / 8
    ensures var b := s.buf[..s.buflen / 8] + data;
            UpdateF(c, s, data) == St(BlockF(c, s.core, b), 0, b)
  {
    assert data[..64 - s.buflen / 8] == data;
    assert data[64 - s.buflen / 8..] == [];
  }

  /** Two small updates in a row. */
  lemma TwoSmall(c: Compress, s: St, a: Bytes, b: Bytes)
    requires Wf(s) && 0 < |a| && 0 < |b| && |a| + |b| < 64 - s.buflen / 8
    ensures var s' := UpdateF(c, UpdateF(c, s, a), b);
            var n := s.buflen / 8 + |a| + |b|;
            s'.core == s.core && s'.buflen == 8 * n && s'.buf[..n] == s.buf[..s.buflen / 8] + (a + b)
  {
    hide UpdateF;
    UpdateSmall(c, s, a);
    UpdateSmall(c, UpdateF(c, s, a), b);
  }

  lemma AddT0Sum(k: Core, a: int, b: int)
    ensures AddT0(AddT0(k, a), b) == AddT0(k, a + b)
  {}

  /** Subtracting `512 - bits` first makes the next block count only `bits`. */
  lemma BlockCounts(c: Compress, k: Core, bits: nat, b: Bytes)
    requires 0 < bits < 512 && k.t0 + bits < 0x1_0000_0000
    ensures var k' := BlockF(c, AddT0(k, bits - 512), b);
            && k'.t0 == k.t0 + bits && k'.t1 == k.t1 && k'.nullt == k.nullt
            && (!k.nullt ==> k'.h == c(k.h, b, k.t0 + bits, k.t1))
  {}

  lemma MsgLenIs(s: St, n: nat, q: nat)
    requires 64 * q <= n < 64 * q + 64 && Countable(n) && s.buflen == 8 * (n - 64 * q)
    requires s.core.t0 + 0x1_0000_0000 * s.core.t1 == 512 * q
    ensures MsgHi(s) == s.core.t1 == 8 * n / 0x1_0000_0000
    ensures MsgLo(s) == s.core.t0 + s.buflen == 8 * n % 0x1_0000_0000
  {
    assert s.core.t0 == 512 * (q - 0x80_0000 * s.core.t1);
  }

  /** One more block on top of the compressed ones. */
  lemma FoldLast(c: Compress, iv: Chain, k: Core, m: Bytes, q: nat, p: Bytes)
    requires Compressed(c, iv, k, m, q) && |p| >= 64 * q + 64 && m[..64 * q] == p[..64 * q]
    ensures Fold(c, iv, p, |m|, q + 1) == CompressCounted(c, k.h, p[64 * q..64 * (q + 1)], Counter(|m|, q))
  {
    FoldPrefix(c, iv, m, |m|, p, |m|, q);
  }

  lemma PaddedSplit(m: Bytes, q: nat, one: byte, close: byte)
    requires Countable(|m|) && 64 * q <= |m| < 64 * q + 64
    ensures Padded(m, one, close)
         == m[..64 * q] + (m[64 * q..] + Markers(|m| - 64 * q, one, close) + LengthField(8 * |m|))
    ensures |Padded(m, one, close)| == 64 * (if |m| - 64 * q <= 55 then q + 1 else q + 2)
  {
    var w, t, mk, lf := m[..64 * q], m[64 * q..], Markers(|m| - 64 * q, one, close), LengthField(8 * |m|);
    DivMod64(|m|, q);
    assert m == w + t;
    assert w + t + mk + lf == w + (t + mk + lf);
  }

  lemma PadExact(c: Compress, s: St, pa: byte, pb: byte)
    requires Wf(s) && s.buflen == 440
    ensures var s' := PadF(c, s, pa, pb);
            && AddT0(s'.core, -64) == AddT0(s.core, -72)
            && s'.buflen == 448 && s'.buf[..56] == s.buf[..55] + [pa]
  {
    UpdateSmall(c, s.(core := AddT0(s.core, -8)), [pa]);
    AddT0Sum(s.core, -8, -64);
  }

  lemma PadUnder(c: Compress, s: St, pa: byte, pb: byte, r: nat, k: Core)
    requires Wf(s) && s.buflen == 8 * r < 440
    requires k == if r == 0 then s.core.(nullt := true) else s.core
    ensures var s' := PadF(c, s, pa, pb);
            && AddT0(s'.core, -64) == AddT0(k, 8 * r - 512)
            && s'.buflen == 448 && s'.buf[..56] == s.buf[..r] + (Padding()[..55 - r] + [pb])
  {
    hide UpdateF, Padding, AddT0;
    TwoSmall(c, s.(core := AddT0(k, 8 * r - 440)), Padding()[..55 - r], [pb]);
    AddT0Sum(k, 8 * r - 440, -8);
    AddT0Sum(k, 8 * r - 448, -64);
  }

  /** The state in which the length is appended, when one block suffices. */
  lemma PadShort(c: Compress, s: St, pa: byte, pb: byte, r: nat, k: Core)
    requires Wf(s) && s.buflen == 8 * r <= 440
    requires k == if r == 0 then s.core.(nullt := true) else s.core
    ensures var s' := PadF(c, s, pa, pb);
            && AddT0(s'.core, -64) == AddT0(k, 8 * r - 512)
            && s'.buflen == 448 && s'.buf[..56] == s.buf[..r] + Markers(r, pa, pb)
  {
    if r == 55 {
      PadExact(c, s, pa, pb);
    } else {
      MarkersShort(r, pa, pb);
      PadUnder(c, s, pa, pb, r, k);
    }
  }

  /** The counter of the block that holds the last message bytes. */
  lemma LastCounter(c: Compress, s: St, m: Bytes, q: nat, b: Bytes)
    requires 64 * q < |m| < 64 * q + 64 && Countable(|m|) && s.buflen == 8 * (|m| - 64 * q)
    requires s.core.t0 + 0x1_0000_0000 * s.core.t1 == 512 * q && !s.core.nullt
    ensures BlockF(c, AddT0(s.core, s.buflen - 512), b).h == CompressCounted(c, s.core.h, b, Counter(|m|, q))
  {
    MsgLenIs(s, |m|, q);
    BlockCounts(c, s.core, s.buflen, b);
    CompressWords(c, s.core.h, b, s.core.t0 + s.buflen, s.core.t1);
    assert Counter(|m|, q) == 8 * |m|;
  }

  lemma FinalShortState(c: Compress, s: St, pa: byte, pb: byte, r: nat, k: Core)
    requires Wf(s) && s.buflen == 8 * r <= 440
    requires k == if r == 0 then s.core.(nullt := true) else s.core
    ensures FinalF(c, s, pa, pb).core
         == BlockF(c, AddT0(k, 8 * r - 512), s.buf[..r] + Markers(r, pa, pb) + BE64(MsgHi(s), MsgLo(s)))
  {
    PadShort(c, s, pa, pb, r, k);
    var s' := PadF(c, s, pa, pb);
    UpdateFull(c, s'.(core := AddT0(s'.core, -64)), BE64(MsgHi(s), MsgLo(s)));
  }

  lemma FinalShort(c: Compress, iv: Chain, s: St, m: Bytes, q: nat, pa: byte, pb: byte, last: Bytes)
    requires AbsorbedAt(c, iv, s, m, q) && Countable(|m|) && |m| - 64 * q <= 55
    requires last == m[64 * q..] + Markers(|m| - 64 * q, pa, pb) + LengthField(8 * |m|)
    ensures Wf(s) && FinalF(c, s, pa, pb).core.h == CompressCounted(c, s.core.h, last, Counter(|m|, q))
  {
    hide FinalF, Markers, Padding;
    var r := |m| - 64 * q;
    MsgLenIs(s, |m|, q);
    if r == 0 {
      var k := s.core.(nullt := true);
      calc {
        FinalF(c, s, pa, pb).core.h;
        { FinalShortState(c, s, pa, pb, r, k); }
        BlockF(c, AddT0(k, -512), last).h;
        c(s.core.h, last, 0, 0);
        { CompressWords(c, s.core.h, last, 0, 0); }
        CompressCounted(c, s.core.h, last, Counter(|m|, q));
      }
    } else {
      calc {
        FinalF(c, s, pa, pb).core.h;
        { FinalShortState(c, s, pa, pb, r, s.core); }
        BlockF(c, AddT0(s.core, 8 * r - 512), last).h;
        { LastCounter(c, s, m, q, last); }
        CompressCounted(c, s.core.h, last, Counter(|m|, q));
      }
    }
  }

  /** The second padding block up to its length field. */
  lemma PadSecond(c: Compress, s: St, pb: byte)
    requires Wf(s) && s.buflen == 0
    ensures var s2 := UpdateF(c, s.(core := AddT0(s.core, -440)), Padding()[1..56]);
            var s3 := UpdateF(c, s2.(core := s2.core.(nullt := true)), [pb]);
            && s3.core.nullt && s3.core.h == s.core.h && s3.buflen == 448
            && s3.buf[..56] == Padding()[1..56] + [pb]
  {
    var s1 := s.(core := AddT0(s.core, -440));
    UpdateSmall(c, s1, Padding()[1..56]);
    var s2 := UpdateF(c, s1, Padding()[1..56]);
    UpdateSmall(c, s2.(core := s2.core.(nullt := true)), [pb]);
  }

  lemma FinalLongState(c: Compress, s: St, pa: byte, pb: byte, r: nat, k1: Core, b1: Bytes, b2: Bytes)
    requires Wf(s) && s.buflen == 8 * r > 440
    requires b1 == s.buf[..r] + Padding()[..64 - r]
    requires b2 == Padding()[1..56] + [pb] + BE64(MsgHi(s), MsgLo(s))
    requires k1 == BlockF(c, AddT0(s.core, 8 * r - 512), b1)
    ensures FinalF(c, s, pa, pb).core.h == c(k1.h, b2, 0, 0)
  {
    var s0 := s.(core := AddT0(s.core, 8 * r - 512));
    UpdateFull(c, s0, Padding()[..64 - r]);
    var s1 := St(k1, 0, b1);
    PadSecond(c, s1, pb);
    var s' := PadF(c, s, pa, pb);
    UpdateFull(c, s'.(core := AddT0(s'.core, -64)), BE64(MsgHi(s), MsgLo(s)));
  }

  /** The two final blocks when the markers and length do not fit one. */
  lemma FinalLong(c: Compress, iv: Chain, s: St, m: Bytes, q: nat, pa: byte, pb: byte, b1: Bytes, b2: Bytes)
    requires AbsorbedAt(c, iv, s, m, q) && Countable(|m|) && |m| - 64 * q > 55
    requires b1 == m[64 * q..] + Padding()[..64 * q + 64 - |m|]
    requires b2 == Padding()[1..56] + [pb] + LengthField(8 * |m|)
    ensures Wf(s) && FinalF(c, s, pa, pb).core.h
                  == CompressCounted(c, CompressCounted(c, s.core.h, b1, Counter(|m|, q)), b2, 0)
  {
    hide FinalF, Markers, Padding, BlockF, AddT0, Fold, BE32, Counter, CompressCounted;
    var r := |m| - 64 * q;
    MsgLenIs(s, |m|, q);
    var k1 := BlockF(c, AddT0(s.core, 8 * r - 512), b1);
    calc {
      FinalF(c, s, pa, pb).core.h;
      { FinalLongState(c, s, pa, pb, r, k1, b1, b2); }
      c(k1.h, b2, 0, 0);
      { CompressWords(c, k1.h, b2, 0, 0); }
      CompressCounted(c, k1.h, b2, 0);
      { LastCounter(c, s, m, q, b1); }
      CompressCounted(c, CompressCounted(c, s.core.h, b1, Counter(|m|, q)), b2, 0);
    }
  }

  /** The padded message after its whole blocks, when two more blocks follow. */
  lemma PaddedLong(m: Bytes, q: nat, pa: byte, pb: byte, b1: Bytes, b2: Bytes)
    requires Countable(|m|) && 64 * q + 55 < |m| < 64 * q + 64
    requires b1 == m[64 * q..] + Padding()[..64 * q + 64 - |m|]
    requires b2 == Padding()[1..56] + [pb] + LengthField(8 * |m|)
    ensures Padded(m, pa, pb) == m[..64 * q] + (b1 + b2)
  {
    var r := |m| - 64 * q;
    var t, x, y, lf := m[64 * q..], Padding()[..64 - r], Padding()[1..56] + [pb], LengthField(8 * |m|);
    calc {
      Padded(m, pa, pb);
      { PaddedSplit(m, q, pa, pb); }
      m[..64 * q] + (t + Markers(r, pa, pb) + lf);
      { MarkersLong(r, pa, pb); }
      m[..64 * q] + (t + (x + y) + lf);
      { AssocPairs(t, x, y, lf); }
      m[..64 * q] + (b1 + b2);
    }
  }

  lemma MarkersLong(r: nat, pa: byte, pb: byte)
    requires 55 < r < 64
    ensures Markers(r, pa, pb) == Padding()[..64 - r] + (Padding()[1..56] + [pb])
  {}

  lemma MarkersShort(r: nat, pa: byte, pb: byte)
    requires r < 55
    ensures Markers(r, pa, pb) == Padding()[..55 - r] + [pb]
  {}

  lemma SpecShort(c: Compress, iv: Chain, k: Core, m: Bytes, q: nat, pa: byte, pb: byte, last: Bytes)
    requires Compressed(c, iv, k, m, q) && Countable(|m|) && |m| < 64 * q + 56
    requires last == m[64 * q..] + Markers(|m| - 64 * q, pa, pb) + LengthField(8 * |m|)
    ensures HashSpec(c, iv, m, pa, pb) == CompressCounted(c, k.h, last, Counter(|m|, q))
  {
    PaddedSplit(m, q, pa, pb);
    OneBlock(m[..64 * q], last, q);
    FoldLast(c, iv, k, m, q, Padded(m, pa, pb));
  }

  lemma OneBlock<T>(w: seq<T>, b: seq<T>, q: nat)
    requires |w| == 64 * q && |b| == 64
    ensures var p := w + b;
            |p| / 64 == q + 1 && p[..64 * q] == w && p[64 * q..64 * (q + 1)] == b
  {}

  lemma SpecLong(c: Compress, iv: Chain, k: Core, m: Bytes, q: nat, pa: byte, pb: byte, b1: Bytes, b2: Bytes)
    requires Compressed(c, iv, k, m, q) && Countable(|m|) && 64 * q + 55 < |m| < 64 * q + 64
    requires b1 == m[64 * q..] + Padding()[..64 * q + 64 - |m|]
    requires b2 == Padding()[1..56] + [pb] + LengthField(8 * |m|)
    ensures HashSpec(c, iv, m, pa, pb)
         == CompressCounted(c, CompressCounted(c, k.h, b1, Counter(|m|, q)), b2, 0)
  {
    PaddedLong(m, q, pa, pb, b1, b2);
    TwoBlocks(m[..64 * q], b1, b2, q);
    FoldTwo(c, iv, k, m, q, Padded(m, pa, pb));
  }

  lemma TwoBlocks<T>(w: seq<T>, b1: seq<T>, b2: seq<T>, q: nat)
    requires |w| == 64 * q && |b1| == 64 && |b2| == 64
    ensures var p := w + (b1 + b2);
            && |p| / 64 == q + 2 && p[..64 * q] == w
            && p[64 * q..64 * (q + 1)] == b1 && p[64 * (q + 1)..64 * (q + 2)] == b2
  {}

  lemma FoldTwo(c: Compress, iv: Chain, k: Core, m: Bytes, q: nat, p: Bytes)
    requires Compressed(c, iv, k, m, q) && |m| < 64 * q + 64 && |p| == 64 * q + 128 && m[..64 * q] == p[..64 * q]
    ensures Fold(c, iv, p, |m|, q + 2)
         == CompressCounted(c, CompressCounted(c, k.h, p[64 * q..64 * (q + 1)], Counter(|m|, q)),
                            p[64 * (q + 1)..64 * (q + 2)], 0)
  {
    FoldLast(c, iv, k, m, q, p);
  }

  /** `blake256_final_h` yields the hash of everything absorbed. */
  lemma FinalHashes(c: Compress, iv: Chain, s: St, m: Bytes, pa: byte, pb: byte)
    requires Absorbed(c, iv, s, m) && Countable(|m|)
    ensures Wf(s) && FinalF(c, s, pa, pb).core.h == HashSpec(c, iv, m, pa, pb)
  {
    var q := |m| / 64;
    if |m| - 64 * q <= 55 {
      var last := m[64 * q..] + Markers(|m| - 64 * q, pa, pb) + LengthField(8 * |m|);
      FinalShort(c, iv, s, m, q, pa, pb, last);
      SpecShort(c, iv, s.core, m, q, pa, pb, last);
    } else {
      var b1 := m[64 * q..] + Padding()[..64 * q + 64 - |m|];
      var b2 := Padding()[1..56] + [pb] + LengthField(8 * |m|);
      FinalLong(c, iv, s, m, q, pa, pb, b1, b2);
      SpecLong(c, iv, s.core, m, q, pa, pb, b1, b2);
    }
  }

  // ----- Runs of updates -----

  function UpdateAll(c: Compress, s: St, chunks: seq<Bytes>): (r: St)
    requires Wf(s)
    ensures Wf(r)
    decreases |chunks|
  {
    if chunks == [] then s else UpdateAll(c, UpdateF(c, s, chunks[0]), chunks[1..])
  }

  /** Every chunk streams, given `n` bytes absorbed before the first. */
  predicate AllStream(n: nat, chunks: seq<Bytes>)
    decreases |chunks|
  {
    chunks != [] ==> Streams(n % 64, |chunks[0]|) && AllStream(n + |chunks[0]|, chunks[1..])
  }

  /** A run of streaming updates is at the state of the concatenated message. */
  lemma {:induction false} RunOfUpdates(c: Compress, iv: Chain, s: St, m: Bytes, chunks: seq<Bytes>)
    requires Absorbed(c, iv, s, m) && Countable(|m| + |Concat(chunks)|) && AllStream(|m|, chunks)
    ensures Wf(s) && Absorbed(c, iv, UpdateAll(c, s, chunks), m + Concat(chunks))
    decreases |chunks|
  {
    hide UpdateF, Absorbed, Streams, Wf;
    AbsorbedWf(c, iv, s, m);
    if chunks == [] {
      assert m + Concat(chunks) == m;
    } else {
      UpdateAbsorbs(c, iv, s, m, chunks[0]);
      RunOfUpdates(c, iv, UpdateF(c, s, chunks[0]), m + chunks[0], chunks[1..]);
      Assoc(m, chunks[0], Concat(chunks[1..]));
    }
  }

  ghost predicate UpdateCorrect(c: Compress, iv: Chain, s: St, m: Bytes, data: Bytes) {
    Wf(s) && Absorbed(c, iv, UpdateF(c, s, data), m + data)
  }

  lemma {:induction false} RunOfZeros(c: Compress, k: Core, n: nat)
    ensures RunF(c, k, Zeros(n)).1 == Zeros(n % 64)
    decreases n
  {
    var z := Zeros(n);
    if n >= 64 {
      assert z[64..] == Zeros(n - 64);
      RunOfZeros(c, BlockF(c, k, z[..64]), n - 64);
    }
  }

  function Ones(r: nat): (m: Bytes)
    ensures |m| == r
  {
    seq(r, i => 1)
  }

  /** The state after `r` ones: all buffered, nothing compressed yet. */
  function OnesBuffered(iv: Chain, r: nat): St
    requires r < 64
  {
    St(Core(iv, 0, 0, false), 8 * r, Ones(r) + Zeros(64 - r))
  }

  lemma OnesAbsorbed(c: Compress, iv: Chain, r: nat)
    requires r < 64
    ensures Wf(OnesBuffered(iv, r)) && Absorbed(c, iv, OnesBuffered(iv, r), Ones(r))
  {}

  lemma NoFill(c: Compress, s: St, data: Bytes, r: nat)
    requires Wf(s) && s.buflen == 8 * r && |data| % 64 < 64 - r
    ensures UpdateF(c, s, data) == StoreF(RunF(c, s.core, data), s.buf, r)
  {}

  /** What a chunk that does not stream leaves: a count of zero, or the old bytes
      where the bytes after the last whole block belong. */
  lemma StaleBuffer(c: Compress, iv: Chain, r: nat, n: nat)
    requires r < 64 && !Streams(r, n)
    ensures var u := UpdateF(c, OnesBuffered(iv, r), Zeros(n));
            if n % 64 == 0 then u.buflen == 0 else u.buflen == 8 * (r + n % 64) && u.buf[0] == 1
  {
    NoFill(c, OnesBuffered(iv, r), Zeros(n), r);
    RunOfZeros(c, OnesBuffered(iv, r).core, n);
  }

  /** Hashing goes wrong for every compression function and initial value: `r` ones are
      absorbed, and an update by `n` zeros that does not stream loses count of them. */
  lemma UpdateDrops(c: Compress, iv: Chain, r: nat, n: nat)
    requires r < 64 && !Streams(r, n)
    ensures Absorbed(c, iv, OnesBuffered(iv, r), Ones(r))
    ensures !UpdateCorrect(c, iv, OnesBuffered(iv, r), Ones(r), Zeros(n))
  {
    hide UpdateF, Compressed;
    OnesAbsorbed(c, iv, r);
    StaleBuffer(c, iv, r, n);
    var m', q := Ones(r) + Zeros(n), (r + n) / 64;
    assert q == n / 64;
    if n % 64 != 0 { assert m'[64 * q..][0] == 0; }
  }

  /** Whatever the compression function and the initial value: with `r` bytes buffered,
      an update of `n` bytes is right for every message and chunk exactly when the
      lengths stream. */
  lemma StreamsExactly(c: Compress, iv: Chain, r: nat, n: nat)
    requires r < 64 && Countable(r + n)
    ensures (forall s, m, data |
               && Absorbed(c, iv, s, m) && |m| % 64 == r && |data| == n && Countable(|m| + |data|)
               :: UpdateCorrect(c, iv, s, m, data))
       <==> Streams(r, n)
  {
    hide Absorbed, UpdateF, Wf;
    if Streams(r, n) {
      forall s, m, data |
        && Absorbed(c, iv, s, m) && |m| % 64 == r && |data| == n && Countable(|m| + |data|)
        ensures UpdateCorrect(c, iv, s, m, data)
      {
        UpdateAbsorbs(c, iv, s, m, data);
      }
    } else {
      UpdateDrops(c, iv, r, n);
    }
  }

  // ----- The in-place code -----

  class State {
    var h: Chain
    var t0: u32
    var t1: u32
    var buflen: nat
    var nullt: bool
    const buf: array<byte>

    ghost function Value(): St
      reads this, buf
    {
      St(Core(h, t0, t1, nullt), buflen, buf[..])
    }

    ghost predicate Valid()
      reads this, buf
    {
      Wf(Value())
    }

    /** `blake256_init` and `blake224_init`; the buffer starts with arbitrary bytes. */
    constructor (iv: Chain)
      ensures Valid() && fresh(buf)
      ensures forall c: Compress :: Absorbed(c, iv, Value(), [])
    {
      h, t0, t1, buflen, nullt := iv, 0, 0, 0, false;
      buf := new byte[64];
    }

    method Count()
      modifies this`t0, this`t1
      ensures t0 == (old(t0) + 512) % 0x1_0000_0000
      ensures t1 == if t0 == 0 then (old(t1) + 1) % 0x1_0000_0000 else old(t1)
    {
      t0 := (t0 + 512) % 0x1_0000_0000;
      if t0 == 0 { t1 := (t1 + 1) % 0x1_0000_0000; }
    }

    method CompressBlock(c: Compress, block: Bytes)
      modifies this`h
      ensures h == if nullt then c(old(h), block, 0, 0) else c(old(h), block, t0, t1)
    {
      h := c(h, block, if nullt then 0 else t0, if nullt then 0 else t1);
    }

    /** The block loop of an update; returns the bytes it did not consume. */
    method Blocks(c: Compress, data: Bytes) returns (rest: Bytes)
      modifies this`h, this`t0, this`t1
      ensures (Core(h, t0, t1, nullt), rest) == RunF(c, old(Core(h, t0, t1, nullt)), data)
    {
      rest := data;
      while |rest| >= 64
        invariant RunF(c, Core(h, t0, t1, nullt), rest) == RunF(c, old(Core(h, t0, t1, nullt)), data)
      {
        Count();
        CompressBlock(c, rest[..64]);
        rest := rest[64..];
      }
    }

    /** Keep the unconsumed bytes in the buffer after its first `left` bytes. */
    method Keep(left: nat, rest: Bytes)
      requires buf.Length == 64 && left + |rest| <= 64
      modifies this`buflen, buf
      ensures Value() == StoreF((Core(h, t0, t1, nullt), rest), old(buf[..]), left)
    {
      if |rest| > 0 {
        forall i | 0 <= i < |rest| { buf[left + i] := rest[i]; }
        buflen := 8 * (left + |rest|);
        assert buf[..] == old(buf[..])[..left] + rest + old(buf[..])[left + |rest|..];
      } else {
        buflen := 0;
      }
    }

    /** `blake256_update`; `datalen` is `8 * |data|`. */
    method Update(c: Compress, data: Bytes)
      requires Valid()
      modifies this, buf
      ensures Valid() && Value() == UpdateF(c, old(Value()), data)
    {
      hide RunF, StoreF;
      var left := buflen / 8;
      var fill := 64 - left;
      var rest := data;
      if left != 0 && |data| % 64 >= fill {
        forall i | 0 <= i < fill { buf[left + i] := data[i]; }
        assert buf[..] == old(buf[..])[..left] + data[..fill];
        Count();
        CompressBlock(c, buf[..]);
        rest := data[fill..];
        left := 0;
      }
      rest := Blocks(c, rest);
      Keep(left, rest);
      assert Value() == UpdateF(c, old(Value()), data);
    }

    method SubT0(bits: nat)
      requires Valid()
      modifies this`t0
      ensures Valid() && Value() == old(Value()).(core := AddT0(old(Value()).core, 0 - bits))
    {
      t0 := (t0 - bits) % 0x1_0000_0000;
    }

    method SetNullt()
      requires Valid()
      modifies this`nullt
      ensures Valid() && Value() == old(Value()).(core := old(Value()).core.(nullt := true))
    {
      nullt := true;
    }

    /** The branches of `blake256_final_h` that pad. */
    method Pad(c: Compress, pa: byte, pb: byte)
      requires Valid()
      modifies this, buf
      ensures Valid() && Value() == PadF(c, old(Value()), pa, pb)
    {
      hide UpdateF, AddT0;
      if buflen == 440 {
        SubT0(8);
        Update(c, [pa]);
      } else {
        if buflen < 440 {
          if buflen == 0 { SetNullt(); }
          SubT0(440 - buflen);
          Update(c, Padding()[..55 - buflen / 8]);
        } else {
          SubT0(512 - buflen);
          Update(c, Padding()[..64 - buflen / 8]);
          SubT0(440);
          Update(c, Padding()[1..56]);
          SetNullt();
        }
        Update(c, [pb]);
        SubT0(8);
      }
    }

    /** `blake256_final_h`. */
    method FinalH(c: Compress, pa: byte, pb: byte) returns (digest: Bytes)
      requires Valid()
      modifies this, buf
      ensures Valid() && Value() == FinalF(c, old(Value()), pa, pb)
      ensures digest == WordBytes(h)
    {
      hide UpdateF, AddT0, PadF, BE64, WordBytes;
      var lo: int := (t0 + buflen) % 0x1_0000_0000;
      var hi: int := t1;
      if lo < buflen { hi := (hi + 1) % 0x1_0000_0000; }
      var msglen := BE64(hi, lo);
      Pad(c, pa, pb);
      SubT0(64);
      Update(c, msglen);
      digest := WordBytes(h);
    }
  }

  /** `blake256_hash`: the digest of section 2.1 of the BLAKE submission. */
  method Hash256(c: Compress, input: Bytes) returns (out: Bytes)
    requires Countable(|input|)
    ensures out == WordBytes(HashSpec(c, IV256, input, 0x81, 0x01))
  {
    out := HashFrom(c, IV256, input, 0x81, 0x01);
  }

  /** `blake224_hash`; its callers keep 28 of the 32 digest bytes. */
  method Hash224(c: Compress, input: Bytes) returns (out: Bytes)
    requires Countable(|input|)
    ensures out == WordBytes(HashSpec(c, IV224, input, 0x80, 0x00))
  {
    out := HashFrom(c, IV224, input, 0x80, 0x00);
  }

  method HashFrom(c: Compress, iv: Chain, input: Bytes, pa: byte, pb: byte) returns (out: Bytes)
    requires Countable(|input|)
    ensures out == WordBytes(HashSpec(c, iv, input, pa, pb))
  {
    var s := new State(iv);
    UpdateAbsorbs(c, iv, s.Value(), [], input);
    s.Update(c, input);
    assert [] + input == input;
    FinalHashes(c, iv, s.Value(), input, pa, pb);
    out := s.FinalH(c, pa, pb);
  }
}
