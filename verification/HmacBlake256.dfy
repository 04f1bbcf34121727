/** HMAC-BLAKE-256, against section 2 of RFC 2104. */
module HmacBlake256 {
  import opened Words
  import opened Blake256

  // ----- Specification -----

  function H(c: Compress, m: Bytes): (d: Bytes)
    requires Countable(|m|)
    ensures |d| == 32
  {
    WordBytes(HashSpec(c, IV256, m, 0x81, 0x01))
  }

  /** The key, hashed if longer than a block, zero-extended to one block. */
  function KeyBlock(c: Compress, key: Bytes): (k: Bytes)
    requires Countable(|key|)
    ensures |k| == 64
  {
    var k := if |key| > 64 then H(c, key) else key;
    k + Zeros(64 - |k|)
  }

  function XorPad(k: Bytes, pad: byte): (r: Bytes)
    ensures |r| == |k|
  {
    seq(|k|, i requires 0 <= i < |k| => Xor(k[i], pad))
  }

  function HmacSpec(c: Compress, key: Bytes, m: Bytes): Bytes
    requires Countable(|key|) && Countable(64 + |m|)
  {
    H(c, XorPad(KeyBlock(c, key), 0x5c) + H(c, XorPad(KeyBlock(c, key), 0x36) + m))
  }

  /** Section 2 of RFC 2104, byte by byte: a key longer than a block is hashed; the pads are
      the key, zero-filled, exclusive or 0x36 and 0x5c. */
  lemma HmacMeans(c: Compress, key: Bytes, m: Bytes, ipad: Bytes, opad: Bytes)
    requires Countable(|key|) && Countable(64 + |m|) && |ipad| == 64 && |opad| == 64
    requires var k := if |key| > 64 then H(c, key) else key;
             forall j :: 0 <= j < 64 ==>
               && ipad[j] == Xor(if j < |k| then k[j] else 0, 0x36)
               && opad[j] == Xor(if j < |k| then k[j] else 0, 0x5c)
    ensures HmacSpec(c, key, m) == H(c, opad + H(c, ipad + m))
  {
    hide H, Xor;
    var k := if |key| > 64 then H(c, key) else key;
    var block := KeyBlock(c, key);
    assert forall j :: 0 <= j < 64 ==> block[j] == if j < |k| then k[j] else 0;
    assert ipad == XorPad(block, 0x36) && opad == XorPad(block, 0x5c);
  }

  // ----- The code -----

  /** One of the two pads: `memset` and the key loop. */
  method MakePad(key: Bytes, pad: byte) returns (r: Bytes)
    requires |key| <= 64
    ensures r == XorPad(key + Zeros(64 - |key|), pad)
  {
    var buf := new byte[64](i => pad);
    for i := 0 to |key|
      invariant forall j :: 0 <= j < i ==> buf[j] == Xor(pad, key[j])
      invariant forall j :: i <= j < 64 ==> buf[j] == pad
    {
      buf[i] := Xor(buf[i], key[i]);
    }
    r := buf[..];
    forall j | 0 <= j < 64
      ensures r[j] == XorPad(key + Zeros(64 - |key|), pad)[j]
    {
      XorLaws(pad, if j < |key| then key[j] else 0);
      XorLaws(if j < |key| then key[j] else 0, pad);
    }
  }

  /** `hmac_state`: the inner and the outer hash. */
  class HmacState {
    const inner: State
    const outer: State

    /** Keyed with `key` and having absorbed exactly `m`. */
    ghost predicate Holds(c: Compress, key: Bytes, m: Bytes)
      requires Countable(|key|)
      reads this, inner, outer, inner.buf, outer.buf
    {
      && inner != outer && inner.buf != outer.buf
      && inner.Valid() && outer.Valid()
      && Absorbed(c, IV256, inner.Value(), XorPad(KeyBlock(c, key), 0x36) + m)
      && Absorbed(c, IV256, outer.Value(), XorPad(KeyBlock(c, key), 0x5c))
    }

    /** `hmac_blake256_init`. */
    constructor (c: Compress, key: Bytes)
      requires Countable(|key|)
      ensures Holds(c, key, [])
      ensures fresh(inner) && fresh(outer) && fresh(inner.buf) && fresh(outer.buf)
    {
      hide UpdateF, Absorbed, XorPad;
      var k := key;
      if |k| > 64 { k := Hash256(c, k); }
      var i := new State(IV256);
      var ipad := MakePad(k, 0x36);
      AbsorbFirst(c, i.Value(), ipad);
      i.Update(c, ipad);
      var o := new State(IV256);
      var opad := MakePad(k, 0x5c);
      AbsorbFirst(c, o.Value(), opad);
      o.Update(c, opad);
      inner, outer := i, o;
      assert ipad + [] == ipad;
    }

    /** `hmac_blake256_update`, for any chunk: the inner hash is updated, the outer hash
        is untouched, and a chunk that streams extends the message. */
    method Update(c: Compress, data: Bytes, ghost key: Bytes, ghost m: Bytes)
      requires Countable(|key|) && Countable(64 + |m| + |data|) && Holds(c, key, m)
      modifies inner, inner.buf
      ensures inner.Valid() && inner.Value() == UpdateF(c, old(inner.Value()), data)
      ensures outer.Valid() && outer.Value() == old(outer.Value())
      ensures Streams(|m| % 64, |data|) ==> Holds(c, key, m + data)
    {
      hide UpdateF, Absorbed, XorPad, KeyBlock;
      ghost var k := XorPad(KeyBlock(c, key), 0x36);
      assert |k + m| % 64 == |m| % 64;
      if Streams(|m| % 64, |data|) {
        UpdateAbsorbs(c, IV256, inner.Value(), k + m, data);
        Assoc(k, m, data);
      }
      inner.Update(c, data);
    }

    /** `hmac_blake256_final`. */
    method Final(c: Compress, ghost key: Bytes, ghost m: Bytes) returns (digest: Bytes)
      requires Countable(|key|) && Countable(64 + |m|) && Holds(c, key, m)
      modifies inner, outer, inner.buf, outer.buf
      ensures digest == HmacSpec(c, key, m)
    {
      hide UpdateF, FinalF, Absorbed, XorPad, KeyBlock, HashSpec, WordBytes;
      ghost var i, o := XorPad(KeyBlock(c, key), 0x36), XorPad(KeyBlock(c, key), 0x5c);
      FinalHashes(c, IV256, inner.Value(), i + m, 0x81, 0x01);
      var ihash := inner.FinalH(c, 0x81, 0x01);
      UpdateAbsorbs(c, IV256, outer.Value(), o, ihash);
      outer.Update(c, ihash);
      FinalHashes(c, IV256, outer.Value(), o + ihash, 0x81, 0x01);
      digest := outer.FinalH(c, 0x81, 0x01);
    }
  }

  lemma AbsorbFirst(c: Compress, s: St, m: Bytes)
    requires Absorbed(c, IV256, s, []) && |m| == 64
    ensures Wf(s) && Absorbed(c, IV256, UpdateF(c, s, m), m)
  {
    UpdateAbsorbs(c, IV256, s, [], m);
    assert [] + m == m;
  }

  /** `hmac_blake256_hash` is the HMAC of RFC 2104 for every key and message. */
  method HmacHash(c: Compress, key: Bytes, input: Bytes) returns (out: Bytes)
    requires Countable(|key|) && Countable(64 + |input|)
    ensures out == HmacSpec(c, key, input)
  {
    var s := new HmacState(c, key);
    s.Update(c, input, key, []);
    assert [] + input == input;
    out := s.Final(c, key, input);
  }
}
