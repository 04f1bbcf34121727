/** Base58 addresses: a varint tag, data and a four-byte checksum, for any hash. */
module Address {
  import opened Words
  import Base58
  import Varint

  type Digest = d: Bytes | |d| == 32 witness seq(32, i => 0)
  type Hash = Bytes -> Digest

  function Checked(hash: Hash, payload: Bytes): Bytes {
    payload + hash(payload)[..4]
  }

  function EncodeAddrF(hash: Hash, tag: u64, data: Bytes): string {
    Base58.EncodeF(Checked(hash, Varint.Encode(tag) + data))
  }

  /** The bytes before the checksum, if the text decodes and the checksum matches. */
  function PayloadOf(hash: Hash, addr: string): Option<Bytes> {
    match Base58.DecodeF(addr)
    case None => None
    case Some(bytes) =>
      if |bytes| <= 4 then None
      else
        var payload, sum := bytes[..|bytes| - 4], bytes[|bytes| - 4..];
        if hash(payload)[..4] == sum then Some(payload) else None
  }

  function DecodeAddrF(hash: Hash, addr: string): Option<(nat, Bytes)> {
    match PayloadOf(hash, addr)
    case None => None
    case Some(payload) =>
      match Varint.Decode(64, payload)
      case Read(tag, n, _) => if 0 < n <= |payload| then Some((tag, payload[n..])) else None
      case _ => None
  }

  /** Some byte has no continuation bit. */
  ghost predicate Terminated(payload: Bytes) {
    exists i :: 0 <= i < |payload| && payload[i] < 0x80
  }

  lemma Pow2Of64()
    ensures Pow2(64) == 0x1_0000_0000_0000_0000
  {
    assert Pow2(0) == 1 && Pow2(64) == 2 * Pow2(63);
    hide Pow2;
    Varint.Pow2Plus7(0);
    assert Pow2(7) == 0x80;
    Varint.Pow2Plus7(7);
    assert Pow2(14) == 0x4000;
    Varint.Pow2Plus7(14);
    assert Pow2(21) == 0x200000;
    Varint.Pow2Plus7(21);
    assert Pow2(28) == 0x10000000;
    Varint.Pow2Plus7(28);
    assert Pow2(35) == 0x800000000;
    Varint.Pow2Plus7(35);
    assert Pow2(42) == 0x40000000000;
    Varint.Pow2Plus7(42);
    assert Pow2(49) == 0x2000000000000;
    Varint.Pow2Plus7(49);
    assert Pow2(56) == 0x100000000000000;
    Varint.Pow2Plus7(56);
    assert Pow2(63) == 0x8000000000000000;
  }

  lemma PayloadOfChecked(hash: Hash, payload: Bytes)
    requires payload != []
    ensures PayloadOf(hash, Base58.EncodeF(Checked(hash, payload))) == Some(payload)
  {
    var bytes := Checked(hash, payload);
    Base58.DecodeEncode(bytes);
    assert bytes[..|bytes| - 4] == payload && bytes[|bytes| - 4..] == hash(payload)[..4];
  }

  /** The bytes an address spells: the tag as a varint, the data, and the first four bytes of
      the hash of both. */
  lemma AddressBytes(hash: Hash, tag: u64, data: Bytes)
    ensures var r := Base58.DecodeF(EncodeAddrF(hash, tag, data));
            r.Some? && exists v: Bytes ::
              && Varint.Decode(64, v) == Varint.Read(tag, |v|, true)
              && |r.value| == |v| + |data| + 4 && r.value[..|v| + |data|] == v + data
              && r.value[|v| + |data|..] == hash(v + data)[..4]
  {
    hide Base58.DecodeF, Base58.EncodeF, Varint.DecodeFrom, Varint.Encode;
    var v := Varint.Encode(tag);
    Pow2Of64();
    Varint.DecodeEncode(64, tag, []);
    assert v + [] == v;
    Base58.DecodeEncode(Checked(hash, v + data));
    var bytes := Checked(hash, v + data);
    assert bytes[..|v| + |data|] == v + data && bytes[|v| + |data|..] == hash(v + data)[..4];
  }

  /** Every tag and every data come back. */
  lemma DecodeEncodeAddr(hash: Hash, tag: u64, data: Bytes)
    ensures DecodeAddrF(hash, EncodeAddrF(hash, tag, data)) == Some((tag, data))
  {
    var v := Varint.Encode(tag);
    Pow2Of64();
    PayloadOfChecked(hash, v + data);
    Varint.DecodeEncode(64, tag, data);
    assert (v + data)[|v|..] == data;
  }

  lemma CheckedOfPayload(hash: Hash, addr: string)
    requires PayloadOf(hash, addr).Some?
    ensures addr == Base58.EncodeF(Checked(hash, PayloadOf(hash, addr).value))
  {
    Base58.EncodeDecode(addr);
    var bytes := Base58.DecodeF(addr).value;
    assert bytes == bytes[..|bytes| - 4] + bytes[|bytes| - 4..];
  }

  lemma {:induction false} EncodeLast(i: nat)
    ensures var b := Varint.Encode(i); b[|b| - 1] < 0x80
  {
    if i >= 0x80 { EncodeLast(i / 0x80); }
  }

  lemma TagTerminates(tag: nat, data: Bytes)
    ensures Terminated(Varint.Encode(tag) + data)
  {
    EncodeLast(tag);
    var v := Varint.Encode(tag);
    assert (v + data)[|v| - 1] < 0x80;
  }

  /** A read ended on its own exactly when some byte could end it. */
  lemma EndedIffTerminated(payload: Bytes)
    requires Varint.Decode(64, payload).Read?
    ensures Varint.Decode(64, payload).ended <==> Terminated(payload)
  {
    var r := Varint.Decode(64, payload);
    if r.ended {
      Varint.EncodeDecode(64, payload);
      EncodeLast(r.value);
      assert payload[..r.count][r.count - 1] == payload[r.count - 1] < 0x80;
    } else {
      Varint.Truncated(64, payload, false);
    }
  }

  /** An accepted address is the encoding of what it decodes to exactly when its
      payload has a byte that ends the tag. */
  lemma EncodeDecodeAddr(hash: Hash, addr: string)
    requires DecodeAddrF(hash, addr).Some?
    ensures var (tag, data) := DecodeAddrF(hash, addr).value;
            && PayloadOf(hash, addr).Some?
            && tag < 0x1_0000_0000_0000_0000
            && (EncodeAddrF(hash, tag, data) == addr <==> Terminated(PayloadOf(hash, addr).value))
  {
    hide Pow2, Varint.DecodeFrom, Varint.Encode, Base58.EncodeF, Base58.DecodeF, Terminated;
    var payload := PayloadOf(hash, addr).value;
    var r := Varint.Decode(64, payload);
    var (tag, data) := DecodeAddrF(hash, addr).value;
    EndedIffTerminated(payload);
    CheckedOfPayload(hash, addr);
    Pow2Of64();
    Varint.DecodeBelow(64, payload, false);
    if r.ended {
      Varint.EncodeDecode(64, payload);
      assert payload == payload[..r.count] + payload[r.count..];
    } else {
      Varint.Truncated(64, payload, false);
      if EncodeAddrF(hash, tag, data) == addr {
        PayloadOfChecked(hash, Varint.Encode(tag) + data);
        TagTerminates(tag, data);
      }
    }
  }

  /** An unterminated tag is accepted, and the address is not what it encodes to. */
  lemma UnterminatedAccepted(hash: Hash)
    ensures var addr := Base58.EncodeF(Checked(hash, [0x80]));
            DecodeAddrF(hash, addr) == Some((0, [])) && EncodeAddrF(hash, 0, []) != addr
  {
    var addr := Base58.EncodeF(Checked(hash, [0x80]));
    PayloadOfChecked(hash, [0x80]);
    assert Varint.DecodeFrom(57, [0x80][1..], true) == Varint.Read(0, 0, false);
    EncodeDecodeAddr(hash, addr);
  }

  /** `encode_addr`. */
  method EncodeAddr(hash: Hash, tag: u64, data: Bytes) returns (addr: string)
    ensures addr == EncodeAddrF(hash, tag, data)
  {
    var buf := Varint.WriteVarint(tag);
    buf := buf + data;
    buf := buf + hash(buf)[..4];
    addr := Base58.Encode(buf);
  }

  /** `decode_addr`. */
  method DecodeAddr(hash: Hash, addr: string) returns (ok: bool, tag: nat, data: Bytes)
    ensures DecodeAddrF(hash, addr) == if ok then Some((tag, data)) else None
  {
    tag, data := 0, [];
    var bytes;
    ok, bytes := Base58.Decode(addr);
    if !ok { return; }
    if |bytes| <= 4 { return false, tag, data; }
    var sum := bytes[|bytes| - 4..];
    bytes := bytes[..|bytes| - 4];
    if hash(bytes)[..4] != sum { return false, tag, data; }
    var read;
    read, tag := Varint.ReadVarint(64, bytes);
    if read <= 0 { return false, tag, data; }
    Varint.CountFits(64, bytes, false);
    data := bytes[read..];
  }
}
