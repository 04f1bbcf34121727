/** WebSocket frames (sections 5.2 and 5.3 of RFC 6455) received over a growable buffer. */
module WebSocket {
  import opened Words
  import opened Numerals

  /** Which of the three length encodings a frame uses. */
  datatype Form = Short | Medium | Long

  datatype Frame = Frame(flags: byte, form: Form, key: Option<Bytes>, payload: Bytes)

  /** What the user's handler is given. */
  datatype Message = Message(flags: byte, data: Bytes)

  /** The length fits its encoding, and a key has four bytes. */
  predicate Fits(f: Frame) {
    && (f.key.Some? ==> |f.key.value| == 4)
    && match f.form
       case Short => |f.payload| < 126
       case Medium => |f.payload| < 0x1_0000
       case Long => |f.payload| < 0x8000_0000_0000_0000
  }

  function Be2(n: nat): (b: Bytes)
    requires n < 0x1_0000
    ensures |b| == 2
  {
    [n / 0x100, n % 0x100]
  }

  function Be4(n: nat): (b: Bytes)
    requires n < 0x1_0000_0000
    ensures |b| == 4
  {
    Be2(n / 0x1_0000) + Be2(n % 0x1_0000)
  }

  function LengthCode(f: Frame): byte
    requires Fits(f)
  {
    match f.form
    case Short => |f.payload|
    case Medium => 126
    case Long => 127
  }

  /** The mask bit and the length code. */
  function LengthByte(f: Frame): byte
    requires Fits(f)
  {
    LengthCode(f) + if f.key.Some? then 0x80 else 0
  }

  lemma LengthByteReads(f: Frame)
    requires Fits(f)
    ensures LengthByte(f) % 0x80 == LengthCode(f) && (LengthByte(f) >= 0x80 <==> f.key.Some?)
  {}

  function Extended(f: Frame): (b: Bytes)
    requires Fits(f)
    ensures |b| == match f.form case Short => 0 case Medium => 2 case Long => 8
  {
    match f.form
    case Short => []
    case Medium => Be2(|f.payload|)
    case Long => Be4(|f.payload| / 0x1_0000_0000) + Be4(|f.payload| % 0x1_0000_0000)
  }

  /** Masking, section 5.3: exclusive or with the key, over and over. */
  function Masked(data: Bytes, key: Bytes): (r: Bytes)
    requires |key| == 4
    ensures |r| == |data|
  {
    seq(|data|, i requires 0 <= i < |data| => Xor(data[i], key[i % 4]))
  }

  lemma MaskedTwice(data: Bytes, key: Bytes)
    requires |key| == 4
    ensures Masked(Masked(data, key), key) == data
  {
    forall i | 0 <= i < |data| ensures Masked(Masked(data, key), key)[i] == data[i] {
      XorLaws(data[i], key[i % 4]);
    }
  }

  function KeyBytes(f: Frame): Bytes {
    match f.key case None => [] case Some(k) => k
  }

  function Body(f: Frame): (b: Bytes)
    requires Fits(f)
    ensures |b| == |f.payload|
  {
    match f.key case None => f.payload case Some(k) => Masked(f.payload, k)
  }

  function Head(f: Frame): (b: Bytes)
    requires Fits(f)
    ensures |b| == 2 + |Extended(f)| + |KeyBytes(f)|
  {
    [f.flags, LengthByte(f)] + Extended(f) + KeyBytes(f)
  }

  /** The bytes of a frame. */
  function Wire(f: Frame): (b: Bytes)
    requires Fits(f)
    ensures |b| == |Head(f)| + |f.payload|
  {
    Head(f) + Body(f)
  }

  lemma Be2Value(n: nat)
    requires n < 0x1_0000
    ensures Value(256, Be2(n)) == n
  {
    hide Value;
    ValueNone(256);
    ValueSnoc(256, [], n / 0x100);
    ValueSnoc(256, [n / 0x100], n % 0x100);
    assert [] + [n / 0x100] == [n / 0x100] && [n / 0x100] + [n % 0x100] == Be2(n);
  }

  lemma Be4Value(n: nat)
    requires n < 0x1_0000_0000
    ensures Value(256, Be4(n)) == n
  {
    hide Value, Be2;
    Be2Value(n / 0x1_0000);
    Be2Value(n % 0x1_0000);
    ValueJoin(256, Be2(n / 0x1_0000), Be2(n % 0x1_0000));
    assert Pow(256, 2) == 256 * Pow(256, 1) && Pow(256, 1) == 256;
  }

  lemma ExtendedValue(f: Frame)
    requires Fits(f)
    ensures !f.form.Short? ==> Value(256, Extended(f)) == |f.payload|
  {
    hide Value, Be2, Be4;
    if f.form.Medium? {
      Be2Value(|f.payload|);
    } else if f.form.Long? {
      var hi, lo := |f.payload| / 0x1_0000_0000, |f.payload| % 0x1_0000_0000;
      Be4Value(hi);
      Be4Value(lo);
      ValueJoin(256, Be4(hi), Be4(lo));
      assert Pow(256, 4) == 0x1_0000 * Pow(256, 2) && Pow(256, 2) == 256 * Pow(256, 1) && Pow(256, 1) == 256;
    }
  }

  /** The header byte by byte, as section 5.2 of RFC 6455 draws it: flags, the mask bit and
      the length or its escape, and the extended length, most significant byte first. */
  lemma WireHead(f: Frame)
    requires Fits(f)
    ensures var w, k := Wire(f), if f.form.Short? then 2 else if f.form.Medium? then 4 else 10;
            && |w| >= k && w[0] == f.flags
            && w[1] % 0x80 == (if f.form.Short? then |f.payload| else if f.form.Medium? then 126 else 127)
            && (w[1] >= 0x80 <==> f.key.Some?)
            && (!f.form.Short? ==> Value(256, w[2..k]) == |f.payload|)
  {
    hide Value, Be2, Be4, LengthByte, LengthCode, Body, KeyBytes;
    ExtendedValue(f);
    LengthByteReads(f);
    LengthCodeIs(f);
    var w, k := Wire(f), 2 + |Extended(f)|;
    assert w[2..k] == Extended(f);
  }

  /** The rest: the key, and each byte of the payload exclusive or a byte of the key. */
  lemma WireBody(f: Frame)
    requires Fits(f)
    ensures var w, k := Wire(f), if f.form.Short? then 2 else if f.form.Medium? then 4 else 10;
            && |w| >= k && if f.key.None? then w[k..] == f.payload
               else
                 && |w| == k + 4 + |f.payload| && w[k..k + 4] == f.key.value
                 && forall i :: 0 <= i < |f.payload| ==> w[k + 4..][i] == Xor(f.payload[i], f.key.value[i % 4])
  {
    hide Xor, Be2, Be4, LengthByte;
    var w, k := Wire(f), 2 + |Extended(f)|;
    var rest := KeyBytes(f) + Body(f);
    Assoc([f.flags, LengthByte(f)] + Extended(f), KeyBytes(f), Body(f));
    assert w[k..] == rest;
    if f.key.Some? {
      assert w[k..k + 4] == rest[..4] && w[k + 4..] == rest[4..] == Masked(f.payload, f.key.value);
    }
  }

  lemma LengthCodeIs(f: Frame)
    requires Fits(f)
    ensures LengthCode(f) == if f.form.Short? then |f.payload| else if f.form.Medium? then 126 else 127
  {}

  predicate IsFragment(flags: byte) {
    flags < 0x80 || flags % 0x10 == 0
  }

  /** The final bit is missing, or the opcode is zero. */
  lemma FragmentFlags(flags: byte)
    ensures IsFragment(flags) <==> flags < 0x80 || flags in {0x80, 0x90, 0xA0, 0xB0, 0xC0, 0xD0, 0xE0, 0xF0}
  {}

  predicate AllFit(fs: seq<Frame>) {
    forall i :: 0 <= i < |fs| ==> Fits(fs[i])
  }

  /** No fragments: the final bit is set and the opcode is not zero. */
  predicate Unfragmented(fs: seq<Frame>) {
    forall i :: 0 <= i < |fs| ==> !IsFragment(fs[i].flags)
  }

  function Stream(fs: seq<Frame>): Bytes
    requires AllFit(fs)
  {
    if fs == [] then [] else Wire(fs[0]) + Stream(fs[1..])
  }

  /** `b` is the front of `s`. */
  predicate Before(b: Bytes, s: Bytes) {
    |b| <= |s| && b == s[..|b|]
  }

  function MessageOf(f: Frame): Message {
    Message(f.flags, f.payload)
  }

  function Messages(fs: seq<Frame>): seq<Message> {
    seq(|fs|, i requires 0 <= i < |fs| => MessageOf(fs[i]))
  }

  // ----- Reading a header -----

  datatype Header = Header(headerLen: nat, dataLen: nat, maskLen: nat)

  function ReadBe2(b: Bytes, p: nat): nat
    requires p + 2 <= |b|
  {
    0x100 * (b[p] as int) + b[p + 1]
  }

  function ReadBe4(b: Bytes, p: nat): nat
    requires p + 4 <= |b|
  {
    0x1_0000 * ReadBe2(b, p) + ReadBe2(b, p + 2)
  }

  /** The header at the front of a buffer; all zero while it is incomplete. */
  function ReadHeader(b: Bytes): Header {
    if |b| < 2 then Header(0, 0, 0)
    else
      var len := b[1] % 0x80;
      var mask: nat := if b[1] >= 0x80 then 4 else 0;
      if len < 126 && |b| >= mask then Header(2 + mask, len, mask)
      else if len == 126 && |b| >= 4 + mask then Header(4 + mask, ReadBe2(b, 2), mask)
      else if |b| >= 10 + mask then Header(10 + mask, 0x1_0000_0000 * ReadBe4(b, 2) + ReadBe4(b, 6), mask)
      else Header(0, 0, mask)
  }

  lemma Be2Reads(n: nat, b: Bytes, p: nat)
    requires n < 0x1_0000 && p + 2 <= |b| && b[p..p + 2] == Be2(n)
    ensures ReadBe2(b, p) == n
  {
    assert b[p] == b[p..p + 2][0] && b[p + 1] == b[p..p + 2][1];
  }

  lemma Be4Reads(n: nat, b: Bytes, p: nat)
    requires n < 0x1_0000_0000 && p + 4 <= |b| && b[p..p + 4] == Be4(n)
    ensures ReadBe4(b, p) == n
  {
    assert b[p..p + 2] == b[p..p + 4][..2] == Be2(n / 0x1_0000);
    assert b[p + 2..p + 2 + 2] == b[p..p + 4][2..] == Be2(n % 0x1_0000);
    Be2Reads(n / 0x1_0000, b, p);
    Be2Reads(n % 0x1_0000, b, p + 2);
  }

  /** The front of a buffer that starts with `f` as far as it goes. */
  ghost predicate StartsWith(b: Bytes, f: Frame)
    requires Fits(f)
  {
    if |b| <= |Wire(f)| then b == Wire(f)[..|b|] else b[..|Wire(f)|] == Wire(f)
  }

  lemma SliceOfPrefix(s: Bytes, n: nat, i: nat, j: nat)
    requires i <= j <= n <= |s|
    ensures s[..n][i..j] == s[i..j]
  {}

  lemma FrontBytes(b: Bytes, f: Frame, i: nat, j: nat)
    requires Fits(f) && StartsWith(b, f) && i <= j <= |b| && j <= |Head(f)|
    ensures b[i..j] == Head(f)[i..j]
  {
    hide Head, Fits, Body;
    var w := Wire(f);
    assert w[..|Head(f)|] == Head(f);
    SliceOfPrefix(w, |Head(f)|, i, j);
    if |b| > |w| {
      SliceOfPrefix(b, |w|, i, j);
    } else {
      SliceOfPrefix(w, |b|, i, j);
    }
  }

  lemma SecondByte(b: Bytes, f: Frame)
    requires Fits(f) && StartsWith(b, f) && |b| >= 2
    ensures b[0] == f.flags && b[1] % 0x80 == LengthCode(f) && (b[1] >= 0x80 <==> f.key.Some?)
  {
    FrontBytes(b, f, 0, 2);
    assert Head(f)[0..2] == [f.flags, LengthByte(f)];
    LengthByteReads(f);
    hide *;
    assert b[0] == b[0..2][0] && b[1] == b[0..2][1];
  }

  lemma ExtendedBytes(b: Bytes, f: Frame)
    requires Fits(f) && StartsWith(b, f) && |b| >= 2 + |Extended(f)|
    ensures b[2..2 + |Extended(f)|] == Extended(f)
  {
    FrontBytes(b, f, 2, 2 + |Extended(f)|);
    assert Head(f)[2..2 + |Extended(f)|] == Extended(f);
  }

  lemma LongLength(b: Bytes, f: Frame)
    requires Fits(f) && StartsWith(b, f) && f.form.Long? && |b| >= 10
    ensures 0x1_0000_0000 * ReadBe4(b, 2) + ReadBe4(b, 6) == |f.payload|
  {
    var n := |f.payload|;
    ExtendedBytes(b, f);
    assert b[2..2 + 4] == b[2..10][..4] && b[6..6 + 4] == b[2..10][4..];
    Be4Reads(n / 0x1_0000_0000, b, 2);
    Be4Reads(n % 0x1_0000_0000, b, 6);
  }

  /** Once enough bytes have arrived the header announces the frame exactly, and until
      then the frame is incomplete. */
  lemma HeaderExact(b: Bytes, f: Frame)
    requires Fits(f) && StartsWith(b, f)
    ensures var h := ReadHeader(b);
            if h.headerLen == 0 then h.dataLen == 0 && |b| < |Wire(f)|
            else h == Header(|Head(f)|, |f.payload|, |KeyBytes(f)|)
  {
    if |b| >= 2 {
      SecondByte(b, f);
      if f.form.Medium? && |b| >= 4 {
        ExtendedBytes(b, f);
        Be2Reads(|f.payload|, b, 2);
      } else if f.form.Long? && |b| >= 10 {
        LongLength(b, f);
      }
      hide ReadBe2, ReadBe4, StartsWith;
    }
  }

  /** Masking a masked payload, or leaving a plain one, gives the payload. */
  lemma WholeFrame(b: Bytes, f: Frame)
    requires Fits(f) && StartsWith(b, f) && |b| >= |Wire(f)|
    ensures var n := |Head(f)|;
            && |Wire(f)| == n + |f.payload|
            && match f.key
               case None => b[n..n + |f.payload|] == f.payload
               case Some(k) => n >= 4 && |k| == 4 && b[n - 4..n] == k && Masked(b[n..n + |f.payload|], k) == f.payload
  {
    var n := |Head(f)|;
    hide Extended, Masked;
    assert b[..|Wire(f)|] == Wire(f);
    assert b[n..n + |f.payload|] == b[..|Wire(f)|][n..] == Body(f);
    if f.key.Some? {
      FrontBytes(b, f, n - 4, n);
      assert Head(f)[n - 4..n] == f.key.value;
      MaskedTwice(f.payload, f.key.value);
    }
  }

  lemma StreamStarts(b: Bytes, fs: seq<Frame>)
    requires AllFit(fs) && fs != [] && Before(b, Stream(fs))
    ensures StartsWith(b, fs[0])
  {
    var w := Wire(fs[0]);
    assert Stream(fs)[..|w|] == w;
    if |b| <= |w| {
      assert b == Stream(fs)[..|b|] == w[..|b|];
    } else {
      assert b[..|w|] == Stream(fs)[..|w|];
    }
  }

  lemma {:induction false} StreamSplit(fs: seq<Frame>, k: nat)
    requires AllFit(fs) && k <= |fs|
    ensures Stream(fs) == Stream(fs[..k]) + Stream(fs[k..])
  {
    if k == 0 {
      assert fs[0..] == fs;
    } else {
      StreamSplit(fs[1..], k - 1);
      assert fs[..k][0] == fs[0] && fs[..k][1..] == fs[1..][..k - 1] && fs[1..][k - 1..] == fs[k..];
      Assoc(Wire(fs[0]), Stream(fs[1..][..k - 1]), Stream(fs[k..]));
    }
  }

  // ----- The buffer -----

  function Unmasked(b: Bytes, at: nat, count: nat): (r: Bytes)
    requires 4 <= at && at + count <= |b|
    ensures |r| == |b| && r[at + count..] == b[at + count..]
  {
    b[..at] + Masked(b[at..at + count], b[at - 4..at]) + b[at + count..]
  }

  lemma UnmaskedNext(b: Bytes, at: nat, i: nat)
    requires 4 <= at && at + i < |b|
    ensures Unmasked(b, at, i + 1) == Unmasked(b, at, i)[at + i := Xor(b[at + i], b[at - 4 + i % 4])]
  {
    assert b[at - 4..at][i % 4] == b[at - 4 + i % 4];
  }

  /** `struct iobuf`: the array is the allocated size. */
  class IoBuf {
    var buf: array<byte>
    var len: nat

    predicate Valid()
      reads this
    {
      len <= buf.Length
    }

    function Contents(): Bytes
      requires Valid()
      reads this, buf
    {
      buf[..len]
    }

    constructor (size: nat)
      ensures Valid() && Contents() == [] && fresh(buf)
    {
      buf, len := new byte[size](_ => 0), 0;
    }

    /** Copy `data` into place at `at`. */
    method Copy(data: Bytes, at: nat)
      requires at + |data| <= buf.Length
      modifies buf
      ensures buf[..] == old(buf[..at]) + data + old(buf[at + |data|..])
    {
      for i := 0 to |data|
        invariant buf[..] == old(buf[..at]) + data[..i] + old(buf[at + i..])
      {
        buf[at + i] := data[i];
      }
    }

    method Append(data: Bytes)
      requires Valid()
      modifies this, buf
      ensures Valid() && Contents() == old(Contents()) + data
      ensures buf == old(buf) || fresh(buf)
      ensures if old(len) + |data| <= old(buf.Length) then buf == old(buf) else buf.Length == old(len) + |data|
    {
      if |data| == 0 {
        assert old(Contents()) + data == old(Contents());
        return;
      }
      if len + |data| > buf.Length {
        var bigger := new byte[len + |data|](_ => 0);
        forall i | 0 <= i < len { bigger[i] := buf[i]; }
        buf := bigger;
        assert buf[..len] == old(Contents());
      }
      Copy(data, len);
      len := len + |data|;
    }

    /** Drop the first `n` bytes, if there are that many. */
    method Remove(n: nat)
      requires Valid()
      modifies this`len, buf
      ensures Valid() && Contents() == if n <= old(len) then old(Contents()[n..]) else old(Contents())
    {
      if 0 < n <= len {
        var keep := len - n;
        for i := 0 to keep
          invariant forall j :: 0 <= j < i ==> buf[j] == old(buf[j + n])
          invariant forall j :: i <= j < buf.Length ==> buf[j] == old(buf[j])
        {
          buf[i] := buf[i + n];
        }
        len := keep;
      }
    }

    /** Undo the mask of `count` bytes whose key ends at `at`. */
    method Unmask(at: nat, count: nat)
      requires Valid() && 4 <= at && at + count <= len
      modifies buf
      ensures Contents() == Unmasked(old(Contents()), at, count)
    {
      ghost var was := Contents();
      for i := 0 to count
        invariant Contents() == Unmasked(was, at, i)
      {
        assert Unmasked(was, at, i)[at + i] == was[at + i] && Unmasked(was, at, i)[at - 4 + i % 4] == was[at - 4 + i % 4];
        assert buf[at + i] == Contents()[at + i] && buf[at - 4 + i % 4] == Contents()[at - 4 + i % 4];
        buf[at + i] := Xor(buf[at + i], buf[at - 4 + i % 4]);
        UnmaskedNext(was, at, i);
        assert Contents() == Unmasked(was, at, i)[at + i := Xor(was[at + i], was[at - 4 + i % 4])];
      }
      assert was[at..at] == [];
    }
  }

  // ----- The connection -----

  class Connection {
    const recv: IoBuf
    /** The connection flag that leaves fragments as they come. */
    const noDefrag: bool
    /** The frames handed to the user's handler. */
    var log: seq<Message>

    constructor (noDefrag: bool)
      ensures this.noDefrag == noDefrag
      ensures recv.Valid() && recv.Contents() == [] && log == [] && fresh(recv) && fresh(recv.buf)
    {
      this.noDefrag := noDefrag;
      recv := new IoBuf(0);
      log := [];
    }

    /** Unmask a whole frame in place, hand it over and drop it. */
    method Hand(h: Header)
      requires recv.Valid() && 0 < h.headerLen + h.dataLen <= recv.len && (h.maskLen > 0 ==> 4 <= h.headerLen)
      modifies this`log, recv, recv.buf
      ensures recv.Valid() && recv.buf == old(recv.buf)
      ensures var clear, n := Cleared(old(recv.Contents()), h), h.headerLen + h.dataLen;
              && log == old(log) + [Message(old(recv.Contents())[0], clear[h.headerLen..n])]
              && recv.Contents() == clear[n..]
    {
      var flags := recv.buf[0];
      if h.maskLen > 0 { recv.Unmask(h.headerLen, h.dataLen); }
      log := log + [Message(flags, recv.Contents()[h.headerLen..h.headerLen + h.dataLen])];
      recv.Remove(h.headerLen + h.dataLen);
    }

    /** `deliver_websocket_data`: hand over frame `i`, which is next, if it has wholly
        arrived. */
    method Deliver(ghost fs: seq<Frame>, ghost i: nat) returns (ok: bool)
      requires recv.Valid() && AllFit(fs) && i <= |fs| && Before(recv.Contents(), Stream(fs[i..]))
      requires noDefrag || Unfragmented(fs)
      modifies this`log, recv, recv.buf
      ensures recv.Valid() && recv.buf == old(recv.buf)
      ensures ok <==> i < |fs| && |Wire(fs[i])| <= |old(recv.Contents())|
      ensures log == if ok then old(log) + [MessageOf(fs[i])] else old(log)
      ensures recv.Contents() == if ok then old(recv.Contents())[|Wire(fs[i])|..] else old(recv.Contents())
    {
      hide Stream, Wire, Cleared, AllFit, Unfragmented, ReadHeader, FrameLen, IsFragment, Before;
      var b := recv.Contents();
      AnnouncesAt(b, fs, i);
      var reass := |b| > 0 && IsFragment(b[0]) && !noDefrag;
      assert !reass;
      var h := ReadHeader(b);
      ok := 0 < FrameLen(h) <= |b|;
      if ok { Hand(h); }
    }

    /** One delivery in a run of them: frames `k` to `i` of `all` have been handed over. */
    method DeliverNext(ghost fs: seq<Frame>, ghost k: nat, ghost i: nat, ghost all: Bytes, ghost base: seq<Message>)
      returns (more: bool)
      requires recv.Valid() && Between(fs, k, i, all, recv.Contents()) && log == base + Messages(fs[k..i])
      requires noDefrag || Unfragmented(fs)
      modifies this`log, recv, recv.buf
      ensures recv.Valid() && recv.buf == old(recv.buf)
      ensures more ==> i < |fs| && Between(fs, k, i + 1, all, recv.Contents()) && log == base + Messages(fs[k..i + 1])
      ensures !more ==> Between(fs, k, i, all, recv.Contents()) && log == base + Messages(fs[k..i])
      ensures !more && i < |fs| ==> |recv.Contents()| < |Wire(fs[i])|
    {
      hide Stream, Wire, Fits, Unfragmented, Messages, MessageOf, Before;
      InFront(fs, k, i, all, recv.Contents());
      ghost var b := recv.Contents();
      more := Deliver(fs, i);
      if more {
        NextFrame(fs, k, i, all, b);
        NextMessage(base, fs, k, i);
      }
    }

    /** Deliver while there is a whole frame. */
    method Drain(ghost fs: seq<Frame>, ghost k: nat) returns (ghost i: nat)
      requires recv.Valid() && AllFit(fs) && k <= |fs| && Before(recv.Contents(), Stream(fs[k..]))
      requires noDefrag || Unfragmented(fs)
      modifies this`log, recv, recv.buf
      ensures recv.Valid() && recv.buf == old(recv.buf)
      ensures Between(fs, k, i, old(recv.Contents()), recv.Contents()) && log == old(log) + Messages(fs[k..i])
      ensures i < |fs| ==> |recv.Contents()| < |Wire(fs[i])|
    {
      hide Stream, Wire, Fits, Unfragmented, Messages, MessageOf, Before, Between, IoBuf.Contents;
      i := k;
      ghost var all := recv.Contents();
      NoneYet(fs, k, all, log);
      var more := true;
      while more
        invariant recv.Valid() && recv.buf == old(recv.buf)
        invariant k <= i <= |fs| && Between(fs, k, i, all, recv.Contents()) && log == old(log) + Messages(fs[k..i])
        invariant !more && i < |fs| ==> |recv.Contents()| < |Wire(fs[i])|
        decreases |fs| - i, more
      {
        more := DeliverNext(fs, k, i, all, old(log));
        if more { i := i + 1; }
      }
    }

    /** `NS_RECV`: append what arrived and deliver what is whole. Of the frames `fs` from
        `k` on, exactly those that have wholly arrived are handed over, in order, and the
        rest stays in the buffer. */
    method Receive(chunk: Bytes, ghost fs: seq<Frame>, ghost k: nat) returns (ghost i: nat)
      requires recv.Valid() && AllFit(fs) && k <= |fs| && Before(recv.Contents() + chunk, Stream(fs[k..]))
      requires noDefrag || Unfragmented(fs)
      modifies this`log, recv, recv.buf
      ensures recv.Valid() && (recv.buf == old(recv.buf) || fresh(recv.buf))
      ensures k <= i <= |fs| && log == old(log) + Messages(fs[k..i])
      ensures Stream(fs[k..i]) + recv.Contents() == old(recv.Contents()) + chunk
      ensures i < |fs| ==> |recv.Contents()| < |Wire(fs[i])|
    {
      recv.Append(chunk);
      i := Drain(fs, k);
    }

    /** The whole run: however the bytes of the frames are cut into chunks, the handler
        sees exactly their payloads, in order, and the buffer ends empty. */
    method ReceiveAll(chunks: seq<Bytes>, ghost fs: seq<Frame>)
      requires recv.Valid() && recv.Contents() == [] && AllFit(fs) && Concat(chunks) == Stream(fs)
      requires noDefrag || Unfragmented(fs)
      modifies this`log, recv, recv.buf
      ensures recv.Valid() && recv.Contents() == [] && log == old(log) + Messages(fs)
    {
      hide Stream, Wire, Fits, Unfragmented, Messages, MessageOf, Before, Concat;
      ghost var k := 0;
      RunBegins(chunks, fs, log);
      for i := 0 to |chunks|
        invariant recv.Valid() && (recv.buf == old(recv.buf) || fresh(recv.buf))
        invariant k <= |fs| && log == old(log) + Messages(fs[..k])
        invariant recv.Contents() + Concat(chunks[i..]) == Stream(fs[k..])
        invariant recv.Contents() == [] || k == |fs| || |recv.Contents()| < |Wire(fs[k])|
      {
        ghost var b, k0 := recv.Contents(), k;
        NextChunk(chunks, i, b, Stream(fs[k..]));
        k := Receive(chunks[i], fs, k);
        RestOfStream(fs, k0, k, b + chunks[i], recv.Contents(), Concat(chunks[i + 1..]));
        MessagesSplit(fs, k0, k);
        Assoc(old(log), Messages(fs[..k0]), Messages(fs[k0..k]));
      }
      RunEnds(chunks, recv.Contents());
      NothingLeft(fs, k, recv.Contents());
    }
  }

  lemma RunBegins(chunks: seq<Bytes>, fs: seq<Frame>, log: seq<Message>)
    ensures fs[0..] == fs && log + Messages(fs[..0]) == log && [] + Concat(chunks[0..]) == Concat(chunks)
  {
    assert chunks[0..] == chunks;
  }

  lemma RunEnds(chunks: seq<Bytes>, b: Bytes)
    ensures b + Concat(chunks[|chunks|..]) == b
  {}

  lemma NextChunk(chunks: seq<Bytes>, i: nat, b: Bytes, stream: Bytes)
    requires i < |chunks| && b + Concat(chunks[i..]) == stream
    ensures Before(b + chunks[i], stream) && b + chunks[i] + Concat(chunks[i + 1..]) == stream
  {
    assert chunks[i..][1..] == chunks[i + 1..];
    Assoc(b, chunks[i], Concat(chunks[i + 1..]));
  }

  lemma MessagesSplit(fs: seq<Frame>, k: nat, i: nat)
    requires k <= i <= |fs|
    ensures Messages(fs[..k]) + Messages(fs[k..i]) == Messages(fs[..i])
  {}

  /** A buffer that holds all that is left of the stream, but not one whole frame of it,
      is empty. */
  lemma NothingLeft(fs: seq<Frame>, k: nat, b: Bytes)
    requires AllFit(fs) && k <= |fs| && b == Stream(fs[k..])
    requires b == [] || k == |fs| || |b| < |Wire(fs[k])|
    ensures k == |fs| && b == [] && fs[..k] == fs
  {
    if k < |fs| {
      FirstFrame(fs, k);
      assert false;
    }
  }

  lemma AnnouncesAt(b: Bytes, fs: seq<Frame>, i: nat)
    requires AllFit(fs) && i <= |fs| && Before(b, Stream(fs[i..]))
    ensures |b| > 0 && Unfragmented(fs) ==> !IsFragment(b[0])
    ensures var h := ReadHeader(b);
            var n := h.headerLen + h.dataLen;
            && FrameLen(h) == n
            && (0 < n <= |b| <==> i < |fs| && |Wire(fs[i])| <= |b|)
            && (0 < n <= |b| ==>
                  && n == |Wire(fs[i])| && b[0] == fs[i].flags
                  && (h.maskLen > 0 ==> h.headerLen >= 4)
                  && Cleared(b, h)[h.headerLen..n] == fs[i].payload && Cleared(b, h)[n..] == b[|Wire(fs[i])|..])
  {
    if i < |fs| {
      StreamStarts(b, fs[i..]);
      assert Fits(fs[i]) && (Unfragmented(fs) ==> !IsFragment(fs[i].flags));
      hide *;
      AnnouncesFrame(b, fs[i]);
    } else {
      assert b == [];
    }
  }

  lemma FirstByte(b: Bytes, f: Frame)
    requires Fits(f) && StartsWith(b, f) && |b| > 0
    ensures b[0] == f.flags
  {
    FrontBytes(b, f, 0, 1);
    assert b[0] == b[0..1][0] && Head(f)[0..1] == [f.flags];
  }

  lemma FirstFrame(fs: seq<Frame>, i: nat)
    requires AllFit(fs) && i < |fs|
    ensures Stream(fs[i..]) == Wire(fs[i]) + Stream(fs[i + 1..])
  {
    hide Wire;
    assert fs[i..][1..] == fs[i + 1..];
  }

  lemma LastFrame(fs: seq<Frame>, k: nat, i: nat)
    requires AllFit(fs) && k <= i < |fs|
    ensures Stream(fs[k..i + 1]) == Stream(fs[k..i]) + Wire(fs[i])
  {
    assert Stream([fs[i]]) == Wire(fs[i]) + [] == Wire(fs[i]);
    assert fs[k..i + 1][..i - k] == fs[k..i] && fs[k..i + 1][i - k..] == [fs[i]];
    hide Wire, Stream;
    StreamSplit(fs[k..i + 1], i - k);
  }

  lemma PrefixDrop(b: Bytes, w: Bytes, s: Bytes)
    requires Before(b, w + s) && |w| <= |b|
    ensures b == w + b[|w|..] && Before(b[|w|..], s)
  {
    assert b == (w + s)[..|b|];
  }

  /** Of the bytes `all` of the stream from frame `k` on, frames `k` to `i` are gone and
      `b` is left. */
  ghost predicate Between(fs: seq<Frame>, k: nat, i: nat, all: Bytes, b: Bytes) {
    && AllFit(fs) && k <= i <= |fs|
    && Before(b, Stream(fs[i..])) && Stream(fs[k..i]) + b == all
  }

  lemma NoneYet(fs: seq<Frame>, k: nat, all: Bytes, log: seq<Message>)
    requires AllFit(fs) && k <= |fs| && Before(all, Stream(fs[k..]))
    ensures Between(fs, k, k, all, all) && log == log + Messages(fs[k..k])
  {
    assert fs[k..k] == [] && [] + all == all;
  }

  lemma InFront(fs: seq<Frame>, k: nat, i: nat, all: Bytes, b: Bytes)
    requires Between(fs, k, i, all, b)
    ensures AllFit(fs) && i <= |fs| && Before(b, Stream(fs[i..]))
  {}

  lemma NextFrame(fs: seq<Frame>, k: nat, i: nat, all: Bytes, b: Bytes)
    requires Between(fs, k, i, all, b) && i < |fs| && |Wire(fs[i])| <= |b|
    ensures Between(fs, k, i + 1, all, b[|Wire(fs[i])|..])
  {
    hide Stream, Wire, Before;
    var w := Wire(fs[i]);
    FirstFrame(fs, i);
    LastFrame(fs, k, i);
    PrefixDrop(b, w, Stream(fs[i + 1..]));
    Assoc(Stream(fs[k..i]), w, b[|w|..]);
  }

  lemma NextMessage(log: seq<Message>, fs: seq<Frame>, k: nat, i: nat)
    requires k <= i < |fs|
    ensures log + Messages(fs[k..i]) + [MessageOf(fs[i])] == log + Messages(fs[k..i + 1])
  {
    assert Messages(fs[k..i]) + [MessageOf(fs[i])] == Messages(fs[k..i + 1]);
    Assoc(log, Messages(fs[k..i]), [MessageOf(fs[i])]);
  }

  /** The stream from the next incomplete frame on. */
  lemma RestOfStream(fs: seq<Frame>, k: nat, k': nat, arrived: Bytes, b: Bytes, coming: Bytes)
    requires AllFit(fs) && k <= k' <= |fs| && Stream(fs[k..k']) + b == arrived && arrived + coming == Stream(fs[k..])
    ensures b + coming == Stream(fs[k'..])
  {
    hide Stream;
    StreamSplit(fs[k..], k' - k);
    assert fs[k..][..k' - k] == fs[k..k'] && fs[k..][k' - k..] == fs[k'..];
    Assoc(Stream(fs[k..k']), b, coming);
    SameTail(Stream(fs[k..k']), b + coming, Stream(fs[k'..]));
  }

  lemma SameTail(w: Bytes, x: Bytes, y: Bytes)
    requires w + x == w + y
    ensures x == y
  {
    assert (w + x)[|w|..] == x && (w + y)[|w|..] == y;
  }

  /** The frame's length, computed in 64 bits. */
  function FrameLen(h: Header): nat {
    (h.headerLen + h.dataLen) % 0x1_0000_0000_0000_0000
  }

  function Cleared(b: Bytes, h: Header): (r: Bytes)
    requires h.headerLen + h.dataLen <= |b| && (h.maskLen > 0 ==> 4 <= h.headerLen)
    ensures |r| == |b|
  {
    if h.maskLen > 0 then Unmasked(b, h.headerLen, h.dataLen) else b
  }

  lemma WireLength(f: Frame)
    requires Fits(f)
    ensures |Wire(f)| == |Head(f)| + |f.payload| < 0x1_0000_0000_0000_0000
    ensures |Head(f)| >= 2 && (|KeyBytes(f)| > 0 <==> f.key.Some?) && (f.key.Some? ==> |Head(f)| >= 4)
  {}

  lemma FrameLenExact(h: Header)
    requires h.headerLen + h.dataLen < 0x1_0000_0000_0000_0000
    ensures FrameLen(h) == h.headerLen + h.dataLen
  {}

  /** For any bytes at all: what the length test accepts has wholly arrived exactly when
      header and payload together are below 2^64 bytes. */
  lemma AcceptedArrived(b: Bytes)
    requires |b| < 0x1_0000_0000_0000_0000
    ensures var h := ReadHeader(b);
            0 < FrameLen(h) <= |b| ==>
              (h.headerLen + h.dataLen <= |b| <==> h.headerLen + h.dataLen < 0x1_0000_0000_0000_0000)
  {
    hide ReadHeader;
  }

  /** The sum does wrap: a header that announces 2^64-9 bytes passes as a frame of one. */
  lemma LengthWraps()
    ensures var b := [0x82, 0x7F, 0xFF, 0xFF, 0xFF, 0xFF, 0xFF, 0xFF, 0xFF, 0xF7];
            ReadHeader(b) == Header(10, 0xFFFF_FFFF_FFFF_FFF7, 0) && FrameLen(ReadHeader(b)) == 1
  {}

  /** Clearing a whole frame uncovers its payload and leaves what follows. */
  lemma ClearedFrame(b: Bytes, f: Frame)
    requires Fits(f) && StartsWith(b, f) && |b| >= |Wire(f)|
    ensures var h := Header(|Head(f)|, |f.payload|, |KeyBytes(f)|);
            && |Wire(f)| == h.headerLen + h.dataLen && (h.maskLen > 0 ==> h.headerLen >= 4)
            && Cleared(b, h)[h.headerLen..|Wire(f)|] == f.payload && Cleared(b, h)[|Wire(f)|..] == b[|Wire(f)|..]
  {
    WholeFrame(b, f);
    WireLength(f);
    hide Wire, Head, Masked, StartsWith, Fits;
    var n := |Head(f)|;
    if f.key.Some? {
      var r := Unmasked(b, n, |f.payload|);
      assert r[n..n + |f.payload|] == Masked(b[n..n + |f.payload|], b[n - 4..n]);
    }
  }

  /** What reading the header at the front of a frame tells. */
  lemma AnnouncesFrame(b: Bytes, f: Frame)
    requires Fits(f) && StartsWith(b, f)
    ensures |b| > 0 ==> b[0] == f.flags
    ensures var h := ReadHeader(b);
            var n := h.headerLen + h.dataLen;
            && FrameLen(h) == n
            && (0 < n <= |b| <==> |Wire(f)| <= |b|)
            && (0 < n <= |b| ==>
                  && n == |Wire(f)| && b[0] == f.flags && (h.maskLen > 0 ==> h.headerLen >= 4)
                  && Cleared(b, h)[h.headerLen..n] == f.payload && Cleared(b, h)[n..] == b[n..])
  {
    hide *;
    HeaderExact(b, f);
    WireLength(f);
    FrameLenExact(ReadHeader(b));
    if |b| > 0 { FirstByte(b, f); }
    if |Wire(f)| <= |b| {
      ClearedFrame(b, f);
      SecondByte(b, f);
    }
  }

  // ----- Sending -----

  /** The frame `ns_send_websocket_frame` sends; 65535 bytes already take the long form. */
  function Sent(op: nat, data: Bytes): Frame {
    Frame(0x80 + op % 0x10, if |data| < 126 then Short else if |data| < 65535 then Medium else Long, None, data)
  }

  /** Its header, byte by byte. */
  lemma SentHead(op: nat, data: Bytes)
    requires |data| < 0x8000_0000_0000_0000
    ensures var n, first := |data|, 0x80 + op % 0x10;
            var hi, lo := n / 0x1_0000_0000, n % 0x1_0000_0000;
            Head(Sent(op, data)) ==
            if n < 126 then [first, n]
            else if n < 65535 then [first, 126, n / 0x100, n % 0x100]
            else [first, 127, hi / 0x1_0000 / 0x100, hi / 0x1_0000 % 0x100, hi % 0x1_0000 / 0x100, hi % 0x1_0000 % 0x100,
                  lo / 0x1_0000 / 0x100, lo / 0x1_0000 % 0x100, lo % 0x1_0000 / 0x100, lo % 0x1_0000 % 0x100]
  {}

  method SendHeader(out: IoBuf, op: nat, data: Bytes)
    requires out.Valid() && |data| < 0x8000_0000_0000_0000
    modifies out, out.buf
    ensures out.Valid() && out.Contents() == old(out.Contents()) + Head(Sent(op, data))
    ensures out.buf == old(out.buf) || fresh(out.buf)
  {
    hide Head;
    SentHead(op, data);
    var n := |data|;
    var header := new byte[10](_ => 0);
    header[0] := 0x80 + op % 0x10;
    var headerLen := 2;
    if n < 126 {
      header[1] := n;
    } else if n < 65535 {
      header[1], header[2], header[3], headerLen := 126, n / 0x100, n % 0x100, 4;
    } else {
      var hi, lo := n / 0x1_0000_0000, n % 0x1_0000_0000;
      header[1], headerLen := 127, 10;
      header[2], header[3] := hi / 0x1_0000 / 0x100, hi / 0x1_0000 % 0x100;
      header[4], header[5] := hi % 0x1_0000 / 0x100, hi % 0x1_0000 % 0x100;
      header[6], header[7] := lo / 0x1_0000 / 0x100, lo / 0x1_0000 % 0x100;
      header[8], header[9] := lo % 0x1_0000 / 0x100, lo % 0x1_0000 % 0x100;
    }
    assert header[..headerLen] == Head(Sent(op, data));
    out.Append(header[..headerLen]);
  }

  method SendFrame(out: IoBuf, op: nat, data: Bytes)
    requires out.Valid() && |data| < 0x8000_0000_0000_0000
    modifies out, out.buf
    ensures Fits(Sent(op, data)) && (op % 0x10 != 0 ==> Unfragmented([Sent(op, data)]))
    ensures MessageOf(Sent(op, data)) == Message(0x80 + op % 0x10, data)
    ensures out.Valid() && out.Contents() == old(out.Contents()) + Wire(Sent(op, data))
    ensures out.buf == old(out.buf) || fresh(out.buf)
  {
    SendHeader(out, op, data);
    out.Append(data);
    Assoc(old(out.Contents()), Head(Sent(op, data)), data);
  }
}
