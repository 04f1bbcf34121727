/** Variable-length integers: seven bits a byte, least significant first, the top
    bit set on every byte but the last. */
module Varint {
  import opened Words
  import opened Numerals

  lemma Pow2Plus7(n: nat)
    ensures Pow2(n + 7) == 128 * Pow2(n)
  {
    assert Pow2(n + 7) == 2 * Pow2(n + 6) == 4 * Pow2(n + 5) == 8 * Pow2(n + 4);
    assert Pow2(n + 4) == 2 * Pow2(n + 3) == 4 * Pow2(n + 2) == 8 * Pow2(n + 1);
  }

  /** The canonical encoding. */
  function Encode(i: nat): (b: Bytes)
    ensures |b| >= 1
  {
    if i < 0x80 then [i] else [i % 0x80 + 0x80] + Encode(i / 0x80)
  }

  /** The low seven bits of each byte, last byte first. */
  function Groups(b: Bytes): (ds: seq<nat>)
    ensures |ds| == |b|
  {
    seq(|b|, j requires 0 <= j < |b| => b[|b| - 1 - j] % 0x80)
  }

  /** The bytes written: in base 128 the value, least significant group first, the top bit
      on all bytes but the last, and no superfluous last group. */
  lemma {:induction false} EncodeMeans(i: nat)
    ensures Value(128, Groups(Encode(i))) == i
    ensures var b := Encode(i);
            && (forall j :: 0 <= j < |b| - 1 ==> b[j] >= 0x80) && b[|b| - 1] < 0x80
            && (|b| > 1 ==> b[|b| - 1] > 0)
    decreases i
  {
    hide Value;
    if i < 0x80 {
      assert Groups(Encode(i)) == [] + [i];
      ValueSnoc(128, [], i);
      ValueNone(128);
    } else {
      var d, h := i % 0x80, i / 0x80;
      EncodeMeans(h);
      GroupsCons(d + 0x80, Encode(h));
      assert Encode(i) == [d + 0x80] + Encode(h) && (d + 0x80) % 0x80 == d;
      hide Encode, Groups;
      ValueSnoc(128, Groups(Encode(h)), d);
    }
  }

  lemma GroupsCons(c: byte, b: Bytes)
    ensures Groups([c] + b) == Groups(b) + [c % 0x80]
  {}

  /** `write_varint`. */
  method WriteVarint(i: nat) returns (out: Bytes)
    ensures out == Encode(i)
  {
    out := [];
    var n := i;
    while n >= 0x80
      invariant out + Encode(n) == Encode(i)
    {
      out := out + [n % 0x80 + 0x80];
      n := n / 0x80;
    }
    out := out + [n];
  }

  /** What a read ends with: a value, the bytes consumed and whether the last of
      them ended it (it did not when the input ran out first), or an error. */
  datatype Outcome = Read(value: nat, count: nat, ended: bool) | Overflow | NonCanonical

  /** Reading with `room` bits left; `later` after the first byte. */
  function DecodeFrom(room: nat, input: Bytes, later: bool): Outcome {
    if input == [] then Read(0, 0, false)
    else
      var b := input[0];
      if room <= 7 && b >= Pow2(room) then Overflow
      else if b == 0 && later then NonCanonical
      else if b < 0x80 then Read(b, 1, true)
      else if room <= 7 then Overflow
      else
        match DecodeFrom(room - 7, input[1..], true)
        case Read(v, n, e) => Read(b % 0x80 + 0x80 * v, n + 1, e)
        case err => err
  }

  function Decode(bits: nat, input: Bytes): Outcome {
    DecodeFrom(bits, input, false)
  }

  /** Byte `k` is the one a read stops at: all before it have the top bit set. */
  predicate Reaches(input: Bytes, k: nat) {
    k < |input| && forall j :: 0 <= j < k ==> input[j] >= 0x80
  }

  /** A read is refused as not canonical at a zero byte after the first, and as too large at
      a byte that does not fit the bits left. */
  lemma {:induction false} Refusals(room: nat, input: Bytes, later: bool) returns (k: nat)
    ensures DecodeFrom(room, input, later).NonCanonical? ==> Reaches(input, k) && input[k] == 0 && (k > 0 || later)
    ensures DecodeFrom(room, input, later).Overflow? ==>
              Reaches(input, k) && 7 * k <= room <= 7 * k + 7 && input[k] >= Pow2(room - 7 * k)
    decreases room
  {
    k := 0;
    if room <= 7 {
      SmallRoom(room);
    } else if input != [] && input[0] >= 0x80 {
      k := Refusals(room - 7, input[1..], true);
      k := k + 1;
      var r := DecodeFrom(room, input, later);
      if r.NonCanonical? || r.Overflow? {
        assert input[k] == input[1..][k - 1];
        assert forall j :: 0 < j < k ==> input[j] == input[1..][j - 1];
      }
    }
  }

  lemma {:induction false} Pow2Mono(a: nat, b: nat)
    requires a <= b
    ensures Pow2(a) <= Pow2(b)
    decreases b
  {
    if a < b { Pow2Mono(a, b - 1); }
  }

  /** A byte with the top bit set overflows when at most seven bits are left, so the
      second overflow branch above is never reached with a continuation byte. */
  lemma SmallRoom(room: nat)
    requires room <= 7
    ensures Pow2(room) <= 0x80
  {
    Pow2Mono(room, 7);
    Pow2Plus7(0);
  }

  lemma {:induction false} DecodeEncodeFrom(room: nat, i: nat, rest: Bytes, later: bool)
    requires i < Pow2(room) && (later ==> i > 0)
    ensures DecodeFrom(room, Encode(i) + rest, later) == Read(i, |Encode(i)|, true)
    decreases i
  {
    if room <= 7 { SmallRoom(room); }
    if i >= 0x80 {
      Pow2Plus7(room - 7);
      DecodeEncodeFrom(room - 7, i / 0x80, rest, true);
      assert (Encode(i) + rest)[1..] == Encode(i / 0x80) + rest;
    }
  }

  /** Reading what was written gives the value and consumes exactly its bytes. */
  lemma DecodeEncode(bits: nat, i: nat, rest: Bytes)
    requires i < Pow2(bits)
    ensures Decode(bits, Encode(i) + rest) == Read(i, |Encode(i)|, true)
  {
    DecodeEncodeFrom(bits, i, rest, false);
  }

  lemma {:induction false} EncodeDecodeFrom(room: nat, input: Bytes, later: bool)
    ensures var r := DecodeFrom(room, input, later);
            r.Read? && r.ended ==>
              && r.value < Pow2(room) && (later ==> r.value > 0)
              && r.count <= |input| && input[..r.count] == Encode(r.value)
  {
    var r := DecodeFrom(room, input, later);
    if r.Read? && r.ended {
      var b := input[0];
      if b < 0x80 {
        if room >= 8 { Pow2Mono(8, room); Pow2Plus7(1); }
      } else {
        EncodeDecodeFrom(room - 7, input[1..], true);
        Pow2Plus7(room - 7);
        var v := DecodeFrom(room - 7, input[1..], true).value;
        assert r.value % 0x80 == b % 0x80 && r.value / 0x80 == v;
        assert input[..r.count] == [b] + input[1..][..r.count - 1];
      }
    }
  }

  /** A read that ended on its own saw exactly the canonical encoding of its value. */
  lemma EncodeDecode(bits: nat, input: Bytes)
    requires Decode(bits, input).Read? && Decode(bits, input).ended
    ensures var r := Decode(bits, input);
            r.value < Pow2(bits) && r.count <= |input| && input[..r.count] == Encode(r.value)
  {
    EncodeDecodeFrom(bits, input, false);
  }

  lemma {:induction false} Truncated(room: nat, input: Bytes, later: bool)
    ensures var r := DecodeFrom(room, input, later);
            r.Read? && !r.ended ==> r.count == |input| && forall i :: 0 <= i < |input| ==> input[i] >= 0x80
  {
    if input != [] && room > 7 { Truncated(room - 7, input[1..], true); }
  }

  lemma {:induction false} CountFits(room: nat, input: Bytes, later: bool)
    ensures var r := DecodeFrom(room, input, later);
            r.Read? ==> r.count <= |input|
  {
    if input != [] && room > 7 { CountFits(room - 7, input[1..], true); }
  }

  lemma {:induction false} DecodeBelow(room: nat, input: Bytes, later: bool)
    ensures var r := DecodeFrom(room, input, later);
            r.Read? ==> r.value < Pow2(room)
  {
    if input != [] {
      if room > 7 {
        DecodeBelow(room - 7, input[1..], true);
        Pow2Plus7(room - 7);
        Pow2Mono(7, room);
        Pow2Plus7(0);
      }
    }
  }

  /** The number `read_varint` returns. */
  function Code(o: Outcome): int {
    match o
    case Read(_, n, _) => n
    case Overflow => -1
    case NonCanonical => -2
  }

  /** After `read` bytes holding `write`, what is left to read completes the result. */
  ghost predicate Progress(bits: nat, input: Bytes, read: nat, write: nat) {
    && read <= |input| && 7 * read <= bits && write < Pow2(7 * read)
    && var r := DecodeFrom(bits - 7 * read, input[read..], read != 0);
       var o := Decode(bits, input);
       if r.Read? then o == Read(write + Pow2(7 * read) * r.value, read + r.count, r.ended) else o == r
  }

  lemma ProgressBegins(bits: nat, input: Bytes)
    ensures Progress(bits, input, 0, 0)
  {
    assert input[0..] == input;
  }

  lemma Distribute(p: nat, d: nat, v: nat)
    ensures p * (d + 0x80 * v) == d * p + (0x80 * p) * v
  {
    assert p * (d + 0x80 * v) == p * d + p * (0x80 * v);
  }

  /** A continuation byte. */
  lemma ProgressStep(bits: nat, input: Bytes, read: nat, write: nat)
    requires Progress(bits, input, read, write) && read < |input| && 7 * read + 7 < bits
    requires input[read] >= 0x80
    ensures Progress(bits, input, read + 1, write + input[read] % 0x80 * Pow2(7 * read))
  {
    hide Pow2;
    var p, d := Pow2(7 * read), input[read] % 0x80;
    Pow2Plus7(7 * read);
    MulMono(p, d, 0x7F);
    var left := input[read..];
    assert left[1..] == input[read + 1..];
    var r := DecodeFrom(bits - 7 * read, left, read != 0);
    var r' := DecodeFrom(bits - 7 * read - 7, left[1..], true);
    if r'.Read? { Distribute(p, d, r'.value); }
  }

  lemma ProgressEnds(bits: nat, input: Bytes, read: nat, write: nat)
    requires Progress(bits, input, read, write)
    requires read < |input| ==> input[read] < 0x80 || bits <= 7 * read + 7
    ensures var o := Decode(bits, input);
            if read == |input| then o == Read(write, read, false)
            else var b := input[read];
              if bits <= 7 * read + 7 && b >= Pow2(bits - 7 * read) then o == Overflow
              else if b == 0 && read != 0 then o == NonCanonical
              else b < 0x80 && o == Read(write + b * Pow2(7 * read), read + 1, true)
  {
    if bits <= 7 * read + 7 { SmallRoom(bits - 7 * read); }
    hide Pow2;
    var p := Pow2(7 * read);
    assert p * 0 == 0;
    if read < |input| { assert p * input[read] == input[read] * p; }
  }

  /** `read_varint` with `bits` value bits. */
  method ReadVarint(bits: nat, input: Bytes) returns (read: int, write: nat)
    ensures read == Code(Decode(bits, input))
    ensures Decode(bits, input).Read? ==> write == Decode(bits, input).value
  {
    hide Pow2, Decode, DecodeFrom, Progress;
    read, write := 0, 0;
    var shift := 0;
    ProgressBegins(bits, input);
    while true
      invariant 0 <= read <= |input| && shift == 7 * read <= bits && Progress(bits, input, read, write)
      decreases |input| - read
    {
      if read == |input| {
        ProgressEnds(bits, input, read, write);
        return;
      }
      var b := input[read];
      if b >= 0x80 && shift + 7 < bits {
        ProgressStep(bits, input, read, write);
      } else {
        ProgressEnds(bits, input, read, write);
      }
      read := read + 1;
      if shift + 7 >= bits && b >= Pow2(bits - shift) { return -1, write; }
      if b == 0 && shift != 0 { return -2, write; }
      write := write + b % 0x80 * Pow2(shift);
      if b < 0x80 { return; }
      shift := shift + 7;
    }
  }
}
