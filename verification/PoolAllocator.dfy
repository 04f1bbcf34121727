/** `MemoryPoolAllocator`: a bump allocator over a list of chunks, with growth in place.

    Memory is a function from addresses to bytes. What the base allocator returns for a
    new chunk is a parameter, required only to be clear of the chunks there are. */
module PoolAllocator {
  import opened Words

  type Memory = nat -> byte

  /** A chunk: a header of 24 bytes at `at`, then `capacity` bytes of which `size` are used. */
  datatype Chunk = Chunk(at: nat, capacity: nat, size: nat)

  /** A block given to the client, with the size asked for. */
  datatype Block = Block(at: nat, size: nat)

  const HEADER := 24

  /** The largest request the alignment macro rounds up rather than down. */
  const LIMIT := 0xFFFF_FFFC

  /** `RAPIDJSON_ALIGN`: the mask has 32 bits, so the sum loses its upper half. */
  function Align(x: nat): nat {
    (x + 3) % 0x1_0000_0000 / 4 * 4
  }

  /** The macro rounds up exactly for requests up to the limit. */
  lemma AlignRoundsUp(x: nat)
    ensures Align(x) >= x <==> x <= LIMIT
    ensures x <= LIMIT ==> Align(x) < x + 4
  {
    if x + 3 < 0x1_0000_0000 {
      assert (x + 3) % 0x1_0000_0000 == x + 3;
    }
  }

  /** What it gives is a multiple of four: the largest one within three bytes more than
      the request, taken modulo 2^32. */
  lemma AlignMultiple(x: nat)
    ensures Align(x) % 4 == 0
    ensures Align(x) <= (x + 3) % 0x1_0000_0000 < Align(x) + 4
  {}

  /** A request of 4 GiB is given no bytes at all. */
  lemma AlignWraps()
    ensures Align(0x1_0000_0000) == 0
  {}

  // ----- Regions -----

  function Min(a: nat, b: nat): nat {
    if a < b then a else b
  }

  function Max(a: nat, b: nat): nat {
    if a > b then a else b
  }

  function Base(c: Chunk): nat {
    c.at + HEADER
  }

  predicate Clear(at: nat, n: nat, c: Chunk) {
    at + n <= c.at || Base(c) + c.capacity <= at
  }

  predicate Fresh(chunks: seq<Chunk>, at: nat, n: nat) {
    forall i :: 0 <= i < |chunks| ==> Clear(at, n, chunks[i])
  }

  predicate ChunksOk(chunks: seq<Chunk>) {
    && (forall i :: 0 <= i < |chunks| ==> chunks[i].size <= chunks[i].capacity && chunks[i].size % 4 == 0)
    && (forall i, j :: 0 <= i < j < |chunks| ==> Clear(chunks[j].at, HEADER + chunks[j].capacity, chunks[i]))
  }

  /** No address belongs to both. */
  predicate Apart(a: Block, b: Block) {
    a.size == 0 || b.size == 0 || a.at + a.size <= b.at || b.at + b.size <= a.at
  }

  /** A block lies in the used part of a chunk. */
  predicate Inside(b: Block, c: Chunk) {
    Base(c) <= b.at && b.at + b.size <= Base(c) + c.size
  }

  /** Every block lies in the chunk that owns it, and no two blocks share an address. */
  predicate BlocksOk(chunks: seq<Chunk>, live: seq<Block>, owner: seq<nat>) {
    && |owner| == |live|
    && (forall k :: 0 <= k < |live| ==> owner[k] < |chunks| && Inside(live[k], chunks[owner[k]]))
    && (forall k, l :: 0 <= k < l < |live| ==> Apart(live[k], live[l]))
  }

  lemma HeadAligned(chunks: seq<Chunk>)
    requires ChunksOk(chunks) && chunks != []
    ensures chunks[|chunks| - 1].size % 4 == 0
  {}

  lemma HeadIsClear(chunks: seq<Chunk>, o: nat)
    requires ChunksOk(chunks) && o < |chunks| - 1
    ensures var c := chunks[|chunks| - 1]; Clear(c.at, HEADER + c.capacity, chunks[o])
  {}

  /** Blocks in used parts never reach into the unused part of the head chunk. */
  lemma UnusedIsClear(chunks: seq<Chunk>, b: Block, o: nat, b': Block)
    requires ChunksOk(chunks) && o < |chunks| && Inside(b, chunks[o])
    requires var c := chunks[|chunks| - 1];
             Base(c) + c.size <= b'.at && b'.at + b'.size <= Base(c) + c.capacity
    ensures Apart(b, b')
  {
    if o < |chunks| - 1 { HeadIsClear(chunks, o); }
  }

  /** The in-place test of `Realloc` compares addresses only, yet it can match only a
      block of the head chunk, and only one that ends where its used part ends. */
  lemma InPlaceMatchesLast(chunks: seq<Chunk>, b: Block, o: nat)
    requires ChunksOk(chunks) && o < |chunks| && Inside(b, chunks[o])
    requires var c := chunks[|chunks| - 1]; b.at + b.size == Base(c) + c.size
    ensures o == |chunks| - 1
  {
    if o < |chunks| - 1 {
      HeadIsClear(chunks, o);
      assert false;
    }
  }

  /** `Realloc` grows the block at `p` where it is. */
  predicate InPlace(chunks: seq<Chunk>, p: nat, originalSize: nat, newSize: nat)
    requires chunks != [] && originalSize < newSize
  {
    var c := chunks[|chunks| - 1];
    p + originalSize == Base(c) + c.size && c.size + Align(newSize - originalSize) <= c.capacity
  }

  /** The sizes for which `Realloc` has a block to return: any that does not grow, an
      increment within the limit in place, and a size within the limit otherwise. */
  predicate Granted(chunks: seq<Chunk>, ptr: Option<nat>, originalSize: nat, newSize: nat) {
    if ptr.Some? && newSize <= originalSize then true
    else if ptr.Some? && chunks != [] && InPlace(chunks, ptr.value, originalSize, newSize)
    then newSize - originalSize <= LIMIT
    else newSize <= LIMIT
  }

  // ----- Memory -----

  function Overwrite(m: Memory, at: nat, n: nat, bytes: nat -> byte): Memory {
    (a: nat) => if at <= a < at + n then bytes(a - at) else m(a)
  }

  /** The bytes of a block. */
  function View(m: Memory, b: Block): (s: Bytes)
    ensures |s| == b.size
  {
    seq(b.size, i requires 0 <= i < b.size => m(b.at + i))
  }

  lemma ViewKept(m: Memory, at: nat, n: nat, bytes: nat -> byte, b: Block)
    requires n == 0 || b.size == 0 || at + n <= b.at || b.at + b.size <= at
    ensures View(Overwrite(m, at, n, bytes), b) == View(m, b)
  {}

  /** What a header holds besides its chunk's sizes: the address of the next chunk of
      the source's list, which is the one before. */
  function Next(chunks: seq<Chunk>, i: nat): nat
    requires i < |chunks|
  {
    if i == 0 then 0 else chunks[i - 1].at
  }

  /** How a header is laid out: its bytes, given its chunk and its link. */
  type Layout = (Chunk, nat, nat) -> byte

  function HeaderBytes(layout: Layout, chunks: seq<Chunk>, i: nat): nat -> byte
    requires i < |chunks|
  {
    (j: nat) => layout(chunks[i], Next(chunks, i), j)
  }

  ghost predicate HeaderOk(m: Memory, layout: Layout, chunks: seq<Chunk>, i: nat)
    requires i < |chunks|
  {
    forall j: nat :: j < HEADER ==> m(chunks[i].at + j) == layout(chunks[i], Next(chunks, i), j)
  }

  /** The first `n` chunks have their headers in memory. */
  ghost predicate HeadersOk(m: Memory, layout: Layout, chunks: seq<Chunk>, n: nat)
    requires n <= |chunks|
  {
    forall i :: 0 <= i < n ==> HeaderOk(m, layout, chunks, i)
  }

  lemma HeadersPrefix(m: Memory, layout: Layout, chunks: seq<Chunk>, chunks': seq<Chunk>, n: nat)
    requires n <= |chunks| && n <= |chunks'| && chunks[..n] == chunks'[..n] && HeadersOk(m, layout, chunks, n)
    ensures HeadersOk(m, layout, chunks', n)
  {
    forall i | 0 <= i < n ensures HeaderOk(m, layout, chunks', i) {
      assert HeaderOk(m, layout, chunks, i);
      assert chunks[i] == chunks[..n][i] == chunks'[i];
      if i > 0 { assert chunks[i - 1] == chunks[..n][i - 1] == chunks'[i - 1]; }
      assert Next(chunks, i) == Next(chunks', i);
    }
  }

  lemma HeadersFirst(m: Memory, layout: Layout, chunks: seq<Chunk>)
    requires chunks != [] && HeadersOk(m, layout, chunks, |chunks|)
    ensures HeadersOk(m, layout, chunks, |chunks| - 1)
  {}

  /** A block never reaches into a header. */
  lemma HeaderIsClear(chunks: seq<Chunk>, b: Block, o: nat, i: nat)
    requires ChunksOk(chunks) && o < |chunks| && Inside(b, chunks[o]) && i < |chunks|
    ensures b.size == 0 || chunks[i].at + HEADER <= b.at || b.at + b.size <= chunks[i].at
  {
    if o < i {
      assert Clear(chunks[i].at, HEADER + chunks[i].capacity, chunks[o]);
    } else if i < o {
      assert Clear(chunks[o].at, HEADER + chunks[o].capacity, chunks[i]);
    }
  }

  /** Writing inside a block leaves every header. */
  lemma HeadersKept(m: Memory, at: nat, n: nat, bytes: nat -> byte, layout: Layout, chunks: seq<Chunk>, b: Block, o: nat)
    requires ChunksOk(chunks) && o < |chunks| && Inside(b, chunks[o]) && b.at <= at && at + n <= b.at + b.size
    requires HeadersOk(m, layout, chunks, |chunks|)
    ensures HeadersOk(Overwrite(m, at, n, bytes), layout, chunks, |chunks|)
  {
    forall i | 0 <= i < |chunks| ensures HeaderOk(Overwrite(m, at, n, bytes), layout, chunks, i) {
      assert HeaderOk(m, layout, chunks, i);
      HeaderIsClear(chunks, b, o, i);
    }
  }

  /** Writing the head chunk's header completes the headers. */
  lemma HeadersStamped(m: Memory, layout: Layout, chunks: seq<Chunk>)
    requires ChunksOk(chunks) && chunks != [] && HeadersOk(m, layout, chunks, |chunks| - 1)
    ensures var h := |chunks| - 1;
            HeadersOk(Overwrite(m, chunks[h].at, HEADER, HeaderBytes(layout, chunks, h)), layout, chunks, |chunks|)
  {
    var h := |chunks| - 1;
    var bytes := HeaderBytes(layout, chunks, h);
    forall i | 0 <= i < h ensures HeaderOk(Overwrite(m, chunks[h].at, HEADER, bytes), layout, chunks, i) {
      assert HeaderOk(m, layout, chunks, i);
      HeadIsClear(chunks, i);
    }
    assert HeaderOk(Overwrite(m, chunks[h].at, HEADER, bytes), layout, chunks, h);
  }

  function Total(chunks: seq<Chunk>, of: Chunk -> nat): nat {
    if chunks == [] then 0 else Total(chunks[1..], of) + of(chunks[0])
  }

  /** What is used never exceeds what there is. */
  lemma {:induction false} UsedFits(chunks: seq<Chunk>)
    requires ChunksOk(chunks)
    ensures Total(chunks, (c: Chunk) => c.size) <= Total(chunks, (c: Chunk) => c.capacity)
  {
    if chunks != [] { UsedFits(chunks[1..]); }
  }

  // ----- Blocks that stay and blocks that move -----

  /** The blocks of `live` are still there with the same bytes. */
  ghost predicate Kept(m: Memory, live: seq<Block>, m': Memory, live': seq<Block>) {
    |live| <= |live'| && forall k :: 0 <= k < |live| ==> live'[k] == live[k] && View(m', live[k]) == View(m, live[k])
  }

  /** Block `k` has become `b`, which holds the same first bytes; the others are as they
      were. */
  ghost predicate Moved(m: Memory, live: seq<Block>, m': Memory, live': seq<Block>, k: nat, b: Block) {
    && k < |live| && live' == live[k := b]
    && (forall j :: 0 <= j < |live| && j != k ==> View(m', live[j]) == View(m, live[j]))
    && var n := Min(live[k].size, b.size);
       View(m', b)[..n] == View(m, live[k])[..n]
  }

  // ----- Runs -----

  /** What a client may ask: a block, another size for block `k`, or a byte stored in it. */
  datatype Op = Get(n: nat) | Resize(k: nat, n: nat) | Put(k: nat, i: nat, b: byte)

  function Views(m: Memory, live: seq<Block>): seq<Bytes> {
    seq(|live|, k requires 0 <= k < |live| => View(m, live[k]))
  }

  function Changed(s: Bytes, i: nat, b: byte): Bytes
    requires i < |s|
  {
    s[i := b]
  }

  /** The effect of an operation on a table of independent byte strings. */
  ghost predicate Follows(before: seq<Bytes>, op: Op, after: seq<Bytes>) {
    match op
    case Get(n) => |after| == |before| + 1 && after[..|before|] == before && |after[|before|]| == n
    case Resize(k, n) =>
      if k >= |before| then after == before
      else
        && |after| == |before| && |after[k]| == n && after == before[k := after[k]]
        && var m := Min(|before[k]|, n); after[k][..m] == before[k][..m]
    case Put(k, i, b) =>
      after == if k < |before| && i < |before[k]| then before[k := Changed(before[k], i, b)] else before
  }

  lemma GetFollows(m: Memory, live: seq<Block>, m': Memory, b: Block)
    requires Kept(m, live, m', live + [b])
    ensures Follows(Views(m, live), Get(b.size), Views(m', live + [b]))
  {
    var all := live + [b];
    forall k | 0 <= k < |live| ensures View(m', all[k]) == View(m, live[k]) { assert all[k] == live[k]; }
  }

  lemma ResizeFollows(m: Memory, live: seq<Block>, m': Memory, live': seq<Block>, k: nat, b: Block)
    requires Moved(m, live, m', live', k, b)
    ensures k < |live| && live' == live[k := b]
    ensures Follows(Views(m, live), Resize(k, b.size), Views(m', live'))
  {
    hide View;
  }

  lemma PutFollows(m: Memory, live: seq<Block>, m': Memory, k: nat, i: nat, b: byte)
    requires k < |live| && i < live[k].size && View(m', live[k]) == View(m, live[k])[i := b]
    requires forall j :: 0 <= j < |live| && j != k ==> View(m', live[j]) == View(m, live[j])
    ensures Follows(Views(m, live), Put(k, i, b), Views(m', live))
  {
    hide View;
  }

  lemma NothingFollows(m: Memory, live: seq<Block>, op: Op)
    requires match op
             case Get(_) => false
             case Resize(k, _) => k >= |live|
             case Put(k, i, _) => k >= |live| || i >= live[k].size
    ensures Follows(Views(m, live), op, Views(m, live))
  {}

  lemma KeptTwice(m: Memory, live: seq<Block>, m': Memory, m'': Memory)
    requires (m == m' || Kept(m, live, m', live)) && Kept(m', live, m'', live)
    ensures Kept(m, live, m'', live)
  {}

  lemma KeptMore(m: Memory, live: seq<Block>, m': Memory, b: Block)
    requires Kept(m, live, m', live)
    ensures Kept(m, live, m', live + [b])
  {}

  /** A block in the part of the head chunk that was unused. */
  lemma Adds(before: seq<Chunk>, chunks: seq<Chunk>, live: seq<Block>, owner: seq<nat>, b: Block)
    requires ChunksOk(before) && BlocksOk(before, live, owner) && BlocksOk(chunks, live, owner)
    requires before != [] && |chunks| == |before|
    requires var c, c' := before[|before| - 1], chunks[|chunks| - 1];
             Base(c') == Base(c) && Base(c) + c.size <= b.at && b.at + b.size <= Base(c) + c.capacity && Inside(b, c')
    ensures BlocksOk(chunks, live + [b], owner + [|chunks| - 1])
  {
    forall j | 0 <= j < |live| ensures Apart(live[j], b) {
      UnusedIsClear(before, live[j], owner[j], b);
    }
  }

  lemma Owned(chunks: seq<Chunk>, live: seq<Block>, owner: seq<nat>, k: nat)
    requires BlocksOk(chunks, live, owner) && k < |live|
    ensures |owner| == |live| && owner[k] < |chunks| && Inside(live[k], chunks[owner[k]])
  {
    assert owner[k] < |chunks|;
  }

  lemma TwoBlocks(chunks: seq<Chunk>, live: seq<Block>, owner: seq<nat>, j: nat, k: nat)
    requires BlocksOk(chunks, live, owner) && j < |live| && k < |live| && j != k
    ensures Apart(live[j], live[k])
  {
    if k < j { assert Apart(live[k], live[j]); }
  }

  lemma Shrinks(chunks: seq<Chunk>, live: seq<Block>, owner: seq<nat>, m: Memory, k: nat, n: nat)
    requires BlocksOk(chunks, live, owner) && k < |live| && n <= live[k].size
    ensures var b := Block(live[k].at, n);
            BlocksOk(chunks, live[k := b], owner) && Moved(m, live, m, live[k := b], k, b)
  {
    var b := Block(live[k].at, n);
    forall j | 0 <= j < |live| && j != k ensures Apart(live[j], b) && Apart(b, live[j]) {
      TwoBlocks(chunks, live, owner, j, k);
    }
    ViewGrows(m, live[k].at, n, live[k].size);
  }

  /** Growing the last block into the unused part of the head chunk. */
  lemma Grows(before: seq<Chunk>, chunks: seq<Chunk>, live: seq<Block>, owner: seq<nat>,
              m: Memory, m': Memory, k: nat, n: nat)
    requires ChunksOk(before) && BlocksOk(before, live, owner) && BlocksOk(chunks, live, owner) && Kept(m, live, m', live)
    requires k < |live| && before != [] && |chunks| == |before| && owner[k] == |chunks| - 1 && live[k].size < n
    requires var c, c' := before[|before| - 1], chunks[|chunks| - 1];
             && Base(c') == Base(c) && live[k].at + live[k].size == Base(c) + c.size
             && live[k].at + n <= Base(c') + c'.size && live[k].at + n <= Base(c) + c.capacity
    ensures var b := Block(live[k].at, n);
            BlocksOk(chunks, live[k := b], owner) && Moved(m, live, m', live[k := b], k, b)
  {
    var b, s := Block(live[k].at, n), live[k].size;
    forall j | 0 <= j < |live| && j != k ensures Apart(live[j], b) && Apart(b, live[j]) {
      UnusedIsClear(before, live[j], owner[j], Block(live[k].at + s, n - s));
      TwoBlocks(chunks, live, owner, j, k);
    }
    ViewGrows(m', live[k].at, s, n);
  }

  lemma Replaces(chunks: seq<Chunk>, live: seq<Block>, owner: seq<nat>, k: nat, b: Block, o: nat)
    requires k < |live| == |owner| && BlocksOk(chunks, live + [b], owner + [o])
    ensures BlocksOk(chunks, live[k := b], owner[k := o])
  {
    var all, own := live + [b], owner + [o];
    forall j | 0 <= j < |live|
      ensures own[j] == owner[j] && owner[j] < |chunks| && Inside(live[j], chunks[owner[j]]) && Apart(live[j], b)
    {
      assert all[j] == live[j] && all[|live|] == b && Apart(all[j], all[|live|]);
    }
    assert own[|live|] == o && Inside(all[|live|], chunks[own[|live|]]);
    forall i, j | 0 <= i < j < |live| ensures Apart(live[i], live[j]) { assert Apart(all[i], all[j]); }
  }

  /** Copying the old bytes into a new block clear of all others. */
  lemma CopyMoves(m: Memory, live: seq<Block>, m': Memory, owner: seq<nat>, chunks: seq<Chunk>, k: nat, b: Block)
    requires k < |live| && live[k].size <= b.size
    requires Kept(m, live, m', live + [b]) && BlocksOk(chunks, live + [b], owner)
    ensures Moved(m, live, Overwrite(m', b.at, live[k].size, (i: nat) => m'(live[k].at + i)), live[k := b], k, b)
  {
    var all, n := live + [b], live[k].size;
    var bytes := (i: nat) => m'(live[k].at + i);
    var m'' := Overwrite(m', b.at, n, bytes);
    forall j | 0 <= j < |live| && j != k ensures View(m'', live[j]) == View(m, live[j]) {
      assert Apart(all[j], all[|live|]) && all[j] == live[j];
      ViewKept(m', b.at, n, bytes, live[j]);
    }
    assert View(m'', b)[..n] == View(m', live[k]);
  }

  lemma ViewGrows(m: Memory, p: nat, n: nat, n': nat)
    requires n <= n'
    ensures View(m, Block(p, n'))[..n] == View(m, Block(p, n))
  {}

  // ----- The allocator -----

  class Pool {
    /** Oldest first; the last is the head of the source's list. */
    var chunks: seq<Chunk>
    const chunkCapacity: nat
    var mem: Memory
    /** The bytes of a chunk header in memory. */
    const layout: Layout
    ghost var live: seq<Block>
    ghost var owner: seq<nat>

    /** Chunks do not overlap, nor do blocks, and blocks lie in used parts of chunks. */
    ghost predicate Sound()
      reads this
    {
      ChunksOk(chunks) && BlocksOk(chunks, live, owner)
    }

    /** And every chunk's header is in memory as it was last written. */
    ghost predicate Valid()
      reads this
    {
      Sound() && HeadersOk(mem, layout, chunks, |chunks|)
    }

    constructor (chunkCapacity: nat, region: nat, mem: Memory, layout: Layout)
      ensures Valid() && live == [] && this.chunkCapacity == chunkCapacity && this.layout == layout
      ensures chunks == [Chunk(region, chunkCapacity, 0)]
    {
      this.chunkCapacity, this.mem, this.layout := chunkCapacity, mem, layout;
      chunks, live, owner := [], [], [];
      new;
      AddChunk(chunkCapacity, region);
    }

    /** A buffer of the client's as first chunk. */
    constructor FromBuffer(buffer: nat, size: nat, chunkCapacity: nat, mem: Memory, layout: Layout)
      requires size > HEADER
      ensures Valid() && live == [] && this.chunkCapacity == chunkCapacity && this.layout == layout
      ensures chunks == [Chunk(buffer, size - 24, 0)]
    {
      this.chunkCapacity, this.mem, this.layout := chunkCapacity, mem, layout;
      chunks, live, owner := [Chunk(buffer, size - HEADER, 0)], [], [];
      new;
      Stamp();
    }

    /** Write the head chunk's header; no block is touched. */
    method Stamp()
      requires Sound() && chunks != [] && HeadersOk(mem, layout, chunks, |chunks| - 1)
      modifies this`mem
      ensures Valid() && Kept(old(mem), live, mem, live)
    {
      hide HeadersOk, ChunksOk;
      var h := |chunks| - 1;
      var bytes := HeaderBytes(layout, chunks, h);
      HeadersStamped(mem, layout, chunks);
      mem := Overwrite(mem, chunks[h].at, HEADER, bytes);
      forall k | 0 <= k < |live| ensures View(mem, live[k]) == View(old(mem), live[k]) {
        HeaderIsClear(chunks, live[k], owner[k], h);
        ViewKept(old(mem), chunks[h].at, HEADER, bytes, live[k]);
      }
    }

    method AddChunk(capacity: nat, region: nat)
      requires Valid() && Fresh(chunks, region, HEADER + capacity)
      modifies this`chunks, this`mem
      ensures Valid() && chunks == old(chunks) + [Chunk(region, capacity, 0)]
      ensures Kept(old(mem), live, mem, live)
    {
      hide HeadersOk;
      HeadersPrefix(mem, layout, chunks, chunks + [Chunk(region, capacity, 0)], |chunks|);
      chunks := chunks + [Chunk(region, capacity, 0)];
      Stamp();
    }

    function Head(): Chunk
      requires chunks != []
      reads this
    {
      chunks[|chunks| - 1]
    }

    /** Take `n` more bytes of the head chunk. */
    method Use(n: nat)
      requires Valid() && chunks != [] && Head().size + n <= Head().capacity && n % 4 == 0
      modifies this`chunks, this`mem
      ensures Valid() && |chunks| == |old(chunks)| && Head() == old(Head()).(size := old(Head()).size + n)
      ensures chunks == old(chunks[..|chunks| - 1]) + [Head()]
      ensures Kept(old(mem), live, mem, live)
    {
      hide HeadersOk;
      var h := |chunks| - 1;
      HeadersFirst(mem, layout, chunks);
      HeadersPrefix(mem, layout, chunks, chunks[h := chunks[h].(size := chunks[h].size + n)], h);
      chunks := chunks[h := chunks[h].(size := chunks[h].size + n)];
      Stamp();
    }

    /** `Malloc`. The block returned lies in the used part of the head chunk exactly when
        the request is within the limit, and then it is clear of all others. */
    method Malloc(n: nat, region: nat) returns (p: nat)
      requires Valid()
      requires Fresh(chunks, region, HEADER + Max(chunkCapacity, Align(n)))
      modifies this
      ensures Valid() && Kept(old(mem), old(live), mem, live) && chunks != []
      ensures Inside(Block(p, n), Head()) <==> n <= LIMIT
      ensures live == if n <= LIMIT then old(live) + [Block(p, n)] else old(live)
      ensures n <= LIMIT ==> owner == old(owner) + [|chunks| - 1]
      ensures (p - Base(Head())) % 4 == 0 && p + Align(n) == Base(Head()) + Head().size
      ensures if old(chunks) != [] && old(chunks)[|old(chunks)| - 1].size + Align(n) <= old(chunks)[|old(chunks)| - 1].capacity
              then
                var c := old(chunks)[|old(chunks)| - 1];
                p == c.at + 24 + c.size && chunks == old(chunks)[|old(chunks)| - 1 := c.(size := c.size + Align(n))]
              else
                p == region + 24 && chunks == old(chunks) + [Chunk(region, Max(chunkCapacity, Align(n)), Align(n))]
    {
      hide Kept, ChunksOk, BlocksOk, HeadersOk, Fresh, Align;
      var size := Align(n);
      AlignRoundsUp(n);
      AlignMultiple(n);
      if chunks == [] || Head().size + size > Head().capacity {
        AddChunk(if chunkCapacity > size then chunkCapacity else size, region);
      }
      p := Base(Head()) + Head().size;
      ghost var before := chunks;
      HeadAligned(chunks);
      label L:
      Use(size);
      KeptTwice(old(mem), live, old@L(mem), mem);
      if n <= LIMIT {
        Adds(before, chunks, live, owner, Block(p, n));
        KeptMore(old(mem), live, mem, Block(p, n));
        live, owner := live + [Block(p, n)], owner + [|chunks| - 1];
      }
    }

    /** Grow the last block of the head chunk where it is, given that there is room. */
    method Expand(ghost k: nat, p: nat, originalSize: nat, newSize: nat)
      requires Valid() && k < |live| && live[k] == Block(p, originalSize) && originalSize < newSize
      requires chunks != [] && InPlace(chunks, p, originalSize, newSize)
      modifies this`chunks, this`mem, this`live
      ensures Valid() && chunks != []
      ensures var c := old(chunks)[|old(chunks)| - 1];
              chunks == old(chunks)[|old(chunks)| - 1 := c.(size := c.size + Align(newSize - originalSize))]
      ensures Inside(Block(p, newSize), Head()) <==> newSize - originalSize <= LIMIT
      ensures newSize - originalSize <= LIMIT ==> Moved(old(mem), old(live), mem, live, k, Block(p, newSize))
    {
      hide Kept, Moved, ChunksOk, BlocksOk, HeadersOk, Align;
      AlignRoundsUp(newSize - originalSize);
      AlignMultiple(newSize - originalSize);
      Owned(chunks, live, owner, k);
      InPlaceMatchesLast(chunks, live[k], owner[k]);
      ghost var before := chunks;
      Use(Align(newSize - originalSize));
      if newSize - originalSize <= LIMIT {
        Grows(before, chunks, live, owner, old(mem), mem, k, newSize);
        live := live[k := Block(p, newSize)];
      }
    }

    /** Allocate anew and copy, leaving the old bytes where they are. */
    method Move(ghost k: nat, p: nat, originalSize: nat, newSize: nat, region: nat) returns (q: nat)
      requires Valid() && k < |live| && live[k] == Block(p, originalSize) && originalSize < newSize
      requires Fresh(chunks, region, HEADER + Max(chunkCapacity, Align(newSize)))
      modifies this
      ensures Sound() && chunks != []
      ensures Inside(Block(q, newSize), Head()) <==> newSize <= LIMIT
      ensures (q - Base(Head())) % 4 == 0 && q + Align(newSize) == Base(Head()) + Head().size
      ensures newSize <= LIMIT ==> Valid() && Moved(old(mem), old(live), mem, live, k, Block(q, newSize))
    {
      hide Kept, Moved, ChunksOk, BlocksOk, HeadersOk, Inside, Fresh, Align, Overwrite;
      Owned(chunks, live, owner, k);
      q := Malloc(newSize, region);
      var m := mem;
      mem := Overwrite(m, q, originalSize, (i: nat) => m(p + i));
      if newSize <= LIMIT {
        ghost var b := Block(q, newSize);
        CopyMoves(old(mem), old(live), m, owner, chunks, k, b);
        HeadersKept(m, q, originalSize, (i: nat) => m(p + i), layout, chunks, b, |chunks| - 1);
        Replaces(chunks, old(live), old(owner), k, b, |chunks| - 1);
        live, owner := old(live)[k := b], old(owner)[k := |chunks| - 1];
      }
    }

    /** `Realloc`. The bytes returned for a growing block are all its own exactly when
        the sizes are granted; then the block keeps its first bytes wherever it goes,
        every other block keeps all of its own, and so do the headers. */
    method Realloc(ptr: Option<nat>, originalSize: nat, newSize: nat, region: nat, ghost k: nat) returns (p: nat)
      requires Valid() && (ptr.Some? ==> k < |live| && live[k] == Block(ptr.value, originalSize))
      requires Fresh(chunks, region, HEADER + Max(chunkCapacity, Align(newSize)))
      modifies this
      ensures Sound() && (newSize <= LIMIT ==> Granted(old(chunks), ptr, originalSize, newSize))
      ensures ptr.None? || originalSize < newSize ==>
                chunks != [] && (Inside(Block(p, newSize), Head()) <==> Granted(old(chunks), ptr, originalSize, newSize))
      ensures Granted(old(chunks), ptr, originalSize, newSize) ==> Valid()
      ensures Granted(old(chunks), ptr, originalSize, newSize) ==>
                if ptr.None? then Kept(old(mem), old(live), mem, live) && live == old(live) + [Block(p, newSize)]
                else Moved(old(mem), old(live), mem, live, k, Block(p, newSize))
      ensures ptr.Some? && newSize <= originalSize ==> p == ptr.value && chunks == old(chunks) && mem == old(mem)
      ensures ptr.Some? && originalSize < newSize && old(chunks) != [] && InPlace(old(chunks), ptr.value, originalSize, newSize)
              ==> var c := old(chunks)[|old(chunks)| - 1];
                  && p == ptr.value
                  && chunks == old(chunks)[|old(chunks)| - 1 := c.(size := c.size + Align(newSize - originalSize))]
    {
      hide Kept, Moved, ChunksOk, BlocksOk, HeadersOk, Inside, Fresh, Align;
      if ptr.None? {
        p := Malloc(newSize, region);
        return;
      }
      p := ptr.value;
      if originalSize >= newSize {
        Shrinks(chunks, live, owner, mem, k, newSize);
        live := live[k := Block(p, newSize)];
        return;
      }
      Owned(chunks, live, owner, k);
      if p + originalSize == Base(Head()) + Head().size {
        var increment := Align(newSize - originalSize);
        if Head().size + increment <= Head().capacity {
          Expand(k, p, originalSize, newSize);
          return;
        }
      }
      p := Move(k, p, originalSize, newSize, region);
    }

    /** The client writes one byte of its block. */
    method Store(k: nat, p: nat, n: nat, i: nat, b: byte)
      requires Valid() && k < |live| && live[k] == Block(p, n) && i < n
      modifies this`mem
      ensures Valid() && View(mem, live[k]) == View(old(mem), live[k])[i := b]
      ensures forall j :: 0 <= j < |live| && j != k ==> View(mem, live[j]) == View(old(mem), live[j])
    {
      hide HeadersOk;
      HeadersKept(mem, p + i, 1, _ => b, layout, chunks, live[k], owner[k]);
      mem := Overwrite(mem, p + i, 1, _ => b);
      forall j | 0 <= j < |live| && j != k ensures View(mem, live[j]) == View(old(mem), live[j]) {
        TwoBlocks(chunks, live, owner, j, k);
        ViewKept(old(mem), p + i, 1, _ => b, live[j]);
      }
    }

    /** A whole run by a client that keeps the address and size of each block: the pool
        behaves as a table of independent byte strings. */
    method Run(ops: seq<Op>, base: (seq<Chunk>, nat) -> nat) returns (handles: seq<Block>, ghost history: seq<seq<Bytes>>)
      requires Valid() && live == [] && (forall i :: 0 <= i < |ops| ==> ops[i].Put? || ops[i].n <= LIMIT)
      requires forall cs: seq<Chunk>, n: nat :: Fresh(cs, base(cs, n), n)
      modifies this
      ensures Valid() && handles == live && |history| == |ops| + 1
      ensures history[0] == [] && history[|ops|] == Views(mem, live)
      ensures forall i :: 0 <= i < |ops| ==> Follows(history[i], ops[i], history[i + 1])
    {
      handles, history := [], [Views(mem, live)];
      for i := 0 to |ops|
        invariant Valid() && handles == live && |history| == i + 1
        invariant history[0] == [] && history[i] == Views(mem, live)
        invariant forall j :: 0 <= j < i ==> Follows(history[j], ops[j], history[j + 1])
      {
        handles := Do(ops[i], base, handles);
        history := history + [Views(mem, live)];
      }
    }

    /** One operation of the client. */
    method Do(op: Op, base: (seq<Chunk>, nat) -> nat, handles: seq<Block>) returns (handles': seq<Block>)
      requires Valid() && handles == live && (op.Put? || op.n <= LIMIT)
      requires forall cs: seq<Chunk>, n: nat :: Fresh(cs, base(cs, n), n)
      modifies this
      ensures Valid() && handles' == live && Follows(old(Views(mem, live)), op, Views(mem, live))
    {
      hide Kept, Moved, ChunksOk, BlocksOk, HeadersOk, Fresh, Align, View, Follows, Views;
      handles' := handles;
      match op {
        case Get(n) =>
          var p := Malloc(n, base(chunks, HEADER + Max(chunkCapacity, Align(n))));
          handles' := handles + [Block(p, n)];
          GetFollows(old(mem), old(live), mem, Block(p, n));
        case Resize(k, n) =>
          if k < |handles| {
            var b := handles[k];
            var p := Realloc(Some(b.at), b.size, n, base(chunks, HEADER + Max(chunkCapacity, Align(n))), k);
            handles' := handles[k := Block(p, n)];
            ResizeFollows(old(mem), old(live), mem, live, k, Block(p, n));
          } else {
            NothingFollows(mem, live, op);
          }
        case Put(k, i, b) =>
          if k < |handles| && i < handles[k].size {
            Store(k, handles[k].at, handles[k].size, i, b);
            PutFollows(old(mem), live, mem, k, i, b);
          } else {
            NothingFollows(mem, live, op);
          }
      }
    }

    method Capacity() returns (n: nat)
      ensures n == Total(chunks, (c: Chunk) => c.capacity)
    {
      n := 0;
      for i := |chunks| downto 0
        invariant n == Total(chunks[i..], (c: Chunk) => c.capacity)
      {
        n := n + chunks[i].capacity;
        assert chunks[i..][1..] == chunks[i + 1..];
      }
      assert chunks[0..] == chunks;
    }

    method Size() returns (n: nat)
      ensures n == Total(chunks, (c: Chunk) => c.size)
      ensures Valid() ==> n <= Total(chunks, (c: Chunk) => c.capacity)
    {
      n := 0;
      for i := |chunks| downto 0
        invariant n == Total(chunks[i..], (c: Chunk) => c.size)
      {
        n := n + chunks[i].size;
        assert chunks[i..][1..] == chunks[i + 1..];
      }
      assert chunks[0..] == chunks;
      if ChunksOk(chunks) { UsedFits(chunks); }
    }
  }
}
