/** The memory pool allocator: blocks bumped off the newest chunk, with growth in place. */
module MemoryPool {
  import opened Options
  import opened Bytes
  import opened Arith

  /** The size of a chunk header, already aligned. */
  const HEADER: nat := 24

  /** The next multiple of eight. */
  function Align(n: nat): (m: nat)
    ensures m % 8 == 0 && n <= m < n + 8
  {
    (n + 7) / 8 * 8
  }

  /** The same in 64 bits, as the code computes it. */
  function AlignWord(n: U64): (m: U64) {
    (n + 7) % WORD / 8 * 8
  }

  /** Both agree exactly up to 2^64 - 8; in 64 bits, a larger size comes out as 0. */
  lemma AlignWordExactly(n: U64)
    ensures AlignWord(n) == Align(n) <==> n <= WORD - 8
    ensures n > WORD - 8 ==> AlignWord(n) == 0
  {
    if n <= WORD - 8 {
      assert (n + 7) % WORD == n + 7;
    } else {
      assert (n + 7) % WORD == n + 7 - WORD;
    }
  }

  /** A chunk: its address, the bytes it can serve after its header, and those it has served. */
  datatype Chunk = Chunk(base: nat, capacity: U64, size: U64)

  /** A block in use: its address, the bytes reserved for it, and the bytes its owner asked
      for last. */
  datatype Block = Block(addr: nat, reserved: nat, requested: nat)

  /** The bytes served after `n` more. */
  function Sum(c: Chunk, n: U64): nat {
    c.size + Align(n)
  }

  /** The same in 64 bits. */
  function SumWord(c: Chunk, n: U64): U64 {
    (c.size + AlignWord(n)) % WORD
  }

  /** Both agree exactly as long as the sum stays below 2^64: beyond, 64 bits find room that is
      not there. */
  lemma SumWordExactly(c: Chunk, n: U64)
    requires ChunkOk(c)
    ensures SumWord(c, n) == Sum(c, n) <==> Sum(c, n) < WORD
    ensures Sum(c, n) >= WORD ==> SumWord(c, n) <= c.capacity < c.size + n
  {
    AlignWordExactly(n);
    var sum := c.size + AlignWord(n);
    assert sum % WORD == if sum < WORD then sum else sum - WORD;
  }

  /** The bytes that a request for a chunk of this capacity gets, header included. */
  function Held(capacity: U64): U64 {
    (HEADER + capacity) % WORD
  }

  /** In a chunk with room, so far as 64 bits tell, a block fits exactly if nothing left 64 bits. */
  lemma FitsOld(c: Chunk, n: U64)
    requires ChunkOk(c) && SumWord(c, n) <= c.capacity
    ensures Start(c) + c.size + n <= c.base + Held(c.capacity) <==> n <= WORD - 8 && Sum(c, n) < WORD
  {
    SumWordExactly(c, n);
    assert Held(c.capacity) == HEADER + c.capacity;
    hide AlignWord, SumWord, Held;
  }

  lemma HeldIs(capacity: U64)
    ensures HEADER + capacity < WORD ==> Held(capacity) == HEADER + capacity
  {
  }

  /** Growing in place by an increment is no different. */
  lemma IncrementWord(c: Chunk, size: nat, n: U64)
    requires size <= c.size && size < Align(n) < WORD
    ensures AlignWord(n) == Align(n)
    ensures Sum(c, n) < WORD ==> (c.size + (AlignWord(n) - size)) % WORD == c.size + (Align(n) - size)
  {
    AlignWordExactly(n);
    hide AlignWord, Align;
  }

  /** So does a block in a new chunk. */
  lemma FitsNew(c: Chunk, n: U64)
    requires c.size == 0 && AlignWord(n) <= c.capacity
    ensures Start(c) + n <= c.base + Held(c.capacity) <==> n <= WORD - 8 && HEADER + c.capacity < WORD
  {
    AlignWordExactly(n);
    var sum := HEADER + c.capacity;
    assert Held(c.capacity) == if sum < WORD then sum else sum - WORD;
    hide AlignWord, Held;
  }

  function Start(c: Chunk): nat {
    c.base + HEADER
  }

  predicate Apart(a: nat, m: nat, b: nat, n: nat) {
    a + m <= b || b + n <= a
  }

  predicate ChunkOk(c: Chunk) {
    c.base % 8 == 0 && c.size % 8 == 0 && c.size <= c.capacity && HEADER + c.capacity < WORD
  }

  predicate Inside(b: Block, c: Chunk) {
    Start(c) <= b.addr && b.addr + b.reserved <= Start(c) + c.size
  }

  predicate BlockOk(b: Block) {
    b.addr % 8 == 0 && b.reserved % 8 == 0 && 0 < b.requested <= b.reserved
  }

  predicate ChunksApart(c: Chunk, d: Chunk) {
    Apart(c.base, HEADER + c.capacity, d.base, HEADER + d.capacity)
  }

  /** Chunks do not overlap; blocks are aligned, lie in the served part of a chunk, and do not
      overlap. */
  ghost predicate Sound(cs: seq<Chunk>, bs: seq<Block>) {
    (forall i :: 0 <= i < |cs| ==> ChunkOk(cs[i]))
    && (forall i, j :: 0 <= i < j < |cs| ==> ChunksApart(cs[i], cs[j]))
    && (forall k :: 0 <= k < |bs| ==> BlockOk(bs[k]) && Placed(cs, bs[k]))
    && (forall j, k :: 0 <= j < k < |bs| ==> Apart(bs[j].addr, bs[j].reserved, bs[k].addr, bs[k].reserved))
  }

  ghost predicate Placed(cs: seq<Chunk>, b: Block) {
    exists i :: 0 <= i < |cs| && Inside(b, cs[i])
  }

  /** Serving more bytes of the newest chunk keeps every block where it is, and what is served
      overlaps none of them. */
  lemma Served(cs: seq<Chunk>, bs: seq<Block>, n: nat)
    requires Sound(cs, bs) && cs != [] && n % 8 == 0 && cs[0].size + n <= cs[0].capacity
    ensures Sound(cs[0 := cs[0].(size := cs[0].size + n)], bs)
    ensures forall k :: 0 <= k < |bs| ==> Apart(bs[k].addr, bs[k].reserved, Start(cs[0]) + cs[0].size, n)
  {
    assert ChunkOk(cs[0]);
    Eights(cs[0].size, n);
    var cs' := cs[0 := cs[0].(size := cs[0].size + n)];
    assert ChunkOk(cs'[0]);
    hide ChunkOk, BlockOk;
    forall k | 0 <= k < |bs| ensures Placed(cs', bs[k]) && Apart(bs[k].addr, bs[k].reserved, Start(cs[0]) + cs[0].size, n) {
      var i :| 0 <= i < |cs| && Inside(bs[k], cs[i]);
      assert Inside(bs[k], cs'[i]);
      if i > 0 { assert ChunksApart(cs[0], cs[i]); }
    }
    forall i, j | 0 <= i < j < |cs'| ensures ChunksApart(cs'[i], cs'[j]) { assert ChunksApart(cs[i], cs[j]); }
  }

  /** A new block at the end of the served part. */
  lemma NewBlock(cs: seq<Chunk>, bs: seq<Block>, n: nat, requested: nat)
    requires Sound(cs, bs) && cs != [] && n == Align(requested) && 0 < requested && cs[0].size + n <= cs[0].capacity
    ensures Sound(cs[0 := cs[0].(size := cs[0].size + n)], bs + [Block(Start(cs[0]) + cs[0].size, n, requested)])
  {
    Served(cs, bs, n);
    var b := Block(Start(cs[0]) + cs[0].size, n, requested);
    assert Inside(b, cs[0 := cs[0].(size := cs[0].size + n)][0]);
  }

  /** Only the last block ends where the served part of the newest chunk ends. */
  lemma LastBlock(cs: seq<Chunk>, bs: seq<Block>, k: nat)
    requires Sound(cs, bs) && cs != [] && k < |bs| && bs[k].addr + Align(bs[k].requested) == Start(cs[0]) + cs[0].size
    ensures bs[k].reserved == Align(bs[k].requested) <= cs[0].size && Inside(bs[k], cs[0])
  {
    assert BlockOk(bs[k]) && Placed(cs, bs[k]);
    var i :| 0 <= i < |cs| && Inside(bs[k], cs[i]);
    assert ChunkOk(cs[0]) && ChunkOk(cs[i]) && (i > 0 ==> ChunksApart(cs[0], cs[i]));
    hide Sound, Placed, Align;
  }

  lemma PlacedAt(cs: seq<Chunk>, b: Block, i: nat)
    requires i < |cs| && Inside(b, cs[i])
    ensures Placed(cs, b)
  {
  }

  /** The last block grows in place: no other block is in the way. */
  lemma Grown(cs: seq<Chunk>, bs: seq<Block>, k: nat, n: nat, requested: nat)
    requires Sound(cs, bs) && cs != [] && k < |bs| && bs[k].addr + bs[k].reserved == Start(cs[0]) + cs[0].size && Inside(bs[k], cs[0])
    requires n % 8 == 0 && cs[0].size + n <= cs[0].capacity && 0 < requested <= bs[k].reserved + n
    ensures Sound(cs[0 := cs[0].(size := cs[0].size + n)], bs[k := Block(bs[k].addr, bs[k].reserved + n, requested)])
  {
    Served(cs, bs, n);
    var cs' := cs[0 := cs[0].(size := cs[0].size + n)];
    var bs' := bs[k := Block(bs[k].addr, bs[k].reserved + n, requested)];
    assert Inside(bs'[k], cs'[0]);
    assert forall m :: 0 <= m < |bs| ==> BlockOk(bs[m]) && Placed(cs', bs[m]);
    hide Inside, Placed, ChunksApart;
    assert Placed(cs', bs'[k]) by { PlacedAt(cs', bs'[k], 0); }
    forall i, j | 0 <= i < j < |bs'| ensures Apart(bs'[i].addr, bs'[i].reserved, bs'[j].addr, bs'[j].reserved) {
      assert Apart(bs[i].addr, bs[i].reserved, bs[j].addr, bs[j].reserved);
      assert Apart(bs[i].addr, bs[i].reserved, Start(cs[0]) + cs[0].size, n);
      assert Apart(bs[j].addr, bs[j].reserved, Start(cs[0]) + cs[0].size, n);
    }
  }

  /** A block whose owner asks for less keeps its place. */
  lemma Shrunk(cs: seq<Chunk>, bs: seq<Block>, k: nat, requested: nat)
    requires Sound(cs, bs) && k < |bs| && 0 < requested <= bs[k].reserved
    ensures Sound(cs, bs[k := bs[k].(requested := requested)])
  {
    var i :| 0 <= i < |cs| && Inside(bs[k], cs[i]);
    assert Inside(bs[k].(requested := requested), cs[i]);
  }

  /** A chunk where nothing is yet. */
  lemma NewChunk(cs: seq<Chunk>, bs: seq<Block>, c: Chunk)
    requires Sound(cs, bs) && ChunkOk(c) && forall i :: 0 <= i < |cs| ==> ChunksApart(c, cs[i])
    ensures Sound([c] + cs, bs)
  {
    forall k | 0 <= k < |bs| ensures Placed([c] + cs, bs[k]) {
      var i :| 0 <= i < |cs| && Inside(bs[k], cs[i]);
      assert Inside(bs[k], ([c] + cs)[i + 1]);
    }
  }

  /** A block whose contents its owner has given up. */
  lemma Dropped(cs: seq<Chunk>, bs: seq<Block>, k: nat)
    requires Sound(cs, bs) && k < |bs|
    ensures Sound(cs, bs[..k] + bs[k + 1..])
  {
  }

  function TotalSize(cs: seq<Chunk>): nat {
    if cs == [] then 0 else cs[0].size + TotalSize(cs[1..])
  }

  function TotalCapacity(cs: seq<Chunk>): nat {
    if cs == [] then 0 else cs[0].capacity + TotalCapacity(cs[1..])
  }

  lemma {:induction false} SizeWithinCapacity(cs: seq<Chunk>)
    requires forall i :: 0 <= i < |cs| ==> ChunkOk(cs[i])
    ensures TotalSize(cs) <= TotalCapacity(cs)
  {
    if cs != [] {
      assert ChunkOk(cs[0]);
      SizeWithinCapacity(cs[1..]);
    }
  }

  // ---------------------------------------------------------------- the allocator

  /** Memory is byte addressed; bytes never written read as zero. */
  type Memory = map<nat, Byte>

  function Read(m: Memory, a: nat): Byte {
    if a in m then m[a] else 0
  }

  /** The same bytes from two places. */
  ghost predicate SameBytes(m: Memory, a: nat, m': Memory, b: nat, n: nat) {
    forall x: nat :: a <= x < a + n ==> Read(m, x) == Read(m', x - a + b)
  }

  /** Nothing changes outside a range. */
  ghost predicate Untouched(m: Memory, m': Memory, a: nat, n: nat) {
    forall x: nat :: x < a || a + n <= x ==> Read(m, x) == Read(m', x)
  }

  /** The user's buffer is the oldest chunk. */
  predicate BufferLast(cs: seq<Chunk>, buffer: Option<nat>) {
    buffer.Some? ==> cs != [] && cs[|cs| - 1].base == buffer.value
  }

  class MemoryPoolAllocator {
    var chunks: seq<Chunk>
    const chunkCapacity: U64
    const userBuffer: Option<nat>
    var memory: Memory
    ghost var blocks: seq<Block>

    ghost predicate Valid()
      reads this
    {
      Sound(chunks, blocks) && BufferLast(chunks, userBuffer)
    }

    /** An allocator without memory of its own. */
    constructor (chunkCapacity: U64, memory: Memory)
      ensures Valid() && chunks == [] && blocks == [] && this.chunkCapacity == chunkCapacity && this.memory == memory
    {
      this.chunkCapacity, userBuffer := chunkCapacity, None;
      chunks, blocks, this.memory := [], [], memory;
    }

    /** An allocator that serves a buffer of the user first. */
    constructor WithBuffer(buffer: nat, size: U64, chunkCapacity: U64, memory: Memory)
      requires buffer % 8 == 0 && size > HEADER
      ensures Valid() && chunks == [Chunk(buffer, size - HEADER, 0)] && blocks == [] && this.memory == memory
    {
      this.chunkCapacity, userBuffer := chunkCapacity, Some(buffer);
      chunks, blocks, this.memory := [Chunk(buffer, size - HEADER, 0)], [], memory;
    }

    /** The bytes served never exceed the bytes held. */
    method Size() returns (size: nat)
      requires Valid()
      ensures size == TotalSize(chunks) <= TotalCapacity(chunks)
    {
      SizeWithinCapacity(chunks);
      size := 0;
      assert chunks[0..] == chunks;
      var i := 0;
      while i < |chunks|
        invariant i <= |chunks| && size + TotalSize(chunks[i..]) == TotalSize(chunks)
      {
        assert chunks[i..][1..] == chunks[i + 1..];
        size := size + chunks[i].size;
        i := i + 1;
      }
    }

    method Capacity() returns (capacity: nat)
      requires Valid()
      ensures capacity == TotalCapacity(chunks)
    {
      capacity := 0;
      assert chunks[0..] == chunks;
      var i := 0;
      while i < |chunks|
        invariant i <= |chunks| && capacity + TotalCapacity(chunks[i..]) == TotalCapacity(chunks)
      {
        assert chunks[i..][1..] == chunks[i + 1..];
        capacity := capacity + chunks[i].capacity;
        i := i + 1;
      }
    }

    /** Gives back all chunks but the user's buffer, which is emptied. */
    method Clear()
      requires Valid()
      modifies this`chunks, this`blocks
      ensures Valid() && blocks == []
      ensures userBuffer.Some? ==> old(chunks) != []
      ensures chunks == if userBuffer.None? then [] else [old(chunks)[|old(chunks)| - 1].(size := 0)]
    {
      OtherBases(chunks, blocks);
      hide Sound;
      NoBlocks(chunks, blocks);
      blocks := [];
      while chunks != [] && userBuffer != Some(chunks[0].base)
        invariant blocks == [] && Sound(chunks, []) && |chunks| <= |old(chunks)| && chunks == old(chunks)[|old(chunks)| - |chunks|..]
        invariant userBuffer.Some? ==> chunks != []
        decreases |chunks|
      {
        WithoutHead(chunks);
        chunks := chunks[1..];
      }
      if chunks != [] {
        HeadEmptied(chunks);
        chunks := chunks[0 := chunks[0].(size := 0)];
      }
    }

    /** The capacity of a new chunk for an aligned size. */
    function NewCapacity(size: U64): U64 {
      if chunkCapacity > size then chunkCapacity else size
    }

    /** What the base allocator promises of its answer: aligned, and apart from all it gave. */
    ghost predicate FreshChunk(answer: Option<nat>, n: U64)
      reads this
    {
      answer.Some? ==>
        answer.value % 8 == 0
        && forall i :: 0 <= i < |chunks| ==> Apart(answer.value, Held(NewCapacity(AlignWord(n))), chunks[i].base, HEADER + chunks[i].capacity)
    }

    /** The newest chunk has room, so far as its sum in 64 bits tells. */
    predicate HasRoom(n: U64)
      reads this
    {
      chunks != [] && SumWord(chunks[0], n) <= chunks[0].capacity
    }

    /** Nothing that the code computes for this size leaves 64 bits. */
    predicate InWords(n: U64)
      reads this
    {
      n <= WORD - 8 && (chunks != [] ==> Sum(chunks[0], n) < WORD) && (HasRoom(n) || HEADER + NewCapacity(AlignWord(n)) < WORD)
    }

    /** A new block, or nothing if the base allocator has no memory or no bytes are asked for.
        If nothing leaves 64 bits, no existing block moves or changes, and the new one overlaps
        none of them. Else it does not fit into the memory of its chunk. */
    method Malloc(requested: U64, answer: Option<nat>) returns (p: Option<nat>)
      requires Valid() && FreshChunk(answer, requested)
      modifies this`chunks, this`blocks
      ensures p.None? ==> Valid() && chunks == old(chunks) && blocks == old(blocks)
      ensures p.None? <==> requested == 0 || (!old(HasRoom(requested)) && answer.None?)
      ensures p.Some? ==> blocks == old(blocks) + [Block(p.value, AlignWord(requested), requested)]
      ensures p.Some? && old(InWords(requested)) ==> Valid() && blocks[|blocks| - 1].reserved == Align(requested)
      ensures p.Some? && old(HasRoom(requested)) ==> chunks == old(chunks)[0 := old(chunks)[0].(size := SumWord(old(chunks)[0], requested))]
      ensures p.Some? && !old(HasRoom(requested)) ==>
        chunks == [Chunk(answer.value, if AlignWord(requested) < chunkCapacity then chunkCapacity else AlignWord(requested), AlignWord(requested))] + old(chunks)
      ensures p.Some? ==> chunks != []
      ensures p.Some? ==> (old(InWords(requested)) <==> p.value + requested <= chunks[0].base + Held(chunks[0].capacity))
    {
      hide Sound, AlignWord, Align, Held;
      ghost var safe := InWords(requested);
      AlignWordExactly(requested);
      if requested == 0 { return None; }
      var size := AlignWord(requested);
      Heads(chunks, blocks, requested);
      HeldIs(NewCapacity(size));
      if chunks == [] || (chunks[0].size + size) % WORD > chunks[0].capacity {
        if answer.None? { return None; }
        if safe { AddedOk(chunks, blocks, Chunk(answer.value, NewCapacity(size), 0)); }
        chunks := [Chunk(answer.value, NewCapacity(size), 0)] + chunks;
      }
      if chunks == old(chunks) { FitsOld(chunks[0], requested); } else { FitsNew(chunks[0], requested); }
      if safe { NewBlock(chunks, blocks, size, requested); }
      var buffer := Start(chunks[0]) + chunks[0].size;
      chunks := chunks[0 := chunks[0].(size := (chunks[0].size + size) % WORD)];
      blocks := blocks + [Block(buffer, size, requested)];
      p := Some(buffer);
    }

    /** Copies bytes one by one. */
    method Copy(dst: nat, src: nat, n: nat)
      modifies this`memory
      ensures Untouched(old(memory), memory, dst, n)
      ensures Apart(dst, n, src, n) ==> SameBytes(old(memory), src, memory, dst, n)
    {
      for i := 0 to n
        invariant Untouched(old(memory), memory, dst, i)
        invariant Apart(dst, n, src, n) ==> SameBytes(old(memory), src, memory, dst, i)
      {
        memory := memory[dst + i := Read(memory, src + i)];
      }
    }

    /** The block ends where the newest chunk has served up to, and has room to grow there. */
    predicate Grows(original: nat, originalSize: U64, newSize: U64)
      reads this
    {
      && chunks != [] && original + Align(originalSize) == Start(chunks[0]) + chunks[0].size
      && original + Align(newSize) <= Start(chunks[0]) + chunks[0].capacity
    }

    /** Grows the block `k` in place, if it is the last one served and there is room. */
    method Expand(original: nat, size: U64, newSize: U64, ghost k: nat) returns (done: bool)
      requires Valid() && k < |blocks| && blocks[k].addr == original && size == Align(blocks[k].requested) < Align(newSize) < WORD
      requires blocks[k].requested < WORD
      modifies this`chunks, this`blocks
      ensures !done ==> chunks == old(chunks) && blocks == old(blocks)
      ensures done ==> exists r :: blocks == old(blocks)[k := Block(original, r, newSize)]
      ensures old(InWords(newSize)) ==> Valid() && (done <==> old(Grows(original, blocks[k].requested, newSize)))
    {
      hide Sound, AlignWord, Align, Held;
      ghost var safe := InWords(newSize);
      BlockIs(chunks, blocks, k);
      Heads(chunks, blocks, newSize);
      done := false;
      if original == Start(chunks[0]) + chunks[0].size - size {
        LastBlock(chunks, blocks, k);
        IncrementWord(chunks[0], size, newSize);
        var increment := AlignWord(newSize) - size;
        if (chunks[0].size + increment) % WORD <= chunks[0].capacity {
          if safe { Aligned(newSize, blocks[k].requested); Grown(chunks, blocks, k, increment, newSize); }
          chunks := chunks[0 := chunks[0].(size := (chunks[0].size + increment) % WORD)];
          blocks := blocks[k := Block(blocks[k].addr, blocks[k].reserved + increment, newSize)];
          done := true;
        }
      }
    }

    /** Copies the block `k` to a new one, if there is memory for it. */
    method Relocate(original: nat, originalSize: U64, newSize: U64, answer: Option<nat>, ghost k: nat) returns (p: Option<nat>)
      requires Valid() && FreshChunk(answer, newSize) && k < |blocks| && blocks[k].addr == original
      requires 0 < newSize && originalSize == blocks[k].requested && Align(originalSize) < Align(newSize) < WORD
      modifies this
      ensures p.None? <==> !old(HasRoom(newSize)) && answer.None?
      ensures p.None? ==> Valid() && blocks == old(blocks) && memory == old(memory)
      ensures p.Some? && old(InWords(newSize)) ==>
        Valid() && blocks == old(blocks) + [Block(p.value, Align(newSize), newSize)]
        && Untouched(old(memory), memory, p.value, Align(newSize)) && SameBytes(old(memory), original, memory, p.value, originalSize)
    {
      ghost var safe := InWords(newSize);
      AlignWordExactly(newSize);
      AlignWordExactly(originalSize);
      hide Sound, SameBytes, Untouched;
      p := Malloc(newSize, answer);
      if p.Some? {
        if safe { BlocksApart(chunks, blocks, k, |old(blocks)|); }
        Copy(p.value, original, AlignWord(originalSize));
        if safe { CopiedEnough(old(memory), original, memory, p.value, Align(originalSize), originalSize, Align(newSize)); }
      }
    }

    /** Resizes a block of which the caller gives the size truthfully: in place if it does not
        grow beyond its reserve or if it is the last one and there is room, else in a new block
        with the old contents. If nothing leaves 64 bits, no other block changes. */
    method Realloc(original: Option<nat>, originalSize: U64, newSize: U64, answer: Option<nat>, ghost k: nat) returns (p: Option<nat>, ghost k': nat)
      requires Valid() && FreshChunk(answer, newSize)
      requires original.Some? ==> k < |blocks| && blocks[k].addr == original.value && blocks[k].requested == originalSize
      modifies this
      ensures p.None? ==> Valid() && blocks == old(blocks) && memory == old(memory)
      ensures p.Some? && old(InWords(newSize)) ==>
        Valid()
        && k' < |blocks| && blocks[k'].addr == p.value && blocks[k'].requested == newSize && |old(blocks)| <= |blocks|
        && (forall j :: 0 <= j < |old(blocks)| && j != k' ==> blocks[j] == old(blocks)[j])
        && Untouched(old(memory), memory, p.value, blocks[k'].reserved)
        && (original.Some? ==> SameBytes(old(memory), original.value, memory, p.value, if originalSize < newSize then originalSize else newSize))
      ensures newSize == 0 ==> p.None?
      ensures original.None? && newSize > 0 ==> (p.None? <==> !old(HasRoom(newSize)) && answer.None?)
      ensures original.Some? && newSize > 0 && old(InWords(newSize)) ==>
        if Align(newSize) <= Align(originalSize) || old(Grows(original.value, originalSize, newSize)) then p == original && k' == k && memory == old(memory)
        else (p.None? <==> !old(HasRoom(newSize)) && answer.None?) && (p.Some? ==> k' == |old(blocks)|)
    {
      SamePlace(memory);
      ghost var safe := InWords(newSize);
      AlignWordExactly(newSize);
      AlignWordExactly(originalSize);
      hide Sound, SameBytes, Untouched, AlignWord;
      k' := k;
      if original.None? {
        p := Malloc(newSize, answer);
        k' := |old(blocks)|;
        return;
      }
      if newSize == 0 { return None, k; }
      BlockIs(chunks, blocks, k);
      var size, newAligned := AlignWord(originalSize), AlignWord(newSize);
      if size >= newAligned {
        if safe { Shrunk(chunks, blocks, k, newSize); }
        blocks := blocks[k := blocks[k].(requested := newSize)];
        return original, k;
      }
      var done := Expand(original.value, size, newSize, k);
      if done { return original, k; }
      p := Relocate(original.value, originalSize, newSize, answer, k);
      if p.Some? { k' := |old(blocks)|; }
    }
  }

  lemma Aligned(n: nat, m: nat)
    ensures Align(n) % 8 == 0 && (Align(n) - Align(m)) % 8 == 0 && n <= Align(n)
  {
    hide Align;
    Eights(Align(n), Align(m));
  }

  lemma Eights(a: int, b: int)
    requires a % 8 == 0 && b % 8 == 0
    ensures (a - b) % 8 == 0 && (a + b) % 8 == 0
  {
    assert a - b == 8 * (a / 8 - b / 8) && a + b == 8 * (a / 8 + b / 8);
  }

  /** What is known of the newest chunk. */
  lemma Heads(cs: seq<Chunk>, bs: seq<Block>, n: U64)
    requires Sound(cs, bs)
    ensures cs != [] ==>
      var c := cs[0];
      ChunkOk(c) && (SumWord(c, n) == Sum(c, n) <==> Sum(c, n) < WORD) && (Sum(c, n) >= WORD ==> SumWord(c, n) <= c.capacity < c.size + n)
  {
    if cs != [] { SumWordExactly(cs[0], n); }
  }

  lemma SamePlace(m: Memory)
    ensures forall a: nat, n: nat :: SameBytes(m, a, m, a, n) && Untouched(m, m, a, n)
  {
  }

  lemma CopiedEnough(m: Memory, a: nat, m': Memory, b: nat, copied: nat, n: nat, room: nat)
    requires SameBytes(m, a, m', b, copied) && Untouched(m, m', b, copied) && n <= copied <= room
    ensures SameBytes(m, a, m', b, n) && Untouched(m, m', b, room)
  {
  }

  lemma NoBlocks(cs: seq<Chunk>, bs: seq<Block>)
    requires Sound(cs, bs)
    ensures Sound(cs, [])
  {
  }

  lemma WithoutHead(cs: seq<Chunk>)
    requires Sound(cs, []) && cs != []
    ensures Sound(cs[1..], [])
  {
  }

  lemma HeadEmptied(cs: seq<Chunk>)
    requires Sound(cs, []) && cs != []
    ensures Sound(cs[0 := cs[0].(size := 0)], [])
  {
    var cs' := cs[0 := cs[0].(size := 0)];
    forall i, j | 0 <= i < j < |cs'| ensures ChunksApart(cs'[i], cs'[j]) { assert ChunksApart(cs[i], cs[j]); }
  }

  lemma AddedOk(cs: seq<Chunk>, bs: seq<Block>, c: Chunk)
    requires Sound(cs, bs) && c.size == 0 && c.base % 8 == 0 && HEADER + c.capacity < WORD && forall i :: 0 <= i < |cs| ==> ChunksApart(c, cs[i])
    ensures Sound([c] + cs, bs)
  {
    NewChunk(cs, bs, c);
  }

  lemma BlockIs(cs: seq<Chunk>, bs: seq<Block>, k: nat)
    requires Sound(cs, bs) && k < |bs|
    ensures BlockOk(bs[k]) && cs != [] && Align(bs[k].requested) <= bs[k].reserved < WORD - HEADER
  {
    assert Placed(cs, bs[k]);
  }

  lemma BlocksApart(cs: seq<Chunk>, bs: seq<Block>, j: nat, k: nat)
    requires Sound(cs, bs) && j < k < |bs|
    ensures Apart(bs[k].addr, bs[k].reserved, bs[j].addr, bs[j].reserved)
    ensures BlockOk(bs[j]) && BlockOk(bs[k]) && Align(bs[j].requested) <= bs[j].reserved
  {
  }

  /** No two chunks start at the same place. */
  lemma OtherBases(cs: seq<Chunk>, bs: seq<Block>)
    requires Sound(cs, bs)
    ensures forall i, j :: 0 <= i < j < |cs| ==> cs[i].base != cs[j].base
  {
    forall i, j | 0 <= i < j < |cs| ensures cs[i].base != cs[j].base { assert ChunksApart(cs[i], cs[j]); }
  }
}
