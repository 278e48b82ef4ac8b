/** The pool allocator object: a linked list of chunk headers, on a 64-bit machine, proved against the pool as values. */
module PoolAllocator {
  import opened Pool

  /** `memcpy` between ranges that do not meet. */
  method Copy(memory: map<nat, int>, to: nat, from: nat, count: nat) returns (r: map<nat, int>)
    ensures r == Copied(memory, to, from, count)
    ensures Apart(to, count, from, count) ==>
              forall a: nat | to <= a < to + count :: Load(r, a) == Load(memory, from + (a - to))
    ensures forall a: nat | a < to || to + count <= a :: Load(r, a) == Load(memory, a)
  {
    r := memory;
    for k := 0 to count
      invariant r == Copied(memory, to, from, k)
    {
      r := r[to + k := Load(r, from + k)];
    }
    CopiedExact(memory, to, from, count);
  }

  // ---------------------------------------------------------------- the allocator

  /** The header of a chunk. */
  class ChunkHeader {
    const address: nat
    const region: nat
    ghost const position: nat
    var capacity: Size
    var size: Size
    var next: ChunkHeader?

    constructor (address: nat, region: nat, capacity: Size, next: ChunkHeader?, ghost position: nat)
      ensures this.next == next && this.position == position && Value() == Chunk(address, region, capacity, 0)
    {
      this.address, this.region, this.position := address, region, position;
      this.capacity, this.size, this.next := capacity, 0, next;
    }

    ghost function Value(): Chunk
      reads this
    {
      Chunk(address, region, capacity, size)
    }
  }

  /** The header before a position, oldest first; null before the oldest. */
  function Before(cs: seq<ChunkHeader>, i: nat): ChunkHeader?
    requires i <= |cs|
  {
    if i == 0 then null else cs[i - 1]
  }

  class MemoryPoolAllocator {
    var chunkHead: ChunkHeader?
    const chunkCapacity: Size
    const userBuffer: nat
    var memory: map<nat, int>
    /** The headers from the oldest to the head, their values, and the live blocks. */
    ghost var chunks: seq<ChunkHeader>
    ghost var values: seq<Chunk>
    ghost var blocks: map<nat, Block>

    /** The list holds the chunks from the head to the oldest. */
    ghost predicate Linked()
      reads `chunkHead, `chunks, `values, chunks
    {
      && |values| == |chunks|
      && chunkHead == Before(chunks, |chunks|)
      && forall i | 0 <= i < |chunks| :: LinkedAt(i)
    }

    ghost predicate LinkedAt(i: nat)
      requires i < |chunks| && |values| == |chunks|
      reads `chunks, `values, chunks
    {
      chunks[i].next == Before(chunks, i) && chunks[i].position == i && values[i] == chunks[i].Value()
    }

    ghost function Snapshot(): State
      reads this
    {
      State(values, chunkCapacity, userBuffer, blocks, memory)
    }

    ghost predicate Valid()
      reads this, chunks
    {
      Linked() && Sound(values, userBuffer, blocks)
    }

    constructor (chunkSize: Size)
      ensures Valid() && values == [] && blocks == map[] && chunkCapacity == chunkSize && userBuffer == 0
    {
      chunkHead, chunkCapacity, userBuffer, memory := null, chunkSize, 0, map[];
      chunks, values, blocks := [], [], map[];
      new;
      SoundEmpty();
    }

    /** A buffer of the user's, larger than a header, becomes the first chunk. */
    constructor WithBuffer(buffer: nat, size: Size, chunkSize: Size)
      requires buffer != 0 && size > HEADER && buffer + size <= SIZE
      ensures Valid() && blocks == map[] && chunkCapacity == chunkSize && userBuffer == buffer
      ensures values == [Chunk(buffer, size, size - HEADER, 0)]
    {
      var chunk := new ChunkHeader(buffer, size, size - HEADER, null, 0);
      chunkHead, chunkCapacity, userBuffer, memory := chunk, chunkSize, buffer, map[];
      chunks, values, blocks := [chunk], [Chunk(buffer, size, size - HEADER, 0)], map[];
      new;
      SoundBuffer(chunk.Value());
    }

    /** The bytes lie in the memory that was obtained for the head chunk. */
    ghost predicate Obtained(p: nat, size: nat)
      reads `chunkHead, chunkHead
    {
      chunkHead != null && chunkHead.address <= p && p + size <= chunkHead.address + chunkHead.region
    }

    /** The bytes, even up to seven fewer, run out of the memory of the head chunk. */
    ghost predicate TooLong(p: nat, size: nat)
      reads `chunkHead, chunkHead
    {
      chunkHead != null ==>
        p + size > chunkHead.address + chunkHead.region + 7 || p > chunkHead.address + chunkHead.region
    }

    method AddChunk(capacity: Size, answer: nat) returns (ok: bool)
      requires Linked()
      modifies `chunkHead, `chunks, `values
      ensures ok == (answer != 0) && Linked()
      ensures !ok ==> chunkHead == old(chunkHead) && chunks == old(chunks) && values == old(values)
      ensures ok ==> chunkHead != null && fresh(chunkHead) && chunks == old(chunks) + [chunkHead]
      ensures ok ==> values == old(values) + [Chunk(answer, (HEADER + capacity) % SIZE, capacity, 0)]
    {
      if answer == 0 {
        return false;
      }
      var chunk := new ChunkHeader(answer, (HEADER + capacity) % SIZE, capacity, chunkHead, |chunks|);
      ghost var before := chunks;
      chunkHead := chunk;
      chunks := chunks + [chunk];
      values := values + [Chunk(answer, (HEADER + capacity) % SIZE, capacity, 0)];
      forall i | 0 <= i < |chunks| ensures LinkedAt(i) {
        if i < |before| {
          assert chunks[i] == before[i];
        }
      }
      return true;
    }

    /** Use the next bytes of the head chunk. */
    method Advance(n: nat)
      requires Linked() && chunkHead != null && values != []
      modifies chunkHead`size, `values
      ensures Linked() && chunkHead.size == (old(chunkHead.size) + n) % SIZE
      ensures old(values) != [] && |values| == |old(values)|
      ensures old(values[|values| - 1].size) == old(chunkHead.size)
      ensures values == Advanced(old(values), n)
    {
      var last := |chunks| - 1;
      assert LinkedAt(last);
      chunkHead.size := (chunkHead.size + n) % SIZE;
      values := values[last := values[last].(size := chunkHead.size)];
      forall i | 0 <= i < |chunks| ensures LinkedAt(i) {
        assert old(LinkedAt(i));
      }
    }

    /**
     * Null, or a block of the size asked for. Without a wrap the pool stays valid, the new block meets no
     * live one, and the others are as they were. With a wrap a non-null result is not memory that was
     * obtained for the chunk: the condition is exact.
     */
    method Malloc(size: Size, answer: nat) returns (buffer: nat)
      requires Valid()
      requires Answerable(values, answer, Request(chunkCapacity, Align(size)))
      modifies this, chunkHead
      ensures Outcome(Snapshot(), buffer) == Allocated(old(Snapshot()), size, answer)
      ensures memory == old(memory) && Linked()
      ensures size == 0 || Fits(old(values), chunkCapacity, size) ==> Valid()
      ensures Fits(old(values), chunkCapacity, size) && buffer != 0 ==> buffer !in old(blocks)
      ensures buffer != 0 ==> chunks != [] && blocks == old(blocks)[buffer := Block(Align(size), |chunks| - 1)]
      ensures buffer == 0 ==> blocks == old(blocks)
      ensures buffer == 0 <==> size == 0 || (!HasRoom(old(values), Align(size)) && answer == 0)
      ensures buffer != 0 ==> (Obtained(buffer, size) <==> Fits(old(values), chunkCapacity, size))
      ensures buffer != 0 && !Fits(old(values), chunkCapacity, size) ==> TooLong(buffer, size)
      ensures forall c <- chunks :: c in old(chunks) || fresh(c)
    {
      hide Sound, Align, Max, Fits, Answerable, Request, Grown;
      if size == 0 {
        return 0;
      }
      var aligned := Align(size);
      ghost var user, live := userBuffer, blocks;
      ghost var sound := Fits(values, chunkCapacity, size);
      var ok := MakeRoom(size, answer);
      if !ok {
        return 0;
      }
      ghost var room := values;
      HeadLinked();
      buffer := chunkHead.address + HEADER + chunkHead.size;
      if sound {
        BumpSound(room, user, live, aligned);
      }
      Advance(aligned);
      blocks := blocks[buffer := Block(aligned, |chunks| - 1)];
    }

    /** The first half of an allocation: a head chunk with room, unless the base allocator has none. */
    method MakeRoom(size: Size, answer: nat) returns (ok: bool)
      requires Valid() && size > 0
      requires Answerable(values, answer, Request(chunkCapacity, Align(size)))
      modifies `chunkHead, `chunks, `values
      ensures ok == !(!HasRoom(old(values), Align(size)) && answer == 0) && Linked()
      ensures !ok ==> values == old(values)
      ensures ok ==> chunkHead != null && values == WithRoom(old(values), chunkCapacity, Align(size), answer)
      ensures ok && Fits(old(values), chunkCapacity, size) ==>
                Sound(values, userBuffer, blocks) && 0 < Align(size) && Align(size) % 8 == 0 && chunkHead.size + Align(size) <= chunkHead.capacity
      ensures ok ==> (Obtained(chunkHead.address + HEADER + chunkHead.size, size) <==> Fits(old(values), chunkCapacity, size))
      ensures ok && !Fits(old(values), chunkCapacity, size) ==> TooLong(chunkHead.address + HEADER + chunkHead.size, size)
      ensures forall c <- chunks :: c in old(chunks) || fresh(c)
      ensures ok ==> chunkHead == old(chunkHead) || fresh(chunkHead)
    {
      hide Sound, Align, Max, ChunkSound;
      var aligned := Align(size);
      HeadLinked();
      AlignBounds(size);
      if chunkHead == null || (chunkHead.size + aligned) % SIZE > chunkHead.capacity {
        var capacity := Max(chunkCapacity, aligned);
        ghost var before := values;
        NewHeadExact(answer, chunkCapacity, size);
        ghost var sound := Fits(values, chunkCapacity, size);
        ok := AddChunk(capacity, answer);
        if ok {
          HeadLinked();
          if sound {
            NewHeadSound(answer, capacity);
            PushSound(before, userBuffer, blocks, Chunk(answer, HEADER + capacity, capacity, 0));
          }
        }
      } else {
        SoundHead(values, userBuffer, blocks);
        OldHeadExact(chunkHead.Value(), size);
        ok := true;
      }
    }

    lemma HeadLinked()
      requires Linked()
      ensures chunkHead == null <==> values == []
      ensures chunkHead != null ==> values != [] && values[|values| - 1] == chunkHead.Value()
      ensures chunkHead != null ==> chunks != [] && chunkHead == chunks[|chunks| - 1]
    {
      if chunks != [] {
        assert LinkedAt(|chunks| - 1);
      }
    }

    /** The live blocks after a reallocation: the resized block, and the others as they were. */
    ghost predicate Resized(before: map<nat, Block>, original: nat, buffer: nat, length: nat)
      reads `blocks
    {
      && buffer in blocks && blocks[buffer].length == length
      && blocks - {buffer} == before - {original}
    }

    /** Expand the last block in place, if it is the last and there is room. */
    method ExtendLast(original: nat, oldLength: Size, newLength: Size) returns (done: bool)
      requires Valid() && original in blocks && blocks[original].length == oldLength
      requires oldLength < newLength && newLength % 8 == 0 && oldLength % 8 == 0
      modifies `values, `blocks, chunkHead
      ensures done == Extends(old(values), original, oldLength, newLength)
      ensures done ==> Snapshot() == Resize(old(Snapshot()), original, newLength).(chunks := Advanced(old(values), newLength - oldLength))
      ensures !done ==> values == old(values) && blocks == old(blocks) && Valid()
      ensures !done && chunkHead != null ==> chunkHead.Value() == old(chunkHead.Value())
      ensures done && FitsLarger(old(values), chunkCapacity, original, oldLength, newLength) ==>
                Valid() && Resized(old(blocks), original, original, newLength)
      ensures done && !FitsLarger(old(values), chunkCapacity, original, oldLength, newLength) ==> original + newLength >= SIZE + HEADER
      ensures Linked() && chunkHead == old(chunkHead)
    {
      hide Sound;
      HeadLinked();
      LiveHead(values, userBuffer, blocks, original);
      done := false;
      if original == (chunkHead.address + HEADER + chunkHead.size + SIZE - oldLength) % SIZE {
        LastBlock(values, userBuffer, blocks, original);
        var increment := newLength - oldLength;
        if (chunkHead.size + increment) % SIZE <= chunkHead.capacity {
          if chunkHead.size + increment < SIZE {
            ExtendSound(values, userBuffer, blocks, original, increment);
          }
          Advance(increment);
          blocks := blocks[original := Block(newLength, blocks[original].home)];
          done := true;
        }
      }
    }

    /** Allocate elsewhere and copy; the old block is given up. */
    method Move(original: nat, oldLength: Size, newLength: Size, answer: nat) returns (buffer: nat)
      requires Valid() && original in blocks && blocks[original].length == oldLength
      requires 0 < oldLength < newLength && Align(newLength) == newLength
      requires Answerable(values, answer, Request(chunkCapacity, newLength))
      modifies this, chunkHead
      ensures Outcome(Snapshot(), buffer) == Moved(old(Snapshot()), original, oldLength, newLength, answer)
      ensures buffer == 0 ==> memory == old(memory) && blocks == old(blocks)
      ensures Fits(old(values), chunkCapacity, newLength) ==> Valid()
      ensures buffer != 0 && !Fits(old(values), chunkCapacity, newLength) ==> TooLong(buffer, newLength)
      ensures Fits(old(values), chunkCapacity, newLength) && buffer != 0 ==>
                && Resized(old(blocks), original, buffer, newLength)
                && (forall a: nat | buffer <= a < buffer + oldLength ::
                      Load(memory, a) == old(Load(memory, original + (a - buffer))))
                && (forall q, a: nat | q in old(blocks) && q <= a < q + old(blocks[q].length) ::
                      Load(memory, a) == old(Load(memory, a)))
    {
      hide Sound, Align, Max, Fits, Answerable, Request, Grown, Advanced, WithRoom, HasRoom, Copied;
      buffer := Malloc(newLength, answer);
      if buffer != 0 {
        ghost var moved := memory;
        if Fits(old(values), chunkCapacity, newLength) {
          PairApart(values, userBuffer, blocks, original, buffer);
          DropSound(values, userBuffer, blocks, original);
          forall q | q in old(blocks) ensures Apart(q, old(blocks[q].length), buffer, newLength) {
            PairApart(values, userBuffer, blocks, q, buffer);
          }
        }
        memory := Copy(memory, buffer, original, oldLength);
        blocks := blocks - {original};
      }
    }

    /**
     * Resize a live block whose true size is given. When no sum wraps the pool stays valid, the block keeps
     * its contents up to the smaller size, no byte of another live block changes, and the other live blocks
     * stay; when there is no memory no byte and no block changes. When a sum wraps, what is returned is not
     * memory of the head chunk in the size asked for.
     */
    method Realloc(original: nat, originalSize: Size, newSize: Size, answer: nat) returns (buffer: nat)
      requires Valid()
      requires original != 0 ==> original in blocks && blocks[original].length == Align(originalSize)
      requires Answerable(values, answer, Request(chunkCapacity, Align(newSize)))
      modifies this, chunkHead
      ensures Outcome(Snapshot(), buffer) == Reallocated(old(Snapshot()), original, originalSize, newSize, answer)
      ensures newSize == 0 ==> buffer == 0
      ensures buffer == 0 ==> memory == old(memory) && blocks == old(blocks)
      ensures newSize == 0 || FitsAgain(old(values), chunkCapacity, original, originalSize, newSize) ==> Valid()
      ensures buffer != 0 && !FitsAgain(old(values), chunkCapacity, original, originalSize, newSize) ==> !Obtained(buffer, newSize)
      ensures buffer != 0 && FitsAgain(old(values), chunkCapacity, original, originalSize, newSize) ==>
                && Resized(old(blocks), original, buffer, Align(newSize))
                && (original != 0 ==> forall a: nat |
                      buffer <= a < buffer + Align(originalSize) && a < buffer + Align(newSize) ::
                      Load(memory, a) == old(Load(memory, original + (a - buffer))))
                && (forall q, a: nat | q in old(blocks) && q != original && q <= a < q + old(blocks[q].length) ::
                      Load(memory, a) == old(Load(memory, a)))
    {
      hide Sound, Align, Max, Fits, Answerable, Request, Grown, Advanced, Extends, FitsLarger, Moved, Allocated, WithRoom, HasRoom;
      if original == 0 {
        NullNotLive(values, userBuffer, blocks);
        buffer := Malloc(newSize, answer);
        if buffer != 0 {
          UpdateDrop(old(blocks), buffer, blocks[buffer]);
        }
        return;
      }
      if newSize == 0 {
        return 0;
      }
      var oldLength := Align(originalSize);
      var newLength := Align(newSize);
      AlignBounds(originalSize);
      AlignBounds(newSize);
      LiveBlock(values, userBuffer, blocks, original);
      if oldLength >= newLength {
        if newSize + 7 < SIZE {
          ShrinkSound(values, userBuffer, blocks, original, newLength);
          UpdateDrop(blocks, original, Block(newLength, blocks[original].home));
          blocks := blocks[original := Block(newLength, blocks[original].home)];
        } else {
          HeadInMemory();
        }
        return original;
      }
      AlignTwice(newSize);
      buffer := Enlarge(original, oldLength, newLength, answer);
    }

    lemma HeadInMemory()
      requires Valid()
      ensures chunkHead != null ==> chunkHead.address + chunkHead.region <= SIZE
    {
      HeadLinked();
      if chunkHead != null {
        SoundHead(values, userBuffer, blocks);
      }
    }

    /** In place if possible, otherwise elsewhere. */
    method Enlarge(original: nat, oldLength: Size, newLength: Size, answer: nat) returns (buffer: nat)
      requires Valid() && original in blocks && blocks[original].length == oldLength
      requires 0 < oldLength < newLength && Align(newLength) == newLength && oldLength % 8 == 0
      requires Answerable(values, answer, Request(chunkCapacity, newLength))
      modifies this, chunkHead
      ensures Outcome(Snapshot(), buffer) ==
              if Extends(old(values), original, oldLength, newLength)
              then Outcome(Resize(old(Snapshot()), original, newLength).(chunks := Advanced(old(values), newLength - oldLength)), original)
              else Moved(old(Snapshot()), original, oldLength, newLength, answer)
      ensures buffer == 0 ==> memory == old(memory) && blocks == old(blocks)
      ensures FitsLarger(old(values), chunkCapacity, original, oldLength, newLength) ==> Valid()
      ensures buffer != 0 && !FitsLarger(old(values), chunkCapacity, original, oldLength, newLength) ==> TooLong(buffer, newLength)
      ensures buffer != 0 && FitsLarger(old(values), chunkCapacity, original, oldLength, newLength) ==>
                && Resized(old(blocks), original, buffer, newLength)
                && (forall a: nat | buffer <= a < buffer + oldLength ::
                      Load(memory, a) == old(Load(memory, original + (a - buffer))))
                && (forall q, a: nat | q in old(blocks) && q != original && q <= a < q + old(blocks[q].length) ::
                      Load(memory, a) == old(Load(memory, a)))
    {
      hide Sound, Align, Max, ChunkSound, Inside, Apart, Fits, Answerable, Request, Grown, Advanced, Moved, HasRoom, Copied;
      HeadInMemory();
      NullNotLive(values, userBuffer, blocks);
      AlignedMultiple(newLength);
      var done := ExtendLast(original, oldLength, newLength);
      if done {
        return original;
      }
      buffer := Move(original, oldLength, newLength, answer);
    }

    /**
     * Give back every chunk but the user's buffer, which is emptied. The addresses freed are those of the
     * other chunks, each once, the head first.
     */
    method Clear() returns (freed: seq<nat>)
      requires Valid()
      modifies this, chunks
      ensures Snapshot() == Cleared(old(Snapshot()))
      ensures Valid() && blocks == map[] && memory == old(memory)
      ensures userBuffer != 0 ==> values == [old(values)[0].(size := 0)]
      ensures userBuffer == 0 ==> values == []
      ensures |freed| == |old(values)| - |values|
      ensures forall i | 0 <= i < |freed| :: freed[i] == old(values)[|old(values)| - 1 - i].address
    {
      hide Sound, BufferLast;
      SoundList(values, userBuffer, blocks);
      freed := FreeChunks();
      HeadLinked();
      OnlyBuffer(values, userBuffer);
      if chunkHead != null && chunkHead.address == userBuffer {
        EmptyBuffer();
        SoundBuffer(values[0]);
      } else {
        SoundEmpty();
      }
      blocks := map[];
    }

    /** Give back chunks down to the user's buffer. */
    method FreeChunks() returns (freed: seq<nat>)
      requires Linked() && BufferLast(values, userBuffer)
      modifies `chunkHead, `chunks, `values
      ensures Linked() && BufferLast(values, userBuffer)
      ensures chunkHead != null ==> chunkHead.address == userBuffer
      ensures |values| <= |old(values)| && values == old(values)[..|values|] && chunks == old(chunks)[..|values|]
      ensures |freed| == |old(values)| - |values|
      ensures forall i | 0 <= i < |freed| :: freed[i] == old(values)[|old(values)| - 1 - i].address
    {
      hide BufferLast;
      freed := [];
      ghost var all, cs := values, chunks;
      while chunkHead != null && chunkHead.address != userBuffer
        invariant Linked() && BufferLast(values, userBuffer)
        invariant |values| <= |all| && values == all[..|values|] && chunks == cs[..|values|]
        invariant |freed| == |all| - |values|
        invariant forall i | 0 <= i < |freed| :: freed[i] == all[|all| - 1 - i].address
        decreases |values|
      {
        HeadLinked();
        BufferPrefix(values, userBuffer);
        var address := Pop();
        freed := freed + [address];
      }
    }

    method EmptyBuffer()
      requires Linked() && |values| == 1 && chunkHead != null
      modifies chunkHead`size, `values
      ensures Linked() && values == [old(values)[0].(size := 0)] && chunks == old(chunks)
    {
      assert LinkedAt(0);
      chunkHead.size := 0;
      values := [values[0].(size := 0)];
      assert LinkedAt(0);
    }

    /** Take the head off the list. */
    method Pop() returns (address: nat)
      requires Linked() && chunkHead != null
      modifies `chunkHead, `chunks, `values
      ensures old(values) != [] && address == old(values[|values| - 1].address)
      ensures Linked() && values == old(values[..|values| - 1]) && chunks == old(chunks[..|chunks| - 1])
    {
      var last := |chunks| - 1;
      assert LinkedAt(last);
      ghost var cs, vs := chunks, values;
      address := chunkHead.address;
      chunkHead := chunkHead.next;
      chunks := chunks[..last];
      values := values[..last];
      forall i | 0 <= i < last ensures LinkedAt(i) {
        assert old(LinkedAt(i));
        assert Before(chunks, i) == Before(cs, i) && chunks[i] == cs[i] && values[i] == vs[i];
      }
      assert chunkHead == Before(cs, last) == Before(chunks, last);
    }

    method Capacity() returns (capacity: Size)
      requires Linked()
      ensures capacity == TotalCapacity(values) % SIZE
    {
      hide TotalCapacity;
      capacity := 0;
      TotalNothing();
      var c := chunkHead;
      ghost var k := |chunks|;
      assert values[..k] == values && values[k..] == [];
      while c != null
        invariant 0 <= k <= |chunks| && c == Before(chunks, k)
        invariant capacity == TotalCapacity(values[k..]) % SIZE
        decreases k
      {
        assert LinkedAt(k - 1);
        assert values[k - 1..] == [values[k - 1]] + values[k..];
        TotalStep(values[k - 1], values[k..]);
        SumModulo(TotalCapacity(values[k..]), c.capacity);
        capacity := (capacity + c.capacity) % SIZE;
        c := c.next;
        k := k - 1;
      }
      assert values[0..] == values;
    }

    method Size() returns (size: nat)
      requires Linked()
      ensures size == TotalSize(values) % SIZE
    {
      hide TotalSize;
      size := 0;
      TotalNothing();
      var c := chunkHead;
      ghost var k := |chunks|;
      assert values[..k] == values && values[k..] == [];
      while c != null
        invariant 0 <= k <= |chunks| && c == Before(chunks, k)
        invariant size == TotalSize(values[k..]) % SIZE
        decreases k
      {
        assert LinkedAt(k - 1);
        assert values[k - 1..] == [values[k - 1]] + values[k..];
        TotalStep(values[k - 1], values[k..]);
        SumModulo(TotalSize(values[k..]), c.size);
        size := (size + c.size) % SIZE;
        c := c.next;
        k := k - 1;
      }
      assert values[0..] == values;
    }
  }

  function TotalCapacity(cs: seq<Chunk>): nat {
    if cs == [] then 0 else cs[0].capacity + TotalCapacity(cs[1..])
  }

  function TotalSize(cs: seq<Chunk>): nat {
    if cs == [] then 0 else cs[0].size + TotalSize(cs[1..])
  }

  /** The totals of one chunk are its sizes, and those of two lists add up. */
  lemma {:induction false} TotalsAdd(a: seq<Chunk>, b: seq<Chunk>)
    ensures TotalCapacity(a + b) == TotalCapacity(a) + TotalCapacity(b)
    ensures TotalSize(a + b) == TotalSize(a) + TotalSize(b)
    ensures |a| == 1 ==> TotalCapacity(a) == a[0].capacity && TotalSize(a) == a[0].size
    decreases |a|
  {
    if a == [] {
      assert a + b == b;
    } else {
      assert (a + b)[1..] == a[1..] + b;
      TotalsAdd(a[1..], b);
    }
  }

  lemma SoundList(cs: seq<Chunk>, user: nat, blocks: map<nat, Block>)
    requires Sound(cs, user, blocks)
    ensures BufferLast(cs, user) && ChunksApart(cs)
  {
  }

  lemma BufferPrefix(cs: seq<Chunk>, user: nat)
    requires BufferLast(cs, user) && cs != [] && cs[|cs| - 1].address != user
    ensures BufferLast(cs[..|cs| - 1], user)
  {
  }

  lemma TotalStep(c: Chunk, cs: seq<Chunk>)
    ensures TotalCapacity([c] + cs) == c.capacity + TotalCapacity(cs)
    ensures TotalSize([c] + cs) == c.size + TotalSize(cs)
  {
    assert ([c] + cs)[1..] == cs;
  }

  lemma TotalNothing()
    ensures TotalCapacity([]) == 0 && TotalSize([]) == 0
  {
  }

  lemma SumModulo(a: nat, b: nat)
    ensures (a % SIZE + b) % SIZE == (b + a) % SIZE
  {
  }

  /** When the head is the user's buffer, or there is no head, nothing else is left. */
  lemma OnlyBuffer(cs: seq<Chunk>, user: nat)
    requires BufferLast(cs, user) && (cs != [] ==> cs[|cs| - 1].address == user)
    ensures if user != 0 then |cs| == 1 else cs == []
  {
  }

  lemma AlignedMultiple(n: Size)
    requires Align(n) == n
    ensures n % 8 == 0
  {
  }
}
