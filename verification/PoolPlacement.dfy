/** Where the pool puts a block and when it asks for a chunk, said without the 64-bit sums of the code. */
module PoolPlacement {
  import opened Pool

  /** The next multiple of 8. */
  predicate Rounded(size: nat, n: nat) {
    size <= n < size + 8 && n % 8 == 0
  }

  /** The head has `n` bytes left behind its used part. */
  predicate HasLeft(cs: seq<Chunk>, n: nat) {
    cs != [] && cs[|cs| - 1].size + n <= cs[|cs| - 1].capacity
  }

  /** The head has used `n` bytes more; nothing else changed. */
  predicate Used(before: seq<Chunk>, n: nat, after: seq<Chunk>) {
    && |after| == |before| > 0
    && after[..|after| - 1] == before[..|before| - 1]
    && var c, d := before[|before| - 1], after[|after| - 1];
       d.address == c.address && d.region == c.region && d.capacity == c.capacity && d.size == c.size + n
  }

  /**
   * A block of `n` bytes: the next ones of the head if it has them left; otherwise the first ones of a new chunk of
   * the configured capacity, or of `n` if that is larger, when the base allocator gives one; otherwise nothing.
   */
  predicate Placed(before: seq<Chunk>, chunkCapacity: nat, n: nat, answer: nat, after: seq<Chunk>, buffer: nat) {
    if HasLeft(before, n) then
      buffer == Payload(before[|before| - 1]) + before[|before| - 1].size && Used(before, n, after)
    else if answer == 0 then buffer == 0 && after == before
    else
      && buffer == answer + HEADER
      && |after| == |before| + 1 && after[..|before|] == before
      && var c := after[|before|];
         && c.address == answer && c.region == HEADER + c.capacity && c.size == n
         && c.capacity >= chunkCapacity && c.capacity >= n && (c.capacity == chunkCapacity || c.capacity == n)
  }

  lemma RoomIsLeft(s: State, size: Size)
    requires SoundState(s) && size > 0 && Fits(s.chunks, s.chunkCapacity, size)
    ensures HasRoom(s.chunks, Align(size)) <==> HasLeft(s.chunks, Align(size))
  {
    hide Align;
    if s.chunks != [] {
      SoundHead(s.chunks, s.user, s.blocks);
    }
  }

  lemma UsedUp(cs: seq<Chunk>, n: nat)
    requires cs != [] && cs[|cs| - 1].size + n < SIZE
    ensures Used(cs, n, Advanced(cs, n))
  {
    assert Advanced(cs, n)[..|cs| - 1] == cs[..|cs| - 1];
  }

  lemma AllocatedPlaces(s: State, size: Size, answer: nat)
    requires SoundState(s) && size > 0 && Fits(s.chunks, s.chunkCapacity, size)
    ensures Placed(s.chunks, s.chunkCapacity, Align(size), answer, Allocated(s, size, answer).state.chunks,
                   Allocated(s, size, answer).buffer)
  {
    hide Align, Max, Sound, Advanced;
    var n := Align(size);
    RoomIsLeft(s, size);
    var room := WithRoom(s.chunks, s.chunkCapacity, n, answer);
    if HasRoom(s.chunks, n) {
      UsedUp(s.chunks, n);
    } else if answer != 0 {
      NewChunk(s.chunks, s.chunkCapacity, n, answer);
      UsedUp(room, n);
    }
  }

  /** Main result: where `Malloc` puts a block. */
  lemma MallocPlaces(s: State, size: Size, answer: nat)
    requires SoundState(s) && size > 0 && Fits(s.chunks, s.chunkCapacity, size)
    ensures
      var r := Allocated(s, size, answer);
        exists n :: Rounded(size, n) && Placed(s.chunks, s.chunkCapacity, n, answer, r.state.chunks, r.buffer)
  {
    hide Sound, Fits, Placed, Allocated;
    AllocatedPlaces(s, size, answer);
    AlignBounds(size);
    assert Rounded(size, Align(size)) by {
      FitsSize(s, size);
    }
  }

  lemma FitsSize(s: State, size: Size)
    requires Fits(s.chunks, s.chunkCapacity, size)
    ensures size + 7 < SIZE
  {
  }

  /** The block ends where the used part of the head ends. */
  predicate IsAtEnd(cs: seq<Chunk>, p: nat, length: nat) {
    cs != [] && p + length == Payload(cs[|cs| - 1]) + cs[|cs| - 1].size
  }

  /**
   * A block of `o` bytes at `p` resized to `n`: a smaller one stays, the last of the head grows where it is if the
   * bytes are left, and any other is allocated again.
   */
  predicate Replaced(before: seq<Chunk>, chunkCapacity: nat, p: nat, o: nat, n: nat, answer: nat, after: seq<Chunk>,
                     buffer: nat) {
    if n <= o then buffer == p && after == before
    else if IsAtEnd(before, p, o) && HasLeft(before, n - o) then buffer == p && Used(before, n - o, after)
    else Placed(before, chunkCapacity, n, answer, after, buffer)
  }

  /** Main result: where `Realloc` leaves or puts a live block. */
  lemma ReallocPlaces(s: State, p: nat, originalSize: Size, newSize: Size, answer: nat)
    requires SoundState(s) && p in s.blocks && s.blocks[p].length == Align(originalSize) && newSize > 0
    requires FitsAgain(s.chunks, s.chunkCapacity, p, originalSize, newSize)
    ensures
      var r := Reallocated(s, p, originalSize, newSize, answer);
        exists n :: Rounded(newSize, n) && Replaced(s.chunks, s.chunkCapacity, p, s.blocks[p].length, n, answer,
                                                     r.state.chunks, r.buffer)
  {
    hide Sound, Placed, Allocated, Align, IsLast, HasRoom, HasLeft, Used, Advanced, Fits;
    var o, n := Align(originalSize), Align(newSize);
    LiveBlock(s.chunks, s.user, s.blocks, p);
    AlignBounds(newSize);
    if o < n {
      AtEndIsLast(s, p);
      AlignTwice(newSize);
      if Extends(s.chunks, p, o, n) {
        GrowthLeft(s, n - o);
        UsedUp(s.chunks, n - o);
      } else {
        AllocatedPlaces(s, n, answer);
        NullIsNothing(s, n, answer);
        if IsAtEnd(s.chunks, p, o) {
          NoRoomNoneLeft(s, n - o);
        }
      }
    }
    assert Rounded(newSize, n);
  }

  lemma NullIsNothing(s: State, size: Size, answer: nat)
    ensures Allocated(s, size, answer).buffer == 0 ==> Allocated(s, size, answer).state == s
  {
    hide Align, HasRoom, Advanced;
  }

  lemma AtEndIsLast(s: State, p: nat)
    requires SoundState(s) && p in s.blocks && s.blocks[p].length < SIZE
    ensures IsLast(s.chunks, p, s.blocks[p].length) <==> IsAtEnd(s.chunks, p, s.blocks[p].length)
  {
    hide Sound;
    var length := s.blocks[p].length;
    LiveBlock(s.chunks, s.user, s.blocks, p);
    SoundHead(s.chunks, s.user, s.blocks);
    if IsLast(s.chunks, p, length) {
      LastBlock(s.chunks, s.user, s.blocks, p);
    } else if IsAtEnd(s.chunks, p, length) {
      WrapsOnce(p, length);
    }
  }

  lemma WrapsOnce(p: nat, length: Size)
    requires p + length <= SIZE && length > 0
    ensures (p + length + SIZE - length) % SIZE == p
  {
  }

  lemma GrowthLeft(s: State, n: Size)
    requires SoundState(s) && HasRoom(s.chunks, n) && s.chunks[|s.chunks| - 1].size + n < SIZE
    ensures HasLeft(s.chunks, n)
  {
  }

  lemma NoRoomNoneLeft(s: State, n: Size)
    requires SoundState(s) && !HasRoom(s.chunks, n)
    ensures !HasLeft(s.chunks, n)
  {
    if s.chunks != [] {
      SoundHead(s.chunks, s.user, s.blocks);
    }
  }
}
