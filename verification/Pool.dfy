/** The memory pool as values: chunks, live blocks and memory, and every run of allocations on them. */
module Pool {
  const SIZE: nat := 0x1_0000_0000_0000_0000
  const HEADER: nat := 24

  /** A size_t. */
  type Size = n: nat | n < 0x1_0000_0000_0000_0000

  /** Round up to a multiple of 8, in 64-bit arithmetic. */
  function Align(x: Size): Size {
    (x + 7) % SIZE / 8 * 8
  }

  function Max(a: Size, b: Size): (m: Size)
    ensures m >= a && m >= b && (m == a || m == b)
  {
    if a > b then a else b
  }

  /** Rounding up loses nothing and adds less than 8, except for the seven sizes that wrap to 0. */
  lemma AlignBounds(size: Size)
    ensures size + 7 < SIZE ==> size <= Align(size) < size + 8 && Align(size) % 8 == 0
    ensures size + 7 >= SIZE ==> Align(size) == 0
  {
  }

  // ---------------------------------------------------------------- chunks and blocks as values

  /** A chunk: where it is, how many bytes were obtained for it, and its two sizes. */
  datatype Chunk = Chunk(address: nat, region: nat, capacity: Size, size: Size)

  function Payload(c: Chunk): nat {
    c.address + HEADER
  }

  /** A live block: the bytes reserved for it, and the chunk it lies in, counted from the oldest. */
  datatype Block = Block(length: nat, home: nat)

  predicate Apart(a: nat, m: nat, b: nat, n: nat) {
    a + m <= b || b + n <= a
  }

  /** The memory of a chunk was obtained in full, and it is not used beyond its capacity. */
  predicate ChunkSound(c: Chunk) {
    && 0 < c.address && c.region == HEADER + c.capacity && c.address + c.region <= SIZE
    && c.size <= c.capacity && c.size % 8 == 0
  }

  predicate ChunksApart(cs: seq<Chunk>) {
    && (forall i | 0 <= i < |cs| :: ChunkSound(cs[i]))
    && (forall i, j | 0 <= i < j < |cs| :: Apart(cs[i].address, cs[i].region, cs[j].address, cs[j].region))
  }

  /** The user's buffer is the oldest chunk, the last one of the list, and no other. */
  predicate BufferLast(cs: seq<Chunk>, user: nat) {
    && (user != 0 ==> cs != [] && cs[0].address == user)
    && (forall i | 0 < i < |cs| :: cs[i].address != user)
    && (user == 0 ==> forall i | 0 <= i < |cs| :: cs[i].address != user)
  }

  /** A block lies in the used part of its chunk, at a multiple of 8 from the chunk's start. */
  predicate Inside(cs: seq<Chunk>, p: nat, b: Block) {
    && b.length > 0 && b.home < |cs|
    && Payload(cs[b.home]) <= p && p + b.length <= Payload(cs[b.home]) + cs[b.home].size
    && (p - cs[b.home].address) % 8 == 0
  }

  predicate BlocksApart(cs: seq<Chunk>, blocks: map<nat, Block>) {
    && (forall p <- blocks :: Inside(cs, p, blocks[p]))
    && (forall p, q | p in blocks && q in blocks && p != q :: Apart(p, blocks[p].length, q, blocks[q].length))
  }

  /** Live blocks are disjoint and inside their chunk, chunks are disjoint, and the user's buffer is the oldest. */
  predicate Sound(cs: seq<Chunk>, user: nat, blocks: map<nat, Block>) {
    ChunksApart(cs) && BufferLast(cs, user) && BlocksApart(cs, blocks)
  }

  lemma SoundEmpty()
    ensures Sound([], 0, map[])
  {
  }

  lemma SoundBuffer(c: Chunk)
    requires ChunkSound(c)
    ensures Sound([c], c.address, map[])
  {
  }

  /** A region that meets no chunk can become the head. */
  lemma PushSound(cs: seq<Chunk>, user: nat, blocks: map<nat, Block>, c: Chunk)
    requires Sound(cs, user, blocks) && ChunkSound(c)
    requires forall i | 0 <= i < |cs| :: Apart(c.address, c.region, cs[i].address, cs[i].region)
    ensures Sound(cs + [c], user, blocks)
  {
    hide Inside;
    var all := cs + [c];
    assert BufferLast(all, user);
    assert ChunksApart(all);
    forall p | p in blocks ensures Inside(all, p, blocks[p]) {
      InsideLonger(cs, c, p, blocks[p]);
    }
  }

  lemma InsideLonger(cs: seq<Chunk>, c: Chunk, p: nat, b: Block)
    requires Inside(cs, p, b)
    ensures Inside(cs + [c], p, b)
  {
  }

  function Grown(cs: seq<Chunk>, n: nat): (r: seq<Chunk>)
    requires cs != [] && cs[|cs| - 1].size + n < SIZE
    ensures |r| == |cs|
  {
    cs[|cs| - 1 := cs[|cs| - 1].(size := cs[|cs| - 1].size + n)]
  }

  lemma GrownChunks(cs: seq<Chunk>, user: nat, n: nat)
    requires ChunksApart(cs) && BufferLast(cs, user)
    requires cs != [] && cs[|cs| - 1].size + n <= cs[|cs| - 1].capacity && n % 8 == 0
    ensures ChunksApart(Grown(cs, n)) && BufferLast(Grown(cs, n), user)
  {
    hide Apart, ChunkSound;
    var r := Grown(cs, n);
    GrownSound(cs[|cs| - 1], n);
    assert forall i | 0 <= i < |cs| :: r[i].address == cs[i].address && r[i].region == cs[i].region;
    forall i, j | 0 <= i < j < |cs| ensures Apart(r[i].address, r[i].region, r[j].address, r[j].region) {
      assert Apart(cs[i].address, cs[i].region, cs[j].address, cs[j].region);
    }
  }

  lemma GrownSound(c: Chunk, n: nat)
    requires ChunkSound(c) && c.size + n <= c.capacity && n % 8 == 0
    ensures ChunkSound(c.(size := c.size + n))
  {
    assert c.size + n == 8 * (c.size / 8 + n / 8);
  }

  lemma InsideGrown(cs: seq<Chunk>, n: nat, p: nat, b: Block)
    requires Inside(cs, p, b)
    requires cs[|cs| - 1].size + n < SIZE
    ensures Inside(Grown(cs, n), p, b)
  {
  }

  /** The unused bytes of the head meet no live block. */
  lemma UnusedApart(cs: seq<Chunk>, p: nat, b: Block, n: nat)
    requires ChunksApart(cs) && Inside(cs, p, b)
    requires cs[|cs| - 1].size + n <= cs[|cs| - 1].capacity
    ensures Apart(p, b.length, Payload(cs[|cs| - 1]) + cs[|cs| - 1].size, n)
  {
    var head := cs[|cs| - 1];
    if b.home < |cs| - 1 {
      assert Apart(cs[b.home].address, cs[b.home].region, head.address, head.region);
      assert ChunkSound(cs[b.home]) && ChunkSound(head);
    }
  }

  /** The next bytes of the head can become a block. */
  lemma BumpSound(cs: seq<Chunk>, user: nat, blocks: map<nat, Block>, n: nat)
    requires Sound(cs, user, blocks)
    requires cs != [] && n > 0 && n % 8 == 0 && cs[|cs| - 1].size + n <= cs[|cs| - 1].capacity
    ensures
      var p := Payload(cs[|cs| - 1]) + cs[|cs| - 1].size;
        p !in blocks && Sound(Grown(cs, n), user, blocks[p := Block(n, |cs| - 1)])
  {
    hide Inside, Apart, ChunksApart, BufferLast, ChunkSound;
    SoundHead(cs, user, blocks);
    var p := Payload(cs[|cs| - 1]) + cs[|cs| - 1].size;
    var after := blocks[p := Block(n, |cs| - 1)];
    GrownChunks(cs, user, n);
    forall q | q in blocks
      ensures q != p && Inside(Grown(cs, n), q, blocks[q])
      ensures Apart(q, blocks[q].length, p, n) && Apart(p, n, q, blocks[q].length)
    {
      InsideGrown(cs, n, q, blocks[q]);
      UnusedApart(cs, q, blocks[q], n);
      ApartDistinct(cs, q, blocks[q], p, n);
    }
    NewInside(cs, n);
  }

  lemma ApartDistinct(cs: seq<Chunk>, q: nat, b: Block, p: nat, n: nat)
    requires Inside(cs, q, b) && n > 0 && Apart(q, b.length, p, n)
    ensures q != p && Apart(p, n, q, b.length)
  {
  }

  lemma NewInside(cs: seq<Chunk>, n: nat)
    requires cs != [] && n > 0 && cs[|cs| - 1].size + n < SIZE && ChunkSound(cs[|cs| - 1])
    ensures Inside(Grown(cs, n), Payload(cs[|cs| - 1]) + cs[|cs| - 1].size, Block(n, |cs| - 1))
  {
  }

  lemma OlderEnds(cs: seq<Chunk>, p: nat, b: Block)
    requires ChunksApart(cs) && Inside(cs, p, b) && b.home < |cs| - 1
    ensures p + b.length != Payload(cs[|cs| - 1]) + cs[|cs| - 1].size
  {
    var head := cs[|cs| - 1];
    assert ChunkSound(cs[b.home]) && ChunkSound(head);
    assert Apart(cs[b.home].address, cs[b.home].region, head.address, head.region);
  }

  /** A block that ends where the used part of the head ends lies in the head. */
  lemma EndsInHead(cs: seq<Chunk>, p: nat, b: Block)
    requires ChunksApart(cs) && Inside(cs, p, b)
    requires p + b.length == Payload(cs[|cs| - 1]) + cs[|cs| - 1].size
    ensures b.home == |cs| - 1
  {
    if b.home < |cs| - 1 {
      OlderEnds(cs, p, b);
    }
  }

  /** The last block can grow into the unused bytes after it. */
  lemma ExtendSound(cs: seq<Chunk>, user: nat, blocks: map<nat, Block>, p: nat, n: nat)
    requires Sound(cs, user, blocks) && p in blocks && cs != []
    requires p + blocks[p].length == Payload(cs[|cs| - 1]) + cs[|cs| - 1].size
    requires n % 8 == 0 && cs[|cs| - 1].size + n <= cs[|cs| - 1].capacity
    ensures Sound(Grown(cs, n), user, blocks[p := Block(blocks[p].length + n, blocks[p].home)])
  {
    hide Inside, Apart, ChunksApart, BufferLast;
    var b := blocks[p];
    GrownChunks(cs, user, n);
    EndsInHead(cs, p, b);
    ExtendInside(cs, n, p, b);
    forall q | q in blocks && q != p
      ensures Inside(Grown(cs, n), q, blocks[q])
      ensures Apart(q, blocks[q].length, p, b.length + n) && Apart(p, b.length + n, q, blocks[q].length)
    {
      InsideGrown(cs, n, q, blocks[q]);
      UnusedApart(cs, q, blocks[q], n);
      ExtendApart(cs, q, blocks[q], p, b, n);
    }
  }

  lemma ExtendInside(cs: seq<Chunk>, n: nat, p: nat, b: Block)
    requires Inside(cs, p, b) && b.home == |cs| - 1 && cs[|cs| - 1].size + n < SIZE
    requires p + b.length == Payload(cs[|cs| - 1]) + cs[|cs| - 1].size
    ensures Inside(Grown(cs, n), p, Block(b.length + n, b.home))
  {
  }

  lemma ExtendApart(cs: seq<Chunk>, q: nat, c: Block, p: nat, b: Block, n: nat)
    requires Inside(cs, q, c) && Inside(cs, p, b) && Apart(q, c.length, p, b.length)
    requires Apart(q, c.length, p + b.length, n)
    ensures Apart(q, c.length, p, b.length + n) && Apart(p, b.length + n, q, c.length)
  {
  }

  /** A block may become shorter, or be given up. */
  lemma ShrinkSound(cs: seq<Chunk>, user: nat, blocks: map<nat, Block>, p: nat, n: nat)
    requires Sound(cs, user, blocks) && p in blocks && 0 < n <= blocks[p].length
    ensures Sound(cs, user, blocks[p := Block(n, blocks[p].home)])
  {
  }

  lemma DropSound(cs: seq<Chunk>, user: nat, blocks: map<nat, Block>, p: nat)
    requires Sound(cs, user, blocks)
    ensures Sound(cs, user, blocks - {p})
  {
  }

  lemma SoundHead(cs: seq<Chunk>, user: nat, blocks: map<nat, Block>)
    requires Sound(cs, user, blocks) && cs != []
    ensures ChunkSound(cs[|cs| - 1])
  {
  }

  /** In the head as it is, a block fits in the memory obtained exactly when the sums do not wrap. */
  lemma OldHeadExact(c: Chunk, size: Size)
    requires ChunkSound(c) && size > 0 && (c.size + Align(size)) % SIZE <= c.capacity
    ensures Payload(c) + c.size + size <= c.address + c.region <==> size + 7 < SIZE && c.size + Align(size) < SIZE
    ensures size + 7 < SIZE && c.size + Align(size) < SIZE ==> 0 < Align(size) <= c.capacity - c.size
    ensures !(size + 7 < SIZE && c.size + Align(size) < SIZE) ==> Payload(c) + c.size + size > c.address + c.region + 8
  {
    hide Align;
    AlignBounds(size);
  }

  lemma NewHeadSound(address: nat, capacity: Size)
    ensures address > 0 && address + HEADER + capacity <= SIZE ==>
              ChunkSound(Chunk(address, HEADER + capacity, capacity, 0))
  {
  }

  /** In a new chunk likewise. */
  lemma NewHeadExact(address: nat, chunkCapacity: Size, size: Size)
    requires size > 0
    ensures
      var capacity := Max(chunkCapacity, Align(size));
      var wraps := size + 7 >= SIZE || HEADER + capacity >= SIZE;
        && (address + HEADER + size <= address + (HEADER + capacity) % SIZE <==> !wraps)
        && (wraps && address + (HEADER + capacity) % SIZE <= SIZE ==>
              HEADER + size > (HEADER + capacity) % SIZE + 7 || HEADER > (HEADER + capacity) % SIZE)
        && (!wraps ==> (HEADER + capacity) % SIZE == HEADER + capacity && 0 < Align(size) <= capacity)
  {
    hide Align;
    AlignBounds(size);
  }

  // ---------------------------------------------------------------- memory

  /** Byte contents of memory; what was never written reads as 0. */
  function Load(memory: map<nat, int>, a: nat): int {
    if a in memory then memory[a] else 0
  }

  /** `memcpy`, byte by byte. */
  function Copied(memory: map<nat, int>, to: nat, from: nat, count: nat): map<nat, int>
    decreases count
  {
    if count == 0 then memory
    else
      var r := Copied(memory, to, from, count - 1);
      r[to + (count - 1) := Load(r, from + (count - 1))]
  }

  /** Between ranges that do not meet, all bytes arrive, and nothing else changes. */
  lemma {:induction false} CopiedExact(memory: map<nat, int>, to: nat, from: nat, count: nat)
    ensures Apart(to, count, from, count) ==>
              forall a: nat | to <= a < to + count :: Load(Copied(memory, to, from, count), a) == Load(memory, from + (a - to))
    ensures forall a: nat | a < to || to + count <= a :: Load(Copied(memory, to, from, count), a) == Load(memory, a)
    decreases count
  {
    if count > 0 {
      var k := count - 1;
      var before, r := Copied(memory, to, from, k), Copied(memory, to, from, count);
      CopiedExact(memory, to, from, k);
      if Apart(to, count, from, count) {
        assert Load(before, from + k) == Load(memory, from + k);
        forall a: nat | to <= a < to + count ensures Load(r, a) == Load(memory, from + (a - to)) {
          assert a != to + k ==> Load(r, a) == Load(before, a);
        }
      }
    }
  }

  // ---------------------------------------------------------------- facts for reallocation

  lemma NullNotLive(cs: seq<Chunk>, user: nat, blocks: map<nat, Block>)
    requires Sound(cs, user, blocks)
    ensures 0 !in blocks && blocks - {0} == blocks
  {
    if 0 in blocks {
      LiveBlock(cs, user, blocks, 0);
    }
  }

  lemma UpdateDrop(m: map<nat, Block>, k: nat, v: Block)
    ensures m[k := v] - {k} == m - {k}
    ensures k !in m ==> m - {k} == m
  {
  }

  lemma AlignTwice(size: Size)
    requires size + 7 < SIZE
    ensures Align(Align(size)) == Align(size)
  {
  }

  lemma LiveHead(cs: seq<Chunk>, user: nat, blocks: map<nat, Block>, p: nat)
    requires Sound(cs, user, blocks) && p in blocks
    ensures cs != []
  {
    assert Inside(cs, p, blocks[p]);
  }

  lemma LiveBlock(cs: seq<Chunk>, user: nat, blocks: map<nat, Block>, p: nat)
    requires Sound(cs, user, blocks) && p in blocks
    ensures cs != [] && blocks[p].length > 0 && HEADER < p && p + blocks[p].length <= SIZE
  {
    assert Inside(cs, p, blocks[p]);
    assert ChunkSound(cs[blocks[p].home]);
  }

  /** Comparing addresses modulo 2^64 finds exactly the block at the end of the head. */
  lemma LastBlock(cs: seq<Chunk>, user: nat, blocks: map<nat, Block>, p: nat)
    requires Sound(cs, user, blocks) && p in blocks && cs != []
    requires blocks[p].length < SIZE
    requires p == (Payload(cs[|cs| - 1]) + cs[|cs| - 1].size + SIZE - blocks[p].length) % SIZE
    ensures p + blocks[p].length == Payload(cs[|cs| - 1]) + cs[|cs| - 1].size
  {
    LiveBlock(cs, user, blocks, p);
    SoundHead(cs, user, blocks);
  }

  lemma PairApart(cs: seq<Chunk>, user: nat, blocks: map<nat, Block>, p: nat, q: nat)
    requires Sound(cs, user, blocks) && p in blocks && q in blocks && p != q
    ensures Apart(p, blocks[p].length, q, blocks[q].length)
  {
  }

  // ---------------------------------------------------------------- operations as functions

  /** A pool: its chunks from the oldest to the head, its settings, its live blocks, and memory. */
  datatype State = State(
    chunks: seq<Chunk>, chunkCapacity: Size, user: nat, blocks: map<nat, Block>, memory: map<nat, int>)

  datatype Outcome = Outcome(state: State, buffer: nat)

  /** The head has room for a block: the sum is a 64-bit sum. */
  predicate HasRoom(cs: seq<Chunk>, aligned: Size) {
    cs != [] && (cs[|cs| - 1].size + aligned) % SIZE <= cs[|cs| - 1].capacity
  }

  /** The bytes asked of the base allocator for a new chunk. */
  function Request(chunkCapacity: Size, aligned: Size): Size {
    (HEADER + Max(chunkCapacity, aligned)) % SIZE
  }

  /** What a base allocator may answer: null, or a region that meets no chunk. */
  predicate Answerable(cs: seq<Chunk>, answer: nat, request: nat) {
    answer != 0 ==>
      && answer + request <= SIZE
      && forall i | 0 <= i < |cs| :: Apart(answer, request, cs[i].address, cs[i].region)
  }

  /** None of the 64-bit sums of an allocation wraps. */
  predicate Fits(cs: seq<Chunk>, chunkCapacity: Size, size: Size) {
    && size + 7 < SIZE
    && if HasRoom(cs, Align(size)) then cs[|cs| - 1].size + Align(size) < SIZE
       else HEADER + Max(chunkCapacity, Align(size)) < SIZE
  }

  /** The block ends where the used part of the head ends: a 64-bit comparison of addresses. */
  predicate IsLast(cs: seq<Chunk>, p: nat, length: Size) {
    cs != [] && p == (Payload(cs[|cs| - 1]) + cs[|cs| - 1].size + SIZE - length) % SIZE
  }

  /** The last block can grow in the head. */
  predicate Extends(cs: seq<Chunk>, original: nat, o: Size, n: Size)
    requires o <= n
  {
    IsLast(cs, original, o) && HasRoom(cs, n - o)
  }

  /** None of the 64-bit sums of an enlargement wraps. */
  predicate FitsLarger(cs: seq<Chunk>, chunkCapacity: Size, original: nat, o: Size, n: Size)
    requires o <= n
  {
    if Extends(cs, original, o, n) then cs[|cs| - 1].size + (n - o) < SIZE else Fits(cs, chunkCapacity, n)
  }

  /** None of the 64-bit sums of a reallocation wraps. */
  predicate FitsAgain(cs: seq<Chunk>, chunkCapacity: Size, original: nat, originalSize: Size, newSize: Size) {
    var o, n := Align(originalSize), Align(newSize);
    if original == 0 then Fits(cs, chunkCapacity, newSize)
    else newSize + 7 < SIZE && (o < n ==> FitsLarger(cs, chunkCapacity, original, o, n))
  }

  /** The next bytes of the head are in use. */
  function Advanced(cs: seq<Chunk>, n: nat): (r: seq<Chunk>)
    requires cs != []
    ensures |r| == |cs|
    ensures cs[|cs| - 1].size + n < SIZE ==> r == Grown(cs, n)
  {
    cs[|cs| - 1 := cs[|cs| - 1].(size := (cs[|cs| - 1].size + n) % SIZE)]
  }

  /** The chunks with a head that has room; a new chunk is empty. */
  function WithRoom(cs: seq<Chunk>, chunkCapacity: Size, aligned: Size, answer: nat): (r: seq<Chunk>)
    ensures r != []
  {
    if HasRoom(cs, aligned) then cs
    else cs + [Chunk(answer, Request(chunkCapacity, aligned), Max(chunkCapacity, aligned), 0)]
  }

  /** A new chunk holds what is configured and what is asked for, and no more than the larger; the others stay as they are. */
  lemma NewChunk(cs: seq<Chunk>, chunkCapacity: Size, aligned: Size, answer: nat)
    requires !HasRoom(cs, aligned)
    ensures
      var room := WithRoom(cs, chunkCapacity, aligned, answer);
      var c := room[|room| - 1];
        && room[..|room| - 1] == cs
        && c.address == answer && c.size == 0
        && c.capacity >= chunkCapacity && c.capacity >= aligned && (c.capacity == chunkCapacity || c.capacity == aligned)
        && (HEADER + c.capacity < SIZE ==> c.region == HEADER + c.capacity)
  {
    var room := WithRoom(cs, chunkCapacity, aligned, answer);
    assert room[..|room| - 1] == cs;
  }

  function Allocated(s: State, size: Size, answer: nat): Outcome {
    var aligned := Align(size);
    if size == 0 || (!HasRoom(s.chunks, aligned) && answer == 0) then Outcome(s, 0)
    else
      var room := WithRoom(s.chunks, s.chunkCapacity, aligned, answer);
      var buffer := Payload(room[|room| - 1]) + room[|room| - 1].size;
      Outcome(s.(chunks := Advanced(room, aligned), blocks := s.blocks[buffer := Block(aligned, |room| - 1)]), buffer)
  }

  /** The block moved elsewhere; the old one is given up. */
  function Moved(s: State, original: nat, o: Size, n: Size, answer: nat): Outcome {
    var r := Allocated(s, n, answer);
    if r.buffer == 0 then Outcome(s, 0)
    else
      Outcome(r.state.(memory := Copied(s.memory, r.buffer, original, o), blocks := r.state.blocks - {original}), r.buffer)
  }

  function Reallocated(s: State, original: nat, originalSize: Size, newSize: Size, answer: nat): Outcome
    requires original != 0 ==> original in s.blocks
  {
    if original == 0 then Allocated(s, newSize, answer)
    else if newSize == 0 then Outcome(s, 0)
    else
      var o, n := Align(originalSize), Align(newSize);
      if o >= n then
        if newSize + 7 < SIZE then Outcome(Resize(s, original, n), original) else Outcome(s, original)
      else if Extends(s.chunks, original, o, n) then
        Outcome(Resize(s, original, n).(chunks := Advanced(s.chunks, n - o)), original)
      else Moved(s, original, o, n, answer)
  }

  function Resize(s: State, p: nat, length: nat): State
    requires p in s.blocks
  {
    s.(blocks := s.blocks[p := Block(length, s.blocks[p].home)])
  }

  /** Only the user's buffer stays, empty. */
  function Cleared(s: State): State {
    s.(chunks := if s.user != 0 && s.chunks != [] then [s.chunks[0].(size := 0)] else [], blocks := map[])
  }

  // ---------------------------------------------------------------- runs

  /** A call of the allocator with the base allocator's answer, or the caller writing a byte into a live block. */
  datatype Step =
    | Malloc(size: Size, answer: nat)
    | Realloc(original: nat, originalSize: Size, newSize: Size, answer: nat)
    | Clear
    | Store(block: nat, offset: nat, byte: int)

  /** What callers owe: true sizes of live blocks, and sizes whose sums fit 64 bits. */
  predicate Enabled(s: State, step: Step) {
    match step
    case Malloc(size, answer) =>
      && Answerable(s.chunks, answer, Request(s.chunkCapacity, Align(size)))
      && (size == 0 || Fits(s.chunks, s.chunkCapacity, size))
    case Realloc(original, originalSize, newSize, answer) =>
      && (original != 0 ==> original in s.blocks && s.blocks[original].length == Align(originalSize))
      && Answerable(s.chunks, answer, Request(s.chunkCapacity, Align(newSize)))
      && (newSize == 0 || FitsAgain(s.chunks, s.chunkCapacity, original, originalSize, newSize))
    case Clear => true
    case Store(block, offset, _) => block in s.blocks && offset < s.blocks[block].length
  }

  function Next(s: State, step: Step): Outcome
    requires Enabled(s, step)
  {
    match step
    case Malloc(size, answer) => Allocated(s, size, answer)
    case Realloc(original, originalSize, newSize, answer) => Reallocated(s, original, originalSize, newSize, answer)
    case Clear => Outcome(Cleared(s), 0)
    case Store(block, offset, byte) => Outcome(s.(memory := s.memory[block + offset := byte]), 0)
  }

  predicate IsRun(s: State, steps: seq<Step>)
    decreases |steps|
  {
    steps != [] ==> Enabled(s, steps[0]) && IsRun(Next(s, steps[0]).state, steps[1..])
  }

  function Final(s: State, steps: seq<Step>): State
    requires IsRun(s, steps)
    decreases |steps|
  {
    if steps == [] then s else Final(Next(s, steps[0]).state, steps[1..])
  }

  predicate SoundState(s: State) {
    Sound(s.chunks, s.user, s.blocks)
  }

  function Bytes(memory: map<nat, int>, p: nat, count: nat): (r: seq<int>)
    ensures |r| == count
  {
    seq(count, i requires 0 <= i < count => Load(memory, p + i))
  }

  /** What the callers see: each live block by itself, as an array of bytes. */
  function Contents(s: State): map<nat, seq<int>> {
    map p | p in s.blocks :: Bytes(s.memory, p, s.blocks[p].length)
  }

  /** An allocation of separate arrays: nothing, or one more array, of the aligned size, and the others as they were. */
  predicate Adds(before: map<nat, seq<int>>, size: Size, buffer: nat, after: map<nat, seq<int>>) {
    if buffer == 0 then after == before
    else buffer !in before && buffer in after && |after[buffer]| == Align(size) && after == before[buffer := after[buffer]]
  }

  /** A reallocation: nothing, or the array with its bytes up to the smaller size, at its place or a new one, and the others. */
  predicate Replaces(before: map<nat, seq<int>>, original: nat, size: Size, buffer: nat, after: map<nat, seq<int>>) {
    if buffer == 0 then after == before
    else
      && original in before && (buffer == original || buffer !in before)
      && buffer in after && |after[buffer]| == Align(size)
      && (forall i | 0 <= i < |before[original]| && i < |after[buffer]| :: after[buffer][i] == before[original][i])
      && after - {buffer} == before - {original}
  }

  /** The same step on separate arrays, where no array can run into another. */
  predicate Separately(before: map<nat, seq<int>>, step: Step, buffer: nat, after: map<nat, seq<int>>) {
    match step
    case Malloc(size, _) => Adds(before, size, buffer, after)
    case Realloc(original, _, newSize, _) =>
      if original == 0 then Adds(before, newSize, buffer, after) else Replaces(before, original, newSize, buffer, after)
    case Clear => after == map[]
    case Store(block, offset, byte) =>
      && block in before && offset < |before[block]|
      && after == before[block := before[block][offset := byte]]
  }

  // ---------------------------------------------------------------- one allocation

  /** The head that is used has room for the block without a wrap, in a sound list. */
  lemma RoomSound(s: State, size: Size, answer: nat)
    requires SoundState(s) && size > 0 && Fits(s.chunks, s.chunkCapacity, size)
    requires Answerable(s.chunks, answer, Request(s.chunkCapacity, Align(size)))
    requires HasRoom(s.chunks, Align(size)) || answer != 0
    ensures
      var room := WithRoom(s.chunks, s.chunkCapacity, Align(size), answer);
        && Sound(room, s.user, s.blocks) && 0 < Align(size) && Align(size) % 8 == 0
        && room[|room| - 1].size + Align(size) <= room[|room| - 1].capacity
  {
    hide Sound, Align, Max, ChunkSound;
    AlignBounds(size);
    if HasRoom(s.chunks, Align(size)) {
      SoundHead(s.chunks, s.user, s.blocks);
      OldHeadExact(s.chunks[|s.chunks| - 1], size);
    } else {
      var capacity := Max(s.chunkCapacity, Align(size));
      NewHeadExact(answer, s.chunkCapacity, size);
      NewHeadSound(answer, capacity);
      PushSound(s.chunks, s.user, s.blocks, Chunk(answer, HEADER + capacity, capacity, 0));
    }
  }

  lemma AllocatedSound(s: State, size: Size, answer: nat)
    requires SoundState(s) && (size == 0 || Fits(s.chunks, s.chunkCapacity, size))
    requires Answerable(s.chunks, answer, Request(s.chunkCapacity, Align(size)))
    ensures
      var r := Allocated(s, size, answer);
        && SoundState(r.state) && r.state.memory == s.memory
        && (r.buffer == 0 ==> r.state == s)
        && (r.buffer != 0 ==>
              && r.buffer !in s.blocks && r.buffer in r.state.blocks && r.state.blocks[r.buffer].length == Align(size)
              && r.state.blocks == s.blocks[r.buffer := r.state.blocks[r.buffer]])
  {
    hide Sound, Align, Max, Request, Fits, Answerable;
    if size != 0 && (HasRoom(s.chunks, Align(size)) || answer != 0) {
      RoomSound(s, size, answer);
      BumpSound(WithRoom(s.chunks, s.chunkCapacity, Align(size), answer), s.user, s.blocks, Align(size));
    }
  }

  lemma ContentsAdded(s: State, t: State, size: Size, buffer: nat)
    requires t.memory == s.memory
    requires buffer == 0 ==> t.blocks == s.blocks
    requires buffer != 0 ==>
               && buffer !in s.blocks && buffer in t.blocks && t.blocks[buffer].length == Align(size)
               && t.blocks == s.blocks[buffer := t.blocks[buffer]]
    ensures Adds(Contents(s), size, buffer, Contents(t))
  {
    hide Bytes, Align;
    if buffer != 0 {
      assert Contents(t) == Contents(s)[buffer := Contents(t)[buffer]];
    }
  }

  /** A request near 2^64 gets no bytes reserved, or makes the sum of sizes small. */
  lemma WrapExamples()
    ensures Align(SIZE - 7) == 0
    ensures (16 + Align(SIZE - 16)) % SIZE == 0
  {
  }

  /** A pool over a buffer of 88 bytes, 64 of them behind the header. */
  const SMALL_POOL: State := State([Chunk(1024, 88, 64, 0)], 64, 1024, map[], map[])

  /** Where a sum wraps, the next allocation returns the same address: the condition cannot be dropped. */
  lemma WrapCollides()
    ensures SoundState(SMALL_POOL)
    ensures
      var first := Allocated(SMALL_POOL, SIZE - 7, 0);
      var second := Allocated(first.state, 8, 0);
        !Fits(SMALL_POOL.chunks, SMALL_POOL.chunkCapacity, SIZE - 7) && first.buffer == second.buffer == 1048
  {
    WrapExamples();
    SoundBuffer(SMALL_POOL.chunks[0]);
  }

  // ---------------------------------------------------------------- one reallocation

  /** Bytes outside a range that was copied to are as they were. */
  lemma BytesElsewhere(memory: map<nat, int>, to: nat, from: nat, count: nat, p: nat, n: nat)
    requires Apart(p, n, to, count)
    ensures Bytes(Copied(memory, to, from, count), p, n) == Bytes(memory, p, n)
  {
    hide Copied;
    CopiedExact(memory, to, from, count);
  }

  lemma BytesCopied(memory: map<nat, int>, to: nat, from: nat, count: nat, n: nat)
    requires Apart(to, count, from, count) && count <= n
    ensures Bytes(Copied(memory, to, from, count), to, n)[..count] == Bytes(memory, from, count)
  {
    hide Copied;
    CopiedExact(memory, to, from, count);
  }

  lemma MovedSound(s: State, original: nat, o: Size, n: Size, answer: nat)
    requires SoundState(s) && original in s.blocks && s.blocks[original].length == o
    requires 0 < o < n && Align(n) == n && Fits(s.chunks, s.chunkCapacity, n)
    requires Answerable(s.chunks, answer, Request(s.chunkCapacity, n))
    ensures
      var r := Moved(s, original, o, n, answer);
        SoundState(r.state) && Replaces(Contents(s), original, n, r.buffer, Contents(r.state))
  {
    hide Sound, Align, Request, Fits, Answerable, Copied, Bytes, Allocated;
    AllocatedSound(s, n, answer);
    var t := Allocated(s, n, answer);
    if t.buffer != 0 {
      var r := Moved(s, original, o, n, answer).state;
      var buffer := t.buffer;
      DropSound(t.state.chunks, t.state.user, t.state.blocks, original);
      var before, after := Contents(s), Contents(r);
      forall q | q in s.blocks && q != original ensures q != buffer && q in after && after[q] == before[q] {
        PairApart(t.state.chunks, t.state.user, t.state.blocks, q, buffer);
        ApartShorter(q, s.blocks[q].length, buffer, n, o);
        BytesElsewhere(s.memory, buffer, original, o, q, s.blocks[q].length);
      }
      PairApart(t.state.chunks, t.state.user, t.state.blocks, original, buffer);
      ApartShorter(original, o, buffer, n, o);
      BytesCopied(s.memory, buffer, original, o, n);
      assert after[buffer][..o] == before[original];
      assert after - {buffer} == before - {original};
    }
  }

  lemma ApartShorter(q: nat, m: nat, p: nat, n: nat, k: nat)
    requires Apart(q, m, p, n) && k <= n
    ensures Apart(q, m, p, k) && Apart(p, k, q, m)
  {
  }

  /** A block that changes its length where it is keeps its first bytes, and no other block changes. */
  lemma ResizedContents(s: State, t: State, p: nat, size: Size)
    requires p != 0 && p in s.blocks && t.memory == s.memory
    requires t.blocks == s.blocks[p := Block(Align(size), s.blocks[p].home)]
    ensures Replaces(Contents(s), p, size, p, Contents(t))
  {
    hide Align;
    assert Contents(t) - {p} == Contents(s) - {p};
  }

  lemma ExtendedSound(s: State, original: nat, o: Size, n: Size)
    requires SoundState(s) && original in s.blocks && s.blocks[original].length == o
    requires o < n && o % 8 == 0 && n % 8 == 0
    requires Extends(s.chunks, original, o, n) && s.chunks[|s.chunks| - 1].size + (n - o) < SIZE
    ensures SoundState(Resize(s, original, n).(chunks := Advanced(s.chunks, n - o)))
  {
    hide Sound;
    LastBlock(s.chunks, s.user, s.blocks, original);
    ExtendSound(s.chunks, s.user, s.blocks, original, n - o);
  }

  lemma ReallocatedSound(s: State, original: nat, originalSize: Size, newSize: Size, answer: nat)
    requires SoundState(s) && Enabled(s, Realloc(original, originalSize, newSize, answer))
    ensures
      var r := Reallocated(s, original, originalSize, newSize, answer);
        SoundState(r.state) && Separately(Contents(s), Realloc(original, originalSize, newSize, answer), r.buffer, Contents(r.state))
  {
    hide Sound, Align, Request, Answerable, Moved, Allocated, Extends, Advanced, Contents, Replaces, Adds;
    var r := Reallocated(s, original, originalSize, newSize, answer);
    if original == 0 {
      AllocatedSound(s, newSize, answer);
      ContentsAdded(s, r.state, newSize, r.buffer);
    } else if newSize == 0 {
      NothingReplaced(Contents(s), original, newSize);
    } else {
      var o, n := Align(originalSize), Align(newSize);
      AlignBounds(originalSize);
      AlignBounds(newSize);
      LiveBlock(s.chunks, s.user, s.blocks, original);
      if o >= n {
        ShrinkSound(s.chunks, s.user, s.blocks, original, n);
        ResizedContents(s, r.state, original, newSize);
      } else {
        AlignTwice(newSize);
        if Extends(s.chunks, original, o, n) {
          ExtendedSound(s, original, o, n);
          ResizedContents(s, r.state, original, newSize);
        } else {
          MovedSound(s, original, o, n, answer);
          ReplacesAligned(Contents(s), original, newSize, r.buffer, Contents(r.state));
        }
      }
    }
  }

  lemma NothingReplaced(c: map<nat, seq<int>>, original: nat, size: Size)
    ensures Replaces(c, original, size, 0, c)
  {
  }

  lemma ReplacesAligned(before: map<nat, seq<int>>, original: nat, size: Size, buffer: nat, after: map<nat, seq<int>>)
    requires Align(Align(size)) == Align(size) && Replaces(before, original, Align(size), buffer, after)
    ensures Replaces(before, original, size, buffer, after)
  {
  }

  // ---------------------------------------------------------------- every run

  lemma StoredByte(memory: map<nat, int>, a: nat, byte: int, b: nat)
    ensures Load(memory[a := byte], b) == if b == a then byte else Load(memory, b)
  {
  }

  lemma BytesStored(memory: map<nat, int>, a: nat, byte: int, p: nat, n: nat)
    ensures Bytes(memory[a := byte], p, n) == if p <= a < p + n then Bytes(memory, p, n)[a - p := byte] else Bytes(memory, p, n)
  {
    var r := Bytes(memory[a := byte], p, n);
    var expected := if p <= a < p + n then Bytes(memory, p, n)[a - p := byte] else Bytes(memory, p, n);
    forall i | 0 <= i < n ensures r[i] == expected[i] {
      StoredByte(memory, a, byte, p + i);
    }
    assert r == expected;
  }

  lemma StoreContents(s: State, block: nat, offset: nat, byte: int)
    requires SoundState(s) && Enabled(s, Store(block, offset, byte))
    ensures Separately(Contents(s), Store(block, offset, byte), 0, Contents(Next(s, Store(block, offset, byte)).state))
  {
    hide Sound, Bytes;
    var before, after := Contents(s), Contents(Next(s, Store(block, offset, byte)).state);
    forall q | q in s.blocks ensures after[q] == if q == block then before[q][offset := byte] else before[q] {
      BytesStored(s.memory, block + offset, byte, q, s.blocks[q].length);
      if q != block {
        PairApart(s.chunks, s.user, s.blocks, q, block);
      }
    }
  }

  /** Every step keeps the pool sound, and does to its blocks what it would do to separate arrays. */
  lemma StepRefines(s: State, step: Step)
    requires SoundState(s) && Enabled(s, step)
    ensures SoundState(Next(s, step).state)
    ensures Separately(Contents(s), step, Next(s, step).buffer, Contents(Next(s, step).state))
  {
    hide Sound, Contents, Allocated, Reallocated, Fits, FitsAgain, Answerable, Request, Align, Adds;
    match step
    case Malloc(size, answer) =>
      AllocatedSound(s, size, answer);
      ContentsAdded(s, Allocated(s, size, answer).state, size, Allocated(s, size, answer).buffer);
    case Realloc(original, originalSize, newSize, answer) =>
      ReallocatedSound(s, original, originalSize, newSize, answer);
    case Clear =>
      ClearedSound(s);
    case Store(block, offset, byte) =>
      StoreContents(s, block, offset, byte);
  }

  lemma ClearedSound(s: State)
    requires SoundState(s)
    ensures SoundState(Cleared(s)) && Contents(Cleared(s)) == map[]
  {
    if s.user != 0 && s.chunks != [] {
      assert ChunkSound(s.chunks[0]);
      SoundBuffer(s.chunks[0].(size := 0));
    } else {
      SoundEmpty();
    }
  }

  /** At every step of a run the blocks change as separate arrays would. */
  predicate AlwaysSeparate(s: State, steps: seq<Step>)
    requires IsRun(s, steps)
    decreases |steps|
  {
    steps != [] ==>
      var t := Next(s, steps[0]);
      Separately(Contents(s), steps[0], t.buffer, Contents(t.state)) && AlwaysSeparate(t.state, steps[1..])
  }

  /**
   * Main result, for every run: the live blocks are disjoint and inside the used part of their chunk, no chunk is
   * used beyond its capacity, the user's buffer is last, and the blocks behave as separate arrays all along.
   */
  lemma {:induction false} RunSound(s: State, steps: seq<Step>)
    requires SoundState(s) && IsRun(s, steps)
    ensures SoundState(Final(s, steps)) && AlwaysSeparate(s, steps)
    decreases |steps|
  {
    hide SoundState, Next, Enabled, Separately, Contents;
    if steps != [] {
      StepRefines(s, steps[0]);
      RunSound(Next(s, steps[0]).state, steps[1..]);
    }
  }

  /** The steps that resize, write or free a block. */
  predicate Touches(step: Step, q: nat) {
    step.Clear? || (step.Realloc? && step.original == q) || (step.Store? && step.block == q)
  }

  lemma UntouchedStep(before: map<nat, seq<int>>, step: Step, buffer: nat, after: map<nat, seq<int>>, q: nat)
    requires Separately(before, step, buffer, after) && q in before && !Touches(step, q) && q != 0
    ensures q in after && after[q] == before[q]
  {
    hide Align;
    if step.Realloc? && step.original != 0 && buffer != 0 {
      assert q in before - {step.original};
      assert q in after - {buffer} && (after - {buffer})[q] == (before - {step.original})[q];
    }
  }

  /** Main result: in every run a block that is not resized, written or freed keeps its length and its bytes. */
  lemma {:induction false} RunKeeps(s: State, steps: seq<Step>, q: nat)
    requires SoundState(s) && IsRun(s, steps)
    requires q in Contents(s) && forall step <- steps :: !Touches(step, q)
    ensures q in Contents(Final(s, steps)) && Contents(Final(s, steps))[q] == Contents(s)[q]
    decreases |steps|
  {
    hide SoundState, Next, Enabled, Contents, Touches, Separately;
    if steps != [] {
      var t := Next(s, steps[0]);
      StepRefines(s, steps[0]);
      assert steps[0] in steps;
      LiveNotNull(s, q);
      UntouchedStep(Contents(s), steps[0], t.buffer, Contents(t.state), q);
      RunKeeps(t.state, steps[1..], q);
    }
  }

  lemma LiveNotNull(s: State, q: nat)
    requires SoundState(s) && q in Contents(s)
    ensures q in s.blocks && q != 0
  {
    hide Sound;
    NullNotLive(s.chunks, s.user, s.blocks);
  }
}
