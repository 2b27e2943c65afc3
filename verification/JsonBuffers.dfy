/** BlockJsonBuffer.hpp and StaticJsonBuffer.hpp: bump allocators over heap blocks and over
    one fixed array. Only where regions lie is modelled, not their contents. */
module JsonBuffers {
  import opened Wrappers

  function Pow2(n: nat): (p: nat)
    ensures p >= 1
  {
    if n == 0 then 1 else 2 * Pow2(n - 1)
  }

  /** The bitwise and of two unsigned words. */
  function And(a: nat, b: nat): (r: nat)
    ensures r <= a && r <= b
  {
    if a == 0 || b == 0 then 0 else (if a % 2 == 1 && b % 2 == 1 then 1 else 0) + 2 * And(a / 2, b / 2)
  }

  /** What the compiler fixes: size_t has `wordBits` bits, a pointer 2^pointerBits bytes, and
      `aligned` is ARDUINOJSON_ENABLE_ALIGNMENT. */
  datatype Target = Target(wordBits: nat, pointerBits: nat, aligned: bool) {
    predicate Usable() {
      pointerBits + 4 <= wordBits
    }

    function Words(): nat {
      Pow2(wordBits)
    }

    /** The largest object a program can have: PTRDIFF_MAX. */
    function MaxObject(): nat
      requires Usable()
    {
      Pow2(wordBits - 1) - 1
    }

    function PointerSize(): nat {
      Pow2(pointerBits)
    }

    /** sizeof(EmptyBlock): a pointer and two sizes. */
    function Header(): nat {
      3 * PointerSize()
    }

    /** Region starts are multiples of 2^GrainBits. */
    function GrainBits(): nat {
      if aligned then pointerBits else 0
    }

    function Grain(): nat {
      Pow2(GrainBits())
    }

    /** Sums of two words wrap. */
    function Sum(a: nat, b: nat): nat
      requires a < Words() && b < Words()
    {
      if a + b < Words() then a + b else a + b - Words()
    }

    /** The guard of the allocators lets a request through if it fits, or if the sum wraps to
        one that does. */
    predicate Passes(size: nat, bytes: nat, capacity: nat) {
      size + bytes <= capacity || Words() <= size + bytes <= Words() + capacity
    }

    /** malloc is asked for no more than an object can be: the block with its header is not,
        or its size has wrapped. */
    predicate HeaderPasses(capacity: nat)
      requires Usable() && capacity < Words()
    {
      Header() + capacity <= MaxObject() || Words() <= Header() + capacity <= Words() + MaxObject()
    }

    function RoundSizeUp(bytes: nat): (r: nat)
      requires Usable() && bytes < Words()
      ensures r < Words()
    {
      if aligned then
        PointerFits(this);
        And(Sum(bytes, PointerSize() - 1), Words() - 1 - (PointerSize() - 1))
      else
        bytes
    }

    /** The mark after a request. */
    function Advanced(size: nat, bytes: nat): nat
      requires Usable() && size < Words() && bytes < Words()
    {
      Sum(size, RoundSizeUp(bytes))
    }
  }

  type Platform = t: Target | t.Usable() witness Target(16, 1, false)

  lemma Pow2Steps(m: nat, n: nat)
    requires m <= n
    ensures Pow2(m) <= Pow2(n)
  {
    if m < n {
      Pow2Steps(m, n - 1);
    }
  }

  lemma PointerFits(p: Platform)
    ensures 16 * p.PointerSize() <= p.Words() == 2 * (p.MaxObject() + 1)
  {
    Pow2Steps(p.pointerBits, p.wordBits - 4);
    var w := p.wordBits;
    assert Pow2(w) == 2 * Pow2(w - 1) && Pow2(w - 1) == 2 * Pow2(w - 2);
    assert Pow2(w - 2) == 2 * Pow2(w - 3) && Pow2(w - 3) == 2 * Pow2(w - 4);
  }

  /** The k low bits are zero, that is, n is a multiple of 2^k. */
  ghost predicate LowZeros(n: nat, k: nat) {
    k == 0 || (n % 2 == 0 && LowZeros(n / 2, k - 1))
  }

  lemma {:induction false} LowZerosIffMultiple(n: nat, k: nat)
    ensures LowZeros(n, k) <==> n % Pow2(k) == 0
  {
    if k > 0 {
      LowZerosIffMultiple(n / 2, k - 1);
      HalfRemainder(n, Pow2(k - 1));
    }
  }

  lemma HalfRemainder(n: nat, q: nat)
    requires q > 0
    ensures n % (2 * q) == n / 2 % q * 2 + n % 2
  {
    var h := n / 2;
    var d, r := h / q, h % q;
    assert n == 2 * q * d + (2 * r + n % 2) by {
      assert h == q * d + r;
      assert 2 * h == 2 * q * d + 2 * r;
    }
    RemainderIs(n, 2 * q, d, 2 * r + n % 2);
  }

  lemma MulGrows(m: nat, k: nat)
    requires k >= 1
    ensures m * k >= m
  {
  }

  lemma RemainderIs(n: nat, m: nat, d: nat, r: nat)
    requires n == m * d + r && r < m
    ensures n % m == r
  {
    var q := n / m;
    assert m * (q - d) == r - n % m;
    assert q <= d by {
      if q > d {
        MulGrows(m, q - d);
      }
    }
    if q < d {
      MulGrows(m, d - q);
    }
  }

  lemma {:induction false} ZeroHasLowZeros(k: nat)
    ensures LowZeros(0, k)
  {
    if k > 0 {
      ZeroHasLowZeros(k - 1);
    }
  }

  lemma {:induction false} LowZerosAdd(a: nat, b: nat, k: nat)
    requires LowZeros(a, k) && LowZeros(b, k)
    ensures LowZeros(a + b, k)
  {
    if k > 0 {
      LowZerosAdd(a / 2, b / 2, k - 1);
      assert (a + b) / 2 == a / 2 + b / 2;
    }
  }

  lemma {:induction false} AllOnes(n: nat, w: nat)
    requires n < Pow2(w)
    ensures And(n, Pow2(w) - 1) == n
  {
    if w > 0 && n > 0 {
      AllOnes(n / 2, w - 1);
      assert (Pow2(w) - 1) / 2 == Pow2(w - 1) - 1 && (Pow2(w) - 1) % 2 == 1;
    }
  }

  /** r is n without its k low bits. */
  ghost predicate Cleared(r: nat, n: nat, k: nat) {
    LowZeros(r, k) && r <= n < r + Pow2(k)
  }

  /** w ones with k zeros in their place at the bottom. */
  function Mask(w: nat, k: nat): nat
    requires k <= w
  {
    if k == 0 then Pow2(w) - 1 else 2 * Mask(w - 1, k - 1)
  }

  lemma {:induction false} MaskIsDifference(w: nat, k: nat)
    requires k <= w
    ensures Mask(w, k) == Pow2(w) - Pow2(k)
    decreases k
  {
    if k > 0 {
      MaskIsDifference(w - 1, k - 1);
    }
  }

  /** Such a mask clears the k low bits. */
  lemma {:induction false} MaskClears(n: nat, w: nat, k: nat)
    requires n < Pow2(w) && k <= w
    ensures Cleared(And(n, Mask(w, k)), n, k)
    decreases k
  {
    if k == 0 {
      AllOnes(n, w);
    } else {
      MaskClears(n / 2, w - 1, k - 1);
      ShiftedMask(n, Mask(w - 1, k - 1), k - 1);
    }
  }

  lemma ShiftedMask(n: nat, mask: nat, k: nat)
    requires Cleared(And(n / 2, mask), n / 2, k)
    ensures Cleared(And(n, 2 * mask), n, k + 1)
  {
    EvenMask(n, mask);
    Doubled(And(n / 2, mask), n, k);
  }

  lemma EvenMask(n: nat, mask: nat)
    ensures And(n, 2 * mask) == 2 * And(n / 2, mask)
  {
    assert 2 * mask % 2 == 0 && 2 * mask / 2 == mask;
  }

  lemma Doubled(r: nat, n: nat, k: nat)
    requires Cleared(r, n / 2, k)
    ensures Cleared(2 * r, n, k + 1)
  {
    assert 2 * r % 2 == 0 && 2 * r / 2 == r;
  }

  lemma {:induction false} SmallMultiple(n: nat, k: nat)
    requires LowZeros(n, k) && n < Pow2(k)
    ensures n == 0
  {
    if k > 0 {
      SmallMultiple(n / 2, k - 1);
    }
  }

  /** The mask gives the least multiple of the pointer size that holds the request, unless
      adding the slack wraps: then it gives zero. */
  lemma RoundSizeUpMeaning(p: Platform, bytes: nat)
    requires bytes < p.Words()
    ensures LowZeros(p.RoundSizeUp(bytes), p.GrainBits())
    ensures bytes + p.Grain() <= p.Words() ==> bytes <= p.RoundSizeUp(bytes) < bytes + p.Grain()
    ensures bytes + p.Grain() > p.Words() ==> p.RoundSizeUp(bytes) == 0
  {
    if p.aligned {
      PointerFits(p);
      var n := p.Sum(bytes, p.PointerSize() - 1);
      MaskClears(n, p.wordBits, p.pointerBits);
      MaskIsDifference(p.wordBits, p.pointerBits);
      if bytes + p.Grain() > p.Words() {
        SmallMultiple(p.RoundSizeUp(bytes), p.pointerBits);
      }
    } else {
      assert p.Grain() == 1;
    }
  }

  /** A piece of memory that was handed out. */
  datatype Region = Region(start: nat, bytes: nat) {
    predicate Covers(byte: nat) {
      start <= byte < start + bytes
    }
  }

  /** Regions inside `room` bytes, none overlapping another, all starting at a multiple of
      2^grainBits. */
  ghost predicate Apart(regions: seq<Region>, room: nat, grainBits: nat) {
    && (forall i :: 0 <= i < |regions| ==> LowZeros(regions[i].start, grainBits))
    && (forall i :: 0 <= i < |regions| ==> regions[i].start + regions[i].bytes <= room)
    && (forall i, j :: 0 <= i < j < |regions| ==> regions[i].start + regions[i].bytes <= regions[j].start)
  }

  /** What the requests take once each is rounded up. */
  ghost function Taken(p: Platform, regions: seq<Region>): nat
    requires forall r <- regions :: r.bytes < p.Words()
  {
    if regions == [] then 0 else
      Taken(p, regions[..|regions| - 1]) + p.RoundSizeUp(regions[|regions| - 1].bytes)
  }

  /** What holds of a bump allocator that hands out `regions` from `room` bytes. The mark may
      lie beyond the room, by less than a pointer. */
  ghost predicate Bumped(p: Platform, regions: seq<Region>, size: nat, room: nat) {
    && LowZeros(size, p.GrainBits())
    && size < room + p.Grain()
    && Apart(regions, room, p.GrainBits())
    && (forall r <- regions :: r.start + r.bytes <= size && r.bytes <= p.MaxObject() < p.Words())
    && size == Taken(p, regions)
  }

  /** No byte belongs to two regions, and all start at multiples of the grain. */
  lemma NoByteTwice(p: Platform, regions: seq<Region>, size: nat, room: nat)
    requires Bumped(p, regions, size, room)
    ensures forall i, j, byte | 0 <= i < |regions| && 0 <= j < |regions| && i != j ::
              !(regions[i].Covers(byte) && regions[j].Covers(byte))
    ensures forall i | 0 <= i < |regions| :: regions[i].start % p.Grain() == 0
    ensures forall i | 0 <= i < |regions| :: regions[i].start + regions[i].bytes <= room
  {
    forall i | 0 <= i < |regions|
      ensures regions[i].start % p.Grain() == 0
    {
      LowZerosIffMultiple(regions[i].start, p.GrainBits());
    }
  }

  lemma NothingBumped(p: Platform, room: nat)
    ensures Bumped(p, [], 0, room)
  {
    ZeroHasLowZeros(p.GrainBits());
  }

  /** A request that fits moves the mark by its rounded size, without wrapping. */
  lemma MarkAdvances(p: Platform, size: nat, room: nat, bytes: nat)
    requires LowZeros(size, p.GrainBits())
    requires room <= p.MaxObject() && size + bytes <= room
    ensures bytes <= p.MaxObject() < p.Words() && size < p.Words()
    ensures var a := p.Advanced(size, bytes);
            && a == size + p.RoundSizeUp(bytes)
            && LowZeros(a, p.GrainBits())
            && size + bytes <= a < room + p.Grain()
  {
    PointerFits(p);
    RoundSizeUpMeaning(p, bytes);
    LowZerosAdd(size, p.RoundSizeUp(bytes), p.GrainBits());
  }

  /** Handing out the bytes at the mark keeps all of this. */
  lemma Bump(p: Platform, regions: seq<Region>, size: nat, room: nat, bytes: nat)
    requires Bumped(p, regions, size, room)
    requires room <= p.MaxObject() && size + bytes <= room
    ensures bytes < p.Words() && size < p.Words()
    ensures Bumped(p, regions + [Region(size, bytes)], p.Advanced(size, bytes), room)
  {
    MarkAdvances(p, size, room, bytes);
    assert (regions + [Region(size, bytes)])[..|regions|] == regions;
  }

  class StaticJsonBuffer {
    const platform: Platform
    const capacity: nat
    var size: nat
    ghost var regions: seq<Region>

    ghost predicate Valid()
      reads this
    {
      capacity + 2 * platform.PointerSize() <= platform.MaxObject() && Bumped(platform, regions, size, capacity)
    }

    /** The array, the mark and the pointer to the methods make one object. */
    constructor (platform: Platform, capacity: nat)
      requires capacity + 2 * platform.PointerSize() <= platform.MaxObject()
      ensures Valid() && regions == [] && this.platform == platform && this.capacity == capacity
    {
      this.platform, this.capacity, size, regions := platform, capacity, 0, [];
      NothingBumped(platform, capacity);
    }

    /** The offset of the region in the array; None is NULL. The region lies in the array
        exactly when the request is no larger than an object can be. */
    method Alloc(bytes: nat) returns (start: Option<nat>)
      requires Valid() && bytes < platform.Words()
      modifies this
      ensures bytes <= platform.MaxObject() ==> Valid()
      ensures start.Some? <==> platform.Passes(old(size), bytes, capacity)
      ensures start.None? ==> size == old(size) && regions == old(regions)
      ensures start.Some? ==> start.value == old(size) && regions == old(regions) + [Region(start.value, bytes)]
      ensures start.Some? ==> (start.value + bytes <= capacity <==> bytes <= platform.MaxObject())
    {
      PointerFits(platform);
      if platform.Sum(size, bytes) > capacity {
        return None;
      }
      start := Some(size);
      regions := regions + [Region(size, bytes)];
      if bytes <= platform.MaxObject() {
        Bump(platform, old(regions), size, capacity, bytes);
      }
      size := platform.Advanced(size, bytes);
    }
  }

  /** A block of the heap. `room` is the memory that really lies behind its header. */
  class Block {
    const capacity: nat
    const next: Block?
    var size: nat
    ghost const room: int
    ghost var regions: seq<Region>

    ghost predicate Valid(p: Platform)
      reads this
    {
      room == capacity && room + p.Header() <= p.MaxObject() && Bumped(p, regions, size, capacity)
    }

    constructor (capacity: nat, next: Block?, ghost room: int)
      ensures this.capacity == capacity && this.next == next && this.room == room
      ensures size == 0 && regions == []
    {
      this.capacity, this.next, this.size, this.room, this.regions := capacity, next, 0, room, [];
    }

    /** The mark moves past the request, rounded up. */
    method Take(p: Platform, bytes: nat) returns (start: nat)
      requires size < p.Words() && bytes < p.Words()
      modifies this
      ensures start == old(size) && regions == old(regions) + [Region(start, bytes)]
      ensures old(Valid(p)) && start + bytes <= capacity ==> Valid(p)
    {
      if Valid(p) && size + bytes <= capacity {
        Bump(p, regions, size, capacity, bytes);
      }
      start := size;
      regions := regions + [Region(size, bytes)];
      size := p.Advanced(size, bytes);
    }
  }

  /** Following `next` from `head` visits exactly these blocks. */
  ghost predicate Chain(head: Block?, blocks: seq<Block>) {
    if blocks == [] then head == null else head == blocks[0] && Chain(head.next, blocks[1..])
  }

  ghost function SizesSum(blocks: seq<Block>): nat
    reads blocks
  {
    if blocks == [] then 0 else blocks[0].size + SizesSum(blocks[1..])
  }

  ghost function AllTaken(p: Platform, blocks: seq<Block>): nat
    requires forall b <- blocks :: b.Valid(p)
    reads blocks
  {
    if blocks == [] then 0 else
      assert blocks[0].Valid(p);
      Taken(p, blocks[0].regions) + AllTaken(p, blocks[1..])
  }

  /** The marks add up to what all requests take. */
  lemma {:induction false} SizesAreTaken(p: Platform, blocks: seq<Block>)
    requires forall b <- blocks :: b.Valid(p)
    ensures SizesSum(blocks) == AllTaken(p, blocks)
  {
    if blocks != [] {
      assert blocks[0].Valid(p);
      SizesAreTaken(p, blocks[1..]);
    }
  }

  datatype Pointer = Null | At(block: Block, start: nat)

  class BlockJsonBuffer {
    const platform: Platform
    var head: Block?
    var nextBlockSize: nat
    ghost var blocks: seq<Block>

    /** The blocks form a chain from the head. */
    ghost predicate Chained()
      reads this
    {
      && Chain(head, blocks)
      && (forall i, j :: 0 <= i < j < |blocks| ==> blocks[i] != blocks[j])
    }

    /** Besides, each block is a valid bump allocator, and a block of the next size can have
        its header. */
    ghost predicate Valid()
      reads this, blocks
    {
      && Chained()
      && (forall b <- blocks :: b.Valid(platform))
      && nextBlockSize + platform.Header() < platform.Words()
    }

    /** Valid exactly if the header does not wrap the size of the first block. */
    constructor (platform: Platform, initialSize: nat)
      requires initialSize < platform.Words()
      ensures Valid() <==> initialSize + platform.Header() < platform.Words()
      ensures Chained() && blocks == [] && this.platform == platform && nextBlockSize == initialSize
    {
      this.platform, head, nextBlockSize, blocks := platform, null, initialSize, [];
    }

    /** What the marks of all blocks, and so all rounded requests, add up to. */
    method Size() returns (total: nat)
      requires Valid()
      ensures total == AllTaken(platform, blocks) % platform.Words()
    {
      total := 0;
      var b := head;
      ghost var i := 0;
      while b != null
        invariant 0 <= i <= |blocks| && Chain(b, blocks[i..])
        invariant total < platform.Words()
        invariant (total + SizesSum(blocks[i..])) % platform.Words() == SizesSum(blocks) % platform.Words()
        decreases |blocks| - i
      {
        BlockIsWord(b);
        assert blocks[i..][0] == b && blocks[i..][1..] == blocks[i + 1..];
        WrapsAlike(platform.Sum(total, b.size), SizesSum(blocks[i + 1..]), platform.Words());
        total := platform.Sum(total, b.size);
        b := b.next;
        i := i + 1;
      }
      assert blocks[i..] == [];
      RemainderIs(total, platform.Words(), 0, total);
      SizesAreTaken(platform, blocks);
    }

    lemma BlockIsWord(b: Block)
      requires Valid() && b in blocks
      ensures b.size <= platform.MaxObject() < platform.Words()
    {
      PointerFits(platform);
      assert b.Valid(platform);
    }

    predicate CanAllocInHead(bytes: nat)
      requires bytes < platform.Words()
      requires head != null ==> head.size < platform.Words()
      reads this, head
    {
      head != null && platform.Sum(head.size, bytes) <= head.capacity
    }

    /** malloc, never for more than an object can be; `granted` is whether it has that much. */
    method Allocate(bytes: nat, granted: bool) returns (ok: bool)
      ensures ok <==> granted && bytes <= platform.MaxObject()
    {
      ok := granted && bytes <= platform.MaxObject();
    }

    method AddNewBlock(capacity: nat, granted: bool) returns (ok: bool)
      requires Valid() && capacity < platform.Words()
      modifies `head, `blocks
      ensures !ok ==> head == old(head) && blocks == old(blocks)
      ensures Chained() && (ok ==> fresh(head) && blocks == [head] + old(blocks))
      ensures ok ==> head.capacity == capacity && head.size == 0 && head.regions == []
      ensures ok ==> head.room + platform.Header() <= platform.MaxObject()
      ensures ok && capacity + platform.Header() < platform.Words() ==> Valid() && head.room == capacity
      ensures ok <==> granted && platform.HeaderPasses(capacity)
    {
      PointerFits(platform);
      var bytes := platform.Sum(platform.Header(), capacity);
      ok := Allocate(bytes, granted);
      if ok {
        var block := new Block(capacity, head, bytes - platform.Header());
        head := block;
        assert ([block] + blocks)[1..] == blocks;
        blocks := [block] + blocks;
        NothingBumped(platform, capacity);
      }
    }

    /** The region at the mark of the head. */
    method AllocInHead(bytes: nat) returns (p: Pointer)
      requires Chained() && head != null && head.size < platform.Words() && bytes < platform.Words()
      modifies head
      ensures p == At(head, old(head.size))
      ensures head.regions == old(head.regions) + [Region(p.start, bytes)]
      ensures old(Valid()) && old(head.size) + bytes <= head.capacity ==> Valid()
    {
      var start := head.Take(platform, bytes);
      p := At(head, start);
    }

    /** A new block that holds the request at its start, unless malloc fails. */
    method AllocInNewBlock(bytes: nat, granted: bool) returns (p: Pointer)
      requires Valid() && bytes < platform.Words()
      modifies this
      ensures var capacity := if bytes > old(nextBlockSize) then bytes else old(nextBlockSize);
              p.At? <==> granted && platform.HeaderPasses(capacity)
      ensures p.Null? ==> head == old(head) && blocks == old(blocks) && nextBlockSize == old(nextBlockSize)
      ensures p.At? ==> head != null && fresh(head) && p == At(head, 0) && blocks == [head] + old(blocks)
      ensures p.At? ==> head.regions == [Region(0, bytes)] && (bytes <= head.room <==> bytes <= platform.MaxObject())
      ensures p.At? && bytes <= platform.MaxObject() ==>
                head.capacity == if bytes > old(nextBlockSize) then bytes else old(nextBlockSize)
      ensures p.At? && bytes <= platform.MaxObject() ==> nextBlockSize == 2 * old(nextBlockSize)
      ensures bytes <= platform.MaxObject() ==> Valid()
    {
      PointerFits(platform);
      var capacity := nextBlockSize;
      if bytes > capacity {
        capacity := bytes;
      }
      var ok := AddNewBlock(capacity, granted);
      if !ok {
        return Null;
      }
      nextBlockSize := platform.Sum(nextBlockSize, nextBlockSize);
      p := AllocInHead(bytes);
    }

    /** A request no larger than an object can be gets a region inside its block, apart from
        all others there (Valid), or NULL, and only the head or a new block is touched. A
        larger one gets a region exactly when a sum wraps to one that passes, and never one
        inside its block. */
    method Alloc(bytes: nat, granted: bool) returns (p: Pointer)
      requires Valid() && bytes < platform.Words()
      modifies this, head
      ensures bytes <= platform.MaxObject() ==> Valid()
      ensures p.At? && p.block != old(head) && bytes <= platform.MaxObject() ==>
                p.block.capacity == if bytes > old(nextBlockSize) then bytes else old(nextBlockSize)
      ensures p.Null? ==> head == old(head) && blocks == old(blocks) && nextBlockSize == old(nextBlockSize)
      ensures p.Null? && head != null ==> head.size == old(head.size) && head.regions == old(head.regions)
      ensures p.At? ==> p.block == head && (p.start + bytes <= head.room <==> bytes <= platform.MaxObject())
      ensures var inHead := old(head != null && platform.Passes(head.size, bytes, head.capacity));
              var capacity := if bytes > old(nextBlockSize) then bytes else old(nextBlockSize);
              && (p.At? <==> inHead || (granted && platform.HeaderPasses(capacity)))
              && (inHead ==> p.block == old(head) && nextBlockSize == old(nextBlockSize))
              && (p.At? && !inHead ==> p.block != old(head))
              && (p.At? && !inHead && bytes <= platform.MaxObject() ==> nextBlockSize == 2 * old(nextBlockSize))
      ensures p.At? && head == old(head) ==>
                && blocks == old(blocks) && p.start == old(head.size)
                && head.regions == old(head.regions) + [Region(p.start, bytes)]
      ensures p.At? && head != old(head) ==>
                && fresh(head) && blocks == [head] + old(blocks)
                && p.start == 0 && head.regions == [Region(0, bytes)]
                && (old(head) != null ==> unchanged(old(head)))
    {
      MarkIsWord();
      var inHead := CanAllocInHead(bytes);
      if inHead {
        p := AllocInHead(bytes);
      } else {
        p := AllocInNewBlock(bytes, granted);
      }
    }

    lemma MarkIsWord()
      requires Valid()
      ensures head != null ==> head.size + platform.Header() < platform.MaxObject() + platform.PointerSize()
      ensures head != null ==> head.room == head.capacity <= platform.MaxObject()
      ensures 16 * platform.PointerSize() <= platform.Words() == 2 * (platform.MaxObject() + 1)
    {
      PointerFits(platform);
      if head != null {
        assert head.Valid(platform);
      }
    }

    /** A pointer to memory of its own: inside a block, below its mark, and aligned. */
    ghost predicate Placed(p: Pointer, bytes: nat)
      requires p.At?
      reads this, p.block
    {
      && p.block in blocks
      && p.start + bytes <= p.block.size
      && p.start + bytes <= p.block.room
      && LowZeros(p.start, platform.GrainBits())
    }

    /** Any run of requests: the regions lie in their blocks at multiples of the pointer
        size, and no two of them overlap. No request that malloc grants a block for fails, as
        long as an object can be as large as the request and as the next block, which doubles
        at most each time. */
    method Run(requests: seq<nat>, granted: seq<bool>) returns (ps: seq<Pointer>)
      requires Valid() && forall bytes <- requests :: bytes <= platform.MaxObject()
      requires |granted| == |requests|
      modifies this, blocks
      ensures Valid() && |ps| == |requests|
      ensures forall i :: 0 <= i < |ps| && granted[i] && Affordable(platform, requests[i], old(nextBlockSize), i) ==>
                ps[i].At?
      ensures forall i :: 0 <= i < |ps| && ps[i].At? ==>
                && ps[i].block in blocks
                && ps[i].start + requests[i] <= ps[i].block.room
                && ps[i].start % platform.Grain() == 0
      ensures forall i, j :: 0 <= i < j < |ps| && ps[i].At? && ps[j].At? && ps[i].block == ps[j].block ==>
                ps[i].start + requests[i] <= ps[j].start
    {
      ps := [];
      for k := 0 to |requests|
        invariant Valid() && |ps| == k && Laid(ps, requests)
        invariant forall b <- blocks :: b in old(blocks) || fresh(b)
        invariant DoubledAtMost(nextBlockSize, old(nextBlockSize), k)
        invariant forall i :: 0 <= i < k && granted[i] && Affordable(platform, requests[i], old(nextBlockSize), i) ==>
                    ps[i].At?
      {
        assert requests[k] in requests;
        assert head == null || head in blocks;
        ghost var size := nextBlockSize;
        AffordableNow(platform, requests[k], size, old(nextBlockSize), k);
        var p := AllocNext(ps, requests, granted[k]);
        OnceMore(size, nextBlockSize, old(nextBlockSize), k);
        ps := ps + [p];
      }
      LaidOut(ps, requests);
    }

    /** Memory that does not overlap, inside its blocks, for the first requests. */
    ghost predicate Laid(ps: seq<Pointer>, requests: seq<nat>)
      reads this, blocks
    {
      && |ps| <= |requests|
      && (forall i :: 0 <= i < |ps| && ps[i].At? ==> ps[i].block in blocks && Placed(ps[i], requests[i]))
      && forall i, j :: 0 <= i < j < |ps| && ps[i].At? && ps[j].At? && ps[i].block == ps[j].block ==>
           ps[i].start + requests[i] <= ps[j].start
    }

    /** The next request of a run. */
    method AllocNext(ps: seq<Pointer>, requests: seq<nat>, granted: bool) returns (p: Pointer)
      requires Valid() && |ps| < |requests| && requests[|ps|] <= platform.MaxObject() && Laid(ps, requests)
      modifies this, head
      ensures Valid() && Laid(ps + [p], requests)
      ensures forall b <- blocks :: b in old(blocks) || fresh(b)
      ensures nextBlockSize <= 2 * old(nextBlockSize)
      ensures granted && Affordable(platform, requests[|ps|], old(nextBlockSize), 0) ==> p.At?
    {
      assert head == null || head in blocks;
      p := AllocPlaced(requests[|ps|], granted);
    }

    lemma LaidOut(ps: seq<Pointer>, requests: seq<nat>)
      requires Laid(ps, requests)
      ensures forall i :: 0 <= i < |ps| && ps[i].At? ==>
                && ps[i].block in blocks
                && ps[i].start + requests[i] <= ps[i].block.room
                && ps[i].start % platform.Grain() == 0
    {
      forall i | 0 <= i < |ps| && ps[i].At?
        ensures ps[i].start % platform.Grain() == 0
      {
        LowZerosIffMultiple(ps[i].start, platform.GrainBits());
      }
    }

    /** alloc() as a step of a run: the region lies at the old mark of its block, and no mark
        goes back. */
    method AllocPlaced(bytes: nat, granted: bool) returns (p: Pointer)
      requires Valid() && bytes <= platform.MaxObject()
      modifies this, head
      ensures Valid() && (p.At? ==> Placed(p, bytes))
      ensures nextBlockSize <= 2 * old(nextBlockSize)
      ensures granted && Affordable(platform, bytes, old(nextBlockSize), 0) ==> p.At?
      ensures forall b <- old(blocks) :: b in blocks && old(b.size) <= b.size
      ensures forall b <- blocks :: b in old(blocks) || fresh(b)
      ensures p.At? && p.block in old(blocks) ==> old(p.block.size) <= p.start
    {
      PointerFits(platform);
      p := Alloc(bytes, granted);
    }
  }

  /** An object can be as large as the request, and as the block size after k doublings, with
      the header of a block. */
  predicate Affordable(p: Platform, bytes: nat, blockSize: nat, k: nat) {
    p.Header() + bytes <= p.MaxObject() && p.Header() + blockSize * Pow2(k) <= p.MaxObject()
  }

  /** A block size after at most k doublings. */
  predicate DoubledAtMost(size: nat, start: nat, k: nat) {
    size <= start * Pow2(k)
  }

  lemma OnceMore(size: nat, next: nat, start: nat, k: nat)
    requires DoubledAtMost(size, start, k) && next <= 2 * size
    ensures DoubledAtMost(next, start, k + 1)
  {
    assert start * Pow2(k + 1) == 2 * (start * Pow2(k));
  }

  lemma AffordableNow(p: Platform, bytes: nat, size: nat, start: nat, k: nat)
    requires DoubledAtMost(size, start, k)
    ensures Affordable(p, bytes, start, k) ==> Affordable(p, bytes, size, 0)
  {}

  /** An oversized request that is granted, from an array of 16 bytes and 16-bit words: after
      8 bytes, 65528 more end at 2^16, which wraps to 0. */
  method StaticOverrun() returns (buffer: StaticJsonBuffer, start: Option<nat>)
    ensures start == Some(8) && buffer.capacity == 16 && buffer.regions == [Region(0, 8), Region(8, 65528)]
  {
    var p: Platform := Target(16, 1, false);
    SixteenBits(p);
    buffer := new StaticJsonBuffer(p, 16);
    start := buffer.Alloc(8);
    assert buffer.regions == [] + [Region(0, 8)];
    EightTaken(p, buffer.regions);
    start := buffer.Alloc(65528);
  }

  /** The same from the first block of the heap. */
  method BlockOverrun() returns (buffer: BlockJsonBuffer, p: Pointer)
    ensures p.At? && p.block == buffer.head && p.block.capacity == 256
    ensures p.start == 8 && p.start + 65528 > p.block.room
  {
    var t: Platform := Target(16, 1, false);
    SixteenBits(t);
    buffer := new BlockJsonBuffer(t, 256);
    p := buffer.Alloc(8, true);
    assert p.block == buffer.blocks[0] && p.block.Valid(t);
    EightTaken(t, p.block.regions);
    p := buffer.Alloc(65528, false);
  }

  lemma EightTaken(p: Platform, regions: seq<Region>)
    requires p == Target(16, 1, false) && regions == [Region(0, 8)]
    ensures 8 < p.Words() && Taken(p, regions) == 8
  {
    SixteenBits(p);
    assert regions[..0] == [];
  }

  lemma SixteenBits(p: Platform)
    requires p == Target(16, 1, false)
    ensures p.Words() == 65536 && p.MaxObject() == 32767 && p.PointerSize() == 2
    ensures p.Header() == 6 && p.RoundSizeUp(8) == 8 && p.RoundSizeUp(65528) == 65528
  {
    assert Pow2(4) == 16;
    assert Pow2(8) == 256;
    assert Pow2(12) == 4096;
    assert Pow2(16) == 65536;
  }

  /** Taking a turn off before adding changes nothing modulo m. */
  lemma WrapsAlike(a: nat, c: nat, m: nat)
    requires m > 0
    ensures (a + m + c) % m == (a + c) % m
  {
    var n := a + c;
    assert n == m * (n / m) + n % m;
    assert m * (n / m + 1) == m * (n / m) + m;
    RemainderIs(n + m, m, n / m + 1, n % m);
  }
}
