/** The helpers of src/heap.c on single words: alignment, rounding and the allocation tag. */
module HeapWords {
  import opened Memory
  import opened Bits

  /** The alignments that src/heap.h asks for: powers of two from 2 on. */
  ghost predicate PowerOfTwo(alignment: nat) {
    exists k :: 1 <= k < 64 && alignment == Pow2(k)
  }

  predicate IsAligned(p: nat, alignment: nat)
    requires alignment > 0
  {
    And(p, alignment - 1) == 0
  }

  predicate IsAllocated(next: nat) { And(next, 1) != 0 }

  function SetAllocated(next: nat): nat { Or(next, 1) }

  function ClearAllocated(next: nat): nat { And(next, WORD_LIMIT - 2) }

  /** The tag hides in bit 0 of an even address: it can be read, set and taken away again. */
  lemma TagRoundTrip(p: nat)
    requires p % 2 == 0 && p < WORD_LIMIT
    ensures !IsAllocated(p) && ClearAllocated(p) == p
    ensures SetAllocated(p) == p + 1 < WORD_LIMIT
    ensures IsAllocated(SetAllocated(p)) && ClearAllocated(SetAllocated(p)) == p
  {
    Pow2Word();
    TestBit0(p);
    TestBit0(p + 1);
    SetBit0(p);
    ClearBit0(p, 64);
    ClearBit0(p + 1, 64);
  }

  /** The request rounded up, in the `size_t` arithmetic of the code. */
  function Round(size: nat, alignment: nat): nat
    requires alignment > 0
  {
    if IsAligned(size, alignment) then size else (size + (alignment - size % alignment)) % WORD_LIMIT
  }

  /** For any alignment the test asks that no bit of the mask is set in the address. */
  lemma MaskIsBits(p: nat, alignment: nat)
    requires alignment > 0
    ensures var mask: nat := alignment - 1; IsAligned(p, alignment) <==> forall k: nat :: !Share(p, mask, k)
  {
    AndZero(p, alignment - 1);
  }

  lemma MaskIsRemainder(p: nat, alignment: nat)
    requires PowerOfTwo(alignment)
    ensures IsAligned(p, alignment) <==> p % alignment == 0
  {
    var k :| 1 <= k < 64 && alignment == Pow2(k);
    AndMask(p, k);
  }

  lemma AlignmentDivides(alignment: nat)
    requires PowerOfTwo(alignment)
    ensures 2 <= alignment < WORD_LIMIT && WORD_LIMIT % alignment == 0 && alignment % 2 == 0
  {
    var k :| 1 <= k < 64 && alignment == Pow2(k);
    Pow2Word();
    Pow2Divides(k, 64);
    Pow2Divides(k, 63);
    Pow2Divides(1, k);
    assert Pow2(1) == 2;
  }

  /** Rounding yields the least multiple of the alignment that is not below the request, except that
      requests within one alignment of 2^64 wrap around to 0. */
  lemma RoundIsLeastMultiple(size: nat, alignment: nat)
    requires PowerOfTwo(alignment) && size < WORD_LIMIT
    ensures Round(size, alignment) % alignment == 0
    ensures size <= WORD_LIMIT - alignment ==>
      size <= Round(size, alignment) < size + alignment
      && forall m: nat :: m % alignment == 0 && size <= m ==> Round(size, alignment) <= m
    ensures size > WORD_LIMIT - alignment ==> Round(size, alignment) == 0
  {
    MaskIsRemainder(size, alignment);
    AlignmentDivides(alignment);
    hide IsAligned, PowerOfTwo;
    var r := size % alignment;
    var up := if r == 0 then size else size + (alignment - r);
    assert up % alignment == 0 by {
      ModUnique(up, alignment, size / alignment + (if r == 0 then 0 else 1), 0);
    }
    MultiplesApart(WORD_LIMIT, up, alignment);
    MultiplesApart(up, WORD_LIMIT, alignment);
    assert up == WORD_LIMIT <==> size > WORD_LIMIT - alignment;
    assert 0 % alignment == 0 by { ModUnique(0, alignment, 0, 0); }
    forall m: nat | m % alignment == 0 && size <= m ensures up <= m {
      MultiplesApart(m, up, alignment);
    }
  }

  lemma MultiplesApart(x: nat, y: nat, m: nat)
    requires m > 0 && x % m == 0 && y % m == 0
    ensures x < y ==> x + m <= y
  {
    var d := y / m - x / m;
    assert y - x == d * m;
    if d >= 1 {
      assert d * m >= 1 * m;
    } else {
      assert (-d) * m >= 0;
    }
  }
}

/** The heap in memory: `heap_t` and the block headers inside the pool. */
module HeapMemory {
  import opened Memory
  import opened HeapChain
  import opened HeapWords

  /** The word `next` of block `b` in a pool that ends at `hi`. */
  function NextWord(b: Block, hi: nat): nat {
    (if b.End() == hi then NULL else b.End()) + (if b.used then 1 else 0)
  }

  /** Block `b` has its header in memory `m`, at an address that leaves bit 0 to the tag. */
  ghost predicate HasHeader(m: seq<byte>, b: Block, hi: nat) {
    && b.End() <= hi <= |m|
    && b.addr % 2 == 0
    && Word(m, b.addr) == b.size
    && Word(m, b.addr + WORD) == NextWord(b, hi)
  }

  /** The blocks of `c` have their headers in memory `m`. */
  ghost predicate Holds(m: seq<byte>, c: Chain, hi: nat)
    decreases |c|
  {
    c != [] ==> HasHeader(m, c[0], hi) && Holds(m, c[1..], hi)
  }

  /** Memory `r` is `m` with the header at `at` overwritten. */
  ghost predicate HeaderWritten(m: seq<byte>, r: seq<byte>, at: nat, size: nat, next: nat) {
    && |m| == |r| && at + HEADER <= |r|
    && SameBytes(m, r, 0, at)
    && SameBytes(m, r, at + HEADER, |m|)
    && Word(r, at) == size
    && Word(r, at + WORD) == next
  }

  /** Nothing changes outside the pool [lo, hi) or in the payload of an object that is live in `c`. */
  ghost predicate Preserves(m: seq<byte>, r: seq<byte>, c: Chain, lo: nat, hi: nat) {
    && |m| == |r|
    && SameBytes(m, r, 0, lo)
    && SameBytes(m, r, hi, |m|)
    && forall b :: b in c && b.used ==> SameBytes(m, r, b.Payload(), b.size)
  }

  /** The invariant: the chain tiles the pool [lo, hi) and its headers are in memory. */
  ghost predicate Sound(m: seq<byte>, c: Chain, lo: nat, hi: nat) {
    && 0 < lo && lo + HEADER <= hi <= |m| <= WORD_LIMIT
    && Tiles(c, lo, hi)
    && Holds(m, c, hi)
  }

  /** `heap_alloc` as the client sees it. */
  function AllocOutcome(c: Chain, size: nat, alignment: nat): Outcome
    requires alignment > 0
  {
    if size == 0 then Outcome(c, NULL) else Alloc(c, Round(size, alignment))
  }

  /** Where a heap lives, and its alignment. */
  datatype Zone = Zone(lo: nat, hi: nat, alignment: nat)

  datatype State = State(mem: seq<byte>, chain: Chain)

  /** What a client can do: the two calls, and writes to its own objects. */
  datatype Op =
    | AllocOp(size: nat)
    | FreeOp(p: nat)
    | WriteOp(p: nat, at: nat, data: seq<byte>)

  ghost predicate Invariant(z: Zone, s: State) {
    PowerOfTwo(z.alignment) && z.lo % z.alignment == 0 && Sound(s.mem, s.chain, z.lo, z.hi)
  }

  /** Operation `op` takes state `s` to state `t` and returns `r`. */
  ghost predicate Step(z: Zone, s: State, op: Op, r: nat, t: State)
    requires z.alignment > 0
  {
    match op
    case AllocOp(size) =>
      && size < WORD_LIMIT
      && Outcome(t.chain, r) == AllocOutcome(s.chain, size, z.alignment)
      && Sound(t.mem, t.chain, z.lo, z.hi)
      && Preserves(s.mem, t.mem, s.chain, z.lo, z.hi)
    case FreeOp(p) =>
      && r == 0
      && (p == NULL || Live(s.chain, p))
      && t.chain == (if p == NULL then s.chain else Free(s.chain, p))
      && Sound(t.mem, t.chain, z.lo, z.hi)
      && Preserves(s.mem, t.mem, s.chain, z.lo, z.hi)
    case WriteOp(p, at, data) =>
      && r == 0
      && (exists b :: b in s.chain && b.used && b.Payload() == p && p <= at && at + |data| <= b.End())
      && at + |data| <= |s.mem|
      && t == State(Splice(s.mem, at, data), s.chain)
  }

  lemma RoundedEven(size: nat, alignment: nat)
    requires PowerOfTwo(alignment) && size < WORD_LIMIT
    ensures Round(size, alignment) % 2 == 0
  {
    RoundIsLeastMultiple(size, alignment);
    AlignmentDivides(alignment);
    MultipleOfEven(Round(size, alignment), alignment);
  }

  /** What `init_heap` leaves is one free block. */
  lemma FreshHeap(m: seq<byte>, r: seq<byte>, pool: nat, size: nat, alignment: nat)
    requires PowerOfTwo(alignment) && IsAligned(pool, alignment) && pool != NULL
    requires HEADER <= size < WORD_LIMIT && pool + size <= |m| <= WORD_LIMIT
    requires HeaderWritten(m, r, pool, (size + (WORD_LIMIT - HEADER)) % WORD_LIMIT, NULL)
    ensures Invariant(Zone(pool, pool + size, alignment), State(r, [Block(pool, size - HEADER, false)]))
    ensures Preserves(m, r, [], pool, pool + size)
  {
    MaskIsRemainder(pool, alignment);
    AlignmentDivides(alignment);
    MultipleOfEven(pool, alignment);
    hide IsAligned, Word, PowerOfTwo;
    var b := Block(pool, size - HEADER, false);
    var c := [b];
    assert c[1..] == [];
    assert HasHeader(r, b, pool + size);
    assert Tiles(c, pool, pool + size);
    assert Holds(r, c, pool + size);
    assert Preserves(m, r, [], pool, pool + size);
  }

  class Heap {
    var poolSize: nat
    var alignment: nat
    var poolStart: nat
    var blocks: nat
    const mem: array<byte>
    ghost var chain: Chain

    ghost function Pool(): Zone
      reads this
    {
      Zone(poolStart, poolStart + poolSize, alignment)
    }

    ghost function Now(): State
      reads this, mem
    {
      State(mem[..], chain)
    }

    ghost predicate Valid()
      reads this, mem
    {
      && alignment > 0
      && blocks == poolStart
      && Invariant(Pool(), Now())
    }

    constructor (mem: array<byte>)
      ensures this.mem == mem
    {
      this.mem := mem;
    }

    /** `cur->size` */
    function SizeOf(cur: nat): nat
      requires cur + WORD <= mem.Length
      reads mem
    {
      Word(mem[..], cur)
    }

    /** `cur->next`, tag included */
    function NextOf(cur: nat): nat
      requires cur + HEADER <= mem.Length
      reads mem
    {
      Word(mem[..], cur + WORD)
    }

    /** `cur->size = size; cur->next = next` */
    method WriteHeader(cur: nat, size: nat, next: nat)
      requires cur + HEADER <= mem.Length && size < WORD_LIMIT && next < WORD_LIMIT
      modifies mem
      ensures HeaderWritten(old(mem[..]), mem[..], cur, size, next)
    {
      StoreWord(mem, cur, size);
      StoreWord(mem, cur + WORD, next);
    }

    /** `cur->next = next` */
    method WriteNext(cur: nat, next: nat)
      requires cur + HEADER <= mem.Length && next < WORD_LIMIT
      modifies mem
      ensures HeaderWritten(old(mem[..]), mem[..], cur, old(SizeOf(cur)), next)
    {
      StoreWord(mem, cur + WORD, next);
    }

    /** `init_heap`.  The size of the first block is computed in `size_t`; it is meant for alignments that
        are powers of two and pools that hold a header. */
    method Init(pool: nat, size: nat, alignment: nat) returns (r: int)
      requires size < WORD_LIMIT
      requires pool != NULL ==> pool + HEADER <= mem.Length && pool + size <= mem.Length <= WORD_LIMIT
      modifies this, mem
      ensures r == if pool == NULL || alignment < 2 || !IsAligned(pool, alignment) then -1 else 0
      ensures r == 0 ==>
        && poolStart == blocks == pool && poolSize == size && this.alignment == alignment
        && HeaderWritten(old(mem[..]), mem[..], pool, (size + (WORD_LIMIT - HEADER)) % WORD_LIMIT, NULL)
      ensures r == 0 && PowerOfTwo(alignment) && HEADER <= size ==>
        && Valid()
        && chain == [Block(pool, size - HEADER, false)]
        && Preserves(old(mem[..]), mem[..], [], pool, pool + size)
      ensures r == -1 ==> mem[..] == old(mem[..]) && unchanged(this)
    {
      if pool == NULL || alignment < 2 || !IsAligned(pool, alignment) {
        return -1;
      }
      poolStart := pool;
      poolSize := size;
      this.alignment := alignment;
      blocks := pool;
      WriteHeader(pool, (size + (WORD_LIMIT - HEADER)) % WORD_LIMIT, NULL);
      chain := [Block(pool, if HEADER <= size then size - HEADER else 0, false)];
      if PowerOfTwo(alignment) && HEADER <= size {
        FreshHeap(old(mem[..]), mem[..], pool, size, alignment);
      }
      return 0;
    }

    /** `heap_alloc` */
    method Alloc(size: nat) returns (p: nat)
      requires Valid() && size < WORD_LIMIT
      modifies `chain, mem
      ensures Valid() && Step(Pool(), old(Now()), AllocOp(size), p, Now())
      ensures size == 0 ==> p == NULL && Now() == old(Now())
    {
      hide Sound, Cut, Searching, Preserves, Stands, Holds, HeapChain.Alloc, Absorb, Carve, Tiles, IsAligned, SameBytes;
      ghost var m0, c, hi := mem[..], chain, poolStart + poolSize;
      Begin(m0, c, 0, poolStart, hi);
      if size == 0 {
        return NULL;
      }
      var alignedSize := if IsAligned(size, alignment) then size
        else (size + (alignment - size % alignment)) % WORD_LIMIT;
      RoundedEven(size, alignment);
      ghost var done, rest, at;
      p, done, rest, at := Search(alignedSize);
      if p == NULL {
        Exhausted(mem[..], c, alignedSize, done, poolStart, at, hi);
        chain := done;
      } else {
        ghost var m1 := mem[..];
        ghost var taken := Take(p, alignedSize, rest, hi);
        TakeKeeps(m0, m1, mem[..], c, alignedSize, done, rest, poolStart, at, hi);
        chain := done + taken;
        p := p + HEADER;
      }
    }

    /** `heap_free` */
    method Free(p: nat)
      requires Valid() && (p == NULL || Live(chain, p))
      modifies `chain, mem
      ensures Valid() && Step(Pool(), old(Now()), FreeOp(p), 0, Now())
      ensures p == NULL ==> Now() == old(Now())
    {
      hide Sound, Cut, Preserves, Tiles, Holds, Stands, SameBytes, IsAllocated, ClearAllocated, HeapChain.Free;
      ghost var m0, c, hi := mem[..], chain, poolStart + poolSize;
      Begin(m0, c, 0, poolStart, hi);
      if p == NULL {
        return;
      }
      ghost var done, rest := FindLive(m0, c, p, poolStart, hi);
      var cur := p - HEADER;
      ghost var d := FreeFront(cur, rest, hi);
      FreeKeeps(m0, mem[..], c, p, done, rest, poolStart, hi);
      chain := done + d;
    }

    /** The block `cur` in front of `c` becomes free and swallows at most one successor. */
    method FreeFront(cur: nat, ghost c: Chain, ghost hi: nat) returns (ghost d: Chain)
      requires Stands(mem[..], c, cur, hi)
      modifies mem
      ensures d == FreeHead(c) && Stands(mem[..], d, cur, hi)
      ensures SameBytes(old(mem[..]), mem[..], 0, cur)
      ensures SameBytes(old(mem[..]), mem[..], cur + HEADER, mem.Length)
    {
      hide Tiles, Holds, IsAllocated, ClearAllocated, SetAllocated, Word;
      d := Untag(cur, c, hi);
      FrontTags(mem[..], d, cur, hi);
      if NextOf(cur) != NULL && !IsAllocated(NextOf(NextOf(cur))) {
        d := FuseNext(cur, d, hi);
      }
    }

    /** `cur->next = clear_allocated(cur->next)` */
    method Untag(cur: nat, ghost c: Chain, ghost hi: nat) returns (ghost d: Chain)
      requires Stands(mem[..], c, cur, hi)
      modifies mem
      ensures d == [c[0].(used := false)] + c[1..] && Stands(mem[..], d, cur, hi)
      ensures cur + HEADER <= mem.Length && !IsAllocated(NextOf(cur))
      ensures SameBytes(old(mem[..]), mem[..], 0, cur)
      ensures SameBytes(old(mem[..]), mem[..], cur + HEADER, mem.Length)
    {
      hide Tiles, Holds, IsAllocated, ClearAllocated;
      Front(mem[..], c, cur, hi);
      ghost var m0 := mem[..];
      WriteNext(cur, ClearAllocated(NextOf(cur)));
      d := [c[0].(used := false)] + c[1..];
      TagStands(m0, mem[..], c, cur, hi, false);
      Front(mem[..], d, cur, hi);
    }

    /** The outer loop of `heap_alloc`: the first block from the front that is free and large enough
        once it has swallowed the free blocks behind it, or NULL. */
    method Search(n: nat) returns (cur: nat, ghost done: Chain, ghost rest: Chain, ghost at: nat)
      requires Valid()
      modifies mem
      ensures Cut(mem[..], done, rest, poolStart, at, poolStart + poolSize) && Searching(chain, n, done, rest)
      ensures Preserves(old(mem[..]), mem[..], chain, poolStart, poolStart + poolSize)
      ensures cur == if rest == [] then NULL else at
      ensures rest != [] ==>
        && at > 0 && rest == Absorb(rest) && !rest[0].used && rest[0].size >= n && rest[0].End() <= mem.Length
        && Stands(mem[..], rest, at, poolStart + poolSize)
    {
      hide Sound, Searching, Preserves, Holds, HeapChain.Alloc, Absorb, Tiles, IsAllocated, ClearAllocated, SameBytes;
      ghost var m0, c := mem[..], chain;
      ghost var hi := poolStart + poolSize;
      at := poolStart;
      done, rest := [], c;
      cur := blocks;
      Begin(m0, c, n, at, hi);
      while cur != NULL
        invariant Cut(mem[..], done, rest, poolStart, at, hi)
        invariant Searching(c, n, done, rest)
        invariant at > 0 && cur == if rest == [] then NULL else at
        invariant Preserves(m0, mem[..], c, poolStart, hi)
        decreases |rest|
      {
        ghost var m1, before := mem[..], rest;
        rest := AbsorbAt(cur, rest, hi);
        Visited(m0, m1, mem[..], c, n, done, before, rest, poolStart, at, hi);
        if SizeOf(cur) >= n && !IsAllocated(NextOf(cur)) {
          return;
        }

        cur := ClearAllocated(NextOf(cur));
        done, rest, at := done + [rest[0]], rest[1..], rest[0].End();
      }
    }

    /** The block `cur` at the front of `c` is taken for `n` bytes, and split if it is large. */
    method Take(cur: nat, n: nat, ghost c: Chain, ghost hi: nat) returns (ghost d: Chain)
      requires Stands(mem[..], c, cur, hi) && !c[0].used && c[0].size >= n && n % 2 == 0
      modifies mem
      ensures d == Carve(c[0], n) + c[1..]
      ensures Stands(mem[..], d, cur, hi)
      ensures SameBytes(old(mem[..]), mem[..], 0, cur)
      ensures SameBytes(old(mem[..]), mem[..], c[0].End(), mem.Length)
    {
      hide Tiles, Holds, IsAllocated, ClearAllocated, SetAllocated, Word;
      d := c;
      Front(mem[..], c, cur, hi);
      if SizeOf(cur) - n > HEADER {
        d := Split(cur, n, c, hi);
        Front(mem[..], d, cur, hi);
      }
      ghost var m1 := mem[..];
      WriteNext(cur, SetAllocated(NextOf(cur)));
      TagStands(m1, mem[..], d, cur, hi, true);
      d := [d[0].(used := true)] + d[1..];
    }

    /** The free block `cur` keeps `n` bytes, and a free block with the rest follows it. */
    method Split(cur: nat, n: nat, ghost c: Chain, ghost hi: nat) returns (ghost d: Chain)
      requires Stands(mem[..], c, cur, hi) && !c[0].used && c[0].size - n > HEADER && n % 2 == 0
      requires cur + HEADER <= mem.Length && SizeOf(cur) == c[0].size && cur + HEADER + SizeOf(cur) <= mem.Length
      modifies mem
      ensures d == [Block(cur, n, false)] + ([Block(cur + HEADER + n, c[0].size - n - HEADER, false)] + c[1..])
      ensures Stands(mem[..], d, cur, hi)
      ensures SameBytes(old(mem[..]), mem[..], 0, cur)
      ensures SameBytes(old(mem[..]), mem[..], c[0].End(), mem.Length)
    {
      hide Tiles, Holds, Word, IsAllocated, ClearAllocated, SetAllocated;
      var newBlock := cur + n + HEADER;
      ghost var m0 := mem[..];
      Front(m0, c, cur, hi);
      WriteHeader(newBlock, SizeOf(cur) - n - HEADER, NextOf(cur));
      ghost var m1 := mem[..];
      WriteHeader(cur, n, newBlock);
      ghost var first, second := Block(cur, n, false), Block(newBlock, c[0].size - n - HEADER, false);
      SplitStands(m0, m1, mem[..], c, first, second, hi);
      d := [first] + ([second] + c[1..]);
    }

    /** The inner loop of `heap_alloc`, at the block `cur` in front of `c`. */
    method AbsorbAt(cur: nat, ghost c: Chain, ghost hi: nat) returns (ghost d: Chain)
      requires Stands(mem[..], c, cur, hi)
      modifies mem
      ensures d == Absorb(c) && Stands(mem[..], d, cur, hi)
      ensures SameBytes(old(mem[..]), mem[..], 0, cur)
      ensures SameBytes(old(mem[..]), mem[..], cur + HEADER, mem.Length)
    {
      d := c;
      ghost var m0 := mem[..];
      FrontTags(mem[..], d, cur, hi);
      while NextIsFree(mem[..], cur)
        invariant Stands(mem[..], d, cur, hi) && Readable(mem[..], cur)
        invariant NextIsFree(mem[..], cur) <==> CanFuse(d)
        invariant Absorb(d) == Absorb(c)
        invariant SameBytes(m0, mem[..], 0, cur) && SameBytes(m0, mem[..], cur + HEADER, mem.Length)
        decreases |d|
      {
        d := FuseNext(cur, d, hi);
        FrontTags(mem[..], d, cur, hi);
      }
    }

    /** `cur->size += cur->next->size + sizeof(heap_node_t); cur->next = cur->next->next`, which is
        the merge of both `heap_alloc` and `heap_free`. */
    method FuseNext(cur: nat, ghost d: Chain, ghost hi: nat) returns (ghost e: Chain)
      requires Stands(mem[..], d, cur, hi) && CanFuse(d)
      modifies mem
      ensures e == [Fuse(d[0], d[1])] + d[2..]
      ensures Stands(mem[..], e, cur, hi)
      ensures SameBytes(old(mem[..]), mem[..], 0, cur)
      ensures SameBytes(old(mem[..]), mem[..], cur + HEADER, mem.Length)
    {
      hide Tiles, Holds, IsAllocated, ClearAllocated, SetAllocated, Word;
      e := [Fuse(d[0], d[1])] + d[2..];
      ghost var m0 := mem[..];
      Front(m0, d, cur, hi);
      Front(m0, d[1..], d[1].addr, hi);
      WriteHeader(cur, SizeOf(cur) + (SizeOf(NextOf(cur)) + HEADER), NextOf(NextOf(cur)));
      FuseStands(m0, mem[..], d, cur, hi);
    }
  }

  // ---------------------------------------------------------------- heap_free

  lemma {:induction false} HoldsSplit(m: seq<byte>, a: Chain, b: Chain, hi: nat)
    requires Holds(m, a + b, hi)
    ensures Holds(m, a, hi) && Holds(m, b, hi)
    decreases |a|
  {
    if a == [] {
      assert a + b == b;
    } else {
      assert (a + b)[1..] == a[1..] + b;
      HoldsSplit(m, a[1..], b, hi);
    }
  }

  lemma FreeBehind(b: Block, c: Chain, p: nat)
    requires b.Payload() != p
    ensures Free([b] + c, p) == [b] + Free(c, p)
  {
    assert ([b] + c)[1..] == c;
  }

  lemma FreeInFront(b: Chain)
    requires b != []
    ensures Free(b, b[0].Payload()) == FreeHead(b)
  {
  }

  /** Freeing acts where the object is. */
  lemma {:induction false} FreeAt(a: Chain, b: Chain, lo: nat, mid: nat)
    requires Tiles(a, lo, mid) && b != [] && b[0].addr == mid
    ensures Free(a + b, b[0].Payload()) == a + FreeHead(b)
    decreases |a|
  {
    FreeInFront(b);
    hide Free, FreeHead;
    if a == [] {
      assert a + b == b && a + FreeHead(b) == FreeHead(b);
    } else {
      TilesBounds(a[1..], a[0].End(), mid);
      FreeAt(a[1..], b, a[0].End(), mid);
      hide Tiles;
      FreeBehind(a[0], a[1..] + b, b[0].Payload());
      HeadConcat(a, b);
      HeadConcat(a, FreeHead(b));
    }
  }

  lemma HeadConcat(a: Chain, b: Chain)
    requires a != []
    ensures a + b == [a[0]] + (a[1..] + b)
  {
  }

  /** Everything `heap_free` does to the blocks: the block of the object becomes free, and joins its
      successor if that is free, but not its predecessor. */
  lemma FreeExact(c: Chain, k: nat, lo: nat, hi: nat)
    requires Tiles(c, lo, hi) && k < |c|
    ensures Free(c, c[k].Payload()) == c[..k] +
      if k + 1 < |c| && !c[k + 1].used then
        [Block(c[k].addr, c[k].size + HEADER + c[k + 1].size, false)] + c[k + 2..]
      else
        [Block(c[k].addr, c[k].size, false)] + c[k + 1..]
  {
    TilesCut(c, lo, hi, k);
    FreeAt(c[..k], c[k..], lo, c[k].addr);
    assert c[..k] + c[k..] == c;
  }

  /** The heap cut in front of the live object at `p`. */
  lemma FindLive(m: seq<byte>, c: Chain, p: nat, lo: nat, hi: nat) returns (done: Chain, rest: Chain)
    requires Sound(m, c, lo, hi) && Live(c, p)
    ensures rest != [] && rest[0].used && p == rest[0].addr + HEADER
    ensures Stands(m, rest, rest[0].addr, hi)
    ensures Cut(m, done, rest, lo, rest[0].addr, hi) && Covers(c, done, rest)
    ensures Free(c, p) == done + FreeHead(rest)
  {
    var b :| b in c && b.used && b.Payload() == p;
    var k :| 0 <= k < |c| && c[k] == b;
    done, rest := c[..k], c[k..];
    assert c == done + rest;
    TilesCut(c, lo, hi, k);
    TilesBounds(done, lo, b.addr);
    HoldsSplit(m, done, rest, hi);
    FreeAt(done, rest, lo, b.addr);
  }

  lemma FreeKeeps(m: seq<byte>, r: seq<byte>, c: Chain, p: nat, done: Chain, rest: Chain, lo: nat, hi: nat)
    requires rest != [] && rest[0].used && lo + HEADER <= hi
    requires Cut(m, done, rest, lo, rest[0].addr, hi) && Covers(c, done, rest)
    requires Free(c, p) == done + FreeHead(rest)
    requires |m| == |r| && SameBytes(m, r, 0, rest[0].addr) && SameBytes(m, r, rest[0].Payload(), |m|)
    requires Stands(r, FreeHead(rest), rest[0].addr, hi)
    ensures Sound(r, Free(c, p), lo, hi) && Preserves(m, r, c, lo, hi)
  {
    var at := rest[0].addr;
    WritesAt(m, r, c, done, rest, lo, at, hi, at + HEADER);
    HoldsFrame(m, r, done, lo, at, hi);
    TilesConcat(done, FreeHead(rest), lo, at, hi);
    HoldsConcat(r, done, FreeHead(rest), hi);
  }

  // ---------------------------------------------------------------- headers under writes

  /** Headers survive as long as nothing is written to the blocks. */
  lemma {:induction false} HoldsFrame(m: seq<byte>, r: seq<byte>, c: Chain, lo: nat, to: nat, hi: nat)
    requires lo <= to && Tiles(c, lo, to) && Holds(m, c, hi) && |m| == |r| && SameBytes(m, r, lo, to - lo)
    ensures Holds(r, c, hi)
    decreases |c|
  {
    if c != [] {
      TilesBounds(c[1..], c[0].End(), to);
      SameWord(m, r, c[0].addr);
      SameWord(m, r, c[0].addr + WORD);
      HoldsFrame(m, r, c[1..], c[0].End(), to, hi);
    }
  }

  lemma {:induction false} HoldsConcat(m: seq<byte>, a: Chain, b: Chain, hi: nat)
    requires Holds(m, a, hi) && Holds(m, b, hi)
    ensures Holds(m, a + b, hi)
    decreases |a|
  {
    if a == [] {
      assert a + b == b;
    } else {
      assert (a + b)[1..] == a[1..] + b;
      HoldsConcat(m, a[1..], b, hi);
    }
  }

  /** The cursor stands at the front block of `c`, the rest of a well-formed heap. */
  ghost predicate Stands(m: seq<byte>, c: Chain, cur: nat, hi: nat) {
    && c != []
    && 0 < cur && hi <= |m| <= WORD_LIMIT
    && Tiles(c, cur, hi)
    && Holds(m, c, hi)
  }

  /** The front block and its tag, and where the next block is. */
  lemma Front(m: seq<byte>, c: Chain, cur: nat, hi: nat)
    requires Stands(m, c, cur, hi)
    ensures c[0].addr == cur && c[0].End() <= hi && cur % 2 == 0
    ensures Tiles(c[1..], c[0].End(), hi) && Holds(m, c[1..], hi)
    ensures Word(m, cur) == c[0].size
    ensures Word(m, cur + WORD) == NextWord(c[0], hi)
    ensures |c| >= 2 ==> c[1].addr == c[0].End() && c[1].End() <= hi
    ensures ClearAllocated(NextWord(c[0],
      hi)) == (if |c| >= 2 then c[1].addr else NULL) == NextWord(c[0].(used := false), hi) < WORD_LIMIT
    ensures IsAllocated(NextWord(c[0], hi)) <==> c[0].used
    ensures !c[0].used ==>
      && NextWord(c[0], hi) == (if |c| >= 2 then c[1].addr else NULL)
      && SetAllocated(NextWord(c[0], hi)) == NextWord(c[0], hi) + 1 < WORD_LIMIT
  {
    TilesBounds(c[1..], c[0].End(), hi);
    assert HasHeader(m, c[0], hi) && Holds(m, c[1..], hi);
    if |c| >= 2 {
      assert HasHeader(m, c[1], hi);
    }
    TagRoundTrip(if |c| >= 2 then c[1].addr else NULL);
  }

  ghost predicate CanFuse(c: Chain) {
    |c| >= 2 && !c[0].used && !c[1].used
  }

  /** The reads of the loop condition stay inside the memory. */
  ghost predicate Readable(m: seq<byte>, cur: nat) {
    && cur + HEADER <= |m|
    && var next := Word(m, cur + WORD);
       !IsAllocated(next) && next != NULL ==> next + HEADER <= |m|
  }

  /** `!is_allocated(cur->next) && cur->next != NULL && !is_allocated(cur->next->next)` */
  predicate NextIsFree(m: seq<byte>, cur: nat)
    requires Readable(m, cur)
  {
    var next := Word(m, cur + WORD);
    !IsAllocated(next) && next != NULL && !IsAllocated(Word(m, next + WORD))
  }

  lemma FrontTags(m: seq<byte>, c: Chain, cur: nat, hi: nat)
    requires Stands(m, c, cur, hi)
    ensures Readable(m, cur) && (NextIsFree(m, cur) <==> CanFuse(c))
  {
    hide Tiles, Holds, IsAllocated, ClearAllocated, SetAllocated;
    Front(m, c, cur, hi);
    if |c| >= 2 {
      Front(m, c[1..], c[1].addr, hi);
    }
  }

  lemma Prepend(m: seq<byte>, b: Block, c: Chain, hi: nat)
    requires 0 < b.addr && HasHeader(m, b, hi) && |m| <= WORD_LIMIT
    requires Tiles(c, b.End(), hi) && Holds(m, c, hi)
    ensures Stands(m, [b] + c, b.addr, hi)
  {
    assert ([b] + c)[1..] == c;
  }

  lemma FuseStands(m: seq<byte>, r: seq<byte>, d: Chain, cur: nat, hi: nat)
    requires Stands(m, d, cur, hi) && CanFuse(d)
    requires HeaderWritten(m, r, cur, d[0].size + (d[1].size + HEADER), NextWord(d[1], hi))
    ensures Stands(r, [Fuse(d[0], d[1])] + d[2..], cur, hi)
  {
    hide IsAllocated, ClearAllocated, SetAllocated, Word;
    Front(m, d, cur, hi);
    Front(m, d[1..], d[1].addr, hi);
    assert d[1..][1..] == d[2..];
    HoldsFrame(m, r, d[2..], d[1].End(), hi, hi);
    Prepend(r, Fuse(d[0], d[1]), d[2..], hi);
  }

  lemma TagStands(m: seq<byte>, r: seq<byte>, c: Chain, cur: nat, hi: nat, used: bool)
    requires Stands(m, c, cur, hi)
    requires HeaderWritten(m, r, cur, c[0].size, NextWord(c[0].(used := used), hi))
    ensures Stands(r, [c[0].(used := used)] + c[1..], cur, hi)
  {
    Front(m, c, cur, hi);
    HoldsFrame(m, r, c[1..], c[0].End(), hi, hi);
    Prepend(r, c[0].(used := used), c[1..], hi);
  }

  lemma SplitStands(m0: seq<byte>, m1: seq<byte>, r: seq<byte>, c: Chain, first: Block, second: Block, hi: nat)
    requires c != [] && !c[0].used && !first.used && !second.used && Stands(m0, c, first.addr, hi)
    requires first.End() == second.addr && second.End() == c[0].End() && second.addr % 2 == 0
    requires HeaderWritten(m0, m1, second.addr, second.size, NextWord(c[0], hi))
    requires HeaderWritten(m1, r, first.addr, first.size, second.addr)
    ensures Stands(r, [first] + ([second] + c[1..]), first.addr, hi)
  {
    hide IsAllocated, ClearAllocated, SetAllocated;
    Front(m0, c, first.addr, hi);
    SplitTail(m0, m1, c, second, hi);
    var tail := [second] + c[1..];
    HoldsFrame(m1, r, tail, second.addr, hi, hi);
    Prepend(r, first, tail, hi);
  }

  lemma SplitTail(m: seq<byte>, r: seq<byte>, c: Chain, second: Block, hi: nat)
    requires c != [] && second.End() == c[0].End() && c[0].addr < second.addr && second.addr % 2 == 0
    requires c[0].End() <= hi <= |m| && Tiles(c[1..], c[0].End(), hi) && Holds(m, c[1..], hi)
    requires HeaderWritten(m, r, second.addr, second.size, NextWord(c[0], hi)) && !c[0].used && !second.used
    ensures Tiles([second] + c[1..], second.addr, hi) && Holds(r, [second] + c[1..], hi)
  {
    var tail := [second] + c[1..];
    assert tail[1..] == c[1..];
    HoldsFrame(m, r, c[1..], c[0].End(), hi, hi);
    assert HasHeader(r, second, hi);
  }

  // ---------------------------------------------------------------- the search

  /** The search has passed `done` and stands, at address `at`, before `rest`. */
  ghost predicate Cut(m: seq<byte>, done: Chain, rest: Chain, lo: nat, at: nat, hi: nat) {
    && 0 < lo <= at && hi <= |m| <= WORD_LIMIT
    && Tiles(done, lo, at) && Tiles(rest, at, hi)
    && Holds(m, done, hi) && Holds(m, rest, hi)
  }

  ghost predicate Covers(c: Chain, done: Chain, rest: Chain) {
    forall b :: b in c && b.used ==> b in done || b in rest
  }

  /** What is left to do for `n` bytes in `c` is to search `rest`. */
  ghost predicate Searching(c: Chain, n: nat, done: Chain, rest: Chain) {
    && Alloc(c, n).chain == done + Alloc(rest, n).chain
    && Alloc(c, n).ptr == Alloc(rest, n).ptr
    && Covers(c, done, rest)
  }

  lemma Begin(m: seq<byte>, c: Chain, n: nat, lo: nat, hi: nat)
    requires Sound(m, c, lo, hi)
    ensures Cut(m, [], c, lo, lo, hi) && Searching(c, n, [], c)
    ensures c != [] && Preserves(m, m, c, lo, hi) && 0 < lo && lo + HEADER <= hi
  {
  }

  lemma Exhausted(m: seq<byte>, c: Chain, n: nat, done: Chain, lo: nat, at: nat, hi: nat)
    requires Cut(m, done, [], lo, at, hi) && Searching(c, n, done, []) && lo + HEADER <= hi
    ensures Alloc(c, n) == Outcome(done, NULL) && Sound(m, done, lo, hi)
  {
    assert done + [] == done;
  }

  /** Writing to the block at `at`, to its header if it is live, disturbs no live payload. */
  lemma WritesAt(m: seq<byte>, r: seq<byte>, c: Chain, done: Chain, rest: Chain, lo: nat, at: nat, hi: nat, to: nat)
    requires Cut(m, done, rest, lo, at, hi) && Covers(c, done, rest) && rest != []
    requires |m| == |r| && SameBytes(m, r, 0, at) && SameBytes(m, r, to, |m|)
    requires to <= if rest[0].used then at + HEADER else rest[0].End()
    ensures Preserves(m, r, c, lo, hi)
  {
    TilesBounds(done, lo, at);
    TilesBounds(rest, at, hi);
    TilesBounds(rest[1..], rest[0].End(), hi);
    forall b | b in c && b.used ensures SameBytes(m, r, b.Payload(), b.size) {
      assert b in rest ==> b == rest[0] || b in rest[1..];
    }
  }

  lemma AbsorbKeeps(m0: seq<byte>, m: seq<byte>, r: seq<byte>, c: Chain, n: nat, done: Chain, rest: Chain,
      d: Chain, lo: nat, at: nat, hi: nat)
    requires Preserves(m0, m, c, lo, hi)
    requires Cut(m, done, rest, lo, at, hi) && Searching(c, n, done, rest) && rest != []
    requires |m| == |r| && SameBytes(m, r, 0, at) && SameBytes(m, r, at + HEADER, |m|)
    requires d == Absorb(rest) && Stands(r, d, at, hi)
    ensures Cut(r, done, d, lo, at, hi) && Searching(c, n, done, d)
    ensures Preserves(m0, r, c, lo, hi)
    ensures d == Absorb(d)
  {
    Front(r, d, at, hi);
    WritesAt(m, r, c, done, rest, lo, at, hi, at + HEADER);
    PreservesChain(m0, m, r, c, lo, hi);
    HoldsFrame(m, r, done, lo, at, hi);
    AbsorbTiles(rest, at, hi);
    AbsorbTwice(rest);
  }

  /** One round of the outer loop up to the test, and past it if the block does not fit. */
  lemma Visited(m0: seq<byte>, m: seq<byte>, r: seq<byte>, c: Chain, n: nat, done: Chain, rest: Chain, d: Chain,
      lo: nat, at: nat, hi: nat)
    requires Preserves(m0, m, c, lo, hi)
    requires Cut(m, done, rest, lo, at, hi) && Searching(c, n, done, rest) && rest != []
    requires |m| == |r| && SameBytes(m, r, 0, at) && SameBytes(m, r, at + HEADER, |m|)
    requires d == Absorb(rest) && Stands(r, d, at, hi)
    ensures Cut(r, done, d, lo, at, hi) && Searching(c, n, done, d)
    ensures Preserves(m0, r, c, lo, hi)
    ensures d == Absorb(d) && at + HEADER <= |r| && d[0].End() <= hi
    ensures Word(r, at) == d[0].size
    ensures ClearAllocated(Word(r, at + WORD)) == if |d| >= 2 then d[0].End() else NULL
    ensures IsAllocated(Word(r, at + WORD)) <==> d[0].used
    ensures !(!d[0].used && d[0].size >= n) ==>
      Cut(r, done + [d[0]], d[1..], lo, d[0].End(), hi) && Searching(c, n, done + [d[0]], d[1..])
  {
    AbsorbKeeps(m0, m, r, c, n, done, rest, d, lo, at, hi);
    Front(r, d, at, hi);
    if !(!d[0].used && d[0].size >= n) {
      Advance(r, c, n, done, d, lo, at, hi);
    }
  }

  lemma {:induction false} AbsorbTwice(c: Chain)
    requires c != []
    ensures Absorb(Absorb(c)) == Absorb(c)
  {
  }

  lemma Advance(m: seq<byte>, c: Chain, n: nat, done: Chain, d: Chain, lo: nat, at: nat, hi: nat)
    requires Cut(m, done, d, lo, at, hi) && Searching(c, n, done, d)
    requires d != [] && d == Absorb(d) && !(!d[0].used && d[0].size >= n)
    ensures Cut(m, done + [d[0]], d[1..], lo, d[0].End(), hi) && Searching(c, n, done + [d[0]], d[1..])
  {
    AdvanceCut(m, done, d, lo, at, hi);
    AdvanceSearch(c, n, done, d);
  }

  lemma AdvanceSearch(c: Chain, n: nat, done: Chain, d: Chain)
    requires Searching(c, n, done, d)
    requires d != [] && d == Absorb(d) && !(!d[0].used && d[0].size >= n)
    ensures Searching(c, n, done + [d[0]], d[1..])
  {
    hide Tiles, Carve;
    var a := Alloc(d[1..], n).chain;
    assert done + ([d[0]] + a) == (done + [d[0]]) + a;
    forall b | b in c && b.used ensures b in done + [d[0]] || b in d[1..] {
      assert b in d ==> b == d[0] || b in d[1..];
    }
  }

  lemma AdvanceCut(m: seq<byte>, done: Chain, d: Chain, lo: nat, at: nat, hi: nat)
    requires Cut(m, done, d, lo, at, hi) && d != []
    ensures Cut(m, done + [d[0]], d[1..], lo, d[0].End(), hi)
  {
    assert [d[0]][1..] == [];
    TilesConcat(done, [d[0]], lo, at, d[0].End());
    HoldsConcat(m, done, [d[0]], hi);
  }

  lemma TakeKeeps(m0: seq<byte>, m: seq<byte>, r: seq<byte>, c: Chain, n: nat, done: Chain, d: Chain, lo: nat,
      at: nat, hi: nat)
    requires Preserves(m0, m, c, lo, hi) && lo + HEADER <= hi
    requires Cut(m, done, d, lo, at, hi) && Searching(c, n, done, d)
    requires d != [] && d == Absorb(d) && !d[0].used && d[0].size >= n
    requires |m| == |r| && SameBytes(m, r, 0, at) && SameBytes(m, r, d[0].End(), |m|)
    requires Stands(r, Carve(d[0], n) + d[1..], at, hi)
    ensures Alloc(c, n) == Outcome(done + (Carve(d[0], n) + d[1..]), at + HEADER)
    ensures Sound(r, Alloc(c, n).chain, lo, hi)
    ensures Preserves(m0, r, c, lo, hi)
  {
    WritesAt(m, r, c, done, d, lo, at, hi, d[0].End());
    PreservesChain(m0, m, r, c, lo, hi);
    HoldsFrame(m, r, done, lo, at, hi);
    TilesConcat(done, Carve(d[0], n) + d[1..], lo, at, hi);
    HoldsConcat(r, done, Carve(d[0], n) + d[1..], hi);
  }

  lemma PreservesChain(m: seq<byte>, r: seq<byte>, s: seq<byte>, c: Chain, lo: nat, hi: nat)
    requires Preserves(m, r, c, lo, hi) && Preserves(r, s, c, lo, hi)
    ensures Preserves(m, s, c, lo, hi)
  {
    forall b | b in c && b.used ensures SameBytes(m, s, b.Payload(), b.size) {
      assert SameBytes(r, s, b.Payload(), b.size);
    }
  }

  lemma MultipleOfEven(x: nat, g: nat)
    requires g > 0 && g % 2 == 0 && x % g == 0
    ensures x % 2 == 0
  {
    var q, h := x / g, g / 2;
    assert x == q * (2 * h) == 2 * (q * h);
  }
}
