/** The fixed-size pool of src/mem_pool.c.  Freed blocks are chained through their first word; the
    chain ends at the frontier, the first block that was never handed out, whose first word is 1. */
module MemPool {
  import opened Memory
  import Bits

  /** The shape of a pool: where it starts, the (clamped) object size, the number of objects. */
  datatype Shape = Shape(start: nat, size: nat, count: nat) {
    ghost predicate Valid(limit: nat) {
      && start > 0 && size >= WORD && count > 0
      && Block(count) <= limit && Block(count) < WORD_LIMIT
    }

    /** The address of block `k`; block `count` is the end of the pool. */
    function Block(k: nat): nat { start + k * size }

    function End(): nat { Block(count) }
  }

  lemma BlocksApart(g: Shape, j: nat, k: nat)
    ensures g.Block(j + 1) == g.Block(j) + g.size
    ensures j < k ==> g.Block(j) + g.size <= g.Block(k)
  {
    assert (j + 1) * g.size == j * g.size + g.size;
    if j < k {
      var d, z: nat := k - j - 1, g.size;
      assert k * z == (j + 1 + d) * z == (j + 1) * z + d * z;
    }
  }

  lemma SameBlock(g: Shape, j: nat, k: nat)
    requires g.size > 0 && g.Block(j) == g.Block(k)
    ensures j == k
  {
    BlocksApart(g, j, k);
    BlocksApart(g, k, j);
  }

  // ---------------------------------------------------------------- the simple allocator

  /** Freed blocks, latest first, over an ascending counter of blocks never used. */
  datatype Stack = Stack(freed: seq<nat>, bump: nat)

  ghost predicate WellFormed(a: Stack, count: nat) {
    && a.bump <= count
    && (forall i {:trigger a.freed[i]} :: 0 <= i < |a.freed| ==> a.freed[i] < a.bump)
    && forall i, j :: 0 <= i < j < |a.freed| ==> a.freed[i] != a.freed[j]
  }

  ghost predicate IsLive(a: Stack, k: nat) { k < a.bump && k !in a.freed }

  ghost function LiveBlocks(a: Stack): set<nat> {
    set k | k in UpTo(a.bump) && k !in a.freed
  }

  ghost function UpTo(n: nat): (s: set<nat>)
    ensures |s| == n && forall k: nat :: k in s <==> k < n
  {
    if n == 0 then {} else UpTo(n - 1) + {n - 1}
  }

  /** The block that the next allocation would return; `count` if there is none. */
  function Top(a: Stack): nat {
    if a.freed == [] then a.bump else a.freed[0]
  }

  function StackAlloc(a: Stack, count: nat): Stack {
    if a.freed != [] then Stack(a.freed[1..], a.bump)
    else if a.bump < count then Stack([], a.bump + 1)
    else a
  }

  function StackFree(a: Stack, k: nat): Stack {
    Stack([k] + a.freed, a.bump)
  }

  /** The latest freed block becomes live. */
  lemma Unfreed(a: Stack, count: nat)
    requires WellFormed(a, count) && a.freed != []
    ensures WellFormed(Stack(a.freed[1..], a.bump), count)
    ensures a.freed[0] !in LiveBlocks(a)
    ensures LiveBlocks(Stack(a.freed[1..], a.bump)) == LiveBlocks(a) + {a.freed[0]}
  {
    var rest := a.freed[1..];
    assert forall i {:trigger rest[i]} :: 0 <= i < |rest| ==> rest[i] == a.freed[i + 1];
    assert a.freed == [a.freed[0]] + rest;
    assert a.freed[0] !in rest;
  }

  /** Freed, live and never used blocks add up to the pool. */
  lemma {:induction false} Conservation(a: Stack, count: nat)
    requires WellFormed(a, count)
    ensures |a.freed| + |LiveBlocks(a)| + (count - a.bump) == count
    decreases a.freed
  {
    if a.freed == [] {
      assert LiveBlocks(a) == UpTo(a.bump);
    } else {
      Unfreed(a, count);
      hide WellFormed, LiveBlocks;
      Conservation(Stack(a.freed[1..], a.bump), count);
    }
  }

  lemma AllocWellFormed(a: Stack, count: nat)
    requires WellFormed(a, count)
    ensures WellFormed(StackAlloc(a, count), count)
  {
    if a.freed != [] {
      var b := a.freed[1..];
      assert forall i :: 0 <= i < |b| ==> b[i] == a.freed[i + 1];
    }
  }

  lemma FreeWellFormed(a: Stack, count: nat, k: nat)
    requires WellFormed(a, count) && IsLive(a, k)
    ensures WellFormed(StackFree(a, k), count)
  {
    var b := [k] + a.freed;
    assert forall i :: 0 < i < |b| ==> b[i] == a.freed[i - 1];
  }

  lemma TopBound(a: Stack, count: nat)
    requires WellFormed(a, count)
    ensures Top(a) <= count && Top(StackAlloc(a, count)) <= count
    ensures Top(a) == count ==> StackAlloc(a, count) == a
  {
    if |a.freed| >= 2 {
      assert a.freed[1] < a.bump;
    }
  }

  /** The simple allocator fails exactly when every block is live; otherwise the block it returns
      joins the live ones, and was not among them. */
  lemma AllocServesFree(a: Stack, count: nat)
    requires WellFormed(a, count)
    ensures Top(a) == count <==> |LiveBlocks(a)| == count
    ensures Top(a) < count ==>
      !IsLive(a, Top(a)) && LiveBlocks(StackAlloc(a, count)) == LiveBlocks(a) + {Top(a)}
    ensures Top(a) == count ==> StackAlloc(a, count) == a
  {
    Conservation(a, count);
    TopBound(a, count);
    if Top(a) < count {
      AllocTakesTop(a, count);
    }
  }

  lemma AllocTakesTop(a: Stack, count: nat)
    requires WellFormed(a, count) && Top(a) < count
    ensures !IsLive(a, Top(a)) && LiveBlocks(StackAlloc(a, count)) == LiveBlocks(a) + {Top(a)}
  {
    var b := StackAlloc(a, count);
    if a.freed != [] {
      assert a.freed == [a.freed[0]] + b.freed;
      assert a.freed[0] !in b.freed;
    }
    forall k ensures k in LiveBlocks(b) <==> k in LiveBlocks(a) || k == Top(a) {
    }
  }

  lemma FreeReturnsBlock(a: Stack, count: nat, k: nat)
    requires WellFormed(a, count) && IsLive(a, k)
    ensures WellFormed(StackFree(a, k), count)
    ensures LiveBlocks(StackFree(a, k)) == LiveBlocks(a) - {k}
  {
    FreeWellFormed(a, count, k);
  }

  /** The block freed last is handed out first, and the pool is as it was before the free. */
  lemma LastFreedFirst(a: Stack, count: nat, k: nat)
    ensures Top(StackFree(a, k)) == k && StackAlloc(StackFree(a, k), count) == a
  {
    assert ([k] + a.freed)[1..] == a.freed;
  }

  // ---------------------------------------------------------------- the pool in memory

  /** The memory and the field `free_block`. */
  datatype State = State(mem: seq<byte>, free: nat)

  predicate NeverUsed(w: nat) { Bits.And(w, 1) != 0 }

  lemma NeverUsedIsOdd(w: nat)
    ensures NeverUsed(w) <==> w % 2 == 1
  {
    Bits.TestBit0(w);
  }

  predicate Even(g: Shape) { g.start % 2 == 0 && g.size % 2 == 0 }

  /** The word of a freed block `k` leads to `link`, the way `mem_pool_alloc` reads it. */
  ghost predicate Leads(g: Shape, w: nat, k: nat, link: nat) {
    if w % 2 == 1 then link == k + 1 && !Even(g) else w == g.Block(link)
  }

  /** The block behind entry `i` of the freed chain. */
  function Link(a: Stack, i: nat): nat
    requires i < |a.freed|
  {
    if i + 1 < |a.freed| then a.freed[i + 1] else a.bump
  }

  /** The memory represents the simple allocator. */
  ghost predicate Represents(g: Shape, s: State, a: Stack) {
    && g.Valid(|s.mem|)
    && WellFormed(a, g.count)
    && s.free == g.Block(Top(a))
    && (forall i {:trigger a.freed[i]} :: 0 <= i < |a.freed| ==>
          g.Block(a.freed[i]) + WORD <= |s.mem| && Leads(g, Word(s.mem, g.Block(a.freed[i])), a.freed[i], Link(a, i)))
    && (a.bump < g.count ==> g.Block(a.bump) + WORD <= |s.mem| && Word(s.mem, g.Block(a.bump)) == 1)
  }

  /** Bit 0 can tell a link from the mark 1: the pool and its objects are at even addresses.  With
      one object, or two of which the first is at an even address, it does not matter. */
  predicate Unambiguous(g: Shape) {
    Even(g) || g.count <= 1 || (g.count == 2 && g.start % 2 == 0)
  }

  datatype Op =
    | AllocOp
    | FreeOp(k: nat)
    | WriteOp(k: nat, at: nat, data: seq<byte>)

  /** The accesses of `mem_pool_alloc` stay inside the memory. */
  ghost predicate AllocReads(g: Shape, s: State) {
    s.free != g.End() ==>
      && s.free + WORD <= |s.mem|
      && (NeverUsed(Word(s.mem, s.free)) && s.free + g.size != g.End() ==> s.free + g.size + WORD <= |s.mem|)
  }

  /** The state that `mem_pool_alloc` leaves. */
  function AfterAlloc(g: Shape, s: State): State
    requires AllocReads(g, s)
  {
    if s.free == g.End() then s
    else if NeverUsed(Word(s.mem, s.free)) then
      var next := s.free + g.size;
      State(if next == g.End() then s.mem else PutWord(s.mem, next, 1), next)
    else State(s.mem, Word(s.mem, s.free))
  }

  /** One call of the code, or one write by the client to a block it holds. */
  ghost predicate Step(g: Shape, s: State, op: Op, r: nat, t: State) {
    match op
    case AllocOp =>
      AllocReads(g, s) && r == (if s.free == g.End() then NULL else s.free) && t == AfterAlloc(g, s)
    case FreeOp(k) =>
      && r == 0
      && g.Block(k) + WORD <= |s.mem|
      && t == State(PutWord(s.mem, g.Block(k), s.free), g.Block(k))
    case WriteOp(k, at, data) =>
      && r == 0
      && g.Block(k) <= at && at + |data| <= g.Block(k) + g.size && at + |data| <= |s.mem|
      && t == State(Splice(s.mem, at, data), s.free)
  }

  /** The same operation on the simple allocator. */
  function StackStep(g: Shape, a: Stack, op: Op): Stack {
    match op
    case AllocOp => StackAlloc(a, g.count)
    case FreeOp(k) => StackFree(a, k)
    case WriteOp(_, _, _) => a
  }

  function StackResult(g: Shape, a: Stack, op: Op): nat {
    if op.AllocOp? && Top(a) < g.count then g.Block(Top(a)) else NULL
  }

  /** Clients free and write only blocks they hold. */
  ghost predicate Legal(a: Stack, op: Op) {
    !op.AllocOp? ==> IsLive(a, op.k)
  }

  /** What is not live keeps its words when only live blocks are written. */
  lemma RepresentsFrame(g: Shape, s: State, t: State, a: Stack)
    requires Represents(g, s, a) && |s.mem| == |t.mem| && s.free == t.free
    requires forall k :: 0 <= k < g.count && !IsLive(a, k) ==> SameBytes(s.mem, t.mem, g.Block(k), WORD)
    ensures Represents(g, t, a)
  {
    hide Shape.Block, NeverUsed;
    forall i | 0 <= i < |a.freed| ensures Word(t.mem, g.Block(a.freed[i])) == Word(s.mem, g.Block(a.freed[i])) {
      SameWord(s.mem, t.mem, g.Block(a.freed[i]));
    }
    if a.bump < g.count {
      SameWord(s.mem, t.mem, g.Block(a.bump));
    }
  }

  lemma BlockInside(g: Shape, k: nat, limit: nat)
    requires g.Valid(limit) && k < g.count
    ensures 0 < g.Block(k) && g.Block(k) + g.size <= g.End() <= limit
  {
    BlocksApart(g, k, g.count);
  }

  lemma LiveBlockExists(g: Shape, s: State, a: Stack, k: nat)
    requires Represents(g, s, a) && IsLive(a, k)
    ensures k < g.count
  {
  }

  lemma WriteRefines(g: Shape, s: State, a: Stack, k: nat, at: nat, data: seq<byte>, t: State)
    requires Represents(g, s, a) && IsLive(a, k) && Step(g, s, WriteOp(k, at, data), 0, t)
    ensures Represents(g, t, a)
  {
    hide Shape.Block, NeverUsed;
    forall j | 0 <= j < g.count && !IsLive(a, j) ensures SameBytes(s.mem, t.mem, g.Block(j), WORD) {
      BlocksApart(g, j, k);
      BlocksApart(g, k, j);
    }
    RepresentsFrame(g, s, t, a);
  }

  // ---------------------------------------------------------------- one step refines

  lemma BlockParity(g: Shape, k: nat)
    requires g.size % 2 == 0
    ensures g.Block(k) % 2 == g.start % 2
  {
    var h := g.size / 2;
    assert k * g.size == 2 * (k * h);
  }

  /** If the link stored in block `k` looks like a mark, it leads to the next block anyway. */
  lemma StoredLink(g: Shape, a: Stack, k: nat)
    requires Unambiguous(g) && WellFormed(a, g.count) && IsLive(a, k)
    ensures g.Block(Top(a)) % 2 == 1 ==> Top(a) == k + 1 && !Even(g)
  {
    if Even(g) {
      BlockParity(g, Top(a));
    } else if g.count == 2 && g.start % 2 == 0 {
      assert g.Block(0) == g.start && g.Block(2) == g.start + 2 * g.size;
      assert a.freed != [] ==> a.freed[0] in a.freed;
    } else {
      assert a.freed != [] ==> a.freed[0] in a.freed;
    }
  }

  lemma FreeRefines(g: Shape, s: State, a: Stack, k: nat, t: State)
    requires Represents(g, s, a) && Unambiguous(g) && IsLive(a, k) && Step(g, s, FreeOp(k), 0, t)
    ensures Represents(g, t, StackFree(a, k))
  {
    hide Shape.Block, NeverUsed;
    var b := StackFree(a, k);
    var at := g.Block(k);
    FreeWellFormed(a, g.count, k);
    StoredLink(g, a, k);
    BlockInside(g, k, |s.mem|);
    TopBound(a, g.count);
    BlockBound(g, Top(a));
    WordAfterPut(s.mem, at, s.free);
    forall i | 0 <= i < |b.freed|
      ensures g.Block(b.freed[i]) + WORD <= |t.mem|
        && Leads(g, Word(t.mem, g.Block(b.freed[i])), b.freed[i], Link(b, i))
    {
      if i > 0 {
        assert a.freed[i - 1] == b.freed[i] && Link(b, i) == Link(a, i - 1);
        KeepsWord(g, s.mem, at, s.free, k, a.freed[i - 1]);
      }
    }
    if a.bump < g.count {
      KeepsWord(g, s.mem, at, s.free, k, a.bump);
    }
  }

  lemma BlockBound(g: Shape, k: nat)
    requires g.start > 0 && g.size > 0 && k <= g.count
    ensures 0 < g.Block(k) <= g.End()
    ensures k < g.count <==> g.Block(k) != g.End()
    ensures k < g.count ==> g.Block(k) + g.size <= g.End()
  {
    BlocksApart(g, k, g.count);
  }

  /** Writing a word to block `k` leaves the words of the other blocks alone. */
  lemma KeepsWord(g: Shape, m: seq<byte>, at: nat, w: nat, k: nat, j: nat)
    requires g.size >= WORD && at == g.Block(k) && j != k
    requires at + WORD <= |m| && g.Block(j) + WORD <= |m|
    ensures Word(PutWord(m, at, w), g.Block(j)) == Word(m, g.Block(j))
  {
    hide Shape.Block, NeverUsed;
    BlocksApart(g, j, k);
    BlocksApart(g, k, j);
    WordAfterSplice(m, at, Encode(w, WORD), g.Block(j));
  }

  /** The word of the block to be handed out tells a link from the mark. */
  lemma TopWord(g: Shape, s: State, a: Stack)
    requires Represents(g, s, a)
    ensures Top(a) <= g.count && s.free == g.Block(Top(a)) && (Top(a) < g.count <==> s.free != g.End())
    ensures Top(a) == g.count ==> StackAlloc(a, g.count) == a
    ensures Top(a) < g.count ==>
      && s.free + WORD <= |s.mem|
      && var next := g.Block(Top(StackAlloc(a, g.count)));
         if NeverUsed(Word(s.mem, s.free)) then
           next == s.free + g.size && (next != g.End() ==> next + WORD <= |s.mem|)
             && (next == g.End() ==> a.freed != [] || a.bump + 1 == g.count)
         else
           next == Word(s.mem, s.free) && a.freed != []
  {
    hide Shape.Block, NeverUsed, Leads;
    TopBound(a, g.count);
    BlockBound(g, Top(a));
    if Top(a) < g.count {
      BlockBound(g, Top(StackAlloc(a, g.count)));
      BlocksApart(g, Top(a), 0);
      TopReads(g, s, a);
    }
  }

  lemma TopReads(g: Shape, s: State, a: Stack)
    requires Represents(g, s, a) && Top(a) < g.count && s.free + WORD <= |s.mem|
    ensures NeverUsed(Word(s.mem, s.free)) ==> Top(StackAlloc(a, g.count)) == Top(a) + 1
    ensures !NeverUsed(Word(s.mem, s.free)) ==>
      a.freed != [] && Word(s.mem, s.free) == g.Block(Top(StackAlloc(a, g.count)))
  {
    hide Shape.Block, NeverUsed;
    NeverUsedIsOdd(Word(s.mem, s.free));
    if a.freed != [] {
      assert Leads(g, Word(s.mem, g.Block(a.freed[0])), a.freed[0], Link(a, 0));
    }
  }

  lemma AllocRefines(g: Shape, s: State, a: Stack, r: nat, t: State)
    requires Represents(g, s, a) && Unambiguous(g) && Step(g, s, AllocOp, r, t)
    ensures Represents(g, t, StackAlloc(a, g.count)) && r == StackResult(g, a, AllocOp)
  {
    hide Shape.Block, NeverUsed, Represents, StackAlloc, PutWord;
    TopWord(g, s, a);
    if Top(a) < g.count {
      if NeverUsed(Word(s.mem, s.free)) && t.free != g.End() {
        MarkNext(g, s, a, t);
      } else {
        Unlink(g, s, a, t);
      }
    }
  }

  /** Taking the block at the front of the chain without writing. */
  lemma Unlink(g: Shape, s: State, a: Stack, t: State)
    requires Represents(g, s, a) && Top(a) < g.count
    requires t == State(s.mem, g.Block(Top(StackAlloc(a, g.count))))
    requires a.freed != [] || a.bump + 1 == g.count
    ensures Represents(g, t, StackAlloc(a, g.count))
  {
    hide Shape.Block, NeverUsed;
    var b := StackAlloc(a, g.count);
    AllocWellFormed(a, g.count);
    forall i | 0 <= i < |b.freed|
      ensures g.Block(b.freed[i]) + WORD <= |s.mem|
        && Leads(g, Word(s.mem, g.Block(b.freed[i])), b.freed[i], Link(b, i))
    {
      assert b.freed[i] == a.freed[i + 1] && Link(b, i) == Link(a, i + 1);
    }
  }

  /** Marking the block behind the one handed out does no harm: it is the new frontier, or it is
      freed and its link leads to the block behind it. */
  lemma MarkNext(g: Shape, s: State, a: Stack, t: State)
    requires Represents(g, s, a) && Unambiguous(g) && Top(a) < g.count
    requires s.free + WORD <= |s.mem| && NeverUsed(Word(s.mem, s.free))
    requires t.free == g.Block(Top(StackAlloc(a, g.count))) == s.free + g.size != g.End()
    requires t.free + WORD <= |s.mem| && t.mem == PutWord(s.mem, t.free, 1)
    ensures Represents(g, t, StackAlloc(a, g.count))
  {
    hide Shape.Block, NeverUsed;
    var b := StackAlloc(a, g.count);
    var n := Top(b);
    AllocWellFormed(a, g.count);
    WordAfterPut(s.mem, t.free, 1);
    forall i | 0 <= i < |b.freed|
      ensures g.Block(b.freed[i]) + WORD <= |t.mem|
        && Leads(g, Word(t.mem, g.Block(b.freed[i])), b.freed[i], Link(b, i))
    {
      assert b.freed[i] == a.freed[i + 1] && Link(b, i) == Link(a, i + 1);
      if i == 0 {
        MarkedLink(g, s, a);
      } else {
        KeepsWord(g, s.mem, t.free, 1, n, b.freed[i]);
      }
    }
  }

  /** A mark on a freed block is only ever read in pools of two, where it is right. */
  lemma MarkedLink(g: Shape, s: State, a: Stack)
    requires Represents(g, s, a) && Unambiguous(g) && |a.freed| >= 2
    requires s.free + WORD <= |s.mem| && NeverUsed(Word(s.mem, s.free))
    ensures Link(a, 1) == a.freed[1] + 1 && !Even(g)
  {
    hide Shape.Block, NeverUsed;
    NeverUsedIsOdd(Word(s.mem, s.free));
    assert Leads(g, Word(s.mem, g.Block(a.freed[0])), a.freed[0], Link(a, 0));
    assert Leads(g, Word(s.mem, g.Block(a.freed[1])), a.freed[1], Link(a, 1));
  }

  // ---------------------------------------------------------------- all runs

  datatype Trace = Trace(states: seq<State>, ops: seq<Op>, results: seq<nat>)

  /** The simple allocator after the first `k` operations. */
  function StackAt(g: Shape, ops: seq<Op>, k: nat): Stack
    requires k <= |ops|
  {
    if k == 0 then Stack([], 0) else StackStep(g, StackAt(g, ops, k - 1), ops[k - 1])
  }

  /** A run from where `init_mem_pool` leaves the pool. */
  ghost predicate Run(g: Shape, t: Trace) {
    && |t.states| == |t.ops| + 1 == |t.results| + 1
    && Represents(g, t.states[0], Stack([], 0))
    && forall k {:trigger t.ops[k]} :: 0 <= k < |t.ops| ==>
         Legal(StackAt(g, t.ops, k), t.ops[k]) && Step(g, t.states[k], t.ops[k], t.results[k], t.states[k + 1])
  }

  /** Call `k` returns what the simple allocator returns. */
  ghost predicate Agrees(g: Shape, t: Trace, k: nat)
    requires k < |t.ops| == |t.results|
  {
    t.results[k] == StackResult(g, StackAt(g, t.ops, k), t.ops[k])
  }

  lemma StepRefines(g: Shape, s: State, a: Stack, op: Op, r: nat, t: State)
    requires Represents(g, s, a) && Unambiguous(g) && Legal(a, op) && Step(g, s, op, r, t)
    ensures Represents(g, t, StackStep(g, a, op)) && r == StackResult(g, a, op)
  {
    match op
    case AllocOp => AllocRefines(g, s, a, r, t);
    case FreeOp(k) => FreeRefines(g, s, a, k, t);
    case WriteOp(k, at, data) => WriteRefines(g, s, a, k, at, data, t);
  }

  lemma {:induction false} RunRepresents(g: Shape, t: Trace, k: nat)
    requires Run(g, t) && Unambiguous(g) && k <= |t.ops|
    ensures Represents(g, t.states[k], StackAt(g, t.ops, k))
    ensures k > 0 ==> Agrees(g, t, k - 1)
  {
    hide Represents, Step, Legal;
    if k > 0 {
      RunRepresents(g, t, k - 1);
      var op := t.ops[k - 1];
      StepRefines(g, t.states[k - 1], StackAt(g, t.ops, k - 1), op, t.results[k - 1], t.states[k]);
    }
  }

  /** In a pool whose bit 0 is unambiguous every run of allocations, frees of held blocks and writes
      by clients returns the addresses, and the failures, of the simple allocator. */
  lemma PoolRefinesStack(g: Shape, t: Trace)
    requires Run(g, t) && Unambiguous(g)
    ensures forall k :: 0 <= k < |t.ops| ==> Agrees(g, t, k)
  {
    forall k | 0 <= k < |t.ops| ensures Agrees(g, t, k) {
      RunRepresents(g, t, k + 1);
    }
  }

  // ---------------------------------------------------------------- ambiguous pools

  ghost function Last(t: Trace): State
    requires t.states != []
  {
    t.states[|t.states| - 1]
  }

  ghost function StackOf(g: Shape, t: Trace): Stack { StackAt(g, t.ops, |t.ops|) }

  lemma {:induction false} StackPrefix(g: Shape, ops: seq<Op>, op: Op, k: nat)
    requires k <= |ops|
    ensures StackAt(g, ops + [op], k) == StackAt(g, ops, k)
  {
    if k > 0 {
      StackPrefix(g, ops, op, k - 1);
    }
  }

  lemma StackSame(g: Shape, ops: seq<Op>, op: Op)
    ensures forall k: nat {:trigger StackAt(g, ops + [op], k)} :: k <= |ops| ==>
      StackAt(g, ops + [op], k) == StackAt(g, ops, k)
    ensures StackAt(g, ops + [op], |ops| + 1) == StackStep(g, StackAt(g, ops, |ops|), op)
  {
    forall k: nat | k <= |ops| ensures StackAt(g, ops + [op], k) == StackAt(g, ops, k) {
      StackPrefix(g, ops, op, k);
    }
  }

  lemma Append(g: Shape, t: Trace, op: Op, r: nat, s: State) returns (u: Trace)
    requires Run(g, t) && Legal(StackOf(g, t), op) && Step(g, Last(t), op, r, s)
    ensures Run(g, u) && Last(u) == s
    ensures u == Trace(t.states + [s], t.ops + [op], t.results + [r])
    ensures StackOf(g, u) == StackStep(g, StackOf(g, t), op)
    ensures StackAt(g, u.ops, |t.ops|) == StackOf(g, t)
  {
    hide Step, Legal, Represents, StackAt, StackStep;
    u := Trace(t.states + [s], t.ops + [op], t.results + [r]);
    StackSame(g, t.ops, op);
    forall k {:trigger u.ops[k]} | 0 <= k < |u.ops|
      ensures Legal(StackAt(g, u.ops, k), u.ops[k]) && Step(g, u.states[k], u.ops[k], u.results[k], u.states[k + 1])
    {
      if k < |t.ops| {
        assert u.ops[k] == t.ops[k] && u.results[k] == t.results[k];
        assert u.states[k] == t.states[k] && u.states[k + 1] == t.states[k + 1];
      }
    }
  }

  /** The word of block `k`. */
  ghost function At(g: Shape, s: State, k: nat): nat
    requires g.Valid(|s.mem|) && k < g.count
  {
    BlockInside(g, k, |s.mem|);
    Word(s.mem, g.Block(k))
  }

  /** An allocation that reads an odd word in block `j`. */
  lemma AllocOdd(g: Shape, t: Trace, j: nat) returns (u: Trace)
    requires Run(g, t) && j < g.count && Last(t).free == g.Block(j)
    requires g.Valid(|Last(t).mem|) && At(g, Last(t), j) % 2 == 1
    ensures Run(g, u) && StackOf(g, u) == StackAlloc(StackOf(g, t), g.count)
    ensures u.ops == t.ops + [AllocOp] && u.results == t.results + [g.Block(j)]
    ensures StackAt(g, u.ops, |t.ops|) == StackOf(g, t)
    ensures |Last(u).mem| == |Last(t).mem| && Last(u).free == g.Block(j + 1)
    ensures forall k :: 0 <= k < g.count ==> At(g, Last(u), k) == if k == j + 1 then 1 else At(g, Last(t), k)
  {
    hide Shape.Block, NeverUsed, StackAt, PutWord, Word;
    var s := Last(t);
    BlockInside(g, j, |s.mem|);
    BlocksApart(g, j, g.count);
    BlockBound(g, j);
    BlockBound(g, j + 1);
    NeverUsedIsOdd(At(g, s, j));
    if j + 1 < g.count {
      BlockInside(g, j + 1, |s.mem|);
      WordAfterPut(s.mem, g.Block(j + 1), 1);
      forall k | 0 <= k < g.count && k != j + 1
        ensures g.Block(k) + WORD <= |s.mem| && Word(PutWord(s.mem, g.Block(j + 1), 1), g.Block(k)) == At(g, s, k)
      {
        BlockInside(g, k, |s.mem|);
        KeepsWord(g, s.mem, g.Block(j + 1), 1, j + 1, k);
      }
    }
    u := Append(g, t, AllocOp, g.Block(j), AfterAlloc(g, s));
  }

  lemma FreeBlock(g: Shape, t: Trace, j: nat) returns (u: Trace)
    requires Run(g, t) && j < g.count && IsLive(StackOf(g, t), j)
    requires g.Valid(|Last(t).mem|) && Last(t).free < WORD_LIMIT
    ensures Run(g, u) && StackOf(g, u) == StackFree(StackOf(g, t), j)
    ensures u.ops == t.ops + [FreeOp(j)] && u.results == t.results + [0]
    ensures |Last(u).mem| == |Last(t).mem| && Last(u).free == g.Block(j)
    ensures forall k :: 0 <= k < g.count ==> At(g, Last(u), k) == if k == j then Last(t).free else At(g, Last(t), k)
  {
    var s := Last(t);
    BlockInside(g, j, |s.mem|);
    WordAfterPut(s.mem, g.Block(j), s.free);
    forall k | 0 <= k < g.count && k != j
      ensures g.Block(k) + WORD <= |s.mem| && Word(PutWord(s.mem, g.Block(j), s.free), g.Block(k)) == At(g, s, k)
    {
      BlockInside(g, k, |s.mem|);
      KeepsWord(g, s.mem, g.Block(j), s.free, j, k);
    }
    u := Append(g, t, FreeOp(j), 0, State(PutWord(s.mem, g.Block(j), s.free), g.Block(j)));
  }

  /** In every other pool some run goes wrong: a legal client is handed a block that is live, or NULL
      while blocks are free. */
  lemma AmbiguousPoolFails(g: Shape, m: seq<byte>) returns (t: Trace, k: nat)
    requires !Unambiguous(g) && Represents(g, State(m, g.start), Stack([], 0))
    ensures Run(g, t) && k < |t.ops| && !Agrees(g, t, k)
  {
    hide Shape.Block, StackAt, Run, Unambiguous, At, Agrees;
    t := TakeTwo(g, m);
    if g.start % 2 == 1 {
      t, k := OddStartFails(g, t);
    } else {
      t, k := OddSizeFails(g, t);
    }
  }

  /** The first two blocks are live. */
  lemma TakeTwo(g: Shape, m: seq<byte>) returns (t: Trace)
    requires !Unambiguous(g) && Represents(g, State(m, g.start), Stack([], 0))
    ensures Run(g, t) && StackOf(g, t) == Stack([], 2) && g.count >= 2
    ensures g.Valid(|Last(t).mem|) && Last(t).free == g.Block(2) < WORD_LIMIT
    ensures g.start % 2 == 0 ==> g.count >= 3 && !Even(g)
    ensures 2 < g.count ==> At(g, Last(t), 2) == 1
  {
    t := Trace([State(m, g.start)], [], []);
    FirstBlock(g, t);
    assert g.count >= 2 && (g.start % 2 == 0 ==> g.count >= 3 && !Even(g));
    BlockBound(g, 2);
    assert g.End() < WORD_LIMIT;
    hide Shape.Block, Shape.End, StackAt, Run, Represents, At, Shape.Valid, Unambiguous, Even;
    t := TakeFrontier(g, t, 0);
    t := TakeFrontier(g, t, 1);
  }

  /** An allocation at the frontier. */
  lemma TakeFrontier(g: Shape, t: Trace, k: nat) returns (u: Trace)
    requires Run(g, t) && StackOf(g, t) == Stack([], k) && k < g.count
    requires g.Valid(|Last(t).mem|) && Last(t).free == g.Block(k) && At(g, Last(t), k) == 1
    ensures Run(g, u) && StackOf(g, u) == Stack([], k + 1)
    ensures g.Valid(|Last(u).mem|) && Last(u).free == g.Block(k + 1)
    ensures u.results == t.results + [g.Block(k)]
    ensures k + 1 < g.count ==> At(g, Last(u), k + 1) == 1
  {
    hide Shape.Block, StackAt, Run, At, Shape.Valid;
    u := AllocOdd(g, t, k);
  }

  lemma FirstBlock(g: Shape, t: Trace)
    requires Run(g, t) && t.ops == []
    ensures g.Valid(|Last(t).mem|) && Last(t).free == g.Block(0) && At(g, Last(t), 0) == 1
    ensures StackOf(g, t) == Stack([], 0)
  {
  }

  /** Blocks 0 and 1 are freed in that order: the link to block 0 is odd, and block 2 comes next. */
  lemma OddStartFails(g: Shape, t0: Trace) returns (t: Trace, k: nat)
    requires Run(g, t0) && StackOf(g, t0) == Stack([], 2) && g.count >= 2 && g.start % 2 == 1
    requires g.Valid(|Last(t0).mem|) && Last(t0).free == g.Block(2) < WORD_LIMIT
    requires 2 < g.count ==> At(g, Last(t0), 2) == 1
    ensures Run(g, t) && k < |t.ops| && !Agrees(g, t, k)
  {
    assert g.Block(0) == g.start;
    BlockBound(g, 0);
    hide Shape.Block, StackAt, Run, At, Shape.Valid, Agrees;
    t := FreeBlock(g, t0, 0);
    assert StackOf(g, t) == Stack([0], 2);
    t, k := OddStartEnds(g, t);
  }

  lemma OddStartEnds(g: Shape, t0: Trace) returns (t: Trace, k: nat)
    requires Run(g, t0) && StackOf(g, t0) == Stack([0], 2) && g.count >= 2
    requires g.Valid(|Last(t0).mem|) && Last(t0).free == g.Block(0) < WORD_LIMIT && g.Block(0) % 2 == 1
    requires 2 < g.count ==> At(g, Last(t0), 2) == 1
    ensures Run(g, t) && k < |t.ops| && !Agrees(g, t, k)
  {
    hide Shape.Block, StackAt, Run, At, Shape.Valid, Agrees;
    t := FreeBlock(g, t0, 1);
    assert StackOf(g, t) == Stack([1, 0], 2);
    t := AllocOdd(g, t, 1);
    assert StackOf(g, t) == Stack([0], 2);
    k := |t.ops|;
    t := LastAlloc(g, t, 0, 2);
  }

  /** Blocks 1 and 0 are freed in that order: the link to block 1 is odd, so block 1 is taken for the
      frontier, and the live block 2 for the frontier behind it. */
  lemma OddSizeFails(g: Shape, t0: Trace) returns (t: Trace, k: nat)
    requires Run(g, t0) && StackOf(g, t0) == Stack([], 2) && g.count >= 3 && g.start % 2 == 0 && !Even(g)
    requires g.Valid(|Last(t0).mem|) && Last(t0).free == g.Block(2)
    requires At(g, Last(t0), 2) == 1
    ensures Run(g, t) && k < |t.ops| && !Agrees(g, t, k)
  {
    BlockBound(g, 1);
    BlockBound(g, 3);
    OddBlocks(g);
    assert g.Block(1) < WORD_LIMIT;
    hide Shape.Block, Shape.End, StackAt, Run, At, Shape.Valid, Even, Agrees;
    t := TakeFrontier(g, t0, 2);
    assert Last(t).free < WORD_LIMIT;
    t := FreeBlock(g, t, 1);
    assert StackOf(g, t) == Stack([1], 3);
    t, k := OddSizeEnds(g, t);
  }

  lemma OddSizeEnds(g: Shape, t0: Trace) returns (t: Trace, k: nat)
    requires Run(g, t0) && StackOf(g, t0) == Stack([1], 3) && g.count >= 3
    requires g.Valid(|Last(t0).mem|) && Last(t0).free == g.Block(1) < WORD_LIMIT && g.Block(1) % 2 == 1
    ensures Run(g, t) && k < |t.ops| && !Agrees(g, t, k)
  {
    hide Shape.Block, StackAt, Run, At, Shape.Valid, Agrees;
    t := FreeBlock(g, t0, 0);
    assert StackOf(g, t) == Stack([0, 1], 3);
    t := AllocOdd(g, t, 0);
    assert StackOf(g, t) == Stack([1], 3);
    t := AllocOdd(g, t, 1);
    assert StackOf(g, t) == Stack([], 3);
    k := |t.ops|;
    t := LastAlloc(g, t, 3, 2);
  }

  lemma OddBlocks(g: Shape)
    requires g.start % 2 == 0 && !Even(g)
    ensures g.Block(1) % 2 == 1
  {
  }

  /** An allocation that should return block `j` (or fail if `j` is the end) and goes to block `i`. */
  lemma LastAlloc(g: Shape, t: Trace, j: nat, i: nat) returns (u: Trace)
    requires Run(g, t) && g.Valid(|Last(t).mem|) && i <= g.count
    requires Last(t).free == g.Block(i) && (i < g.count ==> At(g, Last(t), i) % 2 == 1)
    requires j == Top(StackOf(g, t)) <= g.count && i != j
    ensures Run(g, u) && |u.ops| == |t.ops| + 1 && !Agrees(g, u, |t.ops|)
  {
    BlockBound(g, i);
    BlockBound(g, j);
    if g.Block(i) == g.Block(j) {
      SameBlock(g, i, j);
    }
    hide Shape.Block, Run, At, StackAlloc, AfterAlloc, Shape.Valid;
    if i < g.count {
      u := AllocOdd(g, t, i);
    } else {
      assert AfterAlloc(g, Last(t)) == Last(t);
      u := Append(g, t, AllocOp, NULL, Last(t));
    }
  }

  ghost predicate AllAgree(g: Shape, t: Trace) {
    |t.ops| == |t.results| && forall k :: 0 <= k < |t.ops| ==> Agrees(g, t, k)
  }

  /** The pool serves every legal client like the simple allocator if and only if bit 0 is
      unambiguous, which can be read off its address, object size and count. */
  lemma PoolCorrectIff(g: Shape, m: seq<byte>)
    requires Represents(g, State(m, g.start), Stack([], 0))
    ensures Unambiguous(g) <==> forall t :: Run(g, t) ==> AllAgree(g, t)
  {
    if Unambiguous(g) {
      forall t | Run(g, t) ensures AllAgree(g, t) {
        PoolRefinesStack(g, t);
      }
    } else {
      var t, k := AmbiguousPoolFails(g, m);
      assert Run(g, t) && !AllAgree(g, t);
    }
  }

  /** No call writes to a live block or outside the pool. */
  lemma StepFrame(g: Shape, s: State, a: Stack, op: Op, r: nat, t: State)
    requires Represents(g, s, a) && Legal(a, op) && !op.WriteOp? && Step(g, s, op, r, t)
    ensures |s.mem| == |t.mem|
    ensures SameBytes(s.mem, t.mem, 0, g.start)
    ensures SameBytes(s.mem, t.mem, g.End(), |s.mem|)
    ensures forall j :: IsLive(a, j) && (op.FreeOp? ==> j != op.k) ==> SameBytes(s.mem, t.mem, g.Block(j), g.size)
  {
    hide NeverUsed, Represents;
    var k := if op.FreeOp? then op.k else Top(StackAlloc(a, g.count));
    WrittenBlock(g, s, a, op, r, t, k);
    if t.mem != s.mem {
      BlockInside(g, k, |s.mem|);
      BlocksApart(g, 0, k);
      forall j | IsLive(a, j) && j != k ensures SameBytes(s.mem, t.mem, g.Block(j), g.size) {
        BlocksApart(g, j, k);
        BlocksApart(g, k, j);
      }
    }
  }

  /** A call writes at most the first word of one block: the one freed, or the new frontier. */
  ghost predicate WritesWord(g: Shape, s: State, t: State, k: nat) {
    && |s.mem| == |t.mem|
    && (t.mem != s.mem ==>
          k < g.count && g.Block(k) + WORD <= |s.mem| && exists w :: t.mem == PutWord(s.mem, g.Block(k), w))
  }

  lemma WrittenBlock(g: Shape, s: State, a: Stack, op: Op, r: nat, t: State, k: nat)
    requires Represents(g, s, a) && Legal(a, op) && !op.WriteOp? && Step(g, s, op, r, t)
    requires k == if op.FreeOp? then op.k else Top(StackAlloc(a, g.count))
    ensures g.Valid(|s.mem|) && WritesWord(g, s, t, k)
    ensures op.AllocOp? ==> !IsLive(a, k)
  {
    assert g.Valid(|s.mem|);
    if op.AllocOp? {
      TopNotLive(a, g.count);
      WrittenByAlloc(g, s, a, r, t, k);
    } else {
      LiveBlockExists(g, s, a, op.k);
      hide Represents, PutWord, Word;
      assert t.mem == PutWord(s.mem, g.Block(k), s.free);
    }
  }

  lemma WrittenByAlloc(g: Shape, s: State, a: Stack, r: nat, t: State, k: nat)
    requires Represents(g, s, a) && Step(g, s, AllocOp, r, t)
    requires k == Top(StackAlloc(a, g.count)) <= g.count && g.start > 0 && g.size > 0
    ensures WritesWord(g, s, t, k)
  {
    hide Shape.Block, NeverUsed, Represents, StackAlloc, PutWord, Word;
    TopWord(g, s, a);
    BlockBound(g, k);
  }

  lemma TopNotLive(a: Stack, count: nat)
    requires WellFormed(a, count)
    ensures !IsLive(a, Top(StackAlloc(a, count))) && Top(StackAlloc(a, count)) <= count
  {
    TopBound(a, count);
    if |a.freed| >= 2 {
      assert a.freed[1] in a.freed;
    }
  }

  /** What `init_mem_pool` leaves: nothing freed, the frontier at the start. */
  lemma FreshPool(g: Shape, m: seq<byte>)
    requires g.Valid(|m|) && g.start + WORD <= |m| && Word(m, g.start) == 1
    ensures Represents(g, State(m, g.start), Stack([], 0))
  {
    assert g.Block(0) == g.start;
  }

  lemma FirstInside(g: Shape, limit: nat)
    requires g.Valid(limit)
    ensures g.start + WORD <= limit && g.start < WORD_LIMIT
  {
    BlockInside(g, 0, limit);
    assert g.Block(0) == g.start;
  }

  /** The pool is cut down to a whole number of objects, and is rejected if that number is 0. */
  lemma UsableSize(pool: nat, poolSize: nat, size: nat, limit: nat)
    requires 0 < pool && WORD <= size && pool + poolSize <= limit && pool + poolSize < WORD_LIMIT
    ensures poolSize - poolSize % size == 0 <==> poolSize < size
    ensures var g := Shape(pool, size, poolSize / size);
      && g.End() == pool + (poolSize - poolSize % size) <= pool + poolSize < g.End() + size
      && (poolSize >= size ==> g.Valid(limit))
  {
    var q := poolSize / size;
    assert poolSize == q * size + poolSize % size;
    if poolSize >= size {
      Bits.NoSmallMultiple(q, size);
    } else {
      Bits.ModUnique(poolSize, size, 0, poolSize);
    }
  }

  // ---------------------------------------------------------------- mem_pool_t

  class Pool {
    var poolSize: nat
    var objSize: nat
    var poolStart: nat
    var freeBlock: nat
    const mem: array<byte>
    ghost var shape: Shape
    ghost var stack: Stack

    ghost function Now(): State
      reads this, mem
    {
      State(mem[..], freeBlock)
    }

    /** The fields describe the pool. */
    ghost predicate Usable()
      reads this, mem
    {
      && shape.Valid(mem.Length) && mem.Length <= WORD_LIMIT && freeBlock < WORD_LIMIT
      && poolStart == shape.start && objSize == shape.size && poolStart + poolSize == shape.End()
    }

    /** And the simple allocator describes its memory. */
    ghost predicate Valid()
      reads this, mem
    {
      Usable() && Unambiguous(shape) && Represents(shape, Now(), stack)
    }

    constructor (mem: array<byte>)
      ensures this.mem == mem
    {
      this.mem := mem;
    }

    /** `init_mem_pool`: the object size is at least that of a pointer, and the pool is cut down to a
        whole number of objects. */
    method Init(objSize: nat, pool: nat, poolSize: nat) returns (r: int)
      requires pool + poolSize <= mem.Length <= WORD_LIMIT && pool + poolSize < WORD_LIMIT
      modifies this, mem
      ensures r == if pool == NULL || poolSize < objSize || poolSize < WORD then -1 else 0
      ensures r == -1 ==> unchanged(this) && mem[..] == old(mem[..])
      ensures r == 0 ==>
        && shape == Shape(pool, if WORD > objSize then WORD else objSize, shape.count)
        && shape.End() <= pool + poolSize < shape.End() + shape.size
        && stack == Stack([], 0) && Represents(shape, Now(), stack)
        && Usable() && (Unambiguous(shape) ==> Valid())
    {
      if pool == NULL {
        return -1;
      }
      var size := if WORD > objSize then WORD else objSize;
      var usable := poolSize - poolSize % size;
      UsableSize(pool, poolSize, size, mem.Length);
      hide Pow256, Represents, Word, PutWord, Unambiguous;
      if usable == 0 {
        return -1;
      }
      FirstInside(Shape(pool, size, poolSize / size), mem.Length);
      hide Shape.Valid, Shape.Block, Shape.End;
      StoreWord(mem, pool, 0x1);
      freeBlock := pool;
      poolStart := pool;
      this.objSize := size;
      this.poolSize := usable;
      shape := Shape(pool, size, poolSize / size);
      stack := Stack([], 0);
      FreshPool(shape, mem[..]);
      return 0;
    }

    /** `mem_pool_alloc`, in any pool; in an unambiguous one it is the simple allocation. */
    method Alloc() returns (p: nat)
      requires Valid() || (Usable() && AllocReads(shape, Now()))
      modifies `freeBlock, `stack, mem
      ensures Usable() && Step(shape, old(Now()), AllocOp, p, Now())
      ensures old(Valid()) ==>
        Valid() && stack == StackAlloc(old(stack), shape.count) && p == StackResult(shape, old(stack), AllocOp)
    {
      hide Represents, Unambiguous, NeverUsed, StackAlloc, Shape.Block, Shape.Valid, Word, PutWord;
      ghost var s, valid := Now(), Valid();
      if valid {
        TopWord(shape, s, stack);
        stack := StackAlloc(stack, shape.count);
      }
      p := Serve(s);
      if valid {
        AllocRefines(shape, s, old(stack), p, Now());
      }
    }

    /** The body of `mem_pool_alloc`. */
    method Serve(ghost s: State) returns (p: nat)
      requires Usable() && s == Now() && AllocReads(shape, s)
      modifies `freeBlock, mem
      ensures Usable() && Step(shape, s, AllocOp, p, Now())
    {
      hide NeverUsed, Shape.Block, Word, PutWord;
      var end := poolStart + poolSize;
      if freeBlock == end {
        return NULL;
      }
      var res := freeBlock;
      if NeverUsed(Word(mem[..], res)) {
        freeBlock := freeBlock + objSize;
        if freeBlock != end {
          StoreWord(mem, freeBlock, 0x1);
        }
      } else {
        WordBound(mem[..], freeBlock);
        freeBlock := Word(mem[..], freeBlock);
      }
      return res;
    }

    /** `mem_pool_free` of block `k`, in any pool; in an unambiguous one it is the simple free. */
    method Free(obj: nat, ghost k: nat)
      requires Usable() && k < shape.count && obj == shape.Block(k)
      modifies `freeBlock, `stack, mem
      ensures Usable() && Step(shape, old(Now()), FreeOp(k), 0, Now())
      ensures old(Valid() && IsLive(stack, k)) ==> Valid() && stack == StackFree(old(stack), k)
    {
      hide Represents, Unambiguous, StackFree;
      ghost var s := Now();
      BlockInside(shape, k, mem.Length);
      hide Shape.Block;
      StoreWord(mem, obj, freeBlock);
      freeBlock := obj;
      if old(Valid() && IsLive(stack, k)) {
        stack := StackFree(stack, k);
        FreeRefines(shape, s, old(stack), k, Now());
      }
    }
  }
}
