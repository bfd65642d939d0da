/** Whole runs of the heap: any sequence of allocations, frees of live objects, and writes by the
    client to its own live objects. */
module HeapRuns {
  import opened Memory
  import opened HeapChain
  import opened HeapWords
  import opened HeapMemory
  import HeapEager
  import HeapFit

  /** `states[k]` is the state before operation `ops[k]`, which returns `results[k]`. */
  datatype Trace = Trace(states: seq<State>, ops: seq<Op>, results: seq<nat>)

  ghost predicate Run(z: Zone, t: Trace) {
    && z.alignment > 0
    && |t.states| == |t.ops| + 1 == |t.results| + 1
    && forall k {:trigger t.ops[k]} :: 0 <= k < |t.ops| ==>
      Step(z, t.states[k], t.ops[k], t.results[k], t.states[k + 1])
  }

  /** The run starts where `init_heap` leaves the heap. */
  ghost predicate FromInit(z: Zone, t: Trace) {
    && Run(z, t)
    && Invariant(z, t.states[0])
    && t.states[0].chain == [Block(z.lo, z.hi - z.lo - HEADER, false)]
  }

  // ---------------------------------------------------------------- clients

  /** Clients free and write only objects they hold. */
  ghost predicate Allowed(c: Chain, op: Op) {
    match op
    case AllocOp(size) => size < WORD_LIMIT
    case FreeOp(p) => p == NULL || Live(c, p)
    case WriteOp(p, at, data) =>
      exists b :: b in c && b.used && b.Payload() == p && p <= at && at + |data| <= b.End()
  }

  function ChainStep(z: Zone, c: Chain, op: Op): Chain
    requires z.alignment > 0
  {
    match op
    case AllocOp(size) => AllocOutcome(c, size, z.alignment).chain
    case FreeOp(p) => if p == NULL then c else Free(c, p)
    case WriteOp(_, _, _) => c
  }

  ghost predicate AllowedRun(z: Zone, c: Chain, ops: seq<Op>)
    requires z.alignment > 0
    decreases |ops|
  {
    ops != [] ==> Allowed(c, ops[0]) && AllowedRun(z, ChainStep(z, c, ops[0]), ops[1..])
  }

  /** One operation on the heap in memory. */
  method Perform(h: Heap, op: Op) returns (r: nat)
    requires h.Valid() && Allowed(h.chain, op)
    modifies h`chain, h.mem
    ensures h.Valid() && h.Pool() == old(h.Pool())
    ensures Step(h.Pool(), old(h.Now()), op, r, h.Now())
    ensures h.chain == ChainStep(h.Pool(), old(h.chain), op)
  {
    hide Holds, Tiles, Preserves, IsAligned, PowerOfTwo;
    r := 0;
    match op
    case AllocOp(size) => r := h.Alloc(size);
    case FreeOp(p) => h.Free(p);
    case WriteOp(p, at, data) =>
      ghost var b :| b in h.chain && b.used && b.Payload() == p && p <= at && at + |data| <= b.End();
      WriteInside(h.mem[..], h.chain, h.poolStart, h.poolStart + h.poolSize, b, at, data);
      CopyIn(h.mem, at, data);
  }

  lemma WriteInside(m: seq<byte>, c: Chain, lo: nat, hi: nat, b: Block, at: nat, data: seq<byte>)
    requires Sound(m, c, lo, hi) && b in c && b.Payload() <= at && at + |data| <= b.End()
    ensures at + |data| <= |m| && Sound(Splice(m, at, data), c, lo, hi)
  {
    TilesBounds(c, lo, hi);
    HoldsWrite(m, c, lo, hi, b, at, data);
  }

  /** Every legal client can run on the heap in memory, and what happens is a run in the sense of `Run`:
      all that is proved below about runs holds of the code. */
  method Execute(h: Heap, ops: seq<Op>) returns (results: seq<nat>, ghost t: Trace)
    requires h.Valid() && AllowedRun(h.Pool(), h.chain, ops)
    modifies h`chain, h.mem
    ensures h.Valid() && h.Pool() == old(h.Pool())
    ensures Run(h.Pool(), t) && t.ops == ops && t.results == results
    ensures t.states[0] == old(h.Now()) && t.states[|ops|] == h.Now()
  {
    hide Allowed, Step, ChainStep;
    results := [];
    ghost var z, states := h.Pool(), [h.Now()];
    assert ops == ops[0..];
    for i := 0 to |ops|
      invariant h.Valid() && h.Pool() == z
      invariant |states| == i + 1 && |results| == i
      invariant states[0] == old(h.Now()) && states[i] == h.Now()
      invariant forall k {:trigger ops[k]} :: 0 <= k < i ==> Step(z, states[k], ops[k], results[k], states[k + 1])
      invariant AllowedRun(z, h.chain, ops[i..])
    {
      assert ops[i..][0] == ops[i] && ops[i..][1..] == ops[i + 1..];
      var r := Perform(h, ops[i]);
      results, states := results + [r], states + [h.Now()];
    }
    t := Trace(states, ops, results);
  }

  // ---------------------------------------------------------------- the invariant

  /** A write inside a live payload leaves every header alone. */
  lemma {:induction false} HoldsWrite(m: seq<byte>, c: Chain, lo: nat, hi: nat, b: Block, at: nat, data: seq<byte>)
    requires Tiles(c, lo, hi) && Holds(m, c, hi) && at + |data| <= |m|
    requires b.Payload() <= at && at + |data| <= b.End()
    requires b in c || b.End() <= lo
    ensures Holds(Splice(m, at, data), c, hi)
    decreases |c|
  {
    if c != [] {
      var d := c[0];
      TilesBounds(c[1..], d.End(), hi);
      assert HasHeader(m, d, hi);
      WordAfterSplice(m, at, data, d.addr);
      WordAfterSplice(m, at, data, d.addr + WORD);
      HoldsWrite(m, c[1..], d.End(), hi, b, at, data);
    }
  }

  lemma StepInvariant(z: Zone, s: State, op: Op, r: nat, t: State)
    requires z.alignment > 0 && Invariant(z, s) && Step(z, s, op, r, t)
    ensures Invariant(z, t)
  {
    if op.WriteOp? {
      var b :| b in s.chain && b.used && b.Payload() == op.p && op.p <= op.at && op.at + |op.data| <= b.End();
      HoldsWrite(s.mem, s.chain, z.lo, z.hi, b, op.at, op.data);
    }
  }

  lemma {:induction false} InvariantAt(z: Zone, t: Trace, k: nat)
    requires Run(z, t) && Invariant(z, t.states[0]) && k <= |t.ops|
    ensures Invariant(z, t.states[k])
  {
    if k > 0 {
      InvariantAt(z, t, k - 1);
      var op := t.ops[k - 1];
      StepInvariant(z, t.states[k - 1], op, t.results[k - 1], t.states[k]);
    }
  }

  /** Block `i` of the chain is where the previous one ends, and its header in memory says so. */
  ghost predicate WellLinked(s: State, i: nat, hi: nat)
    requires i < |s.chain|
  {
    var b := s.chain[i];
    var next := if i + 1 < |s.chain| then s.chain[i + 1].addr else NULL;
    && b.addr % 2 == 0
    && b.Payload() <= |s.mem|
    && Word(s.mem, b.addr) == b.size
    && (IsAllocated(Word(s.mem, b.addr + WORD)) <==> b.used)
    && ClearAllocated(Word(s.mem, b.addr + WORD)) == next
    && b.End() == (if next == NULL then hi else next)
  }

  /** In every state of every run the blocks and their headers fill the pool exactly, and the link
      of each block, without its tag, is the address right behind it (NULL for the last one). */
  lemma PoolExactlyTiled(z: Zone, t: Trace, k: nat)
    requires Run(z, t) && Invariant(z, t.states[0]) && k <= |t.ops|
    ensures var s := t.states[k];
      && s.chain != [] && s.chain[0].addr == z.lo
      && TotalSize(s.chain) + HEADER * |s.chain| == z.hi - z.lo
      && forall i {:trigger s.chain[i]} :: 0 <= i < |s.chain| ==> WellLinked(s, i, z.hi)
  {
    InvariantAt(z, t, k);
    var s := t.states[k];
    TilesTotal(s.chain, z.lo, z.hi);
    forall i | 0 <= i < |s.chain| ensures WellLinked(s, i, z.hi) {
      BlockLinked(z, s, i);
    }
  }

  lemma BlockLinked(z: Zone, s: State, i: nat)
    requires Invariant(z, s) && i < |s.chain|
    ensures WellLinked(s, i, z.hi)
  {
    hide Tiles, Holds, IsAllocated, ClearAllocated, SetAllocated;
    StandsAt(z, s, i);
    var rest := s.chain[i..];
    Front(s.mem, rest, s.chain[i].addr, z.hi);
    assert rest[0] == s.chain[i];
  }

  lemma StandsAt(z: Zone, s: State, i: nat)
    requires Invariant(z, s) && i < |s.chain|
    ensures Stands(s.mem, s.chain[i..], s.chain[i].addr, z.hi)
    ensures s.chain[i].End() == if i + 1 < |s.chain| then s.chain[i + 1].addr else z.hi
  {
    hide IsAllocated, ClearAllocated, SetAllocated;
    var done, rest := s.chain[..i], s.chain[i..];
    TilesCut(s.chain, z.lo, z.hi, i);
    TilesBounds(done, z.lo, s.chain[i].addr);
    assert s.chain == done + rest;
    HoldsSplit(s.mem, done, rest, z.hi);
  }

  /** Live payloads lie inside the pool, apart from each other and from every header. */
  lemma LiveObjectsApart(z: Zone, s: State, b: Block, d: Block)
    requires Invariant(z, s) && b in s.chain && d in s.chain && b != d
    ensures z.lo + HEADER <= b.Payload() <= b.End() <= z.hi
    ensures b.End() <= d.addr || d.End() <= b.addr
  {
    TilesBounds(s.chain, z.lo, z.hi);
    TilesDisjoint(s.chain, z.lo, z.hi);
  }

  // ---------------------------------------------------------------- non-interference

  /** The operation is neither a free of the object at `p` nor a write to it. */
  predicate Spares(op: Op, p: nat) {
    match op
    case AllocOp(_) => true
    case FreeOp(q) => q != p
    case WriteOp(q, _, _) => q != p
  }

  lemma StepSpares(z: Zone, s: State, op: Op, r: nat, t: State, b: Block)
    requires z.alignment > 0 && Invariant(z, s) && Step(z, s, op, r, t)
    requires b in s.chain && b.used && Spares(op, b.Payload())
    ensures b in t.chain && |s.mem| == |t.mem| && SameBytes(s.mem, t.mem, b.Payload(), b.size)
  {
    match op
    case AllocOp(size) =>
      if size != 0 {
        AllocTiles(s.chain, Round(size, z.alignment), z.lo, z.hi);
      }
    case FreeOp(p) => FreeTiles(s.chain, p, z.lo, z.hi);
    case WriteOp(p, at, data) =>
      var d :| d in s.chain && d.used && d.Payload() == p && p <= at && at + |data| <= d.End();
      TilesDisjoint(s.chain, z.lo, z.hi);
  }

  /** Over any stretch of a run in which its owner neither frees nor writes it, a live object stays
      where it is, keeps its size, and keeps every byte: whatever else is allocated, freed, split,
      merged or written. */
  lemma {:induction false} NonInterference(z: Zone, t: Trace, i: nat, j: nat, b: Block)
    requires Run(z, t) && Invariant(z, t.states[0]) && i <= j <= |t.ops|
    requires b in t.states[i].chain && b.used
    requires forall k {:trigger t.ops[k]} :: i <= k < j ==> Spares(t.ops[k], b.Payload())
    ensures b in t.states[j].chain && |t.states[i].mem| == |t.states[j].mem|
    ensures SameBytes(t.states[i].mem, t.states[j].mem, b.Payload(), b.size)
    decreases j
  {
    if i < j {
      NonInterference(z, t, i, j - 1, b);
      InvariantAt(z, t, j - 1);
      var op := t.ops[j - 1];
      StepSpares(z, t.states[j - 1], op, t.results[j - 1], t.states[j], b);
    }
  }

  // ---------------------------------------------------------------- what an allocation grants

  /** A successful allocation hands out the front of the first maximal free run (i, j) that offers the
      rounded size: just this size if more than a header remains, otherwise the whole run.  The block was
      part of no live object; and it holds the requested size exactly when the request is not within one
      alignment of 2^64, where rounding wraps around. */
  lemma Granted(z: Zone, t: Trace, k: nat) returns (g: Block, i: nat, j: nat)
    requires Run(z, t) && Invariant(z, t.states[0]) && k < |t.ops|
    requires t.ops[k].AllocOp? && t.results[k] != NULL
    ensures g in t.states[k + 1].chain && g.used && g.Payload() == t.results[k]
    ensures var c, n := t.states[k].chain, Round(t.ops[k].size, z.alignment);
      && HeapFit.Fits(c, i, j, n) && HeapFit.NoneFits(c, 0, i, n) && g.addr == c[i].addr
      && var capacity := c[j - 1].End() - c[i].Payload();
         g.size == if capacity - n > HEADER then n else capacity
    ensures Round(t.ops[k].size, z.alignment) <= g.size <= Round(t.ops[k].size, z.alignment) + HEADER
    ensures forall b :: b in t.states[k].chain && b.used ==> b.End() <= g.addr || g.End() <= b.addr
    ensures t.ops[k].size <= g.size <==> t.ops[k].size <= WORD_LIMIT - z.alignment
    ensures t.ops[k].size <= g.size ==> g.size < t.ops[k].size + z.alignment + HEADER
  {
    InvariantAt(z, t, k);
    var op := t.ops[k];
    var c := t.states[k].chain;
    RoundIsLeastMultiple(op.size, z.alignment);
    AlignmentDivides(z.alignment);
    g := AllocGrant(c, Round(op.size, z.alignment), z.lo, z.hi);
    i, j := GrantedRun(c, Round(op.size, z.alignment), z.lo, z.hi, g);
    if op.size > WORD_LIMIT - z.alignment {
      LargeAlignment(z.alignment);
    }
  }

  /** The block at the returned address is the first one of what became of the run. */
  lemma GrantedRun(c: Chain, n: nat, lo: nat, hi: nat, g: Block) returns (i: nat, j: nat)
    requires Tiles(c, lo, hi) && Alloc(c, n).ptr != NULL && g in Alloc(c, n).chain && g.Payload() == Alloc(c, n).ptr
    ensures HeapFit.Fits(c, i, j, n) && HeapFit.NoneFits(c, 0, i, n) && g.addr == c[i].addr
    ensures var capacity := c[j - 1].End() - c[i].Payload();
      g.size == if capacity - n > HEADER then n else capacity
  {
    i, j := HeapFit.AllocExact(c, n, lo, hi);
    AllocTiles(c, n, lo, hi);
    TilesDisjoint(Alloc(c, n).chain, lo, hi);
    hide Tiles, Alloc, HeapFit.Fits, HeapFit.NoneFits, HeapEager.Norm;
    var size: nat := HeapFit.Capacity(c, i, j);
    var first := Block(c[i].addr, if size - n > HEADER then n else size, true);
    assert first in Alloc(c, n).chain;
  }

  /** A free turns exactly the block of the object into a free one, joined with its successor if that is
      free; all other blocks stay. */
  lemma Freed(z: Zone, t: Trace, k: nat) returns (i: nat)
    requires Run(z, t) && Invariant(z, t.states[0]) && k < |t.ops|
    requires t.ops[k].FreeOp? && t.ops[k].p != NULL
    ensures var c := t.states[k].chain;
      && i < |c| && c[i].used && c[i].Payload() == t.ops[k].p
      && t.states[k + 1].chain == c[..i] +
           if i + 1 < |c| && !c[i + 1].used then
             [Block(c[i].addr, c[i].size + HEADER + c[i + 1].size, false)] + c[i + 2..]
           else
             [Block(c[i].addr, c[i].size, false)] + c[i + 1..]
  {
    InvariantAt(z, t, k);
    var c, op := t.states[k].chain, t.ops[k];
    assert Live(c, op.p) && Tiles(c, z.lo, z.hi) && t.states[k + 1].chain == Free(c, op.p);
    hide Run, Invariant, Step, Tiles, Free;
    var b :| b in c && b.used && b.Payload() == op.p;
    i :| i < |c| && c[i] == b;
    FreeExact(c, i, z.lo, z.hi);
  }

  /** So much is served: the first request to a fresh heap, if it is within one alignment of 2^64, gets at
      most 16 bytes. */
  lemma HugeRequestServed(z: Zone, t: Trace) returns (g: Block)
    requires FromInit(z, t) && |t.ops| > 0
    requires t.ops[0].AllocOp? && WORD_LIMIT - z.alignment < t.ops[0].size
    ensures t.results[0] == z.lo + HEADER && g in t.states[1].chain && g.used && g.Payload() == t.results[0]
    ensures g.size <= HEADER < t.ops[0].size
  {
    var size := t.ops[0].size;
    RoundIsLeastMultiple(size, z.alignment);
    LargeAlignment(z.alignment);
    NoPermanentFragmentation(z, t, 0);
    var i, j;
    g, i, j := Granted(z, t, 0);
  }

  /** A power of two below 2^64 is at most half of it. */
  lemma LargeAlignment(alignment: nat)
    requires PowerOfTwo(alignment)
    ensures WORD_LIMIT - alignment >= WORD_LIMIT / 2
  {
    var k :| 1 <= k < 64 && alignment == Bits.Pow2(k);
    Bits.Pow2Word();
    Bits.Pow2Divides(k, 63);
  }

  /** The search is complete: an allocation fails exactly when no maximal run of adjacent free
      blocks offers the rounded size. */
  lemma FailsOnlyWhenFull(z: Zone, t: Trace, k: nat)
    requires Run(z, t) && Invariant(z, t.states[0]) && k < |t.ops|
    requires t.ops[k].AllocOp? && t.ops[k].size > 0
    ensures var c, n := t.states[k].chain, Round(t.ops[k].size, z.alignment);
      && (t.results[k] == NULL <==> HeapFit.NoneFits(c, 0, |c|, n))
      && (t.results[k] != NULL ==>
            exists i, j :: HeapFit.Fits(c, i, j, n) && t.results[k] == c[i].Payload() && HeapFit.NoneFits(c, 0, i, n))
  {
    InvariantAt(z, t, k);
    var op := t.ops[k];
    HeapFit.FirstFitComplete(t.states[k].chain, Round(op.size, z.alignment), z.lo, z.hi);
  }

  /** No permanent fragmentation: whenever nothing is live, every rounded size up to the pool less one
      header is served, from the front of the pool. */
  lemma NoPermanentFragmentation(z: Zone, t: Trace, k: nat)
    requires Run(z, t) && Invariant(z, t.states[0]) && k < |t.ops|
    requires t.ops[k].AllocOp? && t.ops[k].size > 0
    requires forall b :: b in t.states[k].chain ==> !b.used
    ensures t.results[k] ==
      if Round(t.ops[k].size, z.alignment) <= z.hi - z.lo - HEADER then z.lo + HEADER else NULL
  {
    InvariantAt(z, t, k);
    var op := t.ops[k];
    HeapFit.AllFreeServesAll(t.states[k].chain, Round(op.size, z.alignment), z.lo, z.hi);
  }

  // ---------------------------------------------------------------- alignment of the results

  lemma StepAligned(z: Zone, s: State, op: Op, r: nat, t: State)
    requires PowerOfTwo(z.alignment) && HEADER % z.alignment == 0 && Step(z, s, op, r, t)
    requires AddrsMultipleOf(s.chain, z.alignment)
    ensures AddrsMultipleOf(t.chain, z.alignment) && r % z.alignment == 0
  {
    hide Sound, Preserves, Round;
    Bits.ModUnique(0, z.alignment, 0, 0);
    match op
    case AllocOp(size) =>
      if size > 0 {
        RoundIsLeastMultiple(size, z.alignment);
        AllocMultiple(s.chain, Round(size, z.alignment), z.alignment);
      }
    case FreeOp(p) => FreeMultiple(s.chain, p, z.alignment);
    case WriteOp(_, _, _) =>
  }

  lemma {:induction false} AddrsAligned(z: Zone, t: Trace, k: nat)
    requires FromInit(z, t) && k <= |t.ops| && HEADER % z.alignment == 0
    ensures AddrsMultipleOf(t.states[k].chain, z.alignment)
    ensures k > 0 ==> t.results[k - 1] % z.alignment == 0
  {
    if k > 0 {
      AddrsAligned(z, t, k - 1);
      var op := t.ops[k - 1];
      hide Step;
      StepAligned(z, t.states[k - 1], op, t.results[k - 1], t.states[k]);
    }
  }

  /** Every address ever returned is a multiple of the alignment if the alignment divides the 16-byte
      header. */
  lemma ResultsAligned(z: Zone, t: Trace)
    requires FromInit(z, t) && HEADER % z.alignment == 0
    ensures forall r :: r in t.results ==> r % z.alignment == 0
  {
    forall r | r in t.results ensures r % z.alignment == 0 {
      var k :| 0 <= k < |t.results| && t.results[k] == r;
      AddrsAligned(z, t, k + 1);
    }
  }

  /** If it does not, already the first allocation that a fresh heap can serve is misaligned. */
  lemma FirstResultMisaligned(z: Zone, t: Trace)
    requires FromInit(z, t) && |t.ops| > 0 && t.ops[0].AllocOp? && t.ops[0].size > 0
    requires Round(t.ops[0].size, z.alignment) <= z.hi - z.lo - HEADER
    requires HEADER % z.alignment != 0
    ensures t.results[0] % z.alignment != 0
  {
    var op := t.ops[0];
    NoPermanentFragmentation(z, t, 0);
    Bits.AddRemainder(z.lo, HEADER, z.alignment);
  }

  // ---------------------------------------------------------------- deferred coalescing

  /** The same client on an allocator that merges at once. */
  function EagerStep(z: Zone, d: Chain, op: Op): Outcome
    requires z.alignment > 0
  {
    match op
    case AllocOp(size) => if size == 0 then Outcome(d, NULL) else HeapEager.EagerAlloc(d, Round(size, z.alignment))
    case FreeOp(p) => Outcome(if p == NULL then d else HeapEager.EagerFree(d, p), 0)
    case WriteOp(_, _, _) => Outcome(d, 0)
  }

  /** The eager heap after `k` operations, and the result of the last of them. */
  function EagerAt(z: Zone, d: Chain, ops: seq<Op>, k: nat): Outcome
    requires z.alignment > 0 && k <= |ops|
  {
    if k == 0 then Outcome(d, 0) else EagerStep(z, EagerAt(z, d, ops, k - 1).chain, ops[k - 1])
  }

  /** Deferred coalescing is invisible: in every run, every call returns what the eager allocator
      returns, failures included, and the two heaps agree up to merging adjacent free blocks. */
  lemma {:induction false} DeferredCoalescingInvisible(z: Zone, t: Trace, k: nat)
    requires Run(z, t) && Invariant(z, t.states[0]) && k <= |t.ops|
    ensures var e := EagerAt(z, HeapEager.Norm(t.states[0].chain), t.ops, k);
      HeapEager.Norm(t.states[k].chain) == e.chain && (k > 0 ==> t.results[k - 1] == e.ptr)
  {
    if k > 0 {
      DeferredCoalescingInvisible(z, t, k - 1);
      InvariantAt(z, t, k - 1);
      var s, op := t.states[k - 1], t.ops[k - 1];
      match op
      case AllocOp(size) =>
        if size > 0 {
          HeapEager.NormAlloc(s.chain, Round(size, z.alignment));
        }
      case FreeOp(p) =>
        if p != NULL {
          HeapEager.NormFree(s.chain, p, z.lo, z.hi);
        }
      case WriteOp(_, _, _) =>
    }
  }
}
