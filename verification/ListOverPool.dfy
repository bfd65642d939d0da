/** The wiring of src/usbip.c:45-57: a linked list whose nodes are drawn from a pool and go back to
    it.  Both live in the same memory, and the pool threads its chain through freed nodes. */
module ListOverPool {
  import opened Memory
  import P = MemPool
  import L = LinkedList

  /** The nodes of the list are the live blocks of the pool, each once. */
  ghost predicate Matches(g: P.Shape, a: P.Stack, nodes: seq<nat>, blocks: seq<nat>) {
    && g.size >= L.NODE
    && |blocks| == |nodes|
    && (forall i {:trigger blocks[i]} :: 0 <= i < |blocks| ==> P.IsLive(a, blocks[i]) && nodes[i] == g.Block(blocks[i]))
    && (forall i, j :: 0 <= i < j < |blocks| ==> blocks[i] != blocks[j])
    && (forall k {:trigger P.IsLive(a, k)} :: P.IsLive(a, k) ==> k in blocks)
  }

  ghost function SetOf(s: seq<nat>): (r: set<nat>)
    ensures forall x :: x in r <==> x in s
  {
    if s == [] then {} else SetOf(s[1..]) + {s[0]}
  }

  lemma {:induction false} SetOfDistinct(s: seq<nat>)
    requires forall i, j :: 0 <= i < j < |s| ==> s[i] != s[j]
    ensures |SetOf(s)| == |s|
  {
    if s != [] {
      SetOfDistinct(s[1..]);
      assert s[0] !in s[1..];
    }
  }

  /** As many nodes as live blocks. */
  lemma SizeIsLiveCount(g: P.Shape, a: P.Stack, nodes: seq<nat>, blocks: seq<nat>)
    requires Matches(g, a, nodes, blocks)
    ensures |nodes| == |P.LiveBlocks(a)|
  {
    SetOfDistinct(blocks);
    assert SetOf(blocks) == P.LiveBlocks(a) by {
      forall k ensures k in blocks <==> k in P.LiveBlocks(a) {
        assert k in P.LiveBlocks(a) <==> P.IsLive(a, k);
      }
    }
  }

  /** A pool call spares the nodes of the list. */
  lemma NodesSpared(g: P.Shape, s: P.State, a: P.Stack, op: P.Op, r: nat, t: P.State, nodes: seq<nat>, blocks: seq<nat>)
    requires P.Represents(g, s, a) && P.Legal(a, op) && !op.WriteOp? && P.Step(g, s, op, r, t)
    requires |blocks| == |nodes| && g.size >= L.NODE
    requires forall i {:trigger blocks[i]} :: 0 <= i < |blocks| ==>
      P.IsLive(a, blocks[i]) && nodes[i] == g.Block(blocks[i]) && (op.FreeOp? ==> blocks[i] != op.k)
    ensures |s.mem| == |t.mem|
      && forall i {:trigger nodes[i]} :: 0 <= i < |nodes| ==> SameBytes(s.mem, t.mem, nodes[i], L.NODE)
  {
    hide P.Represents, P.Step, P.Shape.Block;
    P.StepFrame(g, s, a, op, r, t);
    forall i | 0 <= i < |nodes| ensures SameBytes(s.mem, t.mem, nodes[i], L.NODE) {
      assert SameBytes(s.mem, t.mem, g.Block(blocks[i]), g.size);
    }
  }

  /** A list call spares the pool: it writes only to live blocks. */
  lemma PoolSpared(g: P.Shape, s: P.State, a: P.Stack, r: seq<byte>, nodes: seq<nat>, blocks: seq<nat>)
    requires P.Represents(g, s, a) && L.WritesOnly(s.mem, r, nodes)
    requires |blocks| == |nodes| && g.size >= L.NODE
    requires forall i {:trigger blocks[i]} :: 0 <= i < |blocks| ==>
      P.IsLive(a, blocks[i]) && nodes[i] == g.Block(blocks[i])
    ensures P.Represents(g, P.State(r, s.free), a)
  {
    hide P.Represents, P.Shape.Block;
    forall k | 0 <= k < g.count && !P.IsLive(a, k) ensures SameBytes(s.mem, r, g.Block(k), WORD) {
      forall i | 0 <= i < |nodes| ensures L.Apart(nodes[i], L.NODE, g.Block(k), WORD) {
        assert nodes[i] == g.Block(blocks[i]);
        P.BlocksApart(g, blocks[i], k);
        P.BlocksApart(g, k, blocks[i]);
      }
      assert L.Clear(nodes, g.Block(k), WORD);
    }
    P.RepresentsFrame(g, s, P.State(r, s.free), a);
  }

  lemma TopIsBlock(g: P.Shape, s: P.State, a: P.Stack)
    requires P.Represents(g, s, a) && P.Top(a) < g.count
    ensures g.Valid(|s.mem|) && P.WellFormed(a, g.count) && !P.IsLive(a, P.Top(a))
  {
    P.AllocTakesTop(a, g.count);
  }

  /** The block that the pool hands out is fresh for the list. */
  lemma TopIsFresh(g: P.Shape, s: P.State, a: P.Stack, nodes: seq<nat>, blocks: seq<nat>)
    requires P.Represents(g, s, a) && Matches(g, a, nodes, blocks) && P.Top(a) < g.count
    ensures L.Fresh(nodes, g.Block(P.Top(a)), |s.mem|)
    ensures Matches(g, P.StackAlloc(a, g.count), nodes + [g.Block(P.Top(a))], blocks + [P.Top(a)])
  {
    hide P.Represents, P.Shape.Block, P.Top, P.StackAlloc;
    var k := P.Top(a);
    TopIsBlock(g, s, a);
    P.BlockInside(g, k, |s.mem|);
    forall i | 0 <= i < |nodes| ensures L.Apart(nodes[i], L.NODE, g.Block(k), L.NODE) {
      assert P.IsLive(a, blocks[i]);
      P.BlocksApart(g, blocks[i], k);
      P.BlocksApart(g, k, blocks[i]);
    }
    AllocMatches(g, a, nodes, blocks);
  }

  lemma AllocMatches(g: P.Shape, a: P.Stack, nodes: seq<nat>, blocks: seq<nat>)
    requires Matches(g, a, nodes, blocks) && P.WellFormed(a, g.count) && P.Top(a) < g.count
    ensures Matches(g, P.StackAlloc(a, g.count), nodes + [g.Block(P.Top(a))], blocks + [P.Top(a)])
  {
    var k, b := P.Top(a), P.StackAlloc(a, g.count);
    P.AllocTakesTop(a, g.count);
    forall j ensures P.IsLive(b, j) <==> P.IsLive(a, j) || j == k {
      assert j in P.LiveBlocks(b) <==> j in P.LiveBlocks(a) || j == k;
      assert j in P.LiveBlocks(b) <==> P.IsLive(b, j);
      assert j in P.LiveBlocks(a) <==> P.IsLive(a, j);
    }
    var bs := blocks + [k];
    forall i | 0 <= i < |blocks| ensures bs[i] != k {
      assert P.IsLive(a, blocks[i]);
    }
  }

  lemma FreeMatches(g: P.Shape, a: P.Stack, nodes: seq<nat>, blocks: seq<nat>, i: nat)
    requires Matches(g, a, nodes, blocks) && i < |nodes|
    ensures Matches(g, P.StackFree(a, blocks[i]), L.Without(nodes, i), L.Without(blocks, i))
  {
    var k, b := blocks[i], P.StackFree(a, blocks[i]);
    var bs := L.Without(blocks, i);
    forall j ensures P.IsLive(b, j) <==> P.IsLive(a, j) && j != k {
    }
    forall j | P.IsLive(b, j) ensures j in bs {
      assert P.IsLive(a, j);
      var x :| 0 <= x < |blocks| && blocks[x] == j;
      assert bs[if x < i then x else x - 1] == j;
    }
  }

  lemma Taken(g: P.Shape, s: P.State, a: P.Stack, r: nat, t: P.State, size: nat, first: nat, last: nat,
      nodes: seq<nat>, blocks: seq<nat>)
    requires P.Represents(g, s, a) && Matches(g, a, nodes, blocks) && L.Represents(s.mem, size, first, last, nodes)
    requires P.Step(g, s, P.AllocOp, r, t) && r == P.StackResult(g, a, P.AllocOp)
    ensures |s.mem| == |t.mem|
    ensures L.Represents(t.mem, size, first, last, nodes) && L.Data(t.mem, nodes) == L.Data(s.mem, nodes)
    ensures r == NULL <==> size == g.count
    ensures r == NULL ==> Matches(g, P.StackAlloc(a, g.count), nodes, blocks)
    ensures r != NULL ==>
      && L.Fresh(nodes, r, |s.mem|)
      && Matches(g, P.StackAlloc(a, g.count), nodes + [r], blocks + [P.Top(a)])
  {
    hide P.Represents, P.Shape.Block, P.StackAlloc, P.Step, L.Data, L.Fresh;
    NodesSpared(g, s, a, P.AllocOp, r, t, nodes, blocks);
    L.RepresentsFrame(s.mem, t.mem, size, first, last, nodes);
    SizeIsLiveCount(g, a, nodes, blocks);
    PoolFacts(g, s, a);
    if P.Top(a) < g.count {
      TopIsFresh(g, s, a, nodes, blocks);
    }
  }

  lemma Given(g: P.Shape, s: P.State, a: P.Stack, i: nat, t: P.State, size: nat, first: nat, last: nat,
      nodes: seq<nat>, blocks: seq<nat>)
    requires P.Represents(g, s, a) && Matches(g, a, nodes, blocks) && i < |nodes|
    requires L.Represents(s.mem, size, first, last, L.Without(nodes, i))
    requires P.Step(g, s, P.FreeOp(blocks[i]), 0, t)
    ensures |s.mem| == |t.mem|
    ensures L.Represents(t.mem, size, first, last, L.Without(nodes, i))
    ensures L.Data(t.mem, L.Without(nodes, i)) == L.Data(s.mem, L.Without(nodes, i))
    ensures Matches(g, P.StackFree(a, blocks[i]), L.Without(nodes, i), L.Without(blocks, i))
  {
    hide P.Represents, P.Shape.Block, P.StackFree, P.Step, L.Data;
    FreeMatches(g, a, nodes, blocks, i);
    NodesSpared(g, s, a, P.FreeOp(blocks[i]), 0, t, L.Without(nodes, i), L.Without(blocks, i));
    L.RepresentsFrame(s.mem, t.mem, size, first, last, L.Without(nodes, i));
  }

  /** A list call spares the pool. */
  lemma Spared(g: P.Shape, s: P.State, a: P.Stack, r: seq<byte>, nodes: seq<nat>, blocks: seq<nat>)
    requires P.Represents(g, s, a) && L.WritesOnly(s.mem, r, nodes) && Matches(g, a, nodes, blocks)
    ensures P.Represents(g, P.State(r, s.free), a)
  {
    hide P.Represents, P.Shape.Block, L.WritesOnly;
    PoolSpared(g, s, a, r, nodes, blocks);
  }

  lemma PoolFacts(g: P.Shape, s: P.State, a: P.Stack)
    requires P.Represents(g, s, a)
    ensures P.Top(a) <= g.count && (P.Top(a) == g.count <==> |P.LiveBlocks(a)| == g.count)
    ensures P.Top(a) == g.count ==> P.StackAlloc(a, g.count) == a
    ensures P.Top(a) < g.count ==> g.Block(P.Top(a)) != NULL
  {
    P.AllocServesFree(a, g.count);
    P.TopBound(a, g.count);
    if P.Top(a) < g.count {
      P.BlockInside(g, P.Top(a), |s.mem|);
    }
  }

  class PooledList {
    const list: L.List
    const pool: P.Pool
    ghost var blocks: seq<nat>

    ghost predicate Valid()
      reads this, list, pool, list.mem
    {
      && list.mem == pool.mem
      && list.Valid() && pool.Valid()
      && Matches(pool.shape, pool.stack, list.nodes, blocks)
    }

    ghost function Contents(): seq<nat>
      requires Valid()
      reads this, list, pool, list.mem
    {
      list.Contents()
    }

    /** The number of objects in the pool. */
    ghost function Capacity(): nat
      reads pool
    {
      pool.shape.count
    }

    /** An empty list over a pool that `init_mem_pool` has just set up. */
    constructor (pool: P.Pool)
      requires pool.Valid() && pool.stack == P.Stack([], 0) && pool.shape.size >= L.NODE
        && pool.mem.Length <= WORD_LIMIT
      ensures this.pool == pool && fresh(list) && Valid() && Contents() == []
    {
      list := new L.List(pool.mem);
      this.pool := pool;
      blocks := [];
    }

    /** The call of the allocator in `linked_list_push`. */
    method TakeNode() returns (node: nat)
      requires Valid()
      modifies pool, list.mem
      ensures list.Valid() && list.Contents() == old(Contents())
      ensures pool.Valid() && pool.shape == old(pool.shape)
      ensures node == NULL <==> list.size == pool.shape.count
      ensures node == NULL ==> Matches(pool.shape, pool.stack, list.nodes, blocks)
      ensures node != NULL ==>
        && L.Fresh(list.nodes, node, list.mem.Length)
        && Matches(pool.shape, pool.stack, list.nodes + [node], blocks + [P.Top(old(pool.stack))])
    {
      hide P.Represents, P.Shape.Block, P.StackAlloc, P.Step, P.Unambiguous, L.Represents, L.Data, L.Fresh, Matches;
      ghost var g, s, a := pool.shape, pool.Now(), pool.stack;
      node := pool.Alloc();
      Taken(g, s, a, node, pool.Now(), list.size, list.first, list.last, list.nodes, blocks);
    }

    /** `linked_list_push` */
    method Push(data: nat) returns (r: int)
      requires Valid() && data < WORD_LIMIT
      modifies this, list, pool, list.mem
      ensures Valid() && Capacity() == old(Capacity())
      ensures r == -1 <==> |old(Contents())| == Capacity()
      ensures Contents() == if r == 0 then old(Contents()) + [data] else old(Contents())
      ensures r == 0 || r == -1
    {
      hide P.Represents, P.Shape.Block, P.StackAlloc, P.Unambiguous, L.Represents, L.Data, L.Fresh,
        L.WritesOnly, Matches;
      L.Ends(list.mem[..], list.size, list.first, list.last, list.nodes);
      ghost var top := P.Top(pool.stack);
      var node := TakeNode();
      ghost var s := pool.Now();
      r := list.Push(node, data);
      if node != NULL {
        blocks := blocks + [top];
      }
      Spared(pool.shape, s, pool.stack, list.mem[..], list.nodes, blocks);
    }

    /** `linked_list_rem` */
    method Rem(i: nat) returns (data: nat)
      requires Valid()
      modifies this, list, pool, list.mem
      ensures Valid() && Capacity() == old(Capacity())
      ensures data == if i < |old(Contents())| then old(Contents())[i] else NULL
      ensures Contents() == if i < |old(Contents())| then L.Without(old(Contents()), i) else old(Contents())
    {
      hide P.Represents, P.Shape.Block, P.StackFree, P.Unambiguous, L.Represents, L.Data, L.Fresh,
        L.WritesOnly, Matches, L.Without;
      L.Ends(list.mem[..], list.size, list.first, list.last, list.nodes);
      ghost var nodes, s := list.nodes, pool.Now();
      var node;
      data, node := list.Rem(i);
      Spared(pool.shape, s, pool.stack, list.mem[..], nodes, blocks);
      if node != NULL {
        GiveBack(node, i, nodes);
      }
    }

    /** `list->free(node)` for the node that was element `i`. */
    method GiveBack(node: nat, ghost i: nat, ghost nodes: seq<nat>)
      requires list.mem == pool.mem && list.Valid() && pool.Valid()
      requires Matches(pool.shape, pool.stack, nodes, blocks) && i < |nodes| && node == nodes[i]
        && list.nodes == L.Without(nodes, i)
      modifies this, pool, list.mem
      ensures Valid() && Contents() == old(list.Contents()) && pool.shape == old(pool.shape)
    {
      hide P.Represents, P.Shape.Block, P.StackFree, P.Step, P.Unambiguous, L.Represents, L.Data, L.Without;
      ghost var g, s, a, k := pool.shape, pool.Now(), pool.stack, blocks[i];
      P.LiveBlockExists(g, s, a, k);
      pool.Free(node, k);
      Given(g, s, a, i, pool.Now(), list.size, list.first, list.last, nodes, blocks);
      blocks := L.Without(blocks, i);
    }
  }
}
