/** The block chain of src/heap.c as a value: what `heap_alloc` and `heap_free` do to the list of
    blocks, without the bytes that hold it. */
module HeapChain {
  import Bits

  /** sizeof(heap_node_t): the words `size` and `next`. */
  const HEADER: nat := 16

  /** One block: the address of its header, the number of payload bytes, the tag in bit 0 of `next`. */
  datatype Block = Block(addr: nat, size: nat, used: bool) {
    function Payload(): nat { addr + HEADER }
    function End(): nat { addr + HEADER + size }
  }

  type Chain = seq<Block>

  datatype Outcome = Outcome(chain: Chain, ptr: nat)

  /** The blocks of `c` cover [lo, hi) from left to right without gaps or overlaps. */
  ghost predicate Tiles(c: Chain, lo: nat, hi: nat)
    decreases |c|
  {
    if c == [] then lo == hi else c[0].addr == lo && Tiles(c[1..], c[0].End(), hi)
  }

  /** No two neighbours are both free. */
  ghost predicate Coalesced(c: Chain) {
    forall i {:trigger c[i]} :: 0 <= i < |c| - 1 ==> c[i].used || c[i + 1].used
  }

  /** `b` describes an object that has been handed out and not yet freed. */
  ghost predicate Live(c: Chain, p: nat) {
    exists b :: b in c && b.used && b.Payload() == p
  }

  function Fuse(b: Block, next: Block): Block {
    b.(size := b.size + next.size + HEADER)
  }

  /** The inner loop of `heap_alloc`: the first block swallows the free blocks behind it. */
  function Absorb(c: Chain): (r: Chain)
    requires c != []
    ensures 0 < |r| <= |c| && r[0].addr == c[0].addr && r[0].used == c[0].used
    ensures |r| >= 2 && !r[0].used ==> r[1].used
    ensures c[0].used ==> r == c
    decreases |c|
  {
    if |c| >= 2 && !c[0].used && !c[1].used then Absorb([Fuse(c[0], c[1])] + c[2..]) else c
  }

  /** What becomes of the free block `b` chosen for `n` bytes: it is split when a header and at
      least one byte would remain, and its first part is tagged. */
  function Carve(b: Block, n: nat): (r: Chain)
    requires n <= b.size
  {
    if b.size - n > HEADER then
      [Block(b.addr, n, true), Block(b.addr + HEADER + n, b.size - n - HEADER, false)]
    else
      [b.(used := true)]
  }

  /** `heap_alloc` for a rounded size, from the block at the front of `c` onwards. */
  function Alloc(c: Chain, n: nat): Outcome
    decreases |c|
  {
    if c == [] then Outcome([], 0)
    else
      var m := Absorb(c);
      if !m[0].used && m[0].size >= n then Outcome(Carve(m[0], n) + m[1..], m[0].Payload())
      else
        var rest := Alloc(m[1..], n);
        Outcome([m[0]] + rest.chain, rest.ptr)
  }

  /** The first block becomes free and swallows at most one free successor. */
  function FreeHead(c: Chain): (r: Chain)
    requires c != []
  {
    var b := c[0].(used := false);
    if |c| >= 2 && !c[1].used then [Fuse(b, c[1])] + c[2..] else [b] + c[1..]
  }

  /** `heap_free` of the object at address `p`. */
  function Free(c: Chain, p: nat): Chain
    decreases |c|
  {
    if c == [] then []
    else if c[0].Payload() == p then FreeHead(c)
    else [c[0]] + Free(c[1..], p)
  }

  // ---------------------------------------------------------------- tiling

  lemma {:induction false} TilesConcat(a: Chain, b: Chain, lo: nat, mid: nat, hi: nat)
    requires Tiles(a, lo, mid) && Tiles(b, mid, hi)
    ensures Tiles(a + b, lo, hi)
  {
    if a == [] {
      assert a + b == b;
    } else {
      assert (a + b)[1..] == a[1..] + b;
      TilesConcat(a[1..], b, a[0].End(), mid, hi);
    }
  }

  /** Every block of a tiling lies inside it. */
  lemma {:induction false} TilesBounds(c: Chain, lo: nat, hi: nat)
    requires Tiles(c, lo, hi)
    ensures lo <= hi && (c != [] ==> lo + HEADER <= hi)
    ensures forall b :: b in c ==> lo <= b.addr && b.End() <= hi
    decreases |c|
  {
    if c != [] {
      TilesBounds(c[1..], c[0].End(), hi);
      forall b | b in c ensures lo <= b.addr && b.End() <= hi {
        assert b == c[0] || b in c[1..];
      }
    }
  }

  /** The tiling cut at block `k`. */
  lemma {:induction false} TilesCut(c: Chain, lo: nat, hi: nat, k: nat)
    requires Tiles(c, lo, hi) && k < |c|
    ensures Tiles(c[..k], lo, c[k].addr) && Tiles(c[k..], c[k].addr, hi)
    ensures c[k].End() == if k + 1 < |c| then c[k + 1].addr else hi
    decreases |c|
  {
    if k == 0 {
      assert c[0..] == c;
    } else {
      TilesCut(c[1..], c[0].End(), hi, k - 1);
      assert c[..k][1..] == c[1..][..k - 1];
      assert c[k..] == c[1..][k - 1..];
    }
  }

  /** Distinct blocks occupy disjoint ranges. */
  lemma {:induction false} TilesDisjoint(c: Chain, lo: nat, hi: nat)
    requires Tiles(c, lo, hi)
    ensures forall b, d :: b in c && d in c && b != d ==> b.End() <= d.addr || d.End() <= b.addr
    ensures forall i, j :: 0 <= i < j < |c| ==> c[i].End() <= c[j].addr
    decreases |c|
  {
    if c != [] {
      TilesDisjoint(c[1..], c[0].End(), hi);
      TilesBounds(c[1..], c[0].End(), hi);
      forall b, d | b in c && d in c && b != d ensures b.End() <= d.addr || d.End() <= b.addr {
        assert b == c[0] || b in c[1..];
        assert d == c[0] || d in c[1..];
      }
    }
  }

  function TotalSize(c: Chain): nat {
    if c == [] then 0 else c[0].size + TotalSize(c[1..])
  }

  /** Payload bytes and headers add up to the pool. */
  lemma {:induction false} TilesTotal(c: Chain, lo: nat, hi: nat)
    requires Tiles(c, lo, hi)
    ensures TotalSize(c) + HEADER * |c| == hi - lo
    decreases |c|
  {
    if c != [] {
      TilesTotal(c[1..], c[0].End(), hi);
    }
  }

  lemma {:induction false} AbsorbTiles(c: Chain, lo: nat, hi: nat)
    requires c != [] && Tiles(c, lo, hi)
    ensures Tiles(Absorb(c), lo, hi)
    ensures forall b: Block :: b.used ==> (b in Absorb(c) <==> b in c)
    decreases |c|
  {
    if |c| >= 2 && !c[0].used && !c[1].used {
      var d := [Fuse(c[0], c[1])] + c[2..];
      assert c[1..][1..] == c[2..] == d[1..];
      AbsorbTiles(d, lo, hi);
      forall b: Block | b.used ensures b in d <==> b in c {
        assert b in d ==> b in c[2..];
        assert b in c ==> b == c[0] || b == c[1] || b in c[2..];
      }
    }
  }

  lemma CarveTiles(b: Block, n: nat)
    requires n <= b.size
    ensures Tiles(Carve(b, n), b.addr, b.End())
    ensures Coalesced(Carve(b, n))
  {
    if b.size - n > HEADER {
      assert Carve(b, n)[1..][1..] == [];
    }
  }

  /** `heap_alloc` keeps the tiling; live objects stay where they are, and a new one appears only at
      the returned address. */
  lemma {:induction false} AllocTiles(c: Chain, n: nat, lo: nat, hi: nat)
    requires Tiles(c, lo, hi)
    ensures Tiles(Alloc(c, n).chain, lo, hi)
    ensures forall b :: b in c && b.used ==> b in Alloc(c, n).chain
    ensures forall b :: b in Alloc(c, n).chain && b.used ==> b in c || b.Payload() == Alloc(c, n).ptr
    decreases |c|
  {
    if c != [] {
      AbsorbTiles(c, lo, hi);
      var m := Absorb(c);
      if !m[0].used && m[0].size >= n {
        CarveTiles(m[0], n);
        TilesConcat(Carve(m[0], n), m[1..], lo, m[0].End(), hi);
      } else {
        AllocTiles(m[1..], n, m[0].End(), hi);
      }
    }
  }

  /** The block behind the returned address holds at least the rounded size, and at most one header
      more; it was not live before and is live now. */
  lemma {:induction false} AllocGrant(c: Chain, n: nat, lo: nat, hi: nat) returns (g: Block)
    requires Tiles(c, lo, hi) && Alloc(c, n).ptr != 0
    ensures g in Alloc(c, n).chain && g.used && g.Payload() == Alloc(c, n).ptr
    ensures n <= g.size <= n + HEADER
    ensures lo <= g.addr && g.End() <= hi
    ensures forall b :: b in c && b.used ==> b.End() <= g.addr || g.End() <= b.addr
    decreases |c|
  {
    AbsorbTiles(c, lo, hi);
    var m := Absorb(c);
    TilesBounds(m[1..], m[0].End(), hi);
    if !m[0].used && m[0].size >= n {
      g := Carve(m[0], n)[0];
      assert g in Carve(m[0], n) && g.End() <= m[0].End();
      forall b | b in c && b.used ensures b.End() <= g.addr || g.End() <= b.addr {
        assert b in m && b != m[0];
        assert b in m[1..];
      }
    } else {
      g := AllocGrant(m[1..], n, m[0].End(), hi);
      forall b | b in c && b.used ensures b.End() <= g.addr || g.End() <= b.addr {
        assert b in m;
        assert b == m[0] || b in m[1..];
      }
    }
  }

  /** `heap_free` keeps the tiling and removes exactly the freed object from the live ones. */
  lemma {:induction false} FreeTiles(c: Chain, p: nat, lo: nat, hi: nat)
    requires Tiles(c, lo, hi)
    ensures Tiles(Free(c, p), lo, hi)
    ensures forall b: Block :: b.used ==> (b in Free(c, p) <==> b in c && b.Payload() != p)
    decreases |c|
  {
    if c != [] {
      TilesBounds(c[1..], c[0].End(), hi);
      if c[0].Payload() == p {
        assert |c| >= 2 ==> c[1..][1..] == c[2..];
        assert forall b :: b in c ==> b == c[0] || b in c[1..];
        assert |c| >= 2 ==> forall b :: b in c[1..] ==> b == c[1] || b in c[2..];
      } else {
        FreeTiles(c[1..], p, c[0].End(), hi);
        forall b: Block | b.used ensures b in Free(c, p) <==> b in c && b.Payload() != p {
          assert b in c ==> b == c[0] || b in c[1..];
        }
      }
    }
  }

  /** Every block address is a multiple of `g`. */
  ghost predicate AddrsMultipleOf(c: Chain, g: nat)
    requires g > 0
  {
    forall b :: b in c ==> b.addr % g == 0
  }

  lemma {:induction false} AbsorbMultiple(c: Chain, g: nat)
    requires c != [] && g > 0 && AddrsMultipleOf(c, g)
    ensures AddrsMultipleOf(Absorb(c), g)
    decreases |c|
  {
    if |c| >= 2 && !c[0].used && !c[1].used {
      AbsorbMultiple([Fuse(c[0], c[1])] + c[2..], g);
    }
  }

  lemma AddMultiples(a: nat, b: nat, c: nat, g: nat)
    requires g > 0 && a % g == 0 && b % g == 0 && c % g == 0
    ensures (a + b + c) % g == 0
  {
    var x, y, z := a / g, b / g, c / g;
    assert a + b + c == (x + y + z) * g;
    Bits.ModUnique(a + b + c, g, x + y + z, 0);
  }

  /** Splits happen at multiples of `g` as long as the rounded size and the header are multiples. */
  lemma {:induction false} AllocMultiple(c: Chain, n: nat, g: nat)
    requires g > 0 && AddrsMultipleOf(c, g) && n % g == 0 && HEADER % g == 0
    ensures AddrsMultipleOf(Alloc(c, n).chain, g)
    ensures Alloc(c, n).ptr % g == 0
    decreases |c|
  {
    if c != [] {
      AbsorbMultiple(c, g);
      var m := Absorb(c);
      assert m[0] in m;
      AddMultiples(m[0].addr, HEADER, n, g);
      AddMultiples(m[0].addr, HEADER, 0, g);
      if !(!m[0].used && m[0].size >= n) {
        AllocMultiple(m[1..], n, g);
      }
    }
  }

  lemma {:induction false} FreeMultiple(c: Chain, p: nat, g: nat)
    requires g > 0 && AddrsMultipleOf(c, g)
    ensures AddrsMultipleOf(Free(c, p), g)
    decreases |c|
  {
    if c != [] {
      if c[0].Payload() == p {
        assert c[0] in c;
      } else {
        FreeMultiple(c[1..], p, g);
      }
    }
  }
}
