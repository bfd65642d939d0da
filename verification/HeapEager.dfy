/** Deferred coalescing is invisible.  The allocator of src/heap.c merges free blocks late: `free`
    joins one successor, `alloc` joins what it walks past.  It is compared here with an allocator
    that joins both neighbours at every `free` and never during `alloc`. */
module HeapEager {
  import opened HeapChain

  /** All adjacent free blocks merged. */
  function Norm(c: Chain): Chain
    decreases |c|
  {
    if c == [] then [] else [Absorb(c)[0]] + Norm(Absorb(c)[1..])
  }

  /** First fit on a chain that needs no merging. */
  function EagerAlloc(d: Chain, n: nat): Outcome {
    if d == [] then Outcome([], 0)
    else if !d[0].used && d[0].size >= n then Outcome(Carve(d[0], n) + d[1..], d[0].Payload())
    else
      var rest := EagerAlloc(d[1..], n);
      Outcome([d[0]] + rest.chain, rest.ptr)
  }

  /** The freed block joins its free predecessor and its free successor at once. */
  function EagerFree(d: Chain, p: nat): Chain {
    if d == [] then []
    else if d[0].Payload() == p then FreeHead(d)
    else if |d| >= 2 && !d[0].used && d[1].Payload() == p then
      var m := FreeHead(d[1..]);
      [Fuse(d[0], m[0])] + m[1..]
    else [d[0]] + EagerFree(d[1..], p)
  }

  // ---------------------------------------------------------------- the normal form

  /** The normal form tiles the same range with the same live objects and no free neighbours. */
  lemma {:induction false} NormSound(c: Chain, lo: nat, hi: nat)
    requires Tiles(c, lo, hi)
    ensures Tiles(Norm(c), lo, hi) && Coalesced(Norm(c))
    ensures forall b: Block :: b.used ==> (b in Norm(c) <==> b in c)
    ensures c != [] ==> Norm(c) != [] && Norm(c)[0].used == c[0].used
    decreases |c|
  {
    if c != [] {
      AbsorbTiles(c, lo, hi);
      var m := Absorb(c);
      NormSound(m[1..], m[0].End(), hi);
      assert Norm(c)[1..] == Norm(m[1..]);
      forall b: Block | b.used ensures b in Norm(c) <==> b in c {
        assert b in m <==> b == m[0] || b in m[1..];
      }
    }
  }

  /** A chain is determined by what it covers and by its live objects, once it has no free
      neighbours: so `Norm(c)` is the only such chain for `c`. */
  lemma {:induction false} NormUnique(d: Chain, e: Chain, lo: nat, hi: nat)
    requires Tiles(d, lo, hi) && Coalesced(d) && Tiles(e, lo, hi) && Coalesced(e)
    requires forall b: Block :: b.used ==> (b in d <==> b in e)
    ensures d == e
    decreases |d|
  {
    if d == [] {
      TilesBounds(e, lo, hi);
    } else {
      TilesBounds(d, lo, hi);
      assert e != [];
      HeadEndsFirst(d, e, lo, hi);
      HeadEndsFirst(e, d, lo, hi);
      assert d[0] == e[0];
      TilesDisjoint(d, lo, hi);
      TilesDisjoint(e, lo, hi);
      forall b: Block | b.used ensures b in d[1..] <==> b in e[1..] {
        assert b in d <==> b == d[0] || b in d[1..];
        assert b in e <==> b == e[0] || b in e[1..];
        TilesBounds(d[1..], d[0].End(), hi);
        TilesBounds(e[1..], e[0].End(), hi);
      }
      NormUnique(d[1..], e[1..], d[0].End(), hi);
    }
  }

  /** The first block of `d` has the tag of the first block of `e` and does not end before it. */
  lemma HeadEndsFirst(d: Chain, e: Chain, lo: nat, hi: nat)
    requires d != [] && e != []
    requires Tiles(d, lo, hi) && Coalesced(d) && Tiles(e, lo, hi)
    requires forall b: Block :: b.used ==> (b in d <==> b in e)
    ensures d[0].used ==> e[0] == d[0]
    ensures !e[0].used ==> e[0].End() <= d[0].End()
  {
    TilesBounds(e[1..], e[0].End(), hi);
    TilesBounds(d[1..], d[0].End(), hi);
    if d[0].used {
      assert d[0] in e;
    } else if |d| >= 2 && !e[0].used {
      assert d[1].used && d[1] in d;
      assert d[1] in e[1..];
    }
  }

  lemma {:induction false} EagerFreeSound(d: Chain, p: nat, lo: nat, hi: nat)
    requires Tiles(d, lo, hi) && Coalesced(d)
    ensures Tiles(EagerFree(d, p), lo, hi)
    ensures Live(d, p) ==> Coalesced(EagerFree(d, p))
    ensures forall b: Block :: b.used ==> (b in EagerFree(d, p) <==> b in d && b.Payload() != p)
    ensures d != [] && d[0].used && d[0].Payload() != p ==> EagerFree(d, p)[0].used
    ensures d != [] && !d[0].used && d[0].Payload() != p && Live(d, p) && |d| >= 2 && d[1].Payload() != p ==>
      |EagerFree(d, p)| >= 2 && EagerFree(d, p)[0] == d[0] && EagerFree(d, p)[1].used
    decreases |d|
  {
    if d != [] {
      var t := d[1..];
      TilesBounds(t, d[0].End(), hi);
      assert forall b :: b in d <==> b == d[0] || b in t;
      if d[0].Payload() == p {
        FreeTiles(d, p, lo, hi);
        assert Free(d, p) == FreeHead(d);
        if Live(d, p) {
          FreeHeadCoalesced(d);
        }
      } else if |d| >= 2 && !d[0].used && d[1].Payload() == p {
        FreeTiles(t, p, d[0].End(), hi);
        assert Free(t, p) == FreeHead(t);
        var m := FreeHead(t);
        var r := EagerFree(d, p);
        assert r[1..] == m[1..];
        if Live(d, p) {
          assert d[1].used;
          FreeHeadCoalesced(t);
        }
      } else {
        EagerFreeSound(t, p, d[0].End(), hi);
        assert EagerFree(d, p)[1..] == EagerFree(t, p);
        if Live(d, p) {
          assert Live(t, p);
        }
      }
    }
  }

  lemma FreeHeadCoalesced(d: Chain)
    requires d != [] && Coalesced(d) && d[0].used
    ensures Coalesced(FreeHead(d))
    ensures !FreeHead(d)[0].used && (|FreeHead(d)| >= 2 ==> FreeHead(d)[1].used)
  {
    if |d| >= 3 {
      assert d[1].used || d[2].used;
    }
  }

  // ---------------------------------------------------------------- one step

  lemma {:induction false} NormAlloc(c: Chain, n: nat)
    ensures Norm(Alloc(c, n).chain) == EagerAlloc(Norm(c), n).chain
    ensures Alloc(c, n).ptr == EagerAlloc(Norm(c), n).ptr
    decreases |c|
  {
    if c != [] {
      var m := Absorb(c);
      var t := m[1..];
      assert Norm(c)[1..] == Norm(t);
      if !m[0].used && m[0].size >= n {
        NormCarve(m[0], n, t);
      } else {
        NormAlloc(t, n);
        var r := Alloc(t, n).chain;
        if !m[0].used {
          AllocHead(t, n);
        }
        NormCons(m[0], r);
      }
    }
  }

  /** A block in front of a chain it cannot merge with. */
  lemma NormCons(b: Block, r: Chain)
    requires b.used || r == [] || r[0].used
    ensures Norm([b] + r) == [b] + Norm(r)
  {
    assert Absorb([b] + r) == [b] + r;
    assert ([b] + r)[1..] == r;
  }

  lemma NormCarve(b: Block, n: nat, t: Chain)
    requires n <= b.size && !b.used && (t == [] || t[0].used)
    ensures Norm(Carve(b, n) + t) == Carve(b, n) + Norm(t)
  {
    var k := Carve(b, n);
    if |k| == 2 {
      assert k + t == [k[0]] + ([k[1]] + t);
      NormCons(k[1], t);
      NormCons(k[0], [k[1]] + t);
      assert k + Norm(t) == [k[0]] + ([k[1]] + Norm(t));
    } else {
      NormCons(k[0], t);
    }
  }

  /** A live first block stays first. */
  lemma AllocHead(c: Chain, n: nat)
    requires c == [] || c[0].used
    ensures c == [] ==> Alloc(c, n).chain == []
    ensures c != [] ==> Alloc(c, n).chain != [] && Alloc(c, n).chain[0].used
  {
  }

  lemma NormFree(c: Chain, p: nat, lo: nat, hi: nat)
    requires Tiles(c, lo, hi) && Live(c, p)
    ensures Norm(Free(c, p)) == EagerFree(Norm(c), p)
  {
    FreeTiles(c, p, lo, hi);
    NormSound(c, lo, hi);
    NormSound(Free(c, p), lo, hi);
    EagerFreeSound(Norm(c), p, lo, hi);
    NormUnique(Norm(Free(c, p)), EagerFree(Norm(c), p), lo, hi);
  }
}
