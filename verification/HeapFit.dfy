/** Completeness of the search: what `heap_alloc` can and cannot satisfy, in terms of the maximal
    runs of adjacent free blocks of the chain it finds. */
module HeapFit {
  import opened HeapChain
  import HeapEager

  /** Blocks i..j of `c` are free and the run cannot be extended on either side. */
  ghost predicate MaxRun(c: Chain, i: int, j: int) {
    && 0 <= i < j <= |c|
    && (forall k {:trigger c[k]} :: i <= k < j ==> !c[k].used)
    && (i == 0 || c[i - 1].used)
    && (j == |c| || c[j].used)
  }

  /** The payload that the run offers once its blocks have been merged. */
  ghost function Capacity(c: Chain, i: int, j: int): int
    requires 0 <= i < j <= |c|
  {
    c[j - 1].End() - c[i].Payload()
  }

  ghost predicate Fits(c: Chain, i: int, j: int, n: nat) {
    MaxRun(c, i, j) && Capacity(c, i, j) >= n
  }

  /** No run that starts in [from, to) fits. */
  ghost predicate NoneFits(c: Chain, from: int, to: int, n: nat) {
    forall i, j :: from <= i < to && MaxRun(c, i, j) ==> Capacity(c, i, j) < n
  }

  /** The end of the free run that starts at block `i`. */
  lemma RunEnd(c: Chain, i: nat) returns (j: nat)
    requires i < |c| && !c[i].used
    ensures i < j <= |c| && (forall k {:trigger c[k]} :: i <= k < j ==> !c[k].used) && (j == |c| || c[j].used)
  {
    j := i + 1;
    while j < |c| && !c[j].used
      invariant i < j <= |c|
      invariant forall k {:trigger c[k]} :: i <= k < j ==> !c[k].used
    {
      j := j + 1;
    }
  }

  ghost predicate FreeUpTo(c: Chain, j: int) {
    0 <= j <= |c| && forall b :: b in c[..j] ==> !b.used
  }

  /** The inner loop of `heap_alloc` turns the run at the front into one block. */
  lemma {:induction false} AbsorbRun(c: Chain, j: nat, lo: nat, hi: nat)
    requires Tiles(c, lo, hi)
    requires 0 < j && FreeUpTo(c, j) && (j == |c| || c[j].used)
    ensures Absorb(c)[0].End() == c[j - 1].End() && Absorb(c)[0].addr == lo
    ensures Absorb(c)[1..] == c[j..]
    decreases |c|
  {
    assert c[0] in c[..j];
    if j >= 2 {
      assert c[1] in c[..j];
      var d := [Fuse(c[0], c[1])] + c[2..];
      assert Tiles(d, lo, hi) by {
        assert d[1..] == c[2..] == c[1..][1..];
      }
      assert FreeUpTo(d, j - 1) by {
        assert d[..j - 1] == [d[0]] + c[2..j];
        assert forall b :: b in c[2..j] ==> b in c[..j];
      }
      AbsorbRun(d, j - 1, lo, hi);
      assert d[j - 1..] == c[j..];
      assert j >= 3 ==> d[j - 2] == c[j - 1];
    }
  }

  /** No maximal run starts inside a run, and only one starts at its beginning. */
  lemma RunsFrom(c: Chain, k: nat, e: nat, to: int, n: nat)
    requires Stretch(c, k, e) && NoneFits(c, e, to, n)
    requires !c[k].used ==> Capacity(c, k, e) < n
    ensures NoneFits(c, k, to, n)
  {
    forall i, j | k <= i < to && MaxRun(c, i, j) ensures Capacity(c, i, j) < n {
      if i < e {
        assert i == 0 || c[i - 1].used;
        assert j == |c| || c[j].used;
        assert e == |c| || c[e].used;
        assert i == k && (!c[k].used ==> j == e);
      }
    }
  }

  // ---------------------------------------------------------------- what becomes of the blocks

  /** Blocks `k` to `e` as one. */
  ghost function Merged(c: Chain, k: nat, e: nat): Block
    requires k < e <= |c|
  {
    var size := Capacity(c, k, e);
    Block(c[k].addr, if size < 0 then 0 else size, c[k].used)
  }

  /** Blocks `k` to `e` are one live block, or free blocks up to a live one or the end. */
  ghost predicate Stretch(c: Chain, k: nat, e: nat) {
    && k < e <= |c|
    && (c[k].used ==> e == k + 1)
    && (!c[k].used ==> (forall x {:trigger c[x]} :: k <= x < e ==> !c[x].used) && (e == |c| || c[e].used))
  }

  lemma AbsorbStretch(c: Chain, s: Chain, k: nat, e: nat, lo: nat, hi: nat)
    requires Stretch(c, k, e) && Tiles(s, lo, hi) && e - k <= |s| && k + |s| <= |c|
    requires forall x {:trigger s[x]} :: 0 <= x < |s| ==> s[x] == c[k + x]
    ensures Absorb(s)[0] == Merged(c, k, e) && Absorb(s)[1..] == s[e - k..] && Capacity(c, k, e) >= 0
  {
    assert s[0] == c[k];
    if !c[k].used {
      assert FreeUpTo(s, e - k);
      assert s[e - k - 1] == c[e - 1];
      assert e - k < |s| ==> s[e - k] == c[e];
      AbsorbRun(s, e - k, lo, hi);
    }
  }

  /** The merged form of a part of the chain begins with its first stretch. */
  lemma NormFront(c: Chain, k: nat, e: nat, i: nat, lo: nat, hi: nat)
    requires Tiles(c, lo, hi) && Stretch(c, k, e) && e <= i <= |c|
    ensures HeapEager.Norm(c[k..i]) == [Merged(c, k, e)] + HeapEager.Norm(c[e..i])
  {
    var s := c[k..i];
    PartTiles(c, k, i, lo, hi);
    hide Tiles, Stretch, Absorb, Merged;
    AbsorbStretch(c, s, k, e, c[k].addr, if i < |c| then c[i].addr else hi);
    assert s[e - k..] == c[e..i];
  }

  lemma PartOf(c: Chain, k: nat, i: nat)
    requires k <= i <= |c|
    ensures c[k..][..i - k] == c[k..i]
  {
  }

  lemma PartTiles(c: Chain, k: nat, i: nat, lo: nat, hi: nat)
    requires Tiles(c, lo, hi) && k < i <= |c|
    ensures Tiles(c[k..i], c[k].addr, if i < |c| then c[i].addr else hi)
  {
    TilesCut(c, lo, hi, k);
    if i < |c| {
      TilesCut(c[k..], c[k].addr, hi, i - k);
      PartOf(c, k, i);
    } else {
      assert c[k..] == c[k..i];
    }
  }

  /** What the run from block `i` to `j` becomes when it serves `n` bytes. */
  ghost function Served(c: Chain, i: int, j: int, n: nat): Chain
    requires Fits(c, i, j, n)
  {
    var size: nat := Capacity(c, i, j);
    if size - n > HEADER then
      [Block(c[i].addr, n, true), Block(c[i].addr + HEADER + n, size - n - HEADER, false)]
    else
      [Block(c[i].addr, size, true)]
  }

  /** One step of the search. */
  lemma SearchStretch(c: Chain, k: nat, e: nat, n: nat, lo: nat, hi: nat)
    requires Tiles(c, lo, hi) && Stretch(c, k, e)
    ensures !c[k].used && Capacity(c, k, e) >= n && MaxRun(c, k, e) ==>
      Alloc(c[k..], n) == Outcome(Served(c, k, e, n) + c[e..], c[k].Payload())
    ensures !(!c[k].used && Capacity(c, k, e) >= n) ==>
      && Alloc(c[k..], n).chain == [Merged(c, k, e)] + Alloc(c[e..], n).chain
      && Alloc(c[k..], n).ptr == Alloc(c[e..], n).ptr
  {
    TilesCut(c, lo, hi, k);
    var s := c[k..];
    hide Tiles, Absorb;
    AbsorbStretch(c, s, k, e, c[k].addr, hi);
    assert s[e - k..] == c[e..];
  }

  lemma StretchAt(c: Chain, k: nat) returns (e: nat)
    requires k < |c|
    ensures Stretch(c, k, e)
  {
    if c[k].used {
      e := k + 1;
    } else {
      e := RunEnd(c, k);
    }
  }

  /** The blocks of the chain from block `k` on after an allocation. */
  lemma {:induction false} AllocFrom(c: Chain, k: nat, n: nat, lo: nat, hi: nat) returns (i: nat, j: nat)
    requires Tiles(c, lo, hi) && k <= |c|
    requires k == 0 || k == |c| || c[k - 1].used || c[k].used
    ensures Alloc(c[k..], n).ptr == 0 ==>
      NoneFits(c, k, |c|, n) && Alloc(c[k..], n).chain == HeapEager.Norm(c[k..|c|])
    ensures Alloc(c[k..], n).ptr != 0 ==>
      && k <= i && Fits(c, i, j, n) && Alloc(c[k..], n).ptr == c[i].Payload() && NoneFits(c, k, i, n)
      && Alloc(c[k..], n).chain == HeapEager.Norm(c[k..i]) + (Served(c, i, j, n) + c[j..])
    decreases |c| - k
  {
    i, j := 0, 0;
    if k < |c| {
      var e := StretchAt(c, k);
      SearchStretch(c, k, e, n, lo, hi);
      if !c[k].used && Capacity(c, k, e) >= n {
        i, j := k, e;
        assert MaxRun(c, k, e);
        assert HeapEager.Norm(c[k..i]) + (Served(c, i, j, n) + c[j..]) == Served(c, i, j, n) + c[j..];
      } else {
        i, j := AllocFrom(c, e, n, lo, hi);
        var to := if Alloc(c[k..], n).ptr == 0 then |c| else i;
        RunsFrom(c, k, e, to, n);
        NormFront(c, k, e, to, lo, hi);
        hide Alloc, Tiles, Merged, Served, HeapEager.Norm, Stretch, MaxRun, Capacity;
        if Alloc(c[k..], n).ptr != 0 {
          Regroup([Merged(c, k, e)], HeapEager.Norm(c[e..i]), Served(c, i, j, n) + c[j..]);
        }
      }
    }
  }

  lemma Regroup(a: Chain, b: Chain, r: Chain)
    ensures a + (b + r) == (a + b) + r
  {
  }

  /** Everything `heap_alloc` does to the blocks.  It fails with all free runs merged; or it takes the
      first maximal run (i, j) that fits, merges the runs in front of it, leaves what lies behind it alone,
      and splits it exactly if more than a header would remain. */
  lemma AllocExact(c: Chain, n: nat, lo: nat, hi: nat) returns (i: nat, j: nat)
    requires Tiles(c, lo, hi)
    ensures Alloc(c, n).ptr == 0 ==> NoneFits(c, 0, |c|, n) && Alloc(c, n).chain == HeapEager.Norm(c)
    ensures Alloc(c, n).ptr != 0 ==>
      && Fits(c, i, j, n) && NoneFits(c, 0, i, n) && Alloc(c, n).ptr == c[i].Payload()
      && var size: nat := Capacity(c, i, j);
         Alloc(c, n).chain == HeapEager.Norm(c[..i])
           + ((if size - n > HEADER
               then [Block(c[i].addr, n, true), Block(c[i].addr + HEADER + n, size - n - HEADER, false)]
               else [Block(c[i].addr, size, true)])
              + c[j..])
  {
    assert c[0..] == c[0..|c|] == c;
    i, j := AllocFrom(c, 0, n, lo, hi);
    if Alloc(c, n).ptr != 0 {
      assert c[0..i] == c[..i];
    }
  }

  /** `heap_alloc` fails exactly when no maximal free run is large enough, and otherwise returns the
      lowest-addressed run that is. */
  lemma FirstFitComplete(c: Chain, n: nat, lo: nat, hi: nat)
    requires Tiles(c, lo, hi)
    ensures Alloc(c, n).ptr == 0 <==> NoneFits(c, 0, |c|, n)
    ensures Alloc(c, n).ptr != 0 ==>
      exists i, j :: Fits(c, i, j, n) && Alloc(c, n).ptr == c[i].Payload() && NoneFits(c, 0, i, n)
  {
    var i, j := AllocExact(c, n, lo, hi);
    if Alloc(c, n).ptr != 0 {
      assert Fits(c, i, j, n);
    }
  }

  /** No permanent fragmentation: with nothing live, everything up to the whole pool less one header
      can be had, at the very front. */
  lemma AllFreeServesAll(c: Chain, n: nat, lo: nat, hi: nat)
    requires Tiles(c, lo, hi) && lo < hi
    requires forall b :: b in c ==> !b.used
    ensures Alloc(c, n).ptr == if n <= hi - lo - HEADER then lo + HEADER else 0
  {
    TilesCut(c, lo, hi, |c| - 1);
    TilesBounds(c, lo, hi);
    var m := |c|;
    assert c[0] in c;
    AbsorbRun(c, m, lo, hi);
    assert Alloc([], n).ptr == 0;
  }
}
