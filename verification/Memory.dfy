/** Byte-addressed memory, and the machine words that the C structures keep in it.

    An address is an index into one array of bytes; address 0 is NULL.  A `size_t` or a pointer is
    eight consecutive bytes (LP64).  Only the round trip of such a word matters to the code, so the
    byte order, which belongs to the machine, is fixed arbitrarily to "low byte first". */
module Memory {
  type byte = x: int | 0 <= x < 256

  const NULL: nat := 0
  const WORD: nat := 8
  const WORD_LIMIT: nat := 0x1_0000_0000_0000_0000

  function Pow256(n: nat): (p: nat)
    ensures p > 0
  {
    if n == 0 then 1 else 256 * Pow256(n - 1)
  }

  function Encode(w: nat, n: nat): (s: seq<byte>)
    ensures |s| == n
  {
    if n == 0 then [] else [w % 256] + Encode(w / 256, n - 1)
  }

  function Decode(s: seq<byte>): (w: nat)
    ensures w < Pow256(|s|)
  {
    if s == [] then 0 else s[0] + 256 * Decode(s[1..])
  }

  lemma {:induction false} DecodeEncode(w: nat, n: nat)
    requires w < Pow256(n)
    ensures Decode(Encode(w, n)) == w
  {
    if n != 0 {
      assert Encode(w, n)[1..] == Encode(w / 256, n - 1);
      DecodeEncode(w / 256, n - 1);
    }
  }

  lemma WordLimit()
    ensures Pow256(WORD) == WORD_LIMIT
  {
    assert Pow256(4) == 0x1_0000_0000;
  }

  /** The word stored at address `a`. */
  function Word(m: seq<byte>, a: nat): (w: nat)
    requires a + WORD <= |m|
  {
    Decode(m[a..a + WORD])
  }

  lemma WordBound(m: seq<byte>, a: nat)
    requires a + WORD <= |m|
    ensures Word(m, a) < WORD_LIMIT
  {
    WordLimit();
  }

  /** Memory `m` after the bytes `s` have been copied to address `a`. */
  function Splice(m: seq<byte>, a: nat, s: seq<byte>): (r: seq<byte>)
    requires a + |s| <= |m|
    ensures |r| == |m|
    ensures forall b {:trigger r[b]} :: 0 <= b < |m| ==> r[b] == if a <= b < a + |s| then s[b - a] else m[b]
  {
    m[..a] + s + m[a + |s|..]
  }

  function PutWord(m: seq<byte>, a: nat, w: nat): (r: seq<byte>)
    requires a + WORD <= |m|
    ensures |r| == |m|
  {
    Splice(m, a, Encode(w, WORD))
  }

  /** Two memories hold the same bytes in [a, a + n). */
  ghost predicate SameBytes(m: seq<byte>, r: seq<byte>, a: nat, n: nat)
    requires |m| == |r|
  {
    forall b {:trigger r[b]} :: a <= b < a + n && b < |m| ==> r[b] == m[b]
  }

  lemma SameWord(m: seq<byte>, r: seq<byte>, a: nat)
    requires |m| == |r| && a + WORD <= |m| && SameBytes(m, r, a, WORD)
    ensures Word(r, a) == Word(m, a)
  {
    assert m[a..a + WORD] == r[a..a + WORD];
  }

  lemma WordAfterPut(m: seq<byte>, a: nat, w: nat)
    requires a + WORD <= |m| && w < WORD_LIMIT
    ensures Word(PutWord(m, a, w), a) == w
  {
    WordLimit();
    assert PutWord(m, a, w)[a..a + WORD] == Encode(w, WORD);
    DecodeEncode(w, WORD);
  }

  /** Copying `s` to `a` leaves every word that does not overlap it alone. */
  lemma WordAfterSplice(m: seq<byte>, a: nat, s: seq<byte>, b: nat)
    requires a + |s| <= |m| && b + WORD <= |m|
    requires b + WORD <= a || a + |s| <= b
    ensures Word(Splice(m, a, s), b) == Word(m, b)
  {
    SameWord(m, Splice(m, a, s), b);
  }

  lemma BytesElsewhere(m: seq<byte>, at: nat, w: nat, a: nat, n: nat)
    requires at + WORD <= |m| && (a + n <= at || at + WORD <= a)
    ensures SameBytes(m, PutWord(m, at, w), a, n)
  {
  }

  /** `*(uintptr_t*)a = w` */
  method StoreWord(mem: array<byte>, a: nat, w: nat)
    requires a + WORD <= mem.Length && w < WORD_LIMIT
    modifies mem
    ensures mem[..] == PutWord(old(mem[..]), a, w)
    ensures Word(mem[..], a) == w
    ensures forall b {:trigger mem[b]} :: 0 <= b < mem.Length && !(a <= b < a + WORD) ==> mem[b] == old(mem[b])
    ensures forall b: nat {:trigger Word(mem[..], b)} ::
              b + WORD <= mem.Length && (b + WORD <= a || a + WORD <= b) ==> Word(mem[..], b) == Word(old(mem[..]), b)
  {
    CopyIn(mem, a, Encode(w, WORD));
    ghost var before := old(mem[..]);
    WordAfterPut(before, a, w);
    forall b: nat | b + WORD <= mem.Length && (b + WORD <= a || a + WORD <= b)
      ensures Word(mem[..], b) == Word(before, b)
    {
      WordAfterSplice(before, a, Encode(w, WORD), b);
    }
  }

  /** `memcpy(a, s, |s|)` into the memory. */
  method CopyIn(mem: array<byte>, a: nat, s: seq<byte>)
    requires a + |s| <= mem.Length
    modifies mem
    ensures mem[..] == Splice(old(mem[..]), a, s)
  {
    forall i | 0 <= i < |s| {
      mem[a + i] := s[i];
    }
    assert mem[..] == Splice(old(mem[..]), a, s);
  }
}

/** Bit operations on machine words, written on natural numbers. */
module Bits {
  function And(x: nat, y: nat): (r: nat)
  {
    if x == 0 || y == 0 then 0
    else (if x % 2 == 1 && y % 2 == 1 then 1 else 0) + 2 * And(x / 2, y / 2)
  }

  function Or(x: nat, y: nat): (r: nat)
    decreases x + y
  {
    if x == 0 then y else if y == 0 then x
    else (if x % 2 + y % 2 > 0 then 1 else 0) + 2 * Or(x / 2, y / 2)
  }

  function Pow2(k: nat): (p: nat)
    ensures p > 0
  {
    if k == 0 then 1 else 2 * Pow2(k - 1)
  }

  /** Bit `k` of `x` is set. */
  predicate Bit(x: nat, k: nat) {
    if k == 0 then x % 2 == 1 else Bit(x / 2, k - 1)
  }

  predicate Share(x: nat, y: nat, k: nat) { Bit(x, k) && Bit(y, k) }

  /** The bitwise "and" is 0 exactly when no bit is set in both. */
  lemma {:induction false} AndZero(x: nat, y: nat)
    ensures And(x, y) == 0 <==> forall k: nat :: !Share(x, y, k)
  {
    if x == 0 || y == 0 {
      forall k: nat ensures !Share(x, y, k) {
        NoBits(k);
      }
    } else {
      AndZero(x / 2, y / 2);
      if And(x, y) == 0 {
        forall k: nat ensures !Share(x, y, k) {
          if k > 0 {
            assert !Share(x / 2, y / 2, k - 1);
          }
        }
      } else if x % 2 == 1 && y % 2 == 1 {
        assert Share(x, y, 0);
      } else {
        var k: nat :| Share(x / 2, y / 2, k);
        assert Share(x, y, k + 1);
      }
    }
  }

  lemma {:induction false} NoBits(k: nat)
    ensures !Bit(0, k)
  {
    if k > 0 {
      NoBits(k - 1);
    }
  }

  /** Masking with 2^k - 1 is the remainder modulo 2^k. */
  lemma {:induction false} AndMask(x: nat, k: nat)
    ensures And(x, Pow2(k) - 1) == x % Pow2(k)
  {
    var mask := Pow2(k) - 1;
    if x == 0 || mask == 0 {
      ModUnique(x, Pow2(k), if x == 0 then 0 else x, 0);
    } else {
      var p := Pow2(k - 1);
      assert mask / 2 == p - 1 && mask % 2 == 1;
      AndMask(x / 2, k - 1);
      assert And(x, mask) == x % 2 + 2 * And(x / 2, p - 1);
      HalfMod(x, p);
    }
  }

  lemma HalfMod(x: nat, p: nat)
    requires p > 0
    ensures x % (2 * p) == x % 2 + 2 * ((x / 2) % p)
  {
    var h := x / 2;
    var q, r := h / p, h % p;
    assert h == q * p + r;
    assert x == q * (2 * p) + (x % 2 + 2 * r);
    ModUnique(x, 2 * p, q, x % 2 + 2 * r);
  }

  lemma ModUnique(x: nat, m: nat, q: nat, r: nat)
    requires m > 0 && r < m && x == q * m + r
    ensures x % m == r && x / m == q
  {
    var d: int := x / m - q;
    assert d * m == r - x % m by {
      assert x == (x / m) * m + x % m;
      assert d * m == (x / m) * m - q * m;
    }
    NoSmallMultiple(d, m);
  }

  /** A multiple of `m` does not change the remainder of what it is added to. */
  lemma AddRemainder(x: nat, y: nat, m: nat)
    requires m > 0 && x % m == 0
    ensures (x + y) % m == y % m
  {
    var q, r := x / m, y / m;
    assert x == q * m && y == r * m + y % m;
    assert x + y == (q + r) * m + y % m;
    ModUnique(x + y, m, q + r, y % m);
  }

  lemma NoSmallMultiple(d: int, m: int)
    requires m >= 0
    ensures -m < d * m < m ==> d == 0
  {
    if d >= 1 {
      assert d * m >= 1 * m;
    } else if d <= -1 {
      assert (-d) * m >= 1 * m;
    }
  }

  /** Every word below 2^k survives masking with 2^k - 2 except for bit 0. */
  lemma ClearBit0(x: nat, k: nat)
    requires 1 <= k && x < Pow2(k)
    ensures And(x, Pow2(k) - 2) == x - x % 2
  {
    var p := Pow2(k - 1);
    var mask := Pow2(k) - 2;
    assert mask / 2 == p - 1 && mask % 2 == 0;
    if x > 0 && mask > 0 {
      AndMask(x / 2, k - 1);
      ModUnique(x / 2, p, 0, x / 2);
    }
  }

  lemma TestBit0(x: nat)
    ensures And(x, 1) == x % 2
  {
    AndMask(x, 1);
    assert Pow2(1) == 2;
  }

  lemma SetBit0(x: nat)
    ensures Or(x, 1) == x - x % 2 + 1
  {
  }

  /** A power of two divides every larger one. */
  lemma {:induction false} Pow2Divides(j: nat, k: nat)
    requires j <= k
    ensures Pow2(k) % Pow2(j) == 0 && Pow2(j) <= Pow2(k)
  {
    if j == k {
      ModUnique(Pow2(k), Pow2(j), 1, 0);
    } else {
      Pow2Divides(j, k - 1);
      var q := Pow2(k - 1) / Pow2(j);
      assert Pow2(k - 1) == q * Pow2(j);
      ModUnique(Pow2(k), Pow2(j), 2 * q, 0);
    }
  }

  lemma DoubleProduct(x: nat, y: nat)
    ensures 2 * (x * y) == (2 * x) * y
  {
  }

  lemma {:induction false} Pow2Sum(j: nat, k: nat)
    ensures Pow2(j + k) == Pow2(j) * Pow2(k)
  {
    if j > 0 {
      Pow2Sum(j - 1, k);
      DoubleProduct(Pow2(j - 1), Pow2(k));
    }
  }

  lemma Pow2Word()
    ensures Pow2(64) == 0x1_0000_0000_0000_0000
  {
    assert Pow2(8) == 256 by {
      assert Pow2(4) == 16;
    }
    hide Pow2;
    Pow2Sum(8, 8);
    Pow2Sum(16, 16);
    Pow2Sum(32, 32);
  }
}
