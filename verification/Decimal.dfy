/** The texts that `snprintf` and `strncmp` deal with in src/usb/vhci.c: "%u-%u" and "%03d". */
module Decimal {
  function Digit(d: nat): char
    requires d < 10
  {
    '0' + d as char
  }

  /** "%u" */
  function Digits(n: nat): (s: string)
    ensures s != []
  {
    if n < 10 then [Digit(n)] else Digits(n / 10) + [Digit(n % 10)]
  }

  /** The number that a text stands for. */
  function Value(s: string): nat {
    if s == [] then 0
    else
      var c := s[|s| - 1];
      10 * Value(s[..|s| - 1]) + if '0' <= c <= '9' then (c - '0') as nat else 0
  }

  lemma {:induction false} ValueOfDigits(n: nat)
    ensures Value(Digits(n)) == n
    ensures forall i :: 0 <= i < |Digits(n)| ==> '0' <= Digits(n)[i] <= '9'
  {
    var s := Digits(n);
    if n >= 10 {
      ValueOfDigits(n / 10);
      assert s[..|s| - 1] == Digits(n / 10);
    } else {
      assert s[..0] == [];
    }
  }

  function Pow10(k: nat): (p: nat)
    ensures p > 0
  {
    if k == 0 then 1 else 10 * Pow10(k - 1)
  }

  lemma {:induction false} DigitsLength(n: nat, k: nat)
    requires k > 0 && n < Pow10(k)
    ensures |Digits(n)| <= k
  {
    if n >= 10 {
      assert k > 1;
      DigitsLength(n / 10, k - 1);
    }
  }

  predicate IsNumeral(s: string) {
    forall i {:trigger s[i]} :: 0 <= i < |s| ==> '0' <= s[i] <= '9'
  }

  /** The text is the number `n` in decimal: only digits, with value `n`, and without a leading zero. */
  predicate Spells(s: string, n: nat) {
    s != [] && IsNumeral(s) && Value(s) == n && (|s| > 1 ==> s[0] != '0')
  }

  lemma {:induction false} DigitsSpell(n: nat)
    ensures Spells(Digits(n), n)
    ensures n > 0 ==> Digits(n)[0] != '0'
  {
    ValueOfDigits(n);
    if n >= 10 {
      DigitsSpell(n / 10);
      assert Digits(n)[0] == Digits(n / 10)[0];
    }
  }

  /** "%u-%u" */
  function Pair(a: nat, b: nat): string {
    Digits(a) + "-" + Digits(b)
  }

  /** A printed pair is the first number, a dash and the second number. */
  lemma PairSpells(a: nat, b: nat) returns (i: nat)
    ensures var s := Pair(a, b);
      i < |s| && s[i] == '-' && Spells(s[..i], a) && Spells(s[i + 1..], b)
  {
    DigitsSpell(a);
    DigitsSpell(b);
    i := |Digits(a)|;
    assert Pair(a, b)[..i] == Digits(a) && Pair(a, b)[i + 1..] == Digits(b);
  }

  /** For instance, most significant digit first. */
  lemma PairInstances()
    ensures Pair(0, 1) == "0-1" && Pair(12, 345) == "12-345"
  {
    assert Digits(34) == "34";
  }

  /** Different pairs are printed differently. */
  lemma PairInjective(a: nat, b: nat, c: nat, d: nat)
    requires Pair(a, b) == Pair(c, d)
    ensures a == c && b == d
  {
    ValueOfDigits(a);
    ValueOfDigits(b);
    ValueOfDigits(c);
    ValueOfDigits(d);
    var s, t := Pair(a, b), Pair(c, d);
    var i, j := |Digits(a)|, |Digits(c)|;
    assert s[i] == '-' && t[j] == '-';
    assert s == t && i == j;
    assert Digits(a) == s[..i] && Digits(c) == t[..j];
    assert Digits(b) == s[i + 1..] && Digits(d) == t[j + 1..];
  }

  /** A pair of 32-bit numbers of which the second is below 65535 takes at most 16 characters. */
  lemma PairLength(a: nat, b: nat)
    requires a < 0x1_0000_0000 && b < 65535
    ensures |Pair(a, b)| <= 16
  {
    assert Pow10(5) == 100000;
    assert Pow10(10) == 10000000000;
    DigitsLength(a, 10);
    DigitsLength(b, 5);
  }

  function Zeros(n: nat): string {
    if n == 0 then "" else "0" + Zeros(n - 1)
  }

  /** "%03d" */
  function Padded(n: int): string {
    var digits := Digits(if n < 0 then -n else n);
    var sign := if n < 0 then "-" else "";
    var width := |sign| + |digits|;
    sign + Zeros(if width < 3 then 3 - width else 0) + digits
  }

  /** A `uint32_t` read as an `int`. */
  function Signed(n: nat): int {
    if n < 0x8000_0000 then n else n - 0x1_0000_0000
  }

  lemma {:induction false} ZerosAre(n: nat)
    ensures |Zeros(n)| == n && forall i {:trigger Zeros(n)[i]} :: 0 <= i < n ==> Zeros(n)[i] == '0'
  {
    if n > 0 {
      ZerosAre(n - 1);
    }
  }

  /** The number `n` in decimal, with leading zeros only in a field that is just as wide as it must be. */
  predicate IsPadded(s: string, n: nat, wide: bool) {
    s != [] && IsNumeral(s) && Value(s) == n && (wide ==> s[0] != '0')
  }

  /** A decimal number in a field of at least three characters: a minus sign if it is negative, digits with
      its absolute value, and leading zeros only to fill the three characters. */
  predicate FillsField(s: string, n: int) {
    && |s| >= 3
    && if n < 0 then s[0] == '-' && IsPadded(s[1..], -n, |s| > 3) else IsPadded(s, n, |s| > 3)
  }

  lemma {:induction false} ValueOfZeros(n: nat, s: string)
    ensures Value(Zeros(n) + s) == Value(s)
    decreases n + |s|
  {
    var t := Zeros(n) + s;
    if s != [] {
      assert t[..|t| - 1] == Zeros(n) + s[..|s| - 1];
      ValueOfZeros(n, s[..|s| - 1]);
    } else if n > 0 {
      ZerosAre(n);
      ZerosAre(n - 1);
      assert t == Zeros(n);
      assert t[..n - 1] == Zeros(n - 1) + [];
      ValueOfZeros(n - 1, []);
    } else {
      assert t == [];
    }
  }

  lemma PaddedFills(n: int)
    ensures FillsField(Padded(n), n)
  {
    var m: nat := if n < 0 then -n else n;
    var digits := Digits(m);
    var fill: nat := if n < 0 && |digits| < 2 then 2 - |digits| else if n >= 0 && |digits| < 3 then 3 - |digits| else 0;
    DigitsSpell(m);
    ZerosAre(fill);
    ValueOfZeros(fill, digits);
    var s := Padded(n);
    assert (if n < 0 then s[1..] else s) == Zeros(fill) + digits;
  }

  lemma PaddedInstances()
    ensures Padded(7) == "007" && Padded(-1) == "-01" && Padded(1234) == "1234"
  {
    assert Zeros(2) == "00";
    assert Digits(123) == "123";
  }

  /** A 32-bit number takes at most 11 characters. */
  lemma PaddedLength(n: int)
    requires -0x8000_0000 <= n < 0x8000_0000
    ensures |Padded(n)| <= 11
  {
    assert Pow10(10) == 10000000000;
    DigitsLength(if n < 0 then -n else n, 10);
    ZerosAre(1);
    ZerosAre(2);
  }

  /** `snprintf(buf, size, ...)` keeps size - 1 characters and the terminator. */
  function Printed(s: string, size: nat): string
    requires size > 0
  {
    if |s| < size then s else s[..size - 1]
  }

  /** `strncmp(s, t, n) == 0`, where the terminator behind each text is not written out. */
  predicate SamePrefix(s: string, t: string, n: nat) {
    if n == 0 then true
    else if s == [] || t == [] then s == [] && t == []
    else s[0] == t[0] && SamePrefix(s[1..], t[1..], n - 1)
  }

  /** Comparing at least one character more than the shorter text has is comparing the texts. */
  lemma {:induction false} SamePrefixIsEqual(s: string, t: string, n: nat)
    requires |t| < n
    ensures SamePrefix(s, t, n) <==> s == t
  {
    if s != [] && t != [] {
      SamePrefixIsEqual(s[1..], t[1..], n - 1);
      assert s == [s[0]] + s[1..] && t == [t[0]] + t[1..];
    }
  }
}
