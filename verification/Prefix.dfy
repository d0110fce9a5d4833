/** IPv4 addresses as numbers, and what masking one does. */
module Prefix {

  const WORD := 0x1_0000_0000

  type Ip = x: int | 0 <= x < WORD
  type MaskLen = m: int | 1 <= m <= 32 witness 32

  function Pow2(n: nat): (p: nat)
    ensures p >= 1
  {
    if n == 0 then 1 else 2 * Pow2(n - 1)
  }

  /** Bitwise and, bit by bit. */
  function BitAnd(x: nat, y: nat): nat {
    if x == 0 || y == 0 then 0 else 2 * BitAnd(x / 2, y / 2) + (x % 2) * (y % 2)
  }

  /** `x` with everything behind its first `m` bits cleared. */
  function Mask(x: Ip, m: MaskLen): Ip {
    ModAtMost(x, Pow2(32 - m));
    x - x % Pow2(32 - m)
  }

  /** The prefix `dest/m` contains `ip`: their first `m` bits are the same number. */
  predicate Covers(dest: Ip, m: MaskLen, ip: Ip) {
    dest / Pow2(32 - m) == ip / Pow2(32 - m)
  }

  // ----- arithmetic

  lemma Pow2Add(a: nat, b: nat)
    ensures Pow2(a + b) == Pow2(a) * Pow2(b)
  {
    if a == 0 {
    } else {
      Pow2Add(a - 1, b);
    }
  }

  lemma Pow2At32()
    ensures Pow2(32) == WORD
  {
    assert Pow2(8) == 256;
    Pow2Add(8, 8);
    Pow2Add(16, 16);
  }

  lemma DivUnique(x: int, d: int, q: int, r: int)
    requires 0 <= r < d && x == d * q + r
    ensures x / d == q && x % d == r
  {
    var q', r' := x / d, x % d;
    assert x == d * q' + r';
    assert d * (q' - q) == d * q' - d * q && d * (q - q') == d * q - d * q';
    if q' > q {
      MulAtLeast(d, q' - q);
    } else if q' < q {
      MulAtLeast(d, q - q');
    }
  }

  lemma MulAtLeast(d: nat, n: nat)
    requires n >= 1
    ensures d * n >= d
  {
  }

  lemma MulAssoc(a: int, b: int, c: int)
    ensures (a * b) * c == a * (b * c)
  {
  }

  lemma ModAtMost(x: nat, d: nat)
    requires d > 0
    ensures 0 <= x % d <= x
  {
    if x < d {
      DivUnique(x, d, 0, x);
    }
  }

  lemma DivDiv(x: nat, a: nat, b: nat)
    requires a > 0 && b > 0
    ensures a * b > 0 && x / (a * b) == (x / a) / b
  {
    var q, r := (x / a) / b, (x / a) % b;
    calc {
      x;
      a * (x / a) + x % a;
      a * (b * q + r) + x % a;
      a * (b * q) + a * r + x % a;
      { MulAssoc(a, b, q); }
      (a * b) * q + (a * r + x % a);
    }
    assert 0 <= a * r + x % a < a * b by {
      assert a * r <= a * (b - 1) == a * b - a;
    }
    DivUnique(x, a * b, q, a * r + x % a);
  }

  /** A masked address has the same quotient and no remainder. */
  lemma MaskDiv(x: Ip, m: MaskLen)
    ensures Mask(x, m) / Pow2(32 - m) == x / Pow2(32 - m)
    ensures Mask(x, m) == Pow2(32 - m) * (x / Pow2(32 - m))
  {
    DivUnique(Mask(x, m), Pow2(32 - m), x / Pow2(32 - m), 0);
  }

  // ----- masking and prefixes

  /** Two addresses mask to the same prefix iff the prefix of one contains the other. */
  lemma MaskedEqualIffCovers(a: Ip, b: Ip, m: MaskLen)
    ensures Mask(a, m) == Mask(b, m) <==> Covers(a, m, b)
  {
    MaskDiv(a, m);
    MaskDiv(b, m);
  }

  /** A prefix contained in a shorter one: agreeing on `k` bits means agreeing on fewer. */
  lemma CoversShorter(a: Ip, b: Ip, m: MaskLen, k: MaskLen)
    requires m <= k && Covers(a, k, b)
    ensures Covers(a, m, b)
  {
    Pow2Add(32 - k, k - m);
    DivDiv(a, Pow2(32 - k), Pow2(k - m));
    DivDiv(b, Pow2(32 - k), Pow2(k - m));
  }

  /** Masking twice is masking once, at the shorter length. */
  lemma MaskMask(x: Ip, m: MaskLen, k: MaskLen)
    ensures Mask(Mask(x, m), k) == Mask(x, if m < k then m else k)
  {
    MaskDiv(x, m);
    if k <= m {
      CoversShorter(Mask(x, m), x, k, m);
      MaskedEqualIffCovers(Mask(x, m), x, k);
    } else {
      var a, b := Pow2(32 - k), Pow2(k - m);
      Pow2Add(32 - k, k - m);
      var q := x / Pow2(32 - m);
      MulAssoc(a, b, q);
      DivUnique(Mask(x, m), a, b * q, 0);
    }
  }

  /** Prefixes containing the same address nest: the longer one lies inside the shorter. */
  lemma CoveringPrefixesNest(a: Ip, m: MaskLen, b: Ip, k: MaskLen, ip: Ip, other: Ip)
    requires m <= k && Covers(a, m, ip) && Covers(b, k, ip) && Covers(b, k, other)
    ensures Covers(a, m, other)
  {
    CoversShorter(ip, other, m, k);
  }

  lemma {:induction false} AndAllOnes(x: nat, w: nat)
    requires x < Pow2(w)
    ensures BitAnd(x, Pow2(w) - 1) == x
  {
    if x == 0 {
    } else {
      AndAllOnes(x / 2, w - 1);
      var y := Pow2(w) - 1;
      assert y / 2 == Pow2(w - 1) - 1 && y % 2 == 1;
    }
  }

  /** A mask of ones from bit `j` up to bit `w` clears exactly what lies below bit `j`. */
  lemma {:induction false} AndHighMask(x: nat, w: nat, j: nat)
    requires j <= w && x < Pow2(w)
    ensures Pow2(j) <= Pow2(w) && BitAnd(x, Pow2(w) - Pow2(j)) == x - x % Pow2(j)
  {
    Pow2Monotone(j, w);
    if j == 0 {
      AndAllOnes(x, w);
    } else {
      AndHighMask(x / 2, w - 1, j - 1);
      HalfMod(x, Pow2(j - 1));
      BitAndDouble(x, Pow2(w - 1) - Pow2(j - 1));
    }
  }

  lemma BitAndDouble(x: nat, y: nat)
    ensures BitAnd(x, 2 * y) == 2 * BitAnd(x / 2, y)
  {
    assert (2 * y) / 2 == y && (2 * y) % 2 == 0;
  }

  lemma Pow2Monotone(a: nat, b: nat)
    requires a <= b
    ensures Pow2(a) <= Pow2(b)
  {
    if a == b {
    } else {
      Pow2Monotone(a, b - 1);
    }
  }

  lemma HalfMod(x: nat, p: nat)
    requires p > 0
    ensures x % (2 * p) == 2 * ((x / 2) % p) + x % 2
  {
    var q, r := (x / 2) / p, (x / 2) % p;
    MulAssoc(2, p, q);
    DivUnique(x, 2 * p, q, 2 * r + x % 2);
  }

  lemma OnesShiftedOut(m: MaskLen)
    ensures (0xFFFF_FFFF * Pow2(32 - m)) % WORD == Pow2(32) - Pow2(32 - m)
  {
    var p := Pow2(32 - m);
    Pow2At32();
    Pow2Add(32 - m, m);
    Pow2Monotone(32 - m, 32);
    DivUnique(0xFFFF_FFFF * p, WORD, p - 1, WORD - p);
  }

  /** `apply_mask`: an all-ones word shifted left, then a bitwise and. */
  method ApplyMask(prefix: Ip, mask: MaskLen) returns (strPrefix: Ip)
    ensures strPrefix == Mask(prefix, mask)
  {
    var binaryPrefix: int := prefix;
    var bitMask := (0xFFFF_FFFF * Pow2(32 - mask)) % WORD;
    Pow2At32();
    OnesShiftedOut(mask);
    AndHighMask(binaryPrefix, 32, 32 - mask);
    binaryPrefix := BitAnd(binaryPrefix, bitMask);
    strPrefix := binaryPrefix;
  }
}
