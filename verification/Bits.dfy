/** Unsigned machine words as natural numbers, with the shift, mask and or
    operations the codecs use. Every operation is characterised by what it does
    to each bit, so the layouts above it are proved bit by bit. */
module Bits {

  function Pow2(n: nat): (p: nat)
    ensures p > 0
  {
    if n == 0 then 1 else 2 * Pow2(n - 1)
  }

  /** Bit i of x, counting from the least significant. */
  predicate Bit(x: nat, i: nat) {
    if i == 0 then x % 2 == 1 else Bit(x / 2, i - 1)
  }

  /** x >> n */
  function Shr(x: nat, n: nat): (r: nat) {
    if n == 0 then x else Shr(x / 2, n - 1)
  }

  /** x & ((1 << n) - 1) */
  function Low(x: nat, n: nat): (r: nat)
    ensures r < Pow2(n)
    ensures r <= x
  {
    if n == 0 then 0 else x % 2 + 2 * Low(x / 2, n - 1)
  }

  /** x << n without truncation */
  function ShlWide(x: nat, n: nat): (r: nat) {
    if n == 0 then x else 2 * ShlWide(x, n - 1)
  }

  /** x << n in a word of `width` bits */
  function Shl(x: nat, n: nat, width: nat): (r: nat)
    ensures r < Pow2(width)
  {
    Low(ShlWide(x, n), width)
  }

  /** x | y */
  function Or(x: nat, y: nat): (r: nat) {
    if x == 0 then y
    else if y == 0 then x
    else (if x % 2 == 1 || y % 2 == 1 then 1 else 0) + 2 * Or(x / 2, y / 2)
  }

  function Xor(x: nat, y: nat): (r: nat) {
    if x == 0 then y
    else if y == 0 then x
    else (x + y) % 2 + 2 * Xor(x / 2, y / 2)
  }

  /** Number of bits needed to write x (std::bit_width, FastPFOR's gccbits). */
  function BitWidth(x: nat): (w: nat) {
    if x == 0 then 0 else 1 + BitWidth(x / 2)
  }

  /** The number whose bits are f(k), f(k + 1), ..., f(k + n - 1). */
  function FromBits(f: nat -> bool, k: nat, n: nat): (r: nat)
    ensures r < Pow2(n)
    decreases n, k
  {
    if n == 0 then 0
    else (if f(k) then 1 else 0) + 2 * FromBits(f, k + 1, n - 1)
  }

  lemma {:induction false} BitOfZero(i: nat)
    ensures !Bit(0, i)
  {
    if i > 0 { BitOfZero(i - 1); }
  }

  lemma {:induction false} BitOfShr(x: nat, n: nat, i: nat)
    ensures Bit(Shr(x, n), i) == Bit(x, n + i)
  {
    if n > 0 { BitOfShr(x / 2, n - 1, i); }
  }

  lemma {:induction false} BitOfLow(x: nat, n: nat, i: nat)
    ensures Bit(Low(x, n), i) == (i < n && Bit(x, i))
  {
    if n == 0 {
      BitOfZero(i);
    } else {
      assert Low(x, n) / 2 == Low(x / 2, n - 1) && Low(x, n) % 2 == x % 2;
      if i > 0 { BitOfLow(x / 2, n - 1, i - 1); }
    }
  }

  lemma {:induction false} BitOfShlWide(x: nat, n: nat, i: nat)
    ensures Bit(ShlWide(x, n), i) == (i >= n && Bit(x, i - n))
  {
    if n > 0 {
      assert ShlWide(x, n) / 2 == ShlWide(x, n - 1);
      if i > 0 { BitOfShlWide(x, n - 1, i - 1); }
    }
  }

  lemma BitOfShl(x: nat, n: nat, width: nat, i: nat)
    ensures Bit(Shl(x, n, width), i) == (n <= i < width && Bit(x, i - n))
  {
    BitOfLow(ShlWide(x, n), width, i);
    BitOfShlWide(x, n, i);
  }

  lemma {:induction false} BitOfOr(x: nat, y: nat, i: nat)
    ensures Bit(Or(x, y), i) == (Bit(x, i) || Bit(y, i))
  {
    if x == 0 || y == 0 {
      BitOfZero(i);
    } else {
      assert Or(x, y) / 2 == Or(x / 2, y / 2);
      if i > 0 { BitOfOr(x / 2, y / 2, i - 1); }
    }
  }

  lemma {:induction false} BitOfFromBits(f: nat -> bool, k: nat, n: nat, i: nat)
    ensures Bit(FromBits(f, k, n), i) == (i < n && f(k + i))
    decreases n
  {
    if n == 0 {
      BitOfZero(i);
    } else {
      assert FromBits(f, k, n) / 2 == FromBits(f, k + 1, n - 1);
      if i > 0 { BitOfFromBits(f, k + 1, n - 1, i - 1); }
    }
  }

  /** A number below 2^n has no bit at n or above. */
  lemma {:induction false} NoHighBit(x: nat, n: nat, i: nat)
    requires x < Pow2(n) && n <= i
    ensures !Bit(x, i)
  {
    if n == 0 { BitOfZero(i); } else { NoHighBit(x / 2, n - 1, i - 1); }
  }

  /** Numbers below 2^n with the same n low bits are equal. */
  lemma {:induction false} SameBits(x: nat, y: nat, n: nat)
    requires x < Pow2(n) && y < Pow2(n)
    requires forall i: nat :: i < n ==> Bit(x, i) == Bit(y, i)
    ensures x == y
  {
    if n > 0 {
      assert Bit(x, 0) == Bit(y, 0);
      forall i: nat | i < n - 1 ensures Bit(x / 2, i) == Bit(y / 2, i) {
        assert Bit(x, i + 1) == Bit(y, i + 1);
      }
      SameBits(x / 2, y / 2, n - 1);
    }
  }

  lemma {:induction false} OrBelow(x: nat, y: nat, n: nat)
    requires x < Pow2(n) && y < Pow2(n)
    ensures Or(x, y) < Pow2(n)
  {
    if x != 0 && y != 0 { OrBelow(x / 2, y / 2, n - 1); }
  }

  lemma {:induction false} WidthIsLeast(x: nat, n: nat)
    ensures x < Pow2(n) <==> BitWidth(x) <= n
  {
    if x > 0 && n > 0 { WidthIsLeast(x / 2, n - 1); }
  }

  lemma {:induction false} Pow2Monotone(m: nat, n: nat)
    requires m <= n
    ensures Pow2(m) <= Pow2(n)
  {
    if m < n { Pow2Monotone(m, n - 1); }
  }

  lemma {:induction false} ShrBelow(x: nat, n: nat, m: nat)
    requires x < Pow2(n + m)
    ensures Shr(x, n) < Pow2(m)
  {
    if n > 0 { ShrBelow(x / 2, n - 1, m); }
  }

  lemma {:induction false} LowIsIdentity(x: nat, n: nat)
    requires x < Pow2(n)
    ensures Low(x, n) == x
  {
    if n > 0 { LowIsIdentity(x / 2, n - 1); }
  }

  /** Splitting a word at bit n and or-ing the halves back is the identity. */
  lemma SplitAndJoin(x: nat, n: nat, width: nat)
    requires x < Pow2(width) && n <= width
    ensures Or(Low(x, n), Shl(Shr(x, n), n, width)) == x
  {
    hide Bit, Shl, Shr, Or;
    var lo, hi := Low(x, n), Shl(Shr(x, n), n, width);
    Pow2Monotone(n, width);
    OrBelow(lo, hi, width);
    forall i: nat | i < width ensures Bit(Or(lo, hi), i) == Bit(x, i) {
      BitOfOr(lo, hi, i);
      BitOfLow(x, n, i);
      BitOfShl(Shr(x, n), n, width, i);
      if i >= n { BitOfShr(x, n, i - n); }
    }
    SameBits(Or(lo, hi), x, width);
  }

  /** Bits of y placed above the k bits of x. */
  lemma {:induction false} BitOfJoin(x: nat, y: nat, k: nat, i: nat)
    requires x < Pow2(k)
    ensures Bit(x + ShlWide(y, k), i) == if i < k then Bit(x, i) else Bit(y, i - k)
    decreases k
  {
    if k > 0 {
      assert (x + ShlWide(y, k)) / 2 == x / 2 + ShlWide(y, k - 1);
      if i > 0 { BitOfJoin(x / 2, y, k - 1, i - 1); }
    }
  }
}
