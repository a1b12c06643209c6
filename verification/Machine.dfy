/** Fixed-width integers and their bit operations, as the Go language defines them.

    Words are mathematical integers confined to the range of their width. The bit operators are
    defined digit by digit, and the lemmas below give the arithmetic meaning of the few shapes
    that the codec uses: masking, joining disjoint bits, complementing and measuring.
 */
module Machine {
  const MAX_INT: int := 0x7fff_ffff_ffff_ffff

  type byte = x: int | 0 <= x < 0x100
  type uint64 = x: int | 0 <= x < 0x1_0000_0000_0000_0000
  type int64 = x: int | -0x8000_0000_0000_0000 <= x < 0x8000_0000_0000_0000

  /** A Go byte slice or string: its length is an `int`. */
  type Slice = s: seq<byte> | |s| <= MAX_INT

  /** The low 64 bits of x, read as a two's-complement number. */
  function Wrap64(x: int): (r: int64) {
    ToInt64(x % 0x1_0000_0000_0000_0000)
  }

  /** Go's `a + b` on `int`. */
  function Add64(a: int64, b: int64): int64 {
    Wrap64(a + b)
  }

  lemma WrapUnique(x: int, r: int64, q: int)
    requires x == r + 0x1_0000_0000_0000_0000 * q
    ensures Wrap64(x) == r
  {
  }

  lemma WrapSmall(x: int64)
    ensures Wrap64(x) == x
  {
    WrapUnique(x, x, 0);
  }

  /** A length survives wrapping exactly when it is an `int`. */
  lemma WrapFits(x: nat)
    ensures Wrap64(x) == x <==> x <= MAX_INT
  {
    if x <= MAX_INT {
      WrapSmall(x);
    }
  }

  /** Adding two non-negative numbers overflows into the negative ones, never past them. */
  lemma AddOverflow(x: int64, y: int64)
    requires x >= 0 && y >= 0
    ensures if x + y <= MAX_INT then Add64(x, y) == x + y else Add64(x, y) < 0
  {
    if x + y <= MAX_INT {
      WrapUnique(x + y, x + y, 0);
    } else {
      WrapUnique(x + y, x + y - 0x1_0000_0000_0000_0000, 1);
    }
  }

  lemma WrapQuotient(x: int) returns (q: int)
    ensures x == Wrap64(x) + 0x1_0000_0000_0000_0000 * q
  {
    q := (x - Wrap64(x)) / 0x1_0000_0000_0000_0000;
  }

  /** Wrapping now or later makes no difference. */
  lemma WrapAdd(x: int, y: int)
    ensures Add64(Wrap64(x), Wrap64(y)) == Wrap64(x + y)
  {
    hide Wrap64;
    var p := WrapQuotient(x);
    var q := WrapQuotient(y);
    var z := Wrap64(x) + Wrap64(y);
    var t := WrapQuotient(z);
    WrapUnique(x + y, Wrap64(z), p + q + t);
  }

  function ToInt64(x: uint64): int64 {
    if x < 0x8000_0000_0000_0000 then x else x - 0x1_0000_0000_0000_0000
  }

  function ToUint64(x: int64): uint64 {
    if x < 0 then x + 0x1_0000_0000_0000_0000 else x
  }

  /** Go's `int32(x)`: the low 32 bits, read as a two's-complement number. */
  function ToInt32(x: uint64): int {
    var low := x % 0x1_0000_0000;
    if low < 0x8000_0000 then low else low - 0x1_0000_0000
  }

  function Pow2(k: nat): (r: nat)
    ensures r > 0
  {
    if k == 0 then 1 else 2 * Pow2(k - 1)
  }

  function Or(x: nat, y: nat): nat
    decreases x + y
  {
    if x == 0 && y == 0 then 0
    else (if x % 2 == 1 || y % 2 == 1 then 1 else 0) + 2 * Or(x / 2, y / 2)
  }

  function And(x: nat, y: nat): (r: nat)
    ensures r <= x && r <= y
    decreases x + y
  {
    if x == 0 && y == 0 then 0
    else (if x % 2 == 1 && y % 2 == 1 then 1 else 0) + 2 * And(x / 2, y / 2)
  }

  function Xor(x: nat, y: nat): nat
    decreases x + y
  {
    if x == 0 && y == 0 then 0
    else (if x % 2 != y % 2 then 1 else 0) + 2 * Xor(x / 2, y / 2)
  }

  /** Go's `x << k` on `uint64`: bits shifted past the top are lost. */
  function Shl(x: uint64, k: nat): uint64 {
    x * Pow2(k) % 0x1_0000_0000_0000_0000
  }

  /** Go's `x >> k` on `uint64`. */
  function Shr(x: nat, k: nat): nat {
    DivNat(x, Pow2(k));
    x / Pow2(k)
  }

  /** Go's `x >> k` on `int64`, which keeps the sign. */
  function Sar(x: int, k: nat): int {
    x / Pow2(k)
  }

  /** The number of bits needed to write x, as in `math/bits`. */
  function Len64(x: nat): nat {
    if x == 0 then 0 else 1 + Len64(x / 2)
  }

  lemma DivNat(x: nat, d: nat)
    requires d > 0
    ensures x / d >= 0
  {
  }

  lemma Pow2Values()
    ensures Pow2(3) == 8 && Pow2(7) == 0x80
    ensures Pow2(63) == 0x8000_0000_0000_0000 && Pow2(64) == 0x1_0000_0000_0000_0000
  {
    Pow2Step(0); Pow2Step(7); Pow2Step(14); Pow2Step(21); Pow2Step(28);
    Pow2Step(35); Pow2Step(42); Pow2Step(49); Pow2Step(56);
    assert Pow2(2) == 4;
  }

  lemma Pow2Step(k: nat)
    ensures Pow2(k + 7) == 0x80 * Pow2(k)
  {
    assert Pow2(k + 2) == 4 * Pow2(k);
    assert Pow2(k + 4) == 16 * Pow2(k);
    assert Pow2(k + 6) == 64 * Pow2(k);
  }

  lemma Pow2Monotone(j: nat, k: nat)
    requires j <= k
    ensures Pow2(j) <= Pow2(k)
  {
  }

  function LowBits(x: nat, k: nat): nat {
    if k == 0 then 0 else x % 2 + 2 * LowBits(x / 2, k - 1)
  }

  /** Masking with k ones keeps the low k bits. */
  lemma {:induction false} AndOnes(x: nat, k: nat)
    ensures And(x, Pow2(k) - 1) == LowBits(x, k)
  {
    if k == 0 {
      AndZero(x);
    } else {
      AndOnes(x / 2, k - 1);
      assert (Pow2(k) - 1) / 2 == Pow2(k - 1) - 1;
    }
  }

  lemma AndMask(x: nat, k: nat, mask: nat)
    requires mask == Pow2(k) - 1
    ensures And(x, mask) == LowBits(x, k)
  {
    AndOnes(x, k);
  }

  /** The mask that keeps the payload of a varint byte. */
  lemma Mask7(x: nat)
    ensures And(x, 0x7f) == x % 0x80
  {
    assert Pow2(7) == 0x80 by { Pow2Values(); }
    AndMask(x, 7, 0x7f);
    var q := LowBitsQuotient(x, 7);
    Remainder(x, 0x80, q, LowBits(x, 7));
  }

  /** The mask that keeps the wire type of a tag. */
  lemma Mask3(x: nat)
    ensures And(x, 0x7) == x % 8
  {
    assert Pow2(3) == 8 by { Pow2Values(); }
    AndMask(x, 3, 0x7);
    var q := LowBitsQuotient(x, 3);
    Remainder(x, 8, q, LowBits(x, 3));
  }

  lemma Remainder(x: nat, d: nat, q: nat, r: nat)
    requires d == 8 || d == 0x80
    requires x == d * q + r && r < d
    ensures x % d == r
  {
  }

  lemma LowBitsQuotient(x: nat, k: nat) returns (q: nat)
    ensures x == Pow2(k) * q + LowBits(x, k)
    ensures LowBits(x, k) < Pow2(k)
  {
    if k == 0 {
      q := x;
    } else {
      q := LowBitsQuotient(x / 2, k - 1);
      assert 2 * (Pow2(k - 1) * q) == Pow2(k) * q;
    }
  }

  lemma AndZero(x: nat)
    ensures And(x, 0) == 0
  {
  }

  lemma OrZero(y: nat)
    ensures Or(0, y) == y
  {
  }

  /** Joining bits that do not overlap is addition. */
  lemma {:induction false} OrDisjoint(x: nat, y: nat, k: nat)
    requires x < Pow2(k)
    ensures Or(x, y * Pow2(k)) == x + y * Pow2(k)
  {
    if k == 0 {
      OrZero(y);
    } else {
      var z := y * Pow2(k - 1);
      assert y * Pow2(k) == 2 * z;
      OrDisjoint(x / 2, y, k - 1);
      assert 2 * z / 2 == z && 2 * z % 2 == 0;
    }
  }

  lemma XorZero(x: nat)
    ensures Xor(x, 0) == x
  {
  }

  /** Flipping the low k bits complements a k-bit number. */
  lemma {:induction false} XorOnes(x: nat, k: nat)
    requires x < Pow2(k)
    ensures Xor(x, Pow2(k) - 1) == Pow2(k) - 1 - x
  {
    if k == 0 {
    } else {
      XorOnes(x / 2, k - 1);
      assert (Pow2(k) - 1) / 2 == Pow2(k - 1) - 1;
    }
  }
}
