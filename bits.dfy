/** The word-level arithmetic that turns the `gp` register into an offset
    into the per-CPU area: `get_bits`, the low-bit mask and the bitwise AND
    of `get_percpu`, on naturals below 2^64. */
module Bits {

  /** `usize::BITS` on the 64-bit RISC-V target whose `gp` register is read. */
  const WORD_BITS: nat := 64

  function Pow2(n: nat): (r: nat)
    ensures r >= 1
  {
    if n == 0 then 1 else 2 * Pow2(n - 1)
  }

  lemma {:induction false} Pow2Monotone(a: nat, b: nat)
    requires a <= b
    ensures Pow2(a) <= Pow2(b)
  {
    if a < b {
      Pow2Monotone(a, b - 1);
    }
  }

  /** `x.leading_zeros()` for `x` held in a `w`-bit word: the number of zero
      bits above its highest set bit. */
  function LeadingZeros(x: nat, w: nat): (z: nat)
    requires x < Pow2(w)
    ensures z <= w
  {
    if w == 0 || x >= Pow2(w - 1) then 0 else 1 + LeadingZeros(x, w - 1)
  }

  /** `get_bits(size)`: `usize::BITS - size.leading_zeros()`. */
  function GetBits(size: nat): (b: nat)
    requires size < Pow2(WORD_BITS)
  {
    WORD_BITS - LeadingZeros(size, WORD_BITS)
  }

  lemma {:induction false} LeadingZerosBounds(x: nat, w: nat)
    requires x < Pow2(w)
    ensures x == 0 ==> LeadingZeros(x, w) == w
    ensures x > 0 ==> LeadingZeros(x, w) < w
                      && Pow2(w - LeadingZeros(x, w) - 1) <= x < Pow2(w - LeadingZeros(x, w))
  {
    if w > 0 && x < Pow2(w - 1) {
      LeadingZerosBounds(x, w - 1);
    }
  }

  /** `get_bits(0) == 0`; for a non-zero size it is the bit length `b` of
      the size, `2^(b-1) <= size < 2^b`. */
  lemma GetBitsBounds(size: nat)
    requires size < Pow2(WORD_BITS)
    ensures GetBits(size) <= WORD_BITS
    ensures size == 0 <==> GetBits(size) == 0
    ensures size > 0 ==> Pow2(GetBits(size) - 1) <= size < Pow2(GetBits(size))
  {
    LeadingZerosBounds(size, WORD_BITS);
  }

  /** The bit length is the only `b` with `2^(b-1) <= size < 2^b`. */
  lemma GetBitsUnique(size: nat, b: nat)
    requires size < Pow2(WORD_BITS)
    requires b >= 1 && Pow2(b - 1) <= size < Pow2(b)
    ensures GetBits(size) == b
  {
    GetBitsBounds(size);
    var g := GetBits(size);
    if g < b {
      Pow2Monotone(g, b - 1);
    } else if g > b {
      Pow2Monotone(b, g - 1);
    }
  }

  /** Bitwise AND of two naturals, bit by bit from the lowest. */
  function And(x: nat, y: nat): (r: nat)
  {
    if x == 0 || y == 0 then 0
    else 2 * And(x / 2, y / 2) + (if x % 2 == 1 && y % 2 == 1 then 1 else 0)
  }

  lemma MulAtLeast(d: int, n: int)
    requires d > 0 && n >= 1
    ensures d * n >= d
  {
  }

  lemma ModUnique(x: int, d: int, k: int, s: int)
    requires d > 0 && 0 <= s < d && x == d * k + s
    ensures x / d == k && x % d == s
  {
    var q, r := x / d, x % d;
    assert x == d * q + r;
    assert d * (k - q) == r - s;
    if k > q {
      MulAtLeast(d, k - q);
    } else if k < q {
      MulAtLeast(d, q - k);
    }
  }

  lemma ModDouble(x: nat, m: nat)
    requires m >= 1
    ensures x % (2 * m) == 2 * ((x / 2) % m) + x % 2
  {
    var q, r := x / 2, x % 2;
    var a, s := q / m, q % m;
    assert q == m * a + s;
    assert x == 2 * q + r;
    assert 2 * (m * a) == (2 * m) * a;
    ModUnique(x, 2 * m, a, 2 * s + r);
  }

  /** ANDing with a mask of `b` low one bits, `(1 << b) - 1`, keeps exactly
      the value modulo `2^b`. */
  lemma {:induction false} AndLowMask(x: nat, b: nat)
    ensures And(x, Pow2(b) - 1) == x % Pow2(b)
  {
    if b == 0 {
      assert Pow2(b) - 1 == 0;
    } else if x == 0 {
      assert And(x, Pow2(b) - 1) == 0;
    } else {
      var m := Pow2(b - 1);
      var y := Pow2(b) - 1;
      assert Pow2(b) == 2 * m;
      assert y / 2 == m - 1 && y % 2 == 1;
      assert And(x, y) == 2 * And(x / 2, m - 1) + x % 2;
      AndLowMask(x / 2, b - 1);
      ModDouble(x, m);
    }
  }

  /** The offset `get_percpu` takes from the register: `gp & ((1 << b) - 1)`
      with `b = get_bits(size)`. */
  function PercpuOffset(gp: nat, size: nat): (off: nat)
    requires gp < Pow2(WORD_BITS) && size < Pow2(WORD_BITS - 1)
  {
    And(gp, Pow2(GetBits(size)) - 1)
  }

  /** The address `get_percpu` dereferences: that offset plus the data base. */
  function PercpuAddress(base: nat, gp: nat, size: nat): (addr: nat)
    requires gp < Pow2(WORD_BITS) && size < Pow2(WORD_BITS - 1)
  {
    base + PercpuOffset(gp, size)
  }

  /** With `size < 2^63` the shift `1 << b` stays inside the word, and the
      resolved address lies in `[base, base + 2^b)`, which for a non-zero
      size is inside `[base, base + 2 * size)`; a zero size resolves to the
      base itself. */
  lemma PercpuAddressBounds(base: nat, gp: nat, size: nat)
    requires gp < Pow2(WORD_BITS) && size < Pow2(WORD_BITS - 1)
    ensures GetBits(size) < WORD_BITS
    ensures base <= PercpuAddress(base, gp, size) < base + Pow2(GetBits(size))
    ensures size == 0 ==> PercpuAddress(base, gp, size) == base
    ensures size > 0 ==> PercpuAddress(base, gp, size) < base + 2 * size
  {
    GetBitsBounds(size);
    var b := GetBits(size);
    AndLowMask(gp, b);
    if b > 0 {
      assert Pow2(b) == 2 * Pow2(b - 1);
    }
  }

  /** As written, a register value can reach at most the first two slots:
      with a non-zero stride no value of `gp` resolves to slot `i >= 2`. */
  lemma OnlyTwoSlotsReachable(base: nat, gp: nat, size: nat, i: nat)
    requires gp < Pow2(WORD_BITS) && size < Pow2(WORD_BITS - 1)
    requires size > 0 && i >= 2
    ensures PercpuAddress(base, gp, size) != base + i * size
  {
    PercpuAddressBounds(base, gp, size);
    MulAtLeast(size, i - 1);
    assert i * size == (i - 1) * size + size;
  }

  /** Concretely: stride 64 and area base 0x1000; the register holding the
      address of slot 2 (0x1080) resolves to slot 0 (0x1000). */
  lemma SlotTwoResolvesToSlotZero()
    ensures PercpuAddress(0x1000, 0x1000 + 2 * 64, 64) == 0x1000
  {
    assert Pow2(6) == 64 && Pow2(7) == 128;
    Pow2Monotone(7, WORD_BITS - 1);
    GetBitsUnique(64, 7);
    AndLowMask(0x1080, 7);
  }

  /** The evidently intended resolution: the mask is as wide as the whole
      area of `smp` slots, not as one slot. */
  function PercpuAddressFixed(base: nat, gp: nat, size: nat, smp: nat): (addr: nat)
    requires gp < Pow2(WORD_BITS) && smp * size < Pow2(WORD_BITS - 1)
  {
    base + And(gp, Pow2(GetBits(smp * size)) - 1)
  }

  /** With the area-wide mask every slot's offset survives: slot `i`'s
      offset `i * size` lies below `2^get_bits(smp * size)`. */
  lemma SlotOffsetFits(size: nat, smp: nat, i: nat)
    requires i < smp && smp * size < Pow2(WORD_BITS - 1)
    ensures i * size < Pow2(GetBits(smp * size))
  {
    var extent := smp * size;
    GetBitsBounds(extent);
    if size > 0 {
      MulAtLeast(size, smp - i);
      assert extent == i * size + size * (smp - i);
    }
  }

  /** With the area-wide mask, a register whose bits below the mask hold
      slot `i`'s offset, whatever its higher bits, resolves to slot `i`. */
  lemma FixedResolvesOffset(base: nat, size: nat, smp: nat, extent: nat, i: nat, gp: nat)
    requires extent == smp * size && extent < Pow2(WORD_BITS - 1) && i < smp
    requires gp < Pow2(WORD_BITS) && gp % Pow2(GetBits(extent)) == i * size
    ensures PercpuAddressFixed(base, gp, size, smp) == base + i * size
  {
    AndLowMask(gp, GetBits(extent));
  }

  /** With the area-wide mask every slot is reachable: in an area whose
      base is aligned to the mask, the register holding slot `i`'s address
      resolves to slot `i`. */
  lemma FixedResolvesEverySlot(base: nat, size: nat, smp: nat, i: nat, gp: nat)
    requires i < smp && smp * size < Pow2(WORD_BITS - 1)
    requires base % Pow2(GetBits(smp * size)) == 0
    requires gp == base + i * size && gp < Pow2(WORD_BITS)
    ensures PercpuAddressFixed(base, gp, size, smp) == base + i * size
  {
    SlotOffsetFits(size, smp, i);
    AlignedSumMod(base, i * size, Pow2(GetBits(smp * size)));
    FixedResolvesOffset(base, size, smp, smp * size, i, gp);
  }

  /** An offset below `m` added to a multiple of `m` is its own remainder. */
  lemma AlignedSumMod(base: nat, off: nat, m: nat)
    requires m > 0 && base % m == 0 && off < m
    ensures (base + off) % m == off
  {
    assert base == m * (base / m);
    ModUnique(base + off, m, base / m, off);
  }
}
