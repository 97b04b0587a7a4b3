/** Unsigned 64-bit machine arithmetic on integers, and the bit operations the kernel uses on it.

    Addresses and sizes are integers in [0, 2^64).  Every addition, subtraction or mask that the
    kernel performs on `size_t`/`uintptr_t` and that can wrap is written with the functions below. */
module Machine {

  const TWO64: int := 0x1_0000_0000_0000_0000
  const TWO32: int := 0x1_0000_0000
  const PAGE_SIZE: int := 4096

  /** A `size_t`, `uintptr_t` or `uint64_t` value. */
  type u64 = x: int | 0 <= x < TWO64

  datatype Option<+T> = None | Some(value: T)

  function Add64(a: u64, b: u64): u64 {
    if a + b < TWO64 then a + b else a + b - TWO64
  }

  function Sub64(a: u64, b: u64): u64 {
    if b <= a then a - b else a - b + TWO64
  }

  /** Whole pages in a byte count. */
  function PageCount(size: u64): (r: nat)
    ensures r <= 0xF_FFFF_FFFF_FFFF && r * PAGE_SIZE <= size
  {
    size / 4096
  }

  // ---------- Bit operations ----------

  function Pow2(k: nat): (r: nat)
    ensures r >= 1
  {
    if k == 0 then 1 else 2 * Pow2(k - 1)
  }

  /** Bitwise `a & b`. */
  function And(a: nat, b: nat): (r: nat)
    ensures r <= a && r <= b
  {
    if a == 0 || b == 0 then 0
    else 2 * And(a / 2, b / 2) + (if a % 2 == 1 && b % 2 == 1 then 1 else 0)
  }

  /** Bitwise `a | b`. */
  function Or(a: nat, b: nat): nat {
    if a == 0 then b else if b == 0 then a
    else 2 * Or(a / 2, b / 2) + (if a % 2 == 1 || b % 2 == 1 then 1 else 0)
  }

  /** A nonzero multiple of d is at least d away from zero. */
  lemma {:induction false} MultipleGap(d: int, n: int)
    requires d >= 0
    ensures n >= 1 ==> d * n >= d
    ensures n <= -1 ==> d * n <= -d
    decreases if n < 0 then -n else n
  {
    if n > 1 {
      MultipleGap(d, n - 1);
    } else if n < -1 {
      MultipleGap(d, n + 1);
    }
  }

  lemma Distribute(d: int, a: int, b: int)
    ensures d * (a - b) == d * a - d * b
  {
  }

  lemma {:induction false} RemainderUnique(d: int, m: int, m': int, r: int, r': int)
    requires d > 0 && 0 <= r < d && 0 <= r' < d && d * m + r == d * m' + r'
    ensures m == m' && r == r'
  {
    Distribute(d, m, m');
    MultipleGap(d, m - m');
  }

  lemma {:induction false} DivModUnique(x: int, d: int, q: int, r: int)
    requires d > 0 && x == d * q + r && 0 <= r < d
    ensures x / d == q && x % d == r
  {
    RemainderUnique(d, q, x / d, r, x % d);
  }

  lemma {:induction false} OrPlusAnd(a: nat, b: nat)
    ensures Or(a, b) + And(a, b) == a + b
  {
    if a != 0 && b != 0 {
      OrPlusAnd(a / 2, b / 2);
    }
  }

  /** The bits of x from position k up, and those below it. */
  function High(x: nat, k: nat): nat {
    if k == 0 then x else High(x / 2, k - 1)
  }

  function Low(x: nat, k: nat): nat {
    if k == 0 then 0 else 2 * Low(x / 2, k - 1) + x % 2
  }

  lemma {:induction false} HighLow(x: nat, k: nat)
    ensures x == Pow2(k) * High(x, k) + Low(x, k) && Low(x, k) < Pow2(k)
    ensures High(x, k) == x / Pow2(k) && Low(x, k) == x % Pow2(k)
  {
    if k > 0 {
      HighLow(x / 2, k - 1);
      AndHalves(Pow2(k - 1), High(x, k));
    }
    DivModUnique(x, Pow2(k), High(x, k), Low(x, k));
  }

  lemma AndHalves(p: nat, h: nat)
    ensures 2 * (p * h) == (2 * p) * h
  {
  }

  /** Masking splits at any bit position. */
  lemma {:induction false} AndSplit(a: nat, b: nat, k: nat)
    ensures And(a, b) == And(Low(a, k), Low(b, k)) + Pow2(k) * And(High(a, k), High(b, k))
  {
    hide And;
    if k > 0 {
      AndSplit(a / 2, b / 2, k - 1);
      var la, lb := Low(a / 2, k - 1), Low(b / 2, k - 1);
      AndSplitStep(a, b, la, lb, Pow2(k - 1), And(High(a, k), High(b, k)));
      assert 2 * la + a % 2 == Low(a, k) && 2 * lb + b % 2 == Low(b, k);
    }
  }

  lemma {:induction false} AndSplitStep(a: nat, b: nat, la: nat, lb: nat, p: nat, h: nat)
    requires And(a / 2, b / 2) == And(la, lb) + p * h
    ensures And(a, b) == And(2 * la + a % 2, 2 * lb + b % 2) + (2 * p) * h
  {
    AndStep(a, b);
    AndStep(2 * la + a % 2, 2 * lb + b % 2);
    AndHalves(p, h);
  }

  lemma {:induction false} AndStep(a: nat, b: nat)
    ensures And(a, b) == 2 * And(a / 2, b / 2) + (if a % 2 == 1 && b % 2 == 1 then 1 else 0)
  {
  }

  lemma {:induction false} AndBit(x: nat, half: nat, bit: nat)
    requires bit <= 1
    ensures And(x, 2 * half + bit) == 2 * And(x / 2, half) + (if x % 2 == 1 then bit else 0)
  {
    AndStep(x, 2 * half + bit);
  }

  lemma AndNone(x: nat)
    ensures And(x, 0) == 0
  {
  }

  /** `x & (2^hi - 2^lo)` keeps exactly the bits lo..hi-1 of x. */
  lemma {:induction false} AndFieldBits(x: nat, lo: nat, hi: nat)
    requires lo <= hi
    ensures Pow2(lo) <= Pow2(hi)
    ensures And(x, Pow2(hi) - Pow2(lo)) == Low(x, hi) - Low(x, lo)
    decreases hi
  {
    hide And;
    AndNone(x);
    if hi > 0 {
      var lo' := if lo == 0 then 0 else lo - 1;
      AndFieldBits(x / 2, lo', hi - 1);
      AndBit(x, Pow2(hi - 1) - Pow2(lo'), if lo == 0 then 1 else 0);
    }
  }

  lemma {:induction false} AndField(x: nat, lo: nat, hi: nat)
    requires lo <= hi
    ensures Pow2(lo) <= Pow2(hi)
    ensures And(x, Pow2(hi) - Pow2(lo)) == x % Pow2(hi) - x % Pow2(lo)
  {
    AndFieldBits(x, lo, hi);
    HighLow(x, lo);
    HighLow(x, hi);
  }

  // ---------- Powers of two and alignment ----------

  predicate IsPowerOfTwo(a: nat) {
    a == 1 || (a > 1 && a % 2 == 0 && IsPowerOfTwo(a / 2))
  }

  lemma {:induction false} PowerOfTwoExponent(a: nat) returns (k: nat)
    requires IsPowerOfTwo(a)
    ensures a == Pow2(k)
  {
    k := 0;
    if a != 1 {
      k := PowerOfTwoExponent(a / 2);
      k := k + 1;
    }
  }

  /** The kernel's test `(a & (a - 1)) == 0 && a >= 1` accepts exactly the powers of two. */
  lemma {:induction false} PowerOfTwoTest(a: nat)
    requires a >= 1
    ensures And(a, a - 1) == 0 <==> IsPowerOfTwo(a)
  {
    AndStep(a, a - 1);
    if a > 1 {
      if a % 2 == 0 {
        assert (a - 1) / 2 == a / 2 - 1;
        PowerOfTwoTest(a / 2);
      } else {
        AndSelf(a / 2);
      }
    }
  }

  lemma {:induction false} AndSelf(a: nat)
    ensures And(a, a) == a
  {
    if a != 0 {
      AndSelf(a / 2);
    }
  }

  lemma {:induction false} Pow2Monotone(j: nat, k: nat)
    requires j <= k
    ensures Pow2(j) <= Pow2(k)
    decreases k
  {
    if j < k {
      Pow2Monotone(j, k - 1);
    }
  }

  lemma {:induction false} Pow2Add(a: nat, b: nat)
    ensures Pow2(a + b) == Pow2(a) * Pow2(b)
  {
    if a > 0 {
      Pow2Add(a - 1, b);
      AndHalves(Pow2(a - 1), Pow2(b));
    }
  }

  lemma {:induction false} Pow2Values()
    ensures Pow2(12) == 4096 && Pow2(52) == 0x10_0000_0000_0000 && Pow2(63) == 0x8000_0000_0000_0000
    ensures Pow2(64) == TWO64
  {
    assert Pow2(4) == 16;
    assert Pow2(8) == 256;
    assert Pow2(12) == 4096;
    assert Pow2(16) == 0x1_0000;
    assert Pow2(20) == 0x10_0000;
    assert Pow2(24) == 0x100_0000;
    assert Pow2(28) == 0x1000_0000;
    assert Pow2(32) == 0x1_0000_0000;
    assert Pow2(36) == 0x10_0000_0000;
    assert Pow2(40) == 0x100_0000_0000;
    assert Pow2(44) == 0x1000_0000_0000;
    assert Pow2(48) == 0x1_0000_0000_0000;
    assert Pow2(52) == 0x10_0000_0000_0000;
    assert Pow2(56) == 0x100_0000_0000_0000;
    assert Pow2(60) == 0x1000_0000_0000_0000;
    assert Pow2(63) == 0x8000_0000_0000_0000;
  }

  /** `align_up`: round down to a multiple after a 64-bit addition that may wrap. */
  function AlignUp(v: u64, align: u64): u64
    requires align >= 1
  {
    Add64(v, align - 1) - Add64(v, align - 1) % align
  }

  /** For powers of two this is the kernel's `(v + align - 1) & ~(align - 1)`. */
  lemma {:induction false} AlignUpIsMask(v: u64, align: u64)
    requires IsPowerOfTwo(align)
    ensures AlignUp(v, align) == And(Add64(v, align - 1), TWO64 - align)
  {
    var k := PowerOfTwoExponent(align);
    Pow2Values();
    if k > 64 {
      Pow2Monotone(64, k);
    }
    MaskLowBits(Add64(v, align - 1), align, k);
  }

  /** Rounding up: the least multiple of `align` that is at least `v`, unless the sum wraps. */
  lemma {:induction false} AlignUpIsCeiling(v: u64, align: u64)
    requires align >= 1 && v + align <= TWO64
    ensures AlignUp(v, align) % align == 0
    ensures v <= AlignUp(v, align) < v + align
    ensures forall w: nat :: v <= w && w % align == 0 ==> AlignUp(v, align) <= w
  {
    FloorIsMultiple(v + align - 1, align);
    forall w: nat | v <= w && w % align == 0
      ensures AlignUp(v, align) <= w
    {
      NoMultipleBetween(v, align, AlignUp(v, align), w);
    }
  }

  lemma {:induction false} NoMultipleBetween(v: nat, align: nat, r: nat, w: nat)
    requires align > 0 && r % align == 0 && w % align == 0 && v <= w && r < v + align
    ensures r <= w
  {
    if w < r {
      MultiplesApart(r, w, align);
    }
  }

  lemma {:induction false} FloorIsMultiple(s: nat, d: nat)
    requires d > 0
    ensures (s - s % d) % d == 0
  {
    assert s - s % d == d * (s / d);
    DivModUnique(s - s % d, d, s / d, 0);
  }

  lemma {:induction false} MultiplesApart(a: nat, b: nat, d: nat)
    requires d > 0 && a % d == 0 && b % d == 0 && b < a
    ensures b + d <= a
  {
    assert a == d * (a / d) && b == d * (b / d);
    Distribute(d, a / d, b / d);
    MultipleGap(d, a / d - b / d);
  }

  lemma {:induction false} MaskLowBits(s: u64, align: nat, k: nat)
    requires k <= 64 && align == Pow2(k)
    ensures align <= TWO64 && And(s, TWO64 - align) == s - s % align
  {
    Pow2Values();
    AndField(s, k, 64);
    SmallMod(s, TWO64);
  }

  lemma {:induction false} SmallMod(x: int, d: int)
    requires 0 <= x < d
    ensures x % d == x
  {
    DivModUnique(x, d, 0, x);
  }

  /** For pages the ceiling is plain division by 4096; a sum that wraps gives 0. */
  lemma {:induction false} PageAlignUp(v: u64)
    ensures v + 4095 < TWO64 ==> AlignUp(v, PAGE_SIZE) == (v + 4095) / 4096 * 4096
    ensures v + 4095 >= TWO64 ==> AlignUp(v, PAGE_SIZE) == 0
  {
    var s := Add64(v, 4095);
    assert s - s % 4096 == s / 4096 * 4096;
  }

  /** `addr & (PAGE_SIZE - 1)` is the remainder. */
  lemma {:induction false} PageMask(a: nat)
    ensures And(a, PAGE_SIZE - 1) == a % PAGE_SIZE
  {
    Pow2Values();
    AndField(a, 0, 12);
    assert Pow2(0) == 1;
  }
}
