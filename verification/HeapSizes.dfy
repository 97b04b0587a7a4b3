/** Sizes and bin numbers of the boundary-tag heap: how a request becomes a chunk size, and the
    branch-free computation of the bin a chunk size belongs to. */
module HeapSizes {
  import opened Machine

  const SIZE_SZ: int := 8
  const MALLOC_ALIGN_MASK: int := 15
  const MINSIZE: int := 32
  const NBINS: int := 96
  const MIN_LARGE_SIZE: int := 256
  /** The fastbins in use: the array has two more, for sizes that `max_fast` never lets in. */
  const FASTBINS_USED: int := 9
  /** `max_fast` without its flag bits: the chunk size of the default request limit of 64 bytes. */
  const MAX_FAST: int := 80

  // ---------- Requests ----------

  predicate OutOfRange(req: u64) {
    req >= TWO64 - 64
  }

  /** `request2size`: room for the request and one tag, rounded up to 16 bytes, at least 32. */
  function Request2Size(req: u64): u64
    requires !OutOfRange(req)
  {
    if req + 23 < 32 then 32 else (req + 23) / 16 * 16
  }

  predicate ChunkSize(n: int) {
    n >= 32 && n % 16 == 0
  }

  /** The least legal chunk size that holds the request and its tag; the slack is below MINSIZE.  Requests are
      refused from two minimal chunks below 2^64 on. */
  lemma {:induction false} RequestFits(req: u64)
    ensures OutOfRange(req) <==> req + 2 * 32 >= TWO64
    ensures !OutOfRange(req) ==>
      && ChunkSize(Request2Size(req)) && req + 8 <= Request2Size(req) < req + 8 + 32 && Request2Size(req) + 32 < TWO64
      && forall n: nat :: ChunkSize(n) && n >= req + 8 ==> Request2Size(req) <= n
  {
    forall n: nat | !OutOfRange(req) && ChunkSize(n) && n >= req + 8
      ensures Request2Size(req) <= n
    {
      var q := n / 16;
      assert n == 16 * q;
    }
  }

  /** `& ~MALLOC_ALIGN_MASK` is what rounding down to 16 does. */
  lemma {:induction false} RequestIsMask(req: u64)
    requires !OutOfRange(req) && req + 23 >= 32
    ensures Request2Size(req) == And(req + 23, TWO64 - 16)
  {
    assert Pow2(4) == 16;
    Pow2Values();
    MaskLowBits(req + 23, 16, 4);
  }

  /** The retry of a normalised request asks for the same size again. */
  lemma {:induction false} RequestOfSize(nb: u64)
    requires ChunkSize(nb) && nb < TWO64 - 48
    ensures !OutOfRange(nb - MALLOC_ALIGN_MASK) && Request2Size(nb - MALLOC_ALIGN_MASK) == nb
  {
    var q := nb / 16;
    assert nb == 16 * q;
    DivModUnique(nb + 8, 16, q, 8);
  }

  // ---------- Bin numbers ----------

  /** 32-bit subtraction. */
  function Sub32(a: nat, b: nat): nat
    requires a < TWO32 && b < TWO32
  {
    if b <= a then a - b else a - b + TWO32
  }

  /** One step of the shift computation: `bit` if y is below the limit, without a branch. */
  function Shift(y: nat, limit: nat, bit: nat): nat
    requires y < TWO32 && limit < TWO32
  {
    And(Sub32(y, limit) / 0x10000, bit)
  }

  function ShiftLeft(y: nat, n: nat): (r: nat)
    ensures r < TWO32
  {
    y * Pow2(n) % TWO32
  }

  /** The position of the highest bit of x; -1 for 0. */
  function TopBit(x: nat): int
    requires x < 0x10000
  {
    var n := Shift(x, 0x100, 8);
    var x1 := ShiftLeft(x, n);
    var m := Shift(x1, 0x1000, 4);
    var x2 := ShiftLeft(x1, m);
    var m2 := Shift(x2, 0x4000, 2);
    var x3 := ShiftLeft(x2, m2) / 0x4000;
    13 - (n + m + m2) + (x3 - And(x3, x3 / 2))
  }

  /** The code's `largebin_index` on its 32-bit argument.  The bit position is an unsigned word: for
      sizes below 256 it is -1, and shifting by 6 more wraps to 5. */
  function LargeBinIndex(sz: nat): int
    requires sz < TWO32
  {
    if sz / 256 >= 0x10000 then NBINS - 1
    else
      var m := TopBit(sz / 256);
      32 + 4 * m + sz / Pow2(if m < 0 then 5 else m + 6) % 4
  }

  /** Position of the highest set bit. */
  function Log2(x: nat): (m: nat)
    requires x >= 1
    ensures Pow2(m) <= x < Pow2(m + 1)
  {
    if x == 1 then 0 else 1 + Log2(x / 2)
  }

  /** The borrow leaves 0xFFFF or 0 above bit 16; the mask picks one bit of it. */
  lemma {:induction false} ShiftIs(y: nat, limit: nat, k: nat)
    requires y < 0x10000 && limit < 0x10000 && 1 <= k <= 3
    ensures Shift(y, limit, Pow2(k)) == if y < limit then Pow2(k) else 0
  {
    hide And;
    var w := Sub32(y, limit) / 0x10000;
    AndField(w, k, k + 1);
    if y < limit {
      assert w == 0xFFFF;
      OnesModulo(k);
      OnesModulo(k + 1);
    } else {
      assert w == 0;
      SmallMod(0, Pow2(k));
      SmallMod(0, Pow2(k + 1));
    }
  }

  lemma {:induction false} OnesModulo(k: nat)
    requires k <= 4
    ensures 0xFFFF % Pow2(k) == Pow2(k) - 1
  {
    assert Pow2(0) == 1 && Pow2(1) == 2 && Pow2(2) == 4 && Pow2(3) == 8 && Pow2(4) == 16;
    assert k == 0 || k == 1 || k == 2 || k == 3 || k == 4;
  }

  /** One step doubles a small y until it reaches the limit, and never past 16 bits. */
  lemma {:induction false} ShiftStep(y: nat, limit: nat, k: nat)
    requires y < 0x10000 && 1 <= k <= 3 && limit < 0x10000 && limit * Pow2(Pow2(k)) == 0x10000
    ensures var n := Shift(y, limit, Pow2(k));
            && (n == 0 || n == Pow2(k)) && ShiftLeft(y, n) == y * Pow2(n) < 0x10000
            && (n == 0 <==> y >= limit)
  {
    hide And, Pow2;
    var f := Pow2(Pow2(k));
    ShiftIs(y, limit, k);
    Pow2Zero();
    if y < limit {
      ScaleLess(y, limit, f);
      SmallMod(y * f, TWO32);
    } else {
      SmallMod(y, TWO32);
    }
  }

  lemma Pow2Zero()
    ensures Pow2(0) == 1
  {
  }

  lemma ScaleLess(a: nat, b: nat, f: nat)
    requires a < b && f > 0
    ensures a * f < b * f
  {
  }

  lemma SmallPowers()
    ensures Pow2(1) == 2 && Pow2(2) == 4 && Pow2(3) == 8 && Pow2(4) == 16 && Pow2(8) == 256 && Pow2(14) == 0x4000
    ensures Pow2(15) == 0x8000 && Pow2(16) == 0x10000
  {
    assert Pow2(12) == 4096;
  }

  /** `x & ~(x >> 1)` of a two-bit value is 1 for 1 and 2 for 2 and 3. */
  lemma TopOfTwoBits()
    ensures And(1, 0) == 0 && And(2, 1) == 0 && And(3, 1) == 1
  {
  }

  lemma {:induction false} CancelScale(a: nat, b: nat, f: nat)
    requires a * f < b * f
    ensures a < b
  {
    if a >= b {
      Distribute(f, a, b);
      MultipleGap(f, a - b);
    }
  }

  /** A value shifted up to 15 or 16 bits tells the position of its highest bit. */
  lemma {:induction false} NormalisedTop(x: nat, s: nat)
    requires x >= 1 && s <= 14 && 0x4000 <= x * Pow2(s) < 0x10000
    ensures Log2(x) == if x * Pow2(s) < 0x8000 then 14 - s else 15 - s
  {
    hide Log2, Pow2;
    SmallPowers();
    Pow2Add(14 - s, s);
    Pow2Add(15 - s, s);
    Pow2Add(16 - s, s);
    var m := if x * Pow2(s) < 0x8000 then 14 - s else 15 - s;
    if x < Pow2(m) {
      ScaleLess(x, Pow2(m), Pow2(s));
    }
    CancelScale(x, Pow2(m + 1), Pow2(s));
    Log2Unique(x, m);
  }

  lemma {:induction false} Log2Unique(x: nat, m: nat)
    requires x >= 1 && Pow2(m) <= x < Pow2(m + 1)
    ensures Log2(x) == m
  {
    if Log2(x) < m {
      Pow2Monotone(Log2(x) + 1, m);
    } else if Log2(x) > m {
      Pow2Monotone(m + 1, Log2(x));
    }
  }

  /** The branch-free computation finds the highest set bit. */
  lemma {:induction false} TopBitIsLog2(x: nat)
    requires 1 <= x < 0x10000
    ensures TopBit(x) == Log2(x)
  {
    hide And, Log2, Pow2, Shift, ShiftLeft;
    SmallPowers();
    var n := Shift(x, 0x100, 8);
    ShiftStep(x, 0x100, 3);
    var x1 := ShiftLeft(x, n);
    var m := Shift(x1, 0x1000, 4);
    ShiftStep(x1, 0x1000, 2);
    var x2 := ShiftLeft(x1, m);
    var m2 := Shift(x2, 0x4000, 2);
    ShiftStep(x2, 0x4000, 1);
    var y := ShiftLeft(x2, m2);
    Pow2Add(n, m);
    Pow2Add(n + m, m2);
    Regroup(x, Pow2(n), Pow2(m), Pow2(m2));
    Pow2Zero();
    TopOfTwoBits();
    assert y / 0x4000 == 1 || y / 0x4000 == 2 || y / 0x4000 == 3;
    NormalisedTop(x, n + m + m2);
  }

  lemma Regroup(x: nat, a: nat, b: nat, c: nat)
    ensures x * a * b * c == x * ((a * b) * c)
  {
  }

  // ---------- What the bins mean ----------

  /** The bin of a chunk: eighths for small sizes; above, a power of two and its next two bits, capped. */
  lemma {:induction false} LargeBinIndexIs(sz: nat)
    requires 256 <= sz < TWO32
    ensures var m := Log2(sz / 256);
            && 4 <= sz / Pow2(m + 6) < 8
            && LargeBinIndex(sz) == if m >= 16 then 95 else 28 + 4 * m + sz / Pow2(m + 6)
  {
    hide Log2, Pow2, TopBit;
    var x := sz / 256;
    var m := Log2(x);
    SmallPowers();
    NextTwoBits(sz, m);
    if x >= 0x10000 {
      if m < 16 {
        Pow2Monotone(m + 1, 16);
      }
    } else {
      TopBitIsLog2(x);
      if m >= 16 {
        Pow2Monotone(16, m);
      }
    }
  }

  /** Below the highest bit of sz / 256 there are two more bits to look at. */
  lemma {:induction false} NextTwoBits(sz: nat, m: nat)
    requires Pow2(m) <= sz / 256 < Pow2(m + 1)
    ensures 4 <= sz / Pow2(m + 6) < 8
  {
    hide Pow2;
    SmallPowers();
    Pow2Add(m, 6);
    Pow2Add(6, 2);
    Pow2Add(m, 1);
    assert Pow2(6) == 64;
    var p := Pow2(m);
    assert 256 * p <= sz < 512 * p;
    var d := Pow2(m + 6);
    assert d == 64 * p;
    var q, r := sz / d, sz % d;
    assert sz == d * q + r;
    if q >= 8 {
      MultipleGap(d, q - 8 + 1);
      Distribute(d, q, 8);
    }
    if q < 4 {
      MultipleGap(d, 4 - q);
      Distribute(d, 4, q);
    }
  }

  /** `bin_index` as the code calls it: sizes are 64-bit, the large branch sees the low 32 bits. */
  function BinIndex(sz: u64): int {
    if sz < MIN_LARGE_SIZE then sz / 8 else LargeBinIndex(sz % TWO32)
  }

  lemma {:induction false} LargeMonotone(a: nat, b: nat)
    requires 256 <= a <= b < TWO32
    ensures 32 <= LargeBinIndex(a) <= LargeBinIndex(b) <= 95
  {
    hide Log2, Pow2, LargeBinIndex;
    LargeBinIndexIs(a);
    LargeBinIndexIs(b);
    var m, n := Log2(a / 256), Log2(b / 256);
    if m > n {
      Pow2Monotone(n + 1, m);
    } else if m == n {
      DivMonotone(a, b, Pow2(m + 6));
    }
  }

  /** Larger sizes go to later bins. */
  lemma {:induction false} BinIndexMonotone(a: nat, b: nat)
    requires a <= b < TWO32
    ensures BinIndex(a) <= BinIndex(b)
  {
    hide LargeBinIndex;
    SmallMod(a, TWO32);
    SmallMod(b, TWO32);
    if b >= 256 {
      LargeMonotone(if a >= 256 then a else 256, b);
    }
  }

  lemma {:induction false} DivMonotone(a: nat, b: nat, d: nat)
    requires a <= b && d > 0
    ensures a / d <= b / d
  {
    if a / d > b / d {
      Distribute(d, a / d, b / d);
      MultipleGap(d, a / d - b / d);
    }
  }

  lemma {:induction false} BinIndexInRange(sz: nat)
    requires 32 <= sz < TWO32 && sz % 16 == 0
    ensures 4 <= BinIndex(sz) <= 95 && (sz >= 256 <==> BinIndex(sz) >= 32)
  {
    hide LargeBinIndex;
    if sz >= 256 {
      SmallMod(sz, TWO32);
      LargeMonotone(sz, sz);
    }
  }

  /** The claim the bin search rests on: every chunk of a later bin is large enough. */
  lemma {:induction false} LaterBinsSuffice(nb: nat, size: nat)
    requires nb < TWO32 && size < TWO32 && BinIndex(size) > BinIndex(nb)
    ensures size > nb
  {
    if size <= nb {
      BinIndexMonotone(size, nb);
    }
  }

  /** It fails for requests of 4 GiB and more, whose bin number is computed from the low 32 bits: it holds
      for all chunks of a 4 GiB arena exactly when the request is smaller, or lands in the last bin. */
  lemma {:induction false} LaterBinsSufficeIff(nb: u64)
    requires nb >= 32
    ensures (forall size: nat {:trigger BinIndex(size)} :: ChunkSize(size) && size < TWO32 && BinIndex(size) > BinIndex(nb) ==> size >= nb)
        <==> nb < TWO32 || BinIndex(nb) >= 95
  {
    hide LargeBinIndex, Log2, Pow2;
    forall size: nat | ChunkSize(size) && size < TWO32 && BinIndex(size) > BinIndex(nb) && (nb < TWO32 || BinIndex(nb) >= 95)
      ensures size >= nb
    {
      if nb < TWO32 {
        LaterBinsSuffice(nb, size);
      } else {
        BinIndexInRange(size);
      }
    }
    if nb >= TWO32 && BinIndex(nb) < 95 {
      var size := 0xFFFF_FFF0;
      LastBin(size);
      assert BinIndex(size) == 95 && ChunkSize(size) && size < nb;
    }
  }

  lemma LastBin(size: nat)
    requires 0x100_0000 <= size < TWO32
    ensures BinIndex(size) == 95
  {
  }

  /** A request of 4 GiB and 256 bytes is taken for one of 256 bytes. */
  lemma {:induction false} FourGibTakenForSmall()
    ensures BinIndex(0x1_0000_0100) == 32 && BinIndex(0x400) > 32
  {
    hide LargeBinIndex, Log2, Pow2;
    LargeBinIndexIs(0x100);
    LargeBinIndexIs(0x400);
    SmallPowers();
    Pow2Zero();
    Log2Unique(1, 0);
    Log2Unique(4, 2);
    PowersAround();
  }

  lemma PowersAround()
    ensures Pow2(6) == 64 && Pow2(1) == 2 && Pow2(2) == 4 && Pow2(3) == 8
  {
  }

  /** Whatever its size, a request has a bin number the bin array can be indexed with. */
  lemma {:induction false} AnyBinIndexInRange(nb: u64)
    requires nb >= 32
    ensures 4 <= BinIndex(nb) <= 95
  {
    hide LargeBinIndex;
    var low := nb % TWO32;
    if nb >= 256 {
      if low >= 256 {
        LargeMonotone(low, low);
      } else {
        TinyLargeIndex(low);
      }
    }
  }

  /** Applied to a size below 256, which can only be the rest of a huge one, it yields one of four small bins. */
  lemma {:induction false} TinyLargeIndex(low: nat)
    requires low < 256
    ensures LargeBinIndex(low) == 28 + low / 32 % 4
  {
    hide And, Pow2;
    SmallPowers();
    ShiftIs(0, 0x100, 3);
    ShiftIs(0, 0x1000, 2);
    ShiftIs(0, 0x4000, 1);
    ShiftZero(8);
    ShiftZero(4);
    ShiftZero(2);
    AndOfZero();
    Pow2Five();
  }

  lemma AndOfZero()
    ensures And(0, 0) == 0
  {
  }

  lemma Pow2Five()
    ensures Pow2(5) == 32
  {
  }

  lemma ShiftZero(n: nat)
    ensures ShiftLeft(0, n) == 0
  {
  }
}
