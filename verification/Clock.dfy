/** Fixed-point clock arithmetic: cycles to nanoseconds by one multiplication and one shift, and deltas of
    a counter that wraps. */
module Clock {
  import opened Machine
  import BM = BinMaps

  const NS_PER_SEC: int := 1_000_000_000

  // ---------- Computing the multiplier ----------

  /** `compute_shift` is the value meant by shift 0. */
  function ShiftOf(shift: nat): nat {
    if shift == 0 then 32 else shift
  }

  function Quotient(x: nat, d: nat): (q: nat)
    requires d > 0
    ensures d * q <= x < d * q + d
  {
    x / d
  }

  /** `compute_ms`: a 64-bit product and quotient, cut down to 32 bits. */
  function ComputeMult(freq: nat, shift: nat): nat
    requires freq > 0
  {
    Quotient(Wrap64(Pow2(ShiftOf(shift)) * NS_PER_SEC), freq) % TWO32
  }

  /** The multiplier meant: nanoseconds per cycle, scaled by 2^shift. */
  function ExactMult(freq: nat, shift: nat): nat
    requires freq > 0
  {
    Quotient(Pow2(shift) * NS_PER_SEC, freq)
  }

  function Wrap64(x: nat): u64 {
    x % TWO64
  }

  /** Neither the 64-bit product nor the 32-bit cast loses anything exactly if the frequency is above
      10^9 * 2^shift / 2^32. */
  lemma {:induction false} MultExactIff(freq: nat, shift: nat)
    requires 0 < freq < TWO32
    ensures ComputeMult(freq, shift) == ExactMult(freq, ShiftOf(shift)) <==> Pow2(ShiftOf(shift)) * NS_PER_SEC < freq * TWO32
  {
    hide Pow2, Quotient;
    var x := Pow2(ShiftOf(shift)) * NS_PER_SEC;
    QuotientBelow(x, freq, TWO32);
    if x < freq * TWO32 {
      SmallMod(x, TWO64);
      SmallMod(Quotient(x, freq), TWO32);
    }
  }

  lemma {:induction false} QuotientBelow(x: nat, d: nat, m: nat)
    requires d > 0
    ensures Quotient(x, d) < m <==> x < d * m
  {
    hide Quotient;
    Distribute(d, m, Quotient(x, d));
    MultipleGap(d, m - Quotient(x, d));
  }

  /** A shift that is given is used as it is. */
  lemma {:induction false} GivenShiftExactIff(freq: nat, shift: nat)
    requires 0 < freq < TWO32 && shift > 0
    ensures ComputeMult(freq, shift) == ExactMult(freq, shift) <==> Pow2(shift) * NS_PER_SEC < freq * TWO32
  {
    hide Pow2, ComputeMult, ExactMult;
    MultExactIff(freq, shift);
  }

  /** With the default shift only clocks faster than 1 GHz get their multiplier. */
  lemma {:induction false} DefaultShiftNeedsGigahertz(freq: nat)
    requires 0 < freq < TWO32
    ensures ComputeMult(freq, 0) == ExactMult(freq, 32) <==> freq > NS_PER_SEC
  {
    hide Pow2, ComputeMult, ExactMult;
    MultExactIff(freq, 0);
    BM.Pow2ThirtyTwo();
  }

  /** The 3.58 MHz power-management timer gets 279.4 ns a cycle cut to 0.37. */
  lemma {:induction false} SlowClockCounterexample()
    ensures ComputeMult(3_579_545, 0) != ExactMult(3_579_545, 32)
  {
    DefaultShiftNeedsGigahertz(3_579_545);
  }

  /** What `compute_ms` returns for any clock: w is left of the product in 64 bits, and m of the quotient q in 32. */
  lemma {:induction false} MultKeepsLowBits(freq: nat, shift: nat, c: nat, w: nat, q: nat, h: nat, m: nat)
    requires 0 < freq < TWO32 && Pow2(ShiftOf(shift)) * NS_PER_SEC == TWO64 * c + w && w < TWO64
    requires freq * q <= w < freq * q + freq && q == TWO32 * h + m && m < TWO32
    ensures ComputeMult(freq, shift) == m
  {
    hide Pow2;
    DivModUnique(TWO64 * c + w, TWO64, c, w);
    DivModUnique(w, freq, q, w - freq * q);
    DivModUnique(q, TWO32, h, m);
  }

  // ---------- Converting ----------

  /** `cycles_to_ns`: the 64-bit product shifted right. */
  function CyclesToNs(cycles: u64, mult: nat, shift: nat): nat {
    High(Wrap64(cycles * mult), shift)
  }

  /** The conversion drops nothing but the fraction exactly if the product fits 64 bits. */
  lemma {:induction false} ConversionExactIff(cycles: u64, mult: nat, shift: nat)
    requires shift < 64
    ensures CyclesToNs(cycles, mult, shift) == cycles * mult / Pow2(shift) <==> cycles * mult < TWO64
  {
    hide Pow2, High, Wrap64;
    var x := cycles * mult;
    HighLow(x, shift);
    HighLow(Wrap64(x), shift);
    WrapSplits(x);
    WrapHigh(x, Wrap64(x), Quotient(x, TWO64), shift);
  }

  /** What it returns for any product: w is left of it in 64 bits. */
  lemma {:induction false} ConversionKeepsLowBits(cycles: u64, mult: nat, shift: nat, c: nat, w: nat, ns: nat, r: nat)
    requires cycles * mult == TWO64 * c + w && w < TWO64 && w == Pow2(shift) * ns + r && r < Pow2(shift)
    ensures CyclesToNs(cycles, mult, shift) == ns
  {
    hide Pow2, High, Low;
    DivModUnique(TWO64 * c + w, TWO64, c, w);
    HighLow(w, shift);
    DivModUnique(w, Pow2(shift), ns, r);
  }

  lemma WrapSplits(x: nat)
    ensures x == TWO64 * Quotient(x, TWO64) + Wrap64(x)
    ensures Quotient(x, TWO64) == 0 <==> x < TWO64
  {
  }

  /** Dropping q times 2^64 drops q times 2^(64 - shift) from the shifted value. */
  lemma {:induction false} WrapHigh(x: nat, y: u64, q: nat, shift: nat)
    requires shift < 64 && x == TWO64 * q + y
    ensures High(x, shift) == High(y, shift) <==> q == 0
  {
    hide Pow2, High, Low;
    var p, k := Pow2(shift), Pow2(64 - shift);
    Pow2Values();
    Pow2Add(shift, 64 - shift);
    HighLow(x, shift);
    HighLow(y, shift);
    Regroup(p, k, q, High(y, shift));
    RemainderUnique(p, High(x, shift), k * q + High(y, shift), Low(x, shift), Low(y, shift));
    MultipleGap(k, q);
  }

  lemma {:induction false} Regroup(p: nat, k: nat, q: nat, h: nat)
    ensures p * (k * q + h) == (p * k) * q + p * h
  {
    if q == 0 {
      assert k * q == 0 && (p * k) * q == 0;
    } else {
      Regroup(p, k, q - 1, h);
      RegroupStep(p, k, k * (q - 1), h);
      assert k * q == k * (q - 1) + k && (p * k) * q == (p * k) * (q - 1) + p * k;
    }
  }

  lemma RegroupStep(p: nat, k: nat, n: nat, h: nat)
    ensures p * (n + k + h) == p * (n + h) + p * k
  {
  }

  lemma {:induction false} HighMonotone(x: nat, y: nat, k: nat)
    requires x <= y
    ensures High(x, k) <= High(y, k)
  {
    if k > 0 {
      HighMonotone(x / 2, y / 2, k - 1);
    }
  }

  /** More cycles are never less time. */
  lemma {:induction false} ConversionMonotone(c: u64, c': u64, mult: nat, shift: nat)
    requires c <= c' && c' * mult < TWO64
    ensures CyclesToNs(c, mult, shift) <= CyclesToNs(c', mult, shift)
  {
    hide High;
    ProductMonotone(c, c', mult);
    SmallMod(c * mult, TWO64);
    SmallMod(c' * mult, TWO64);
    HighMonotone(c * mult, c' * mult, shift);
  }

  lemma ProductMonotone(a: nat, b: nat, m: nat)
    requires a <= b
    ensures a * m <= b * m
  {
  }

  /** With the multiplier `compute_ms` returns for a fast enough clock, the converted time never exceeds the
      true time c * 10^9 / f and lags it by less than c / 2^shift + 1 ns (both inequalities multiplied out). */
  lemma {:induction false} ConversionError(c: u64, freq: nat, shift: nat)
    requires 0 < freq < TWO32 && Pow2(ShiftOf(shift)) * NS_PER_SEC < freq * TWO32
    requires c * ComputeMult(freq, shift) < TWO64
    ensures var ns := CyclesToNs(c, ComputeMult(freq, shift), ShiftOf(shift));
      && ns * freq <= c * NS_PER_SEC
      && (c * NS_PER_SEC - ns * freq) * Pow2(ShiftOf(shift)) < (c + Pow2(ShiftOf(shift))) * freq
  {
    hide Pow2, High, Low, Quotient, ComputeMult, ShiftOf;
    MultExactIff(freq, shift);
    var s := ShiftOf(shift);
    var m := ExactMult(freq, s);
    SmallMod(c * m, TWO64);
    HighLow(c * m, s);
    ErrorBound(c, m, Pow2(s), freq, High(c * m, s), Pow2(s) * NS_PER_SEC - freq * m, Low(c * m, s));
  }

  lemma {:induction false} ErrorBound(c: nat, m: nat, p: nat, f: nat, ns: nat, r: nat, q: nat)
    requires p * NS_PER_SEC == f * m + r && c * m == p * ns + q && r < f && q < p
    ensures ns * f <= c * NS_PER_SEC
    ensures (c * NS_PER_SEC - ns * f) * p < (c + p) * f
  {
    // The true time times p, minus the converted time times p: c * r + q * f.
    var d := c * NS_PER_SEC - ns * f;
    assert d * p == c * r + f * q by {
      TimesBoth(c, NS_PER_SEC, ns, f, p);
      Remainders(c, m, f, r, q);
    }
    NotNegative(d, p, c * r + f * q);
    assert c * r + f * q < (c + p) * f by {
      ErrorTerms(c, r, f, q, p);
    }
  }

  lemma {:induction false} ErrorTerms(c: nat, r: nat, f: nat, q: nat, p: nat)
    requires r < f && q < p
    ensures c * r + f * q < (c + p) * f
  {
    ProductMonotone(r, f, c);
    StrictProduct(q, p, f);
    assert (c + p) * f == c * f + p * f;
  }

  lemma {:induction false} NotNegative(d: int, p: nat, x: int)
    requires d * p == x && x >= 0 && p > 0
    ensures d >= 0
  {
    if d < 0 {
      MultipleGap(p, d);
    }
  }

  lemma {:induction false} TimesBoth(c: nat, n: nat, ns: nat, f: nat, p: nat)
    ensures (c * n - ns * f) * p == c * (p * n) - f * (p * ns)
  {
    assert (c * n - ns * f) * p == (c * n) * p - (ns * f) * p;
    assert (c * n) * p == c * (p * n) && (ns * f) * p == f * (p * ns);
  }

  lemma {:induction false} Remainders(c: nat, m: nat, f: nat, r: nat, q: int)
    ensures c * (f * m + r) - f * (c * m - q) == c * r + f * q
  {
    assert c * (f * m + r) == c * (f * m) + c * r && f * (c * m - q) == f * (c * m) - f * q;
    assert c * (f * m) == f * (c * m);
  }

  lemma StrictProduct(a: nat, b: nat, f: nat)
    requires a < b && f > 0
    ensures f * a < f * b
  {
  }

  // ---------- Deltas of a wrapping counter ----------

  class Clocksource {
    const mask: u64
    var cycleLast: u64

    constructor (mask: u64)
      ensures this.mask == mask && cycleLast == 0
    {
      this.mask, cycleLast := mask, 0;
    }

    /** `update_cycle_last`. */
    method UpdateCycleLast(cycles: u64)
      modifies this`cycleLast
      ensures cycleLast == cycles
    {
      cycleLast := cycles;
    }

    /** `read_delta`, `now` being what the hardware counter shows. */
    function ReadDelta(now: u64): nat
      reads this
    {
      Delta(cycleLast, now, mask)
    }

    /** Read, add the delta, remember the reading: over any run of readings whose gaps stay below mask + 1
        the sum is the number of cycles that went by. */
    method Accumulate(times: seq<nat>, width: nat) returns (sum: nat)
      requires |times| > 0 && width <= 64 && mask == Pow2(width) - 1 && cycleLast == Reading(times[0], width)
      requires forall i :: 0 < i < |times| ==> SmallGap(times, i, width)
      modifies this`cycleLast
      ensures times[0] + sum == times[|times| - 1] && cycleLast == Reading(times[|times| - 1], width)
    {
      hide Pow2, Reading, Delta;
      sum := 0;
      for i := 1 to |times|
        invariant cycleLast == Reading(times[i - 1], width) && times[0] + sum == times[i - 1]
      {
        assert SmallGap(times, i, width);
        DeltaIsGap(times[i - 1], times[i], width);
        var delta := ReadDelta(Reading(times[i], width));
        sum := sum + delta;
        UpdateCycleLast(Reading(times[i], width));
      }
    }
  }

  predicate SmallGap(times: seq<nat>, i: nat, width: nat)
    requires 0 < i < |times|
  {
    times[i - 1] <= times[i] < times[i - 1] + Pow2(width)
  }

  /** `(now - last) & mask`. */
  function Delta(last: u64, now: u64, mask: nat): nat {
    And(Sub64(now, last), mask)
  }

  /** What a counter of this width shows after t cycles. */
  function Reading(t: nat, width: nat): (r: u64)
    requires width <= 64
    ensures r < Pow2(width)
  {
    ReadingInRange(t, width);
    Low(t, width)
  }

  lemma ReadingInRange(t: nat, width: nat)
    requires width <= 64
    ensures Low(t, width) < TWO64 && Low(t, width) < Pow2(width)
  {
    hide Pow2, Low;
    HighLow(t, width);
    Pow2Values();
    Pow2Monotone(width, 64);
  }

  /** The masked difference of two readings is the number of cycles between them exactly if that is less
      than mask + 1. */
  lemma {:induction false} DeltaIsGap(t: nat, t': nat, width: nat)
    requires t <= t' && width <= 64
    ensures Delta(Reading(t, width), Reading(t', width), Pow2(width) - 1) == t' - t <==> t' - t < Pow2(width)
  {
    hide Pow2, High, Low, And;
    var w, a, b := Pow2(width), Low(t, width), Low(t', width);
    HighLow(t, width);
    HighLow(t', width);
    ReadingInRange(t, width);
    ReadingInRange(t', width);
    MaskedDifference(b, a, width);
    Distribute(w, High(t', width), High(t, width));
    GapFromRemainders(t' - t, w, High(t', width) - High(t, width), b, a);
  }

  /** `(b - a) & (2^width - 1)` for b and a below 2^width is their difference, plus 2^width if negative. */
  lemma {:induction false} MaskedDifference(b: u64, a: u64, width: nat)
    requires width <= 64 && a < Pow2(width) && b < Pow2(width)
    ensures And(Sub64(b, a), Pow2(width) - 1) == if b >= a then b - a else b - a + Pow2(width)
  {
    hide Pow2, High, Low, And;
    var w, k := Pow2(width), Pow2(64 - width);
    Pow2Values();
    Pow2Add(width, 64 - width);
    Pow2OfZero();
    AndFieldBits(Sub64(b, a), 0, width);
    HighLow(Sub64(b, a), width);
    LowOfZero(Sub64(b, a));
    assert w * k == TWO64;
    if b >= a {
      RemainderUnique(w, High(Sub64(b, a), width), 0, Low(Sub64(b, a), width), b - a);
    } else {
      Distribute(w, k, 1);
      RemainderUnique(w, High(Sub64(b, a), width), k - 1, Low(Sub64(b, a), width), b - a + w);
    }
  }

  lemma {:induction false} GapFromRemainders(gap: nat, w: nat, g: int, b: nat, a: nat)
    requires a < w && b < w && gap == w * g + b - a
    ensures gap == (if b >= a then b - a else b - a + w) <==> gap < w
  {
    MultipleGap(w, g);
    MultipleGap(w, g - 1);
    Distribute(w, g, 1);
  }

  lemma Pow2OfZero()
    ensures Pow2(0) == 1
  {
  }

  lemma LowOfZero(x: nat)
    ensures Low(x, 0) == 0
  {
  }
}
