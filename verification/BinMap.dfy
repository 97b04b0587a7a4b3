/** The bin map: one bit a bin in 32-bit words, with the comparisons on whole words that the bin search
    uses in place of looking at single bits. */
module BinMaps {
  import opened Machine
  import opened HeapSizes

  predicate Bit(w: nat, b: nat) {
    if b == 0 then w % 2 == 1 else Bit(w / 2, b - 1)
  }

  lemma {:induction false} BitOfZero(b: nat)
    ensures !Bit(0, b)
  {
    if b > 0 {
      BitOfZero(b - 1);
    }
  }

  lemma {:induction false} BitOfPower(b: nat, c: nat)
    ensures Bit(Pow2(b), c) <==> b == c
  {
    if b == 0 {
      if c > 0 {
        BitOfZero(c - 1);
      }
    } else if c > 0 {
      BitOfPower(b - 1, c - 1);
    }
  }

  lemma {:induction false} BitOfOr(v: nat, w: nat, c: nat)
    ensures Bit(Or(v, w), c) <==> Bit(v, c) || Bit(w, c)
  {
    if v == 0 || w == 0 {
      BitOfZero(c);
    } else if c > 0 {
      BitOfOr(v / 2, w / 2, c - 1);
    }
  }

  /** `w & ~v`. */
  function AndNot(w: nat, v: nat): nat {
    w - And(w, v)
  }

  lemma {:induction false} BitOfAndNot(w: nat, v: nat, c: nat)
    ensures Bit(AndNot(w, v), c) <==> Bit(w, c) && !Bit(v, c)
  {
    AndNotHalves(w, v);
    if c > 0 {
      BitOfAndNot(w / 2, v / 2, c - 1);
    }
  }

  lemma {:induction false} AndNotHalves(w: nat, v: nat)
    ensures AndNot(w, v) / 2 == AndNot(w / 2, v / 2)
    ensures AndNot(w, v) % 2 == if w % 2 == 1 && v % 2 == 0 then 1 else 0
  {
    hide And;
    AndStep(w, v);
    var h, b := And(w / 2, v / 2), if w % 2 == 1 && v % 2 == 1 then 1 else 0;
    assert AndNot(w, v) == 2 * (w / 2 - h) + (w % 2 - b);
  }

  /** Testing one bit of a word with `bit & map`. */
  lemma {:induction false} BitTest(w: nat, b: nat)
    ensures And(Pow2(b), w) == 0 <==> !Bit(w, b)
  {
    AndStep(Pow2(b), w);
    if b > 0 {
      BitTest(w / 2, b - 1);
    } else {
      assert And(0, w / 2) == 0;
    }
  }

  /** `bit > map`: no bit from `bit` up is set. */
  lemma {:induction false} NoBitAbove(w: nat, b: nat, c: nat)
    requires w < Pow2(b) && b <= c
    ensures !Bit(w, c)
    decreases c
  {
    if b > 0 {
      NoBitAbove(w / 2, b - 1, c - 1);
    } else {
      BitOfZero(c);
    }
  }

  /** `bit <= map`: some bit from `bit` up is set, so the search for it stays inside the word. */
  lemma {:induction false} SomeBitAbove(w: nat, b: nat, n: nat) returns (c: nat)
    requires n >= 1 && Pow2(b) <= w < Pow2(n)
    ensures b <= c < n && Bit(w, c)
    decreases n
  {
    if w == 1 {
      c := 0;
    } else {
      c := SomeBitAbove(w / 2, if b == 0 then 0 else b - 1, n - 1);
      c := c + 1;
    }
  }

  /** Clearing bits makes a word smaller, setting one keeps it within its width. */
  lemma {:induction false} OrStaysBelow(v: nat, w: nat, n: nat)
    requires v < Pow2(n) && w < Pow2(n)
    ensures Or(v, w) < Pow2(n)
  {
    if v != 0 && w != 0 {
      OrStaysBelow(v / 2, w / 2, n - 1);
    }
  }

  // ---------- The map ----------

  /** Three words for the bins and a fourth that stays zero. */
  predicate MapShape(m: seq<nat>) {
    |m| == 4 && m[3] == 0 && forall i :: 0 <= i < 4 ==> m[i] < TWO32
  }

  predicate Marked(m: seq<nat>, i: nat)
    requires |m| == 4 && i < 128
  {
    Bit(m[i / 32], i % 32)
  }

  /** `mark_bin`. */
  function MarkBin(m: seq<nat>, i: nat): seq<nat>
    requires |m| == 4 && i < 128
  {
    m[i / 32 := Or(m[i / 32], Pow2(i % 32))]
  }

  /** `unmark_bin`, also `map &= ~bit` written through. */
  function UnmarkBin(m: seq<nat>, i: nat): seq<nat>
    requires |m| == 4 && i < 128
  {
    m[i / 32 := AndNot(m[i / 32], Pow2(i % 32))]
  }

  lemma Pow2ThirtyTwo()
    ensures Pow2(32) == TWO32
  {
    assert Pow2(8) == 256;
    assert Pow2(16) == 0x1_0000;
    assert Pow2(24) == 0x100_0000;
  }

  lemma {:induction false} MarkBinMarks(m: seq<nat>, i: nat, j: nat)
    requires MapShape(m) && i < NBINS && j < 128
    ensures MapShape(MarkBin(m, i)) && (Marked(MarkBin(m, i), j) <==> i == j || Marked(m, j))
  {
    hide Bit, Or, Pow2;
    BitOfOr(m[i / 32], Pow2(i % 32), j % 32);
    BitOfPower(i % 32, j % 32);
    Pow2ThirtyTwo();
    Pow2Monotone(i % 32 + 1, 32);
    Pow2Doubles(i % 32);
    OrStaysBelow(m[i / 32], Pow2(i % 32), 32);
  }

  lemma Pow2Doubles(k: nat)
    ensures Pow2(k + 1) == 2 * Pow2(k)
  {
  }

  lemma {:induction false} UnmarkBinUnmarks(m: seq<nat>, i: nat, j: nat)
    requires MapShape(m) && i < NBINS && j < 128
    ensures MapShape(UnmarkBin(m, i)) && (Marked(UnmarkBin(m, i), j) <==> i != j && Marked(m, j))
  {
    hide Bit, And, Pow2;
    BitOfAndNot(m[i / 32], Pow2(i % 32), j % 32);
    BitOfPower(i % 32, j % 32);
  }

  /** The 32-bit word with bit b set; shifting the last bit out leaves 0. */
  function BitWord(b: nat): nat {
    if b >= 32 then 0 else Pow2(b)
  }

  lemma {:induction false} ShiftBit(b: nat)
    requires b < 32
    ensures BitWord(b) * 2 % TWO32 == BitWord(b + 1) && BitWord(b) > 0
  {
    Pow2ThirtyTwo();
    hide Pow2;
    Pow2Doubles(b);
    if b < 31 {
      Pow2Monotone(b + 2, 32);
      Pow2Doubles(b + 1);
      SmallMod(Pow2(b + 1), TWO32);
    } else {
      DivModUnique(TWO32, TWO32, 1, 0);
    }
  }

  /** The rest of a block can be skipped: no bin from b on is marked. */
  lemma {:induction false} RestOfBlock(m: seq<nat>, block: nat, b: nat, j: nat)
    requires MapShape(m) && block < 4 && (BitWord(b) > m[block] || BitWord(b) == 0) && 32 * block + b <= j < 32 * block + 32
    ensures !Marked(m, j)
  {
    hide Bit, Pow2;
    DivModUnique(j, 32, block, j - 32 * block);
    if b < 32 {
      Pow2Monotone(0, b);
      NoBitAbove(m[block], b, j - 32 * block);
    }
  }

  /** A word of zeros marks no bin. */
  lemma {:induction false} ZeroBlock(m: seq<nat>, block: nat, j: nat)
    requires MapShape(m) && block < 4 && m[block] == 0 && 32 * block <= j < 32 * block + 32
    ensures !Marked(m, j)
  {
    DivModUnique(j, 32, block, j - 32 * block);
    BitOfZero(j - 32 * block);
  }

  lemma {:induction false} ClearBit(m: seq<nat>, block: nat, b: nat)
    requires MapShape(m) && block < 3 && b < 32
    ensures m[block := AndNot(m[block], BitWord(b))] == UnmarkBin(m, 32 * block + b)
    ensures Marked(m, 32 * block + b) <==> Bit(m[block], b)
  {
    DivModUnique(32 * block + b, 32, block, b);
  }
}
