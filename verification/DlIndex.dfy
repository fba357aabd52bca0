/**
  Bin indexing of the best-fit allocator: which tree bin a chunk size belongs to,
  and how the bits of a size steer the walk inside that bin.  size_t is 4 bytes wide.
 */
module DlIndex {
  import opened Arith

  const WORD: nat := 0x1_0000_0000
  const NTREEBINS: nat := 32
  const TREEBIN_SHIFT: nat := 8
  const MIN_LARGE_SIZE: nat := 256

  /** Unsigned subtraction on 32-bit words. */
  function Sub32(a: int, b: int): nat { (a - b) % WORD }

  /** One halving step of the source's branch-free logarithm: how far to shift y left. */
  function Gap(y: nat, bound: nat, step: nat): nat
    requires step > 0
  {
    if Sub32(y, bound) / 0x1_0000 / step % 2 == 1 then step else 0
  }

  lemma GapCorrect(y: nat, bound: nat, step: nat)
    requires y <= 0xFFFF && bound <= 0x4000 && step in {2, 4, 8}
    ensures Gap(y, bound, step) == if y < bound then step else 0
  {
    if y < bound {
      assert Sub32(y, bound) == WORD + y - bound;
      assert Sub32(y, bound) / 0x1_0000 == 0xFFFF;
    } else {
      assert Sub32(y, bound) == y - bound;
      assert Sub32(y, bound) / 0x1_0000 == 0;
    }
  }

  /** Left shift on 32-bit words. */
  function Shl32(y: nat, n: nat): nat { y * Pow2(n) % WORD }

  /** A halving step leaves y at or above the bound, having multiplied it by 2^Gap. */
  lemma GapShift(y: nat, bound: nat, step: nat)
    requires 1 <= y <= 0xFFFF && step in {2, 4, 8}
    requires bound == Pow2(16 - step) && bound <= y * Pow2(step)
    ensures Gap(y, bound, step) == if y < bound then step else 0
    ensures Shl32(y, Gap(y, bound, step)) == y * Pow2(Gap(y, bound, step))
    ensures bound <= Shl32(y, Gap(y, bound, step)) <= 0xFFFF
  {
    Pow2Values();
    GapCorrect(y, bound, step);
    if y < bound {
      Pow2Add(16 - step, step);
      assert y * Pow2(step) <= bound * Pow2(step);
    }
  }

  /** Floor of the base-2 logarithm, as compute_tree_index finds it. */
  function FloorLog(x: nat): int
    requires 1 <= x <= 0xFFFF
  {
    var n := Gap(x, 0x100, 8);
    var y := Shl32(x, n);
    var k := Gap(y, 0x1000, 4);
    var y' := Shl32(y, k);
    var k' := Gap(y', 0x4000, 2);
    14 - (n + k + k') + Shl32(y', k') / 0x8000
  }

  lemma MulAssoc(x: int, p: int, q: int, r: int)
    ensures x * p * q * r == x * ((p * q) * r)
  {
    assert x * p * q == x * (p * q);
    assert x * (p * q) * r == x * ((p * q) * r);
  }

  lemma MulShifts(x: nat, a: nat, b: nat, c: nat)
    ensures x * Pow2(a) * Pow2(b) * Pow2(c) == x * Pow2(a + b + c)
  {
    Pow2Add(a, b);
    Pow2Add(a + b, c);
    MulAssoc(x, Pow2(a), Pow2(b), Pow2(c));
  }

  lemma FloorLogCorrect(x: nat)
    requires 1 <= x <= 0xFFFF
    ensures 0 <= FloorLog(x) <= 15
    ensures Pow2(FloorLog(x)) <= x < Pow2(FloorLog(x) + 1)
  {
    Pow2Values();
    GapShift(x, 0x100, 8);
    var n := Gap(x, 0x100, 8);
    var y := Shl32(x, n);
    GapShift(y, 0x1000, 4);
    var k := Gap(y, 0x1000, 4);
    var y' := Shl32(y, k);
    GapShift(y', 0x4000, 2);
    var k' := Gap(y', 0x4000, 2);
    var y'' := Shl32(y', k');
    MulShifts(x, n, k, k');
    LogOfProduct(x, n + k + k', y'');
  }

  lemma LogOfProduct(x: nat, t: nat, y: nat)
    requires t <= 14 && y == x * Pow2(t) && 0x4000 <= y <= 0xFFFF
    ensures Pow2(14 - t + y / 0x8000) <= x < Pow2(14 - t + y / 0x8000 + 1)
  {
    Pow2Values();
    if y >= 0x8000 {
      assert y / 0x8000 == 1;
      Scale(x, t, 15);
    } else {
      assert y / 0x8000 == 0;
      Scale(x, t, 14);
    }
  }

  lemma Scale(x: nat, t: nat, e: nat)
    requires t <= e && Pow2(e) <= x * Pow2(t) < Pow2(e + 1)
    ensures Pow2(e - t) <= x < Pow2(e + 1 - t)
  {
    Pow2Add(e - t, t);
    Pow2Add(e + 1 - t, t);
    CancelFactor(x, Pow2(e - t), Pow2(e + 1 - t), Pow2(t));
  }

  lemma CancelFactor(x: int, a: int, b: int, c: int)
    requires c > 0 && a * c <= x * c < b * c
    ensures a <= x < b
  {
    assert (x - a) * c >= 0 && (b - x) * c > 0;
  }

  /** compute_tree_index: twice the logarithm, plus the bit below the leading one. */
  function TreeIndex(s: nat): nat {
    var x := s / 256;
    if x == 0 then 0
    else if x > 0xFFFF then NTREEBINS - 1
    else 2 * FloorLog(x) + s / Pow2(FloorLog(x) + TREEBIN_SHIFT - 1) % 2
  }

  /** minsize_for_tree_index: the smallest chunk size held in bin i. */
  function MinSize(i: nat): nat {
    Pow2(i / 2 + TREEBIN_SHIFT) + (if i % 2 == 1 then Pow2(i / 2 + TREEBIN_SHIFT - 1) else 0)
  }

  /** leftshift_for_tree_index: brings the first steering bit to the sign position. */
  function LeftShift(i: nat): nat
    requires i < NTREEBINS
  {
    if i == NTREEBINS - 1 then 0 else 31 - (i / 2 + TREEBIN_SHIFT - 2)
  }

  lemma HalfBit(s: nat, q: nat)
    requires q > 0 && 2 * q <= s < 4 * q
    ensures s / q % 2 == if s < 3 * q then 0 else 1
  {
    if s < 3 * q { assert s / q == 2; } else { assert s / q == 3; }
  }

  lemma MinSizeOf(k: nat)
    ensures MinSize(2 * k) == 2 * Pow2(k + 7)
    ensures MinSize(2 * k + 1) == 3 * Pow2(k + 7)
  {
    assert (2 * k) / 2 == k && (2 * k) % 2 == 0;
    assert (2 * k + 1) / 2 == k && (2 * k + 1) % 2 == 1;
    assert Pow2(k + 8) == 2 * Pow2(k + 7);
  }

  lemma LogBin(s: nat, k: nat, q: nat)
    requires q == Pow2(k + 7) && 2 * q <= s < 4 * q
    ensures s < 3 * q ==> MinSize(2 * k) <= s < MinSize(2 * k + 1)
    ensures 3 * q <= s ==> MinSize(2 * k + 1) <= s < MinSize(2 * k + 2)
  {
    MinSizeOf(k);
    NextMinSize(k);
  }

  lemma NextMinSize(k: nat)
    ensures MinSize(2 * k + 2) == 4 * Pow2(k + 7)
  {
    assert (2 * k + 2) / 2 == k + 1 && (2 * k + 2) % 2 == 0;
    assert Pow2(k + 9) == 2 * Pow2(k + 8) && Pow2(k + 8) == 2 * Pow2(k + 7);
  }

  lemma TopBin()
    ensures MinSize(31) == 0xC0_0000
  {
    MinSizeOf(15);
    Pow2Values();
  }

  lemma MidIndex(s: nat, k: nat)
    requires Pow2(k) <= s / 256 < Pow2(k + 1)
    ensures var i := 2 * k + s / Pow2(k + 7) % 2; MinSize(i) <= s < MinSize(i + 1)
  {
    LogRange(s, k);
    HalfBit(s, Pow2(k + 7));
    LogBin(s, k, Pow2(k + 7));
  }

  /** s is in the size range of bin i. */
  predicate InBin(i: nat, s: nat) {
    i < NTREEBINS && MIN_LARGE_SIZE <= s < WORD && MinSize(i) <= s && (i < NTREEBINS - 1 ==> s < MinSize(i + 1))
  }

  /** The index is the bin whose size range holds s. */
  lemma TreeIndexCorrect(s: nat)
    requires MIN_LARGE_SIZE <= s < WORD
    ensures InBin(TreeIndex(s), s)
  {
    if s / 256 <= 0xFFFF {
      FloorLogCorrect(s / 256);
      MidIndex(s, FloorLog(s / 256));
    } else {
      TopBin();
    }
  }

  lemma LogRange(s: nat, k: nat)
    requires Pow2(k) <= s / 256 < Pow2(k + 1)
    ensures Pow2(k + 8) <= s < Pow2(k + 9)
  {
    Pow2Add(k, 8);
    Pow2Add(k + 1, 8);
    Pow2Values();
  }

  lemma MinSizeStep(i: nat)
    ensures MinSize(i) < MinSize(i + 1)
  {
    var k := i / 2;
    MinSizeOf(k);
    NextMinSize(k);
    if i % 2 == 0 { assert i == 2 * k; } else { assert i == 2 * k + 1; }
  }

  lemma {:induction false} MinSizeMono(i: nat, j: nat)
    requires i <= j
    ensures MinSize(i) <= MinSize(j)
  {
    if i < j {
      MinSizeMono(i, j - 1);
      MinSizeStep(j - 1);
    }
  }

  /** Only one bin's range holds a given size. */
  lemma TreeIndexUnique(s: nat, i: nat)
    requires InBin(i, s)
    ensures TreeIndex(s) == i
  {
    TreeIndexCorrect(s);
    var j := TreeIndex(s);
    if i < j { MinSizeMono(i + 1, j); }
    if j < i { MinSizeMono(j + 1, i); }
  }

  /* ---- Steering bits inside a bin ---- */

  /** Start of the aligned block of sizes that bin i's trie divides. */
  function BinLo(i: nat): nat
    requires i < NTREEBINS
  {
    if i == NTREEBINS - 1 then 0 else MinSize(i)
  }

  /** That block is 2^BinBits(i) wide. */
  function BinBits(i: nat): nat
    requires i < NTREEBINS
    ensures LeftShift(i) == 32 - BinBits(i)
  {
    if i == NTREEBINS - 1 then 32 else i / 2 + TREEBIN_SHIFT - 1
  }

  lemma BinBlock(i: nat, s: nat)
    requires InBin(i, s)
    ensures BinLo(i) <= s < BinLo(i) + Pow2(BinBits(i))
  {
    if i == NTREEBINS - 1 {
      Pow2Values();
    } else {
      var k := i / 2;
      MinSizeOf(k);
      NextMinSize(k);
      if i % 2 == 0 { assert i == 2 * k; } else { assert i == 2 * k + 1; }
    }
  }

  /** The steering word of size s when the block [lo, lo + 2^k) is being divided. */
  function SizeBits(s: nat, lo: nat, k: nat): nat
    requires lo <= s && k <= 32
  {
    (s - lo) * Pow2(32 - k)
  }

  /** S << leftshift_for_tree_index(I) is the steering word of the whole bin. */
  lemma SizeBitsStart(s: nat, i: nat)
    requires i < NTREEBINS && s < WORD
    requires BinLo(i) <= s < BinLo(i) + Pow2(BinBits(i))
    ensures Shl32(s, LeftShift(i)) == SizeBits(s, BinLo(i), BinBits(i))
  {
    var k := BinBits(i);
    var p, q := Pow2(k), Pow2(32 - k);
    Pow2Add(k, 32 - k);
    Pow2Values();
    if i == NTREEBINS - 1 {
    } else {
      MinSizeOf(i / 2);
      var m := if i % 2 == 0 then 2 else 3;
      assert i == 2 * (i / 2) + i % 2;
      assert BinLo(i) == m * p;
      ShiftDropsBlock(s, m, p, q);
    }
  }

  lemma ShiftDropsBlock(s: nat, m: nat, p: nat, q: nat)
    requires p * q == WORD && m * p <= s < m * p + p
    ensures (s * q) % WORD == (s - m * p) * q
  {
    var d := s - m * p;
    assert s * q == d * q + (m * p) * q;
    assert (m * p) * q == m * WORD by { assert (m * p) * q == m * (p * q); }
    assert d * q < p * q;
    assert (d * q + m * WORD) % WORD == d * q;
  }

  /** The sign bit says which half of the block holds s; shifting left narrows to that half. */
  lemma SizeBitsStep(s: nat, lo: nat, k: nat)
    requires 1 <= k <= 32 && lo <= s < lo + Pow2(k)
    ensures var right := lo + Pow2(k - 1) <= s;
            var lo' := if right then lo + Pow2(k - 1) else lo;
            && SizeBits(s, lo, k) / 0x8000_0000 % 2 == (if right then 1 else 0)
            && SizeBits(s, lo, k) * 2 % WORD == SizeBits(s, lo', k - 1)
            && lo' <= s < lo' + Pow2(k - 1)
  {
    var h, q := Pow2(k - 1), Pow2(32 - k);
    Pow2Add(k - 1, 32 - k);
    Pow2Values();
    assert Pow2(32 - (k - 1)) == 2 * q && h * q == 0x8000_0000;
    HalfWord(s - lo, h, q);
  }

  lemma HalfWord(d: nat, h: nat, q: nat)
    requires h * q == 0x8000_0000 && d < 2 * h
    ensures d * q / 0x8000_0000 % 2 == if h <= d then 1 else 0
    ensures d * q * 2 % WORD == (if h <= d then d - h else d) * (2 * q)
  {
    var e := if h <= d then d - h else d;
    assert e * q < h * q;
    if h <= d { assert d * q == e * q + h * q; }
    assert e * (2 * q) == e * q * 2;
  }
}
