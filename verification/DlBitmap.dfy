/** The maps of non-empty bins: 32-bit words, and the word tricks that find the first set bit from some bin on. */
module DlBitmap {
  /** The 32 bits of a binmap_t word, least significant first. */
  type BinMap = b: seq<bool> | |b| == 32 witness seq(32, _ => false)

  /** The first marked bin at or above i, or 32 when there is none. */
  function FirstSet(b: BinMap, i: nat): (k: nat)
    requires i <= 32
    ensures i <= k <= 32
    ensures k < 32 ==> b[k]
    ensures forall j | i <= j < k :: !b[j]
    decreases 32 - i
  {
    if i == 32 || b[i] then i else FirstSet(b, i + 1)
  }

  /* ---- Words; bin numbers are words too ---- */

  /** idx2bit. */
  function IdxBit(i: bv32): bv32
    requires i < 32
  {
    1 << i
  }

  /** smallmap_is_marked and treemap_is_marked. */
  predicate HasBit(w: bv32, i: bv32)
    requires i < 32
  {
    w & IdxBit(i) != 0
  }

  function SetBit(w: bv32, i: bv32): bv32
    requires i < 32
  {
    w | IdxBit(i)
  }

  function ClearBit(w: bv32, i: bv32): bv32
    requires i < 32
  {
    w & !IdxBit(i)
  }

  function LeastBit(x: bv32): bv32 { x & (0 - x) }

  function LeftBits(x: bv32): bv32 { (x << 1) | (0 - (x << 1)) }

  /** compute_bit2idx: index of the only set bit. */
  function Bit2Idx(x: bv32): bv32 {
    var y := x - 1;
    var k := (y >> 12) & 16;
    var n, y := k, y >> k;
    var k := (y >> 5) & 8;
    var n, y := n + k, y >> k;
    var k := (y >> 2) & 4;
    var n, y := n + k, y >> k;
    var k := (y >> 1) & 2;
    var n, y := n + k, y >> k;
    var k := y & 1;
    n + k + (y >> k)
  }

  function LeastWordIndex(x: bv32): bv32 { Bit2Idx(LeastBit(x)) }

  /** left_bits(idx2bit(i)) & w. */
  function WordAbove(w: bv32, i: bv32): bv32
    requires i < 32
  {
    LeftBits(IdxBit(i)) & w
  }

  /** gm->smallmap >> i. */
  function ShiftedDown(w: bv32, i: bv32): bv32
    requires i < 32
  {
    w >> i
  }

  /** (smallbits << i) & left_bits(idx2bit(i)). */
  function ShiftedAbove(bits: bv32, i: bv32): bv32
    requires i < 32
  {
    (bits << i) & LeftBits(IdxBit(i))
  }

  /* The facts about words, spelled out. */

  lemma LeftRaw(w: bv32, s: bv32, i: bv32, j: bv32)
    requires i < 32 && j < 32 && s == WordAbove(w, i)
    ensures s & IdxBit(j) != 0 <==> i < j && w & IdxBit(j) != 0
  {
  }

  lemma SmallLeftRaw(w: bv32, s: bv32, i: bv32, j: bv32)
    requires i < 32 && j < 32 && s == ShiftedAbove(ShiftedDown(w, i), i)
    ensures s & IdxBit(j) != 0 <==> i < j && w & IdxBit(j) != 0
  {
  }

  lemma SmallNoneRaw(w: bv32, i: bv32, j: bv32)
    requires i < 32 && j < 32 && ShiftedDown(w, i) == 0 && i <= j
    ensures !HasBit(w, j)
  {
  }

  lemma SetRaw(w: bv32, s: bv32, i: bv32, j: bv32)
    requires i < 32 && j < 32 && s == SetBit(w, i)
    ensures s & IdxBit(j) != 0 <==> i == j || w & IdxBit(j) != 0
  {
  }

  lemma ClearRaw(w: bv32, s: bv32, i: bv32, j: bv32)
    requires i < 32 && j < 32 && s == ClearBit(w, i)
    ensures s & IdxBit(j) != 0 <==> i != j && w & IdxBit(j) != 0
  {
  }

  lemma BitIs(w: bv32, i: bv32)
    requires i < 32
    ensures HasBit(w, i) <==> w & IdxBit(i) != 0
  {
  }

  lemma OrBit(w: bv32, s: bv32, j: bv32, p: bool)
    requires j < 32 && (s & IdxBit(j) != 0 <==> p || w & IdxBit(j) != 0)
    ensures HasBit(s, j) <==> p || HasBit(w, j)
  {
    hide IdxBit;
  }

  /** compute_bit2idx(least_bit(x)) is a set bit of x and no lower bit is set. */
  lemma LeastWord(x: bv32, j: bv32)
    requires x != 0 && j < 32
    ensures LeastWordIndex(x) < 32 && HasBit(x, LeastWordIndex(x))
    ensures j < LeastWordIndex(x) ==> !HasBit(x, j)
  {
  }

  /** left_bits(idx2bit(i)) & w keeps exactly the set bits of w above i. */
  lemma LeftBitsWord(w: bv32, i: bv32, j: bv32)
    requires i < 32 && j < 32
    ensures HasBit(WordAbove(w, i), j) <==> i < j && HasBit(w, j)
  {
    hide IdxBit, HasBit, WordAbove;
    LeftRaw(w, WordAbove(w, i), i, j);
    BitIs(WordAbove(w, i), j);
    BitIs(w, j);
  }

  lemma ProbeRaw(w: bv32, s: bv32, i: bv32)
    requires i < 32 && s == ShiftedDown(w, i)
    ensures s & 3 != 0 <==> w & IdxBit(i) != 0 || (i < 31 && w & IdxBit(i + 1) != 0)
    ensures !s & 1 == if w & IdxBit(i) != 0 then 0 else 1
  {
  }

  /** The small-bin probe (w >> i) & 3 looks at bits i and i + 1 only, and its complement tells them apart. */
  lemma SmallProbeWord(w: bv32, i: bv32)
    requires i < 32
    ensures ShiftedDown(w, i) & 3 != 0 <==> HasBit(w, i) || (i < 31 && HasBit(w, i + 1))
    ensures !ShiftedDown(w, i) & 1 == if HasBit(w, i) then 0 else 1
  {
    hide IdxBit, HasBit, ShiftedDown;
    ProbeRaw(w, ShiftedDown(w, i), i);
    BitIs(w, i);
    if i < 31 { BitIs(w, i + 1); }
  }

  /** (w >> i << i) & left_bits(idx2bit(i)) keeps exactly the set bits of w above i. */
  lemma SmallLeftWord(w: bv32, i: bv32, j: bv32)
    requires i < 32 && j < 32
    ensures HasBit(ShiftedAbove(ShiftedDown(w, i), i), j) <==> i < j && HasBit(w, j)
    ensures ShiftedDown(w, i) == 0 && i <= j ==> !HasBit(w, j)
  {
    hide IdxBit, HasBit, ShiftedDown, ShiftedAbove;
    var s := ShiftedAbove(ShiftedDown(w, i), i);
    SmallLeftRaw(w, s, i, j);
    BitIs(s, j);
    BitIs(w, j);
    if ShiftedDown(w, i) == 0 && i <= j { SmallNoneRaw(w, i, j); }
  }

  lemma SmallLeftZero(w: bv32, i: bv32)
    requires i < 32 && ShiftedDown(w, i) != 0 && !HasBit(w, i)
    ensures ShiftedAbove(ShiftedDown(w, i), i) != 0
  {
  }

  lemma MarkWord(w: bv32, i: bv32, j: bv32)
    requires i < 32 && j < 32
    ensures HasBit(SetBit(w, i), j) <==> i == j || HasBit(w, j)
  {
    hide IdxBit, HasBit, SetBit;
    SetRaw(w, SetBit(w, i), i, j);
    OrBit(w, SetBit(w, i), j, i == j);
  }

  lemma ClearWord(w: bv32, i: bv32, j: bv32)
    requires i < 32 && j < 32
    ensures HasBit(ClearBit(w, i), j) <==> i != j && HasBit(w, j)
  {
    hide IdxBit, HasBit, ClearBit;
    ClearRaw(w, ClearBit(w, i), i, j);
    BitIs(ClearBit(w, i), j);
    BitIs(w, j);
  }

  /* ---- Bin numbers as numbers ---- */

  function BitValue(b: bv32, mask: bv32, value: nat): nat { if b & mask != 0 then value else 0 }

  /** The bin number in a word. */
  function ToIndex(b: bv32): nat {
    BitValue(b, 16, 16) + BitValue(b, 8, 8) + BitValue(b, 4, 4) + BitValue(b, 2, 2) + BitValue(b, 1, 1)
  }

  function Word4(i: nat): bv32
    requires i < 4
  {
    if i < 2 then (if i == 0 then 0 else 1) else (if i == 2 then 2 else 3)
  }

  function Word16(i: nat): bv32
    requires i < 16
  {
    if i < 8 then (if i < 4 then Word4(i) else 4 | Word4(i - 4))
    else (if i < 12 then 8 | Word4(i - 8) else 12 | Word4(i - 12))
  }

  function WordOf(i: nat): bv32
    requires i < 32
  {
    if i < 16 then Word16(i) else 16 | Word16(i - 16)
  }

  lemma IndexRoundTrip(i: nat)
    requires i < 32
    ensures WordOf(i) < 32 && ToIndex(WordOf(i)) == i
  {
  }

  /** A bin number as a word. */
  function ToWord(i: nat): (b: bv32)
    requires i < 32
    ensures b < 32 && ToIndex(b) == i
  {
    IndexRoundTrip(i);
    WordOf(i)
  }

  lemma IndexOrder(b: bv32, c: bv32)
    requires b < 32 && c < 32
    ensures b < c <==> ToIndex(b) < ToIndex(c)
    ensures b == c <==> ToIndex(b) == ToIndex(c)
    ensures ToIndex(b) < 32
  {
  }

  lemma WordRoundTrip(b: bv32)
    requires b < 32
    ensures ToIndex(b) < 32 && ToWord(ToIndex(b)) == b
  {
    hide ToWord, ToIndex;
    IndexOrder(b, b);
    IndexOrder(b, ToWord(ToIndex(b)));
  }

  lemma WordOrder(i: nat, j: nat)
    requires i < 32 && j < 32
    ensures i < j <==> ToWord(i) < ToWord(j)
    ensures i == j <==> ToWord(i) == ToWord(j)
  {
    hide ToWord, ToIndex;
    IndexOrder(ToWord(i), ToWord(j));
  }

  lemma NextWord(i: nat)
    requires i < 32
    ensures ToWord(i) < 31 <==> i < 31
    ensures i < 31 ==> ToWord(i + 1) == ToWord(i) + 1
  {
  }

  /* ---- Words as bitmaps ---- */

  predicate Marked(w: bv32, i: nat)
    requires i < 32
  {
    HasBit(w, ToWord(i))
  }

  /** mark_treemap and mark_smallmap. */
  function Mark(w: bv32, i: nat): bv32
    requires i < 32
  {
    SetBit(w, ToWord(i))
  }

  /** clear_treemap and clear_smallmap. */
  function Clear(w: bv32, i: nat): bv32
    requires i < 32
  {
    ClearBit(w, ToWord(i))
  }

  /** compute_bit2idx(least_bit(x)). */
  function LeastIndex(x: bv32): nat { ToIndex(LeastWordIndex(x)) }

  function BitsAbove(w: bv32, i: nat): bv32
    requires i < 32
  {
    WordAbove(w, ToWord(i))
  }

  function SmallBits(w: bv32, i: nat): bv32
    requires i < 32
  {
    ShiftedDown(w, ToWord(i))
  }

  function SmallAbove(bits: bv32, i: nat): bv32
    requires i < 32
  {
    ShiftedAbove(bits, ToWord(i))
  }

  /** (smallbits & 0x3U) != 0: the bin probed or the next one has a chunk. */
  predicate ProbeHits(bits: bv32) { bits & 3 != 0 }

  /** ~smallbits & 1: by how many bins to go up. */
  function ProbeStep(bits: bv32): nat { ToIndex(!bits & 1) }

  /** The marks a word stands for. */
  function BitsOf(w: bv32): (b: BinMap)
    ensures forall i | 0 <= i < 32 :: b[i] == Marked(w, i)
  {
    seq(32, i requires 0 <= i < 32 => Marked(w, i))
  }

  lemma MarkAt(w: bv32, i: nat, j: nat)
    requires i < 32 && j < 32
    ensures Marked(Mark(w, i), j) <==> i == j || Marked(w, j)
    ensures Marked(Clear(w, i), j) <==> i != j && Marked(w, j)
  {
    hide ToWord, ToIndex, HasBit, SetBit, ClearBit;
    WordOrder(i, j);
    MarkWord(w, ToWord(i), ToWord(j));
    ClearWord(w, ToWord(i), ToWord(j));
  }

  lemma AboveAt(w: bv32, i: nat, j: nat)
    requires i < 32 && j < 32
    ensures Marked(BitsAbove(w, i), j) <==> i < j && Marked(w, j)
    ensures Marked(SmallAbove(SmallBits(w, i), i), j) <==> i < j && Marked(w, j)
    ensures SmallBits(w, i) == 0 && i <= j ==> !Marked(w, j)
  {
    hide ToWord, ToIndex, HasBit, WordAbove, ShiftedDown, ShiftedAbove;
    WordOrder(i, j);
    LeftBitsWord(w, ToWord(i), ToWord(j));
    SmallLeftWord(w, ToWord(i), ToWord(j));
  }

  lemma LeastAt(x: bv32, j: nat)
    requires x != 0 && j < 32
    ensures LeastIndex(x) < 32 && Marked(x, LeastIndex(x)) && (j < LeastIndex(x) ==> !Marked(x, j))
  {
    hide ToWord, ToIndex, HasBit, LeastWordIndex;
    LeastWord(x, ToWord(j));
    WordRoundTrip(LeastWordIndex(x));
    WordOrder(j, LeastIndex(x));
  }

  /** Setting or clearing a bit changes the mark of its bin and no other. */
  lemma MarkBits(w: bv32, i: nat)
    requires i < 32
    ensures BitsOf(Mark(w, i)) == BitsOf(w)[i := true]
    ensures BitsOf(Clear(w, i)) == BitsOf(w)[i := false]
  {
    hide Mark, Clear, Marked;
    forall j | 0 <= j < 32
      ensures BitsOf(Mark(w, i))[j] == BitsOf(w)[i := true][j] && BitsOf(Clear(w, i))[j] == BitsOf(w)[i := false][j]
    {
      MarkAt(w, i, j);
    }
  }

  lemma ZeroUnmarked(i: nat)
    requires i < 32
    ensures !Marked(0, i)
  {
  }

  lemma NoMarks()
    ensures BitsOf(0) == seq(32, _ => false)
  {
    hide Marked;
    forall i | 0 <= i < 32 ensures !BitsOf(0)[i] { ZeroUnmarked(i); }
  }

  /** compute_bit2idx(least_bit(x)) is the first marked bin of x; there is one exactly when x is not zero. */
  lemma FirstMarked(x: bv32)
    ensures x != 0 <==> FirstSet(BitsOf(x), 0) < 32
    ensures x != 0 <==> true in BitsOf(x)
    ensures x != 0 ==> LeastIndex(x) == FirstSet(BitsOf(x), 0)
  {
    hide LeastIndex, Marked;
    if x != 0 {
      var k := LeastIndex(x);
      LeastAt(x, 0);
      assert BitsOf(x)[k];
      forall j | 0 <= j < k ensures !BitsOf(x)[j] { LeastAt(x, j); }
    } else {
      NoMarks();
    }
  }

  /** left_bits(idx2bit(i)) & w leads to the first marked bin above i, and is zero exactly when there is none. */
  lemma NextMarked(w: bv32, i: nat)
    requires i < 32
    ensures BitsAbove(w, i) != 0 <==> FirstSet(BitsOf(w), i + 1) < 32
    ensures BitsAbove(w, i) != 0 ==> LeastIndex(BitsAbove(w, i)) == FirstSet(BitsOf(w), i + 1)
  {
    hide LeastIndex, Marked, BitsAbove;
    var x := BitsAbove(w, i);
    forall j | 0 <= j < 32 ensures BitsOf(x)[j] == (i < j && BitsOf(w)[j]) { AboveAt(w, i, j); }
    FirstMarked(x);
    FirstAbove(BitsOf(w), BitsOf(x), i + 1);
  }

  /** Dropping the marks below i does not change the first one from i on. */
  lemma FirstAbove(b: BinMap, x: BinMap, i: nat)
    requires i <= 32 && forall j | 0 <= j < 32 :: x[j] == (i <= j && b[j])
    ensures FirstSet(x, 0) == FirstSet(b, i)
  {
  }

  /** The probe of dlmalloc for a small request: one of bins i and i + 1 is marked, and the first of them is taken. */
  lemma ProbeMarked(w: bv32, i: nat)
    requires i < 32
    ensures ProbeHits(SmallBits(w, i)) <==> Marked(w, i) || (i < 31 && Marked(w, i + 1))
    ensures ProbeStep(SmallBits(w, i)) == if Marked(w, i) then 0 else 1
  {
    hide ToWord, HasBit, ShiftedDown;
    SmallProbeWord(w, ToWord(i));
    NextWord(i);
  }

  lemma SmallAboveZero(w: bv32, i: nat)
    requires i < 32 && SmallBits(w, i) != 0 && !Marked(w, i)
    ensures SmallAbove(SmallBits(w, i), i) != 0
  {
    hide ToWord, HasBit, ShiftedDown, ShiftedAbove;
    SmallLeftZero(w, ToWord(i));
  }

  /** With bin i empty, the shifted map leads to the first marked bin, and is zero exactly when there is none. */
  lemma SmallNextMarked(w: bv32, i: nat)
    requires i < 32 && !Marked(w, i)
    ensures SmallBits(w, i) != 0 <==> FirstSet(BitsOf(w), i) < 32
    ensures SmallBits(w, i) != 0 ==> LeastIndex(SmallAbove(SmallBits(w, i), i)) == FirstSet(BitsOf(w), i)
  {
    hide LeastIndex, Marked, SmallBits, SmallAbove;
    var x := SmallAbove(SmallBits(w, i), i);
    forall j | 0 <= j < 32
      ensures BitsOf(x)[j] == (i <= j && BitsOf(w)[j])
      ensures SmallBits(w, i) == 0 && i <= j ==> !BitsOf(w)[j]
    {
      AboveAt(w, i, j);
    }
    if SmallBits(w, i) != 0 { SmallAboveZero(w, i); }
    FirstMarked(x);
    FirstAbove(BitsOf(w), BitsOf(x), i);
  }
}
