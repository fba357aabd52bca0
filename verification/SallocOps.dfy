/** The simple allocator's work on one region: the header writes and the searches, against the chain they keep. */
module SallocOps {
  import opened SallocChain

  const DYN_SIZE_MULT: nat := 8
  const DYN_HEADER_SIZE: nat := 8
  const DYN_MIN_SPLIT_SIZE: nat := 16

  /** s_act_size: round up to a multiple of 8. */
  function ActSize(size: nat): nat {
    if size % DYN_SIZE_MULT != 0 then (size / DYN_SIZE_MULT + 1) * DYN_SIZE_MULT else size
  }

  /** The whole block needed for size bytes, in units. */
  function UnitsFor(size: nat): nat { ActSize(size + DYN_HEADER_SIZE) / DYN_SIZE_MULT }

  lemma ChainFacts(w: seq<Unit>, bs: seq<Block>, lo: nat, hi: nat, k: nat)
    requires Chain(w, bs, lo, hi) && k < |bs|
    ensures 0 < lo <= bs[k].at < hi <= |w| <= MAX_UNITS && IsTaken(w[bs[k].at]) == bs[k].taken
    ensures k > 0 ==> bs[k - 1].at < bs[k].at && PrevOf(w[bs[k].at]) == bs[k - 1].at
    ensures k < |bs| - 1 ==> bs[k].at < bs[k + 1].at && NextOf(w[bs[k].at]) == bs[k + 1].at
    ensures 0 < k < |bs| - 1 ==> Inner(bs, k)
    ensures k == 0 || k == |bs| - 1 ==> bs[k].taken
    ensures k == |bs| - 1 ==> NextOf(w[bs[k].at]) == 0
  {
    if k > 0 { assert Linked(w, bs[k - 1], bs[k]); }
    if k < |bs| - 1 { assert Linked(w, bs[k], bs[k + 1]); }
  }

  lemma InRam(w: seq<Unit>, bs: seq<Block>, lo: nat, hi: nat)
    requires Chain(w, bs, lo, hi)
    ensures forall i | 0 <= i < |bs| :: bs[i].at < |w|
    ensures |bs| >= 3 && bs[0].at == lo && 0 < lo
  {
  }

  /** Marking block k free or taken. */
  lemma MarkChain(w: seq<Unit>, w': seq<Unit>, bs: seq<Block>, k: nat, taken: bool, lo: nat, hi: nat)
    requires Chain(w, bs, lo, hi) && Inner(bs, k)
    requires var x := w[bs[k].at]; w' == w[bs[k].at := x.(w0 := if taken then NextOf(x) + TAKEN else NextOf(x))]
    ensures Chain(w', bs[k := Block(bs[k].at, taken)], lo, hi)
  {
    hide Chain, Increasing, Splice;
    ChainIncreasing(w, bs, lo, hi);
    InRam(w, bs, lo, hi);
    ChainFacts(w, bs, lo, hi, k);
    ChainFacts(w, bs, lo, hi, k + 1);
    var mid := [Block(bs[k].at, taken)];
    OthersDiffer(bs, k);
    assert Relinked(w, w', bs, k, k + 1, mid);
    Relink(w, w', bs, k, k + 1, mid, lo, hi);
    MarkIsSplice(bs, k, taken);
  }

  lemma MarkIsSplice(bs: seq<Block>, k: nat, taken: bool)
    requires k < |bs|
    ensures bs[k := Block(bs[k].at, taken)] == Splice(bs, k, k + 1, [Block(bs[k].at, taken)])
  {
  }

  lemma OthersDiffer(bs: seq<Block>, k: nat)
    requires Increasing(bs) && k < |bs|
    ensures forall i | 0 <= i < |bs| && i != k :: bs[i].at != bs[k].at
  {
    forall i | 0 <= i < |bs| && i != k ensures bs[i].at != bs[k].at { StartsDiffer(bs, i, k); }
  }

  function WithNext(x: Unit, v: nat): Unit
    requires v < TAKEN
  {
    x.(w0 := Low(x.w0, v))
  }

  function WithPrev(x: Unit, v: nat): Unit
    requires v < TAKEN
  {
    x.(w1 := Low(x.w1, v))
  }

  lemma Fields(x: Unit, v: nat)
    requires v < TAKEN
    ensures NextOf(WithNext(x, v)) == v && PrevOf(WithNext(x, v)) == PrevOf(x) && IsTaken(WithNext(x, v)) == IsTaken(x)
    ensures NextOf(WithPrev(x, v)) == NextOf(x) && PrevOf(WithPrev(x, v)) == v && IsTaken(WithPrev(x, v)) == IsTaken(x)
    ensures WithPrev(x, v).w0 == x.w0
  {
  }

  /** Joining the run of free blocks l..m into one. */
  lemma JoinChain(w: seq<Unit>, w': seq<Unit>, bs: seq<Block>, l: nat, m: nat, lo: nat, hi: nat)
    requires Chain(w, bs, lo, hi) && 1 <= l < m < |bs| && !bs[l].taken && bs[l].at < |w| && bs[m].at < |w|
    requires bs[l].at < bs[m].at < TAKEN
    requires var w1 := w[bs[l].at := WithNext(w[bs[l].at], bs[m].at)];
             w' == w1[bs[m].at := WithPrev(w1[bs[m].at], bs[l].at)]
    ensures Chain(w', Splice(bs, l, m, [Block(bs[l].at, false)]), lo, hi)
  {
    ChainIncreasing(w, bs, lo, hi);
    OthersDiffer(bs, l);
    OthersDiffer(bs, m);
    Relink(w, w', bs, l, m, [Block(bs[l].at, false)], lo, hi);
  }

  /** The four links written when block k is cut after n units. */
  ghost predicate CutWrites(w: seq<Unit>, w': seq<Unit>, bs: seq<Block>, k: nat, n: nat) {
    && k + 1 < |bs| && 0 < n && bs[k].at + n < bs[k + 1].at < |w| <= MAX_UNITS
    && var u, t, x := bs[k].at, bs[k].at + n, bs[k + 1].at;
       var w1 := w[t := WithNext(WithPrev(w[t], u), x)];
       var w2 := w1[x := WithPrev(w1[x], t)];
       w' == w2[u := WithNext(w2[u], t)]
  }

  lemma CutUnits(w: seq<Unit>, w': seq<Unit>, bs: seq<Block>, k: nat, n: nat)
    requires CutWrites(w, w', bs, k, n)
    ensures var u, t, x := bs[k].at, bs[k].at + n, bs[k + 1].at;
            && |w'| == |w| && (forall i | 0 <= i < |w| && i != u && i != t && i != x :: w'[i] == w[i])
            && NextOf(w'[u]) == t && PrevOf(w'[u]) == PrevOf(w[u]) && IsTaken(w'[u]) == IsTaken(w[u])
            && NextOf(w'[t]) == x && PrevOf(w'[t]) == u && IsTaken(w'[t]) == IsTaken(w[t])
            && w'[x].w0 == w[x].w0 && PrevOf(w'[x]) == t
  {
    var u, t, x := bs[k].at, bs[k].at + n, bs[k + 1].at;
    Fields(w[u], t);
    Fields(w[x], t);
    Fields(w[t], u);
    Fields(WithPrev(w[t], u), x);
  }

  lemma CutElsewhere(w: seq<Unit>, w': seq<Unit>, bs: seq<Block>, k: nat, n: nat, lo: nat, hi: nat)
    requires Chain(w, bs, lo, hi) && CutWrites(w, w', bs, k, n)
    ensures forall i | 0 <= i < |bs| && (i < k || i > k + 1) :: bs[i].at < |w| == |w'| && w'[bs[i].at] == w[bs[i].at]
  {
    hide Chain, Increasing, NextOf, PrevOf, IsTaken;
    ChainIncreasing(w, bs, lo, hi);
    InRam(w, bs, lo, hi);
    NoneBetween(bs, k, bs[k].at + n);
    CutUnits(w, w', bs, k, n);
    hide CutWrites;
    forall i | 0 <= i < |bs| && (i < k || i > k + 1) ensures w'[bs[i].at] == w[bs[i].at] {
      StartsDiffer(bs, i, k);
      StartsDiffer(bs, i, k + 1);
    }
  }

  /** Cutting a taken block in two; the second part's taken bit is whatever lay there. */
  lemma CutChain(w: seq<Unit>, w': seq<Unit>, bs: seq<Block>, k: nat, n: nat, lo: nat, hi: nat)
    requires Chain(w, bs, lo, hi) && Inner(bs, k) && bs[k].taken && CutWrites(w, w', bs, k, n)
    ensures Chain(w', Splice(bs, k, k + 1, [Block(bs[k].at, true), Block(bs[k].at + n, IsTaken(w[bs[k].at + n]))]), lo,
        hi)
  {
    CutRelinked(w, w', bs, k, n, lo, hi);
    var mid := [Block(bs[k].at, true), Block(bs[k].at + n, IsTaken(w[bs[k].at + n]))];
    hide *;
    Relink(w, w', bs, k, k + 1, mid, lo, hi);
  }

  lemma CutRelinked(w: seq<Unit>, w': seq<Unit>, bs: seq<Block>, k: nat, n: nat, lo: nat, hi: nat)
    requires Chain(w, bs, lo, hi) && Inner(bs, k) && bs[k].taken && CutWrites(w, w', bs, k, n)
    ensures Relinked(w, w', bs, k, k + 1, [Block(bs[k].at, true), Block(bs[k].at + n, IsTaken(w[bs[k].at + n]))])
  {
    var u, t := bs[k].at, bs[k].at + n;
    assert 1 <= k && k + 1 < |bs| && u < t < bs[k + 1].at < |w| == |w'|;
    hide Chain, NextOf, PrevOf, IsTaken, CutWrites, Inner, Linked, Relinked, Increasing;
    ChainFacts(w, bs, lo, hi, k);
    CutElsewhere(w, w', bs, k, n, lo, hi);
    CutUnits(w, w', bs, k, n);
    TwoRelinked(w, w', bs, k, [Block(u, true), Block(t, IsTaken(w[t]))], t);
  }

  lemma TwoRelinked(w: seq<Unit>, w': seq<Unit>, bs: seq<Block>, k: nat, mid: seq<Block>, t: nat)
    requires 1 <= k && k + 1 < |bs| && bs[k].at < t < bs[k + 1].at < |w'| == |w|
    requires mid == [Block(bs[k].at, true), Block(t, IsTaken(w'[t]))] && IsTaken(w'[bs[k].at])
    requires NextOf(w'[bs[k].at]) == t && PrevOf(w'[bs[k].at]) == PrevOf(w[bs[k].at])
    requires NextOf(w'[t]) == bs[k + 1].at && PrevOf(w'[t]) == bs[k].at
    requires w'[bs[k + 1].at].w0 == w[bs[k + 1].at].w0 && PrevOf(w'[bs[k + 1].at]) == t
    requires forall i | 0 <= i < |bs| && (i < k || i > k + 1) :: bs[i].at < |w| && w'[bs[i].at] == w[bs[i].at]
    ensures Relinked(w, w', bs, k, k + 1, mid)
  {
    hide NextOf, PrevOf, IsTaken;
  }

  lemma NoneBetween(bs: seq<Block>, k: nat, t: nat)
    requires Increasing(bs) && k + 1 < |bs| && bs[k].at < t < bs[k + 1].at
    ensures forall i | 0 <= i < |bs| :: bs[i].at != t
  {
    forall i | 0 <= i < |bs| ensures bs[i].at != t {
      if i < k { Before(bs, i, k); }
      if i > k + 1 { Before(bs, k + 1, i); }
    }
  }

  /** In a chain without two free neighbours, but for k, the free run around k is as Freed says. */
  lemma RunIs(bs: seq<Block>, k: nat, i: nat, j: nat)
    requires Inner(bs, k) && NoTwoFreeBut(bs, k) && i < k < j < |bs|
    requires bs[i].taken && bs[j].taken && (forall x | i < x < k || k < x < j :: !bs[x].taken)
    ensures i + 1 == RunLo(bs, k) && j == RunHi(bs, k)
  {
    if k >= 2 { assert bs[k - 2].taken || bs[k - 1].taken; }
    if k + 2 < |bs| { assert bs[k + 1].taken || bs[k + 2].taken; }
  }

  ghost predicate Good(w: seq<Unit>, bs: seq<Block>, lo: nat, hi: nat) {
    Chain(w, bs, lo, hi) && NoTwoFree(bs)
  }

  /** RAM, and the header accessors and block operations on it. */
  class Memory {
    const ram: array<Unit>

    constructor (n: nat)
      ensures fresh(ram) && ram.Length == n
    {
      ram := new Unit[n](_ => Unit(0, 0));
    }

    method SetNext(u: nat, v: nat)
      requires u < ram.Length && v < TAKEN
      modifies ram
      ensures ram[..] == old(ram[..])[u := WithNext(old(ram[u]), v)]
    {
      ram[u] := WithNext(ram[u], v);
    }

    method SetPrev(u: nat, v: nat)
      requires u < ram.Length && v < TAKEN
      modifies ram
      ensures ram[..] == old(ram[..])[u := WithPrev(old(ram[u]), v)]
    {
      ram[u] := WithPrev(ram[u], v);
    }

    method Mark(u: nat, taken: bool)
      requires u < ram.Length
      modifies ram
      ensures ram[..] == old(ram[..])[u := var x := old(ram[u]);
          x.(w0 := if taken then NextOf(x) + TAKEN else NextOf(x))]
    {
      var x := ram[u];
      ram[u] := x.(w0 := if taken then x.w0 % TAKEN + TAKEN else x.w0 % TAKEN);
    }

    /** memmove of n units between payloads that do not overlap. */
    method MoveUnits(to: nat, from: nat, n: nat)
      requires to + n <= ram.Length && from + n <= ram.Length && (to + n <= from || from + n <= to)
      modifies ram
      ensures ram[to..to + n] == old(ram[from..from + n])
      ensures forall u | 0 <= u < ram.Length && (u < to || u >= to + n) :: ram[u] == old(ram[u])
    {
      for i := 0 to n
        invariant forall u | 0 <= u < ram.Length && (u < to || u >= to + i) :: ram[u] == old(ram[u])
        invariant forall u | to <= u < to + i :: ram[u] == old(ram[u - to + from])
      {
        ram[to + i] := ram[from + i];
      }
    }

    /** The first loop of s_compact_free: back to the nearest taken block. */
    method WalkBack(u: nat, ghost bs: seq<Block>, ghost k: nat, ghost lo: nat, ghost hi: nat)
        returns (t: nat, ghost i: nat)
      requires Chain(ram[..], bs, lo, hi) && k < |bs| && u == bs[k].at
      ensures i <= k && t == bs[i].at < ram.Length && bs[i].taken && forall x | i < x <= k :: !bs[x].taken
    {
      hide Chain;
      t, i := u, k;
      ChainFacts(ram[..], bs, lo, hi, i);
      while !IsTaken(ram[t])
        invariant 0 <= i <= k && t == bs[i].at < ram.Length && IsTaken(ram[t]) == bs[i].taken
        invariant forall x | i < x <= k :: !bs[x].taken
        decreases i
      {
        ChainFacts(ram[..], bs, lo, hi, i);
        t := PrevOf(ram[t]);
        i := i - 1;
        ChainFacts(ram[..], bs, lo, hi, i);
      }
    }

    /** The second loop of s_compact_free: on to the nearest taken block. */
    method WalkOn(u: nat, ghost bs: seq<Block>, ghost k: nat, ghost lo: nat, ghost hi: nat)
        returns (t: nat, ghost j: nat)
      requires Chain(ram[..], bs, lo, hi) && k < |bs| && u == bs[k].at
      ensures k <= j < |bs| && t == bs[j].at < ram.Length && bs[j].taken && forall x | k <= x < j :: !bs[x].taken
    {
      hide Chain;
      t, j := u, k;
      ChainFacts(ram[..], bs, lo, hi, j);
      while !IsTaken(ram[t])
        invariant k <= j < |bs| && t == bs[j].at < ram.Length && IsTaken(ram[t]) == bs[j].taken
        invariant forall x | k <= x < j :: !bs[x].taken
        decreases |bs| - j
      {
        ChainFacts(ram[..], bs, lo, hi, j);
        t := NextOf(ram[t]);
        j := j + 1;
        ChainFacts(ram[..], bs, lo, hi, j);
      }
    }

    /** s_compact_free: free the block at u and join it with its free neighbours. */
    method CompactFree(u: nat, ghost bs: seq<Block>, ghost k: nat, ghost lo: nat, ghost hi: nat)
      requires Chain(ram[..], bs, lo, hi) && Inner(bs, k) && NoTwoFreeBut(bs, k) && u == bs[k].at
      modifies ram
      ensures Good(ram[..], Freed(bs, k), lo, hi) && HeadersOnly(old(ram[..]), ram[..], Starts(bs))
    {
      hide Chain, NoTwoFreeBut, NoTwoFree, Splice, Freed;
      Span(ram[..], bs, k, k + 1, lo, hi);
      Mark(u, false);
      ghost var bs1 := bs[k := Block(u, false)];
      MarkChain(old(ram[..]), ram[..], bs, k, false, lo, hi);
      var temp1, temp2;
      ghost var i, j;
      temp1, i := WalkBack(u, bs1, k, lo, hi);
      ChainFacts(ram[..], bs1, lo, hi, i);
      temp1 := NextOf(ram[temp1]);
      temp2, j := WalkOn(u, bs1, k, lo, hi);
      assert forall x | 0 <= x < |bs| && x != k :: bs1[x] == bs[x];
      RunIs(bs, k, i, j);
      FreedNoTwoFree(bs, k);
      FreedMarked(bs, k);
      JoinRun(temp1, temp2, u, bs1, k, i + 1, j, lo, hi);
    }

    /** The last step of s_compact_free, which has nothing to write when the run is the one block at u. */
    method JoinRun(temp1: nat, temp2: nat, u: nat, ghost bs: seq<Block>, ghost k: nat, ghost l: nat, ghost j: nat,
        ghost lo: nat, ghost hi: nat)
      requires Chain(ram[..], bs, lo, hi) && 0 < l <= k < j < |bs| && !bs[k].taken && !bs[l].taken
      requires temp1 == bs[l].at && temp2 == bs[j].at && u == bs[k].at
      modifies ram
      ensures Chain(ram[..], Splice(bs, l, j, [Block(bs[l].at, false)]), lo, hi)
      ensures HeadersOnly(old(ram[..]), ram[..], Starts(bs))
    {
      hide Chain, Splice;
      ghost var w := ram[..];
      Span(w, bs, l, j, lo, hi);
      if temp1 != u || PrevOf(ram[temp2]) != u {
        SetNext(temp1, temp2);
        SetPrev(temp2, temp1);
        JoinChain(w, ram[..], bs, l, j, lo, hi);
      } else {
        OnlyOne(w, bs, k, j, l, lo, hi);
      }
    }

    /** The common part of s_get_free_block and s_shrink_block: the block at u keeps n units, the rest is freed. */
    method SplitBlock(u: nat, n: nat, ghost bs: seq<Block>, ghost k: nat, ghost lo: nat, ghost hi: nat)
      requires Good(ram[..], bs, lo, hi) && Inner(bs, k) && bs[k].taken && u == bs[k].at && 0 < n &&
          u + n < bs[k + 1].at
      modifies ram
      ensures Inner(CutTwo(bs, k, n), k + 1) && Good(ram[..], Freed(CutTwo(bs, k, n), k + 1), lo, hi)
      ensures HeadersOnly(old(ram[..]), ram[..], Starts(bs) + {u + n})
    {
      hide Chain, NoTwoFreeBut, NoTwoFree, Splice, Freed, CutTwo;
      ghost var w := ram[..];
      Span(w, bs, k, k + 1, lo, hi);
      ChainFacts(w, bs, lo, hi, k);
      var temp := u + n;
      var next := NextOf(ram[u]);
      SetPrev(temp, u);
      SetNext(temp, next);
      SetPrev(next, temp);
      SetNext(u, temp);
      CutChain(w, ram[..], bs, k, n, lo, hi);
      ghost var bs1 := Splice(bs, k, k + 1, [Block(u, true), Block(temp, IsTaken(w[temp]))]);
      CutNoTwoFree(bs, k, n);
      CutGarbage(bs, k, n, IsTaken(w[temp]));
      ghost var w1 := ram[..];
      CompactFree(temp, bs1, k + 1, lo, hi);
      HeadersTwice(w, w1, ram[..], Starts(bs) + {u + n}, Starts(bs1));
    }

    /** The scan of s_get_free_block: the best fitting free block of the region at lo, or 0. */
    method FindBest(size: nat, lo: nat, ghost bs: seq<Block>, ghost hi: nat)
        returns (pblock: nat, minsize: nat, ghost b: nat)
      requires Chain(ram[..], bs, lo, hi) && size % 8 == 0
      ensures pblock == 0 ==> forall i: nat :: !Fits(bs, size / 8, i)
      ensures pblock != 0 ==> IsBest(bs, size / 8, b) && pblock == bs[b].at && minsize == 8 * Len(bs, b)
    {
      hide Chain;
      InRam(ram[..], bs, lo, hi);
      pblock, minsize, b := 0, 0xFFFF_FFFF, 0;
      ChainFacts(ram[..], bs, lo, hi, 0);
      var temp := NextOf(ram[lo]);
      ghost var i: nat := 1;
      while temp != 0
        invariant 1 <= i <= |bs| && temp == if i < |bs| then bs[i].at else 0
        invariant pblock == 0 ==> minsize == 0xFFFF_FFFF && forall x: nat | x < i :: !Fits(bs, size / 8, x)
        invariant pblock != 0 ==> BestSoFar(bs, size / 8, b, i) && pblock == bs[b].at && minsize == 8 * Len(bs, b)
        decreases |bs| - i
      {
        ChainFacts(ram[..], bs, lo, hi, i);
        if !IsTaken(ram[temp]) {
          ChainFacts(ram[..], bs, lo, hi, i + 1);
          var bsize := 8 * (NextOf(ram[temp]) - temp);
          if size <= bsize && bsize < minsize {
            minsize := bsize;
            pblock := temp;
            b := i;
          }
        }
        temp := NextOf(ram[temp]);
        i := i + 1;
      }
      if i < |bs| { ChainFacts(ram[..], bs, lo, hi, i); }
    }

    /** s_get_free_block: take the best fitting block of one region; 0 when none fits. */
    method GetFreeBlock(size: nat, lo: nat, ghost bs: seq<Block>, ghost hi: nat) returns (r: nat, ghost b: nat)
      requires Good(ram[..], bs, lo, hi)
      modifies ram
      ensures r == 0 ==> ram[..] == old(ram[..]) && (size == 0 || forall i: nat :: !Fits(bs, UnitsFor(size), i))
      ensures r != 0 ==> size > 0 && BestTaken(old(ram[..]), ram[..], bs, b, UnitsFor(size), lo, hi)
      ensures r != 0 ==> r == bs[b].at + 1
    {
      hide Chain, NoTwoFree, Splice, Freed, CutTwo;
      r, b := 0, 0;
      if size != 0 {
        ActSizeUnits(size);
        var act := ActSize(size + DYN_HEADER_SIZE);
        var pblock, minsize;
        pblock, minsize, b := FindBest(act, lo, bs, hi);
        if pblock != 0 {
          ChainFacts(ram[..], bs, lo, hi, b);
          Span(ram[..], bs, b, b + 1, lo, hi);
          Mark(pblock, true);
          MarkChain(old(ram[..]), ram[..], bs, b, true, lo, hi);
          TakeNoTwoFree(bs, b);
          ghost var bs1, w1 := bs[b := Block(bs[b].at, true)], ram[..];
          if minsize > act && minsize - act >= DYN_MIN_SPLIT_SIZE {
            SameCut(bs, b, act / 8);
            SplitBlock(pblock, act / 8, bs1, b, lo, hi);
            HeadersTwice(old(ram[..]), w1, ram[..], Starts(bs) + {pblock + act / 8}, Starts(bs1) + {pblock + act / 8});
          }
          r := pblock + 1;
        }
      }
    }
  }

  lemma ActSizeUnits(size: nat)
    ensures ActSize(size + 8) == 8 * UnitsFor(size) && UnitsFor(size) >= 1 && (size > 0 ==> UnitsFor(size) >= 2)
    ensures size <= 8 * (UnitsFor(size) - 1) < size + 8
  {
  }

  lemma SameCut(bs: seq<Block>, k: nat, n: nat)
    requires Inner(bs, k)
    ensures var bs1 := bs[k := Block(bs[k].at, true)];
        CutTwo(bs1, k, n) == CutTwo(bs, k, n) && Starts(bs1) <= Starts(bs) && Inner(bs1, k)
  {
    var bs1 := bs[k := Block(bs[k].at, true)];
    assert bs1[..k] == bs[..k] && bs1[k + 1..] == bs[k + 1..];
    assert bs[k] in bs;
  }

  /** Block b, which is free, is handed out: its first n units if the rest makes a block, else all of it. */
  ghost function Granted(bs: seq<Block>, b: nat, n: nat): seq<Block>
    requires Inner(bs, b)
  {
    if Len(bs, b) >= n + 2 then
      CutInner(bs, b, n);
      Freed(CutTwo(bs, b, n), b + 1)
    else bs[b := Block(bs[b].at, true)]
  }

  /** The best fitting block b was granted, by header writes alone. */
  ghost predicate BestTaken(w: seq<Unit>, w': seq<Unit>, bs: seq<Block>, b: nat, n: nat, lo: nat, hi: nat) {
    && Inner(bs, b) && IsBest(bs, n, b) && Good(w', Granted(bs, b, n), lo, hi)
    && HeadersOnly(w, w', Starts(bs) + {bs[b].at + n})
  }

  ghost function GrantedPayload(bs: seq<Block>, b: nat, n: nat): Payload
    requires Inner(bs, b)
  {
    Payload(bs[b].at + 1, if Len(bs, b) >= n + 2 then bs[b].at + n else bs[b + 1].at)
  }

  lemma CutInner(bs: seq<Block>, k: nat, n: nat)
    requires Inner(bs, k)
    ensures Inner(CutTwo(bs, k, n), k + 1)
    ensures PayloadOf(CutTwo(bs, k, n), k + 1) == Payload(bs[k].at + n + 1, bs[k + 1].at)
  {
    var bs', mid := CutTwo(bs, k, n), [Block(bs[k].at, true), Block(bs[k].at + n, true)];
    SpliceAt(bs, k, k + 1, mid, 0);
    SpliceAt(bs, k, k + 1, mid, |bs'| - 1);
    SpliceAt(bs, k, k + 1, mid, k + 1);
    SpliceAt(bs, k, k + 1, mid, k + 2);
  }

  lemma CutIncreasing(bs: seq<Block>, k: nat, n: nat)
    requires Increasing(bs) && Inner(bs, k) && 0 < n < Len(bs, k)
    ensures Increasing(CutTwo(bs, k, n))
  {
    var bs', mid := CutTwo(bs, k, n), [Block(bs[k].at, true), Block(bs[k].at + n, true)];
    forall i, j | 0 <= i < |bs'| && 0 <= j < |bs'| && j == i + 1 ensures bs'[i].at < bs'[j].at {
      SpliceAt(bs, k, k + 1, mid, i);
      SpliceAt(bs, k, k + 1, mid, j);
    }
  }

  /** The payload of a cut block's second half is free again once that half is freed. */
  lemma CutFreedLive(bs: seq<Block>, k: nat, n: nat)
    requires Increasing(bs) && Inner(bs, k) && 0 < n < Len(bs, k) && Inner(CutTwo(bs, k, n), k + 1)
    ensures LiveIn(Freed(CutTwo(bs, k, n), k + 1)) ==
        LiveIn(bs) - {PayloadOf(bs, k)} + {Payload(bs[k].at + 1, bs[k].at + n)}
  {
    hide LiveIn, MidLive, Increasing, CutTwo, Freed;
    CutIncreasing(bs, k, n);
    CutInner(bs, k, n);
    CutLive(bs, k, n);
    FreedLive(CutTwo(bs, k, n), k + 1);
    InsideNotHeld(bs, k, Payload(bs[k].at + n + 1, bs[k + 1].at));
  }

  lemma InsideNotHeld(bs: seq<Block>, k: nat, p: Payload)
    requires Increasing(bs) && k + 1 < |bs| && bs[k].at + 1 < p.at <= bs[k + 1].at
    ensures p !in LiveIn(bs)
  {
    if p in LiveIn(bs) {
      var i := LiveIndex(bs, p);
      NoneBetween(bs, k, p.at - 1);
    }
  }

  lemma GrantedLive(bs: seq<Block>, b: nat, n: nat)
    requires Increasing(bs) && Inner(bs, b) && !bs[b].taken && 0 < n <= Len(bs, b)
    ensures LiveIn(Granted(bs, b, n)) == LiveIn(bs) + {GrantedPayload(bs, b, n)} &&
        GrantedPayload(bs, b, n) !in LiveIn(bs)
  {
    hide LiveIn, Increasing;
    NotHeld(bs, b, GrantedPayload(bs, b, n));
    NotHeld(bs, b, PayloadOf(bs, b));
    if Len(bs, b) >= n + 2 {
      CutInner(bs, b, n);
      CutFreedLive(bs, b, n);
    } else {
      TakeLive(bs, b);
    }
  }

  ghost function Len(bs: seq<Block>, i: nat): int
    requires i + 1 < |bs|
  {
    bs[i + 1].at - bs[i].at
  }

  /** Block i is free and holds n units, header included. */
  ghost predicate Fits(bs: seq<Block>, n: nat, i: nat) {
    0 < i < |bs| - 1 && !bs[i].taken && n <= Len(bs, i)
  }

  /** The smallest block that fits among the first m, and the first of that size. */
  ghost predicate BestSoFar(bs: seq<Block>, n: nat, b: nat, m: nat) {
    Fits(bs, n, b) && b < m && forall i: nat | i < m && Fits(bs, n, i) ::
        Len(bs, b) <= Len(bs, i) && (i < b ==> Len(bs, b) < Len(bs, i))
  }

  ghost predicate IsBest(bs: seq<Block>, n: nat, b: nat) {
    BestSoFar(bs, n, b, |bs|)
  }

  lemma HeadersTwice(w: seq<Unit>, w1: seq<Unit>, w2: seq<Unit>, a: set<nat>, b: set<nat>)
    requires HeadersOnly(w, w1, a) && HeadersOnly(w1, w2, b) && b <= a
    ensures HeadersOnly(w, w2, a)
  {
  }

  /** The cut with whatever taken bit lay in the new header. */
  lemma CutGarbage(bs: seq<Block>, k: nat, n: nat, garbage: bool)
    requires Inner(bs, k) && Inner(CutTwo(bs, k, n), k + 1) && NoTwoFreeBut(CutTwo(bs, k, n), k + 1)
    ensures var bs1 := Splice(bs, k, k + 1, [Block(bs[k].at, true), Block(bs[k].at + n, garbage)]);
            && Inner(bs1, k + 1) && NoTwoFreeBut(bs1, k + 1) && bs1[k + 1].at == bs[k].at + n
            && Freed(bs1, k + 1) == Freed(CutTwo(bs, k, n), k + 1) && Starts(bs1) <= Starts(bs) + {bs[k].at + n}
  {
    var bs1, bs2 := Splice(bs, k, k + 1, [Block(bs[k].at, true), Block(bs[k].at + n, garbage)]), CutTwo(bs, k, n);
    assert |bs1| == |bs2| && bs1 == bs2[k + 1 := Block(bs[k].at + n, garbage)];
    forall b | b in bs1 ensures b.at in Starts(bs) + {bs[k].at + n} {
      assert bs[k] in bs;
    }
  }

  /** Marking k first makes no difference to what freeing it gives. */
  lemma FreedMarked(bs: seq<Block>, k: nat)
    requires Inner(bs, k)
    ensures var bs1, l, m := bs[k := Block(bs[k].at, false)], RunLo(bs, k), RunHi(bs, k);
            Freed(bs, k) == Splice(bs1, l, m, [Block(bs1[l].at, false)]) && !bs1[l].taken && Starts(bs1) == Starts(bs)
  {
    var bs1 := bs[k := Block(bs[k].at, false)];
    forall a | a in Starts(bs) ensures a in Starts(bs1) {
      var i :| 0 <= i < |bs| && bs[i].at == a;
      assert bs1[i] in bs1;
    }
    forall a | a in Starts(bs1) ensures a in Starts(bs) {
      var i :| 0 <= i < |bs1| && bs1[i].at == a;
      assert bs[i] in bs;
    }
  }

  lemma Span(w: seq<Unit>, bs: seq<Block>, l: nat, m: nat, lo: nat, hi: nat)
    requires Chain(w, bs, lo, hi) && l < m < |bs|
    ensures bs[l].at < bs[m].at < |w| <= MAX_UNITS && bs[l] in bs && bs[m] in bs
  {
    ChainIncreasing(w, bs, lo, hi);
    Before(bs, l, m);
  }

  lemma OnlyOne(w: seq<Unit>, bs: seq<Block>, k: nat, j: nat, l: nat, lo: nat, hi: nat)
    requires Chain(w, bs, lo, hi) && 0 < l <= k < j < |bs| && bs[l].at == bs[k].at && bs[j].at < |w| &&
        PrevOf(w[bs[j].at]) == bs[k].at
    requires !bs[k].taken
    ensures Splice(bs, l, j, [Block(bs[l].at, false)]) == bs
  {
    ChainFacts(w, bs, lo, hi, j);
    ChainIncreasing(w, bs, lo, hi);
    StartsDiffer(bs, l, k);
    StartsDiffer(bs, j - 1, k);
  }
}
