/** The simple allocator: smalloc, sfree and srealloc over one or more RAM regions. */
module Salloc {
  import opened Seqs
  import opened SallocChain
  import opened SallocOps
  import opened SallocRegions

  /** Region r is the first in which a block of n units can be had. */
  ghost predicate FirstFitting(blocks: seq<seq<Block>>, n: nat, r: nat) {
    && r < |blocks| && (exists i: nat :: Fits(blocks[r], n, i))
    && forall s: nat, i: nat | s < r :: !Fits(blocks[s], n, i)
  }

  /** Block b of region r is the best fit of the first region that has one. */
  ghost predicate BestChoice(blocks: seq<seq<Block>>, n: nat, r: nat, b: nat) {
    FirstFitting(blocks, n, r) && IsBest(blocks[r], n, b) && Inner(blocks[r], b)
  }

  ghost predicate NothingFits(blocks: seq<seq<Block>>, n: nat) {
    forall s: nat, i: nat | s < |blocks| :: !Fits(blocks[s], n, i)
  }

  /** Block i is free and has room for size bytes after its header. */
  ghost predicate HoldsBytes(bs: seq<Block>, i: nat, size: nat) {
    0 < i < |bs| - 1 && !bs[i].taken && size <= 8 * (bs[i + 1].at - bs[i].at - 1)
  }

  ghost predicate NothingHolds(chains: seq<seq<Block>>, size: nat) {
    forall s: nat, i: nat | s < |chains| :: !HoldsBytes(chains[s], i, size)
  }

  /** Block b of region g is the first of the smallest with room for size bytes, in the first region that has one. */
  ghost predicate Smallest(chains: seq<seq<Block>>, size: nat, g: nat, b: nat) {
    && g < |chains| && HoldsBytes(chains[g], b, size)
    && (forall s: nat, i: nat | s < g :: !HoldsBytes(chains[s], i, size))
    && forall i: nat | HoldsBytes(chains[g], i, size) ::
         var b', i' := chains[g][b + 1].at - chains[g][b].at, chains[g][i + 1].at - chains[g][i].at;
         if i < b then b' < i' else b' <= i'
  }

  /** p is the start of block b's room: the units that size bytes need, or all if fewer than 16 bytes were left. */
  ghost predicate CutFor(bs: seq<Block>, b: nat, size: nat, p: Payload)
    requires b + 1 < |bs|
  {
    var n := (size + 7) / 8;
    p == Payload(bs[b].at + 1, if bs[b].at + 1 + n + 2 <= bs[b + 1].at then bs[b].at + 1 + n else bs[b + 1].at)
  }

  /** Which block serves size bytes, and what of it. */
  ghost predicate ServedBy(chains: seq<seq<Block>>, size: nat, p: Payload) {
    exists g: nat, b: nat :: Smallest(chains, size, g, b) && b + 1 < |chains[g]| && CutFor(chains[g], b, size, p)
  }

  lemma FitsHolds(bs: seq<Block>, i: nat, size: nat)
    ensures Fits(bs, UnitsFor(size), i) <==> HoldsBytes(bs, i, size)
  {
    UnitsAre(size);
    hide UnitsFor;
  }

  lemma UnitsAre(size: nat)
    ensures UnitsFor(size) == (size + 7) / 8 + 1
  {
    ActSizeUnits(size);
  }

  lemma NothingIs(chains: seq<seq<Block>>, size: nat)
    ensures NothingFits(chains, UnitsFor(size)) <==> NothingHolds(chains, size)
  {
    hide Fits, HoldsBytes, UnitsFor;
    forall s: nat, i: nat | s < |chains|
      ensures Fits(chains[s], UnitsFor(size), i) <==> HoldsBytes(chains[s], i, size)
    {
      FitsHolds(chains[s], i, size);
    }
  }

  lemma ServedIs(chains: seq<seq<Block>>, size: nat, g: nat, b: nat)
    requires BestChoice(chains, UnitsFor(size), g, b)
    ensures ServedBy(chains, size, GrantedPayload(chains[g], b, UnitsFor(size)))
  {
    hide UnitsFor, HoldsBytes, Fits;
    UnitsAre(size);
    forall s: nat, i: nat | s < |chains|
      ensures Fits(chains[s], UnitsFor(size), i) <==> HoldsBytes(chains[s], i, size)
    {
      FitsHolds(chains[s], i, size);
    }
    FitBounds(chains[g], UnitsFor(size));
    assert Smallest(chains, size, g, b) && CutFor(chains[g], b, size, GrantedPayload(chains[g], b, UnitsFor(size)));
  }

  lemma FitBounds(bs: seq<Block>, n: nat)
    ensures forall i: nat | Fits(bs, n, i) :: 0 < i < |bs| - 1
  {
  }

  /** p, of at least size and less than size + 16 bytes, is new. */
  ghost predicate NewPayload(live: set<Payload>, live': set<Payload>, p: Payload, size: nat) {
    p !in live && live' == live + {p} && p.at <= p.end && size <= 8 * (p.end - p.at) < size + 16
  }

  ghost function InitialBlocks(regions: seq<Region>): seq<seq<Block>> {
    seq(|regions|, i requires 0 <= i < |regions| => if 0 < regions[i].last then Initial(regions[i]) else [])
  }

  lemma GrantSize(bs: seq<Block>, b: nat, size: nat)
    requires Inner(bs, b) && Fits(bs, UnitsFor(size), b) && size > 0
    ensures var p := GrantedPayload(bs, b, UnitsFor(size));
            p.at <= p.end && size <= 8 * (p.end - p.at) < size + 16 && bs[b].at + UnitsFor(size) <= bs[b + 1].at
  {
    ActSizeUnits(size);
  }

  lemma GrantAll(w: seq<Unit>, w': seq<Unit>, regions: seq<Region>, blocks: seq<seq<Block>>, r: nat, b: nat, size: nat)
    requires AllGood(w, regions, blocks) && RegionsOk(regions, |w|) && r < |regions| && size > 0
    requires Inner(blocks[r], b) && Fits(blocks[r], UnitsFor(size), b)
    requires Good(w', Granted(blocks[r], b, UnitsFor(size)), regions[r].first, regions[r].last)
    requires HeadersOnly(w, w', Starts(blocks[r]) + {blocks[r][b].at + UnitsFor(size)})
    ensures var blocks', p := blocks[r := Granted(blocks[r], b, UnitsFor(size))],
        GrantedPayload(blocks[r], b, UnitsFor(size));
            && AllGood(w', regions, blocks') && Kept(w, w', LiveAll(blocks))
            && NewPayload(LiveAll(blocks), LiveAll(blocks'), p, size)
  {
    hide Chain, NoTwoFree, LiveIn, LiveAll, Granted, Starts, Increasing;
    var g, bs, n := regions[r], blocks[r], UnitsFor(size);
    ActSizeUnits(size);
    hide UnitsFor;
    ChainIncreasing(w, bs, g.first, g.last);
    GrantedLive(bs, b, n);
    GrantSize(bs, b, size);
    ChainFacts(w, bs, g.first, g.last, b);
    ChainFacts(w, bs, g.first, g.last, b + 1);
    LiveAllAdd(w, regions, blocks, r, Granted(bs, b, n), GrantedPayload(bs, b, n));
    NotHeld(bs, b, PayloadOf(bs, b));
    InOneRegion(w, regions, blocks, r, PayloadOf(bs, b));
    KeptElsewhere(w, w', regions, blocks, r, b, bs[b].at + n, LiveAll(blocks));
    OneRegion(w, w', regions, blocks, r, Granted(bs, b, n), Starts(bs) + {bs[b].at + n});
  }

  lemma FreeAll(w: seq<Unit>, w': seq<Unit>, regions: seq<Region>, blocks: seq<seq<Block>>, r: nat, k: nat)
    requires AllGood(w, regions, blocks) && RegionsOk(regions, |w|) && r < |regions| && Inner(blocks[r], k) &&
        blocks[r][k].taken
    requires Good(w', Freed(blocks[r], k), regions[r].first, regions[r].last) && HeadersOnly(w, w', Starts(blocks[r]))
    ensures var blocks', p := blocks[r := Freed(blocks[r], k)], PayloadOf(blocks[r], k);
            AllGood(w', regions, blocks') && LiveAll(blocks') == LiveAll(blocks) - {p} && Kept(w, w', LiveAll(blocks'))
  {
    hide Chain, NoTwoFree, LiveAll, Freed, Starts, Increasing;
    var g, bs := regions[r], blocks[r];
    ChainIncreasing(w, bs, g.first, g.last);
    FreedLive(bs, k);
    assert PayloadOf(bs, k) in LiveIn(bs);
    hide LiveIn;
    LiveAllDrop(w, regions, blocks, r, Freed(bs, k), PayloadOf(bs, k));
    ChainFacts(w, bs, g.first, g.last, k);
    KeptElsewhere(w, w', regions, blocks, r, k, bs[k].at, LiveAll(blocks) - {PayloadOf(bs, k)});
    StartsWithin(w, bs, g);
    OneRegion(w, w', regions, blocks, r, Freed(bs, k), Starts(bs));
  }

  class Allocator {
    const mem: Memory
    const regions: seq<Region>
    var initialized: bool
    ghost var blocks: seq<seq<Block>>

    ghost predicate Valid()
      reads this, mem.ram
    {
      RegionsOk(regions, mem.ram.Length) && (initialized ==> AllGood(mem.ram[..], regions, blocks))
    }

    /** The payloads the program holds; none before s_init. */
    ghost function Live(): set<Payload>
      reads this
    {
      if initialized then LiveAll(blocks) else {}
    }

    /** The chains s_init has made, or will make. */
    ghost function Chains(): seq<seq<Block>>
      reads this
    {
      if initialized then blocks else InitialBlocks(regions)
    }

    constructor (mem: Memory, regions: seq<Region>)
      requires RegionsOk(regions, mem.ram.Length)
      ensures Valid() && !initialized && this.mem == mem && this.regions == regions
    {
      this.mem, this.regions, initialized, blocks := mem, regions, false, [];
    }
  
    /** s_init's work on one region: two taken guards and a free block between them. */
    method InitRegion(g: Region)
      requires RegionsOk(regions, mem.ram.Length) && 0 < g.first && g.first + 3 <= g.last <= mem.ram.Length
      modifies mem.ram
      ensures Good(mem.ram[..], Initial(g), g.first, g.last)
      ensures HeadersOnly(old(mem.ram[..]), mem.ram[..], {g.first, g.first + 1, g.last - 1})
    {
      var g1, crt, g2 := g.first, g.first + 1, g.last - 1;
      mem.ram[g1] := Unit(crt, 0);
      mem.ram[crt] := Unit(g2, g1);
      mem.ram[g2] := Unit(0, crt);
      hide Good;
      mem.Mark(g1, true);
      mem.Mark(g2, true);
      mem.Mark(crt, false);
      InitGood(mem.ram[..], g);
    }

    /** s_init. */
    method Init()
      requires Valid() && !initialized
      modifies this`initialized, this`blocks, mem.ram
      ensures Valid() && initialized && blocks == InitialBlocks(regions)
    {
      hide Good;
      blocks := InitialBlocks(regions);
      for i := 0 to |regions|
        invariant blocks == InitialBlocks(regions) && !initialized
        invariant forall r | 0 <= r < i :: Good(mem.ram[..], blocks[r], regions[r].first, regions[r].last)
      {
        ghost var w := mem.ram[..];
        InitRegion(regions[i]);
        forall r | 0 <= r < i ensures Good(mem.ram[..], blocks[r], regions[r].first, regions[r].last) {
          GoodFrame(w, mem.ram[..], blocks[r], regions[r].first, regions[r].last);
        }
      }
      initialized := true;
    }

    /** smalloc.  The rounded request must not wrap around. */
    method Smalloc(size: nat) returns (r: nat, ghost p: Payload)
      requires Valid() && size + 15 < 0x1_0000_0000
      modifies this`initialized, this`blocks, mem.ram
      ensures Valid() && initialized
      ensures r == 0 <==> size == 0 || NothingFits(old(Chains()), UnitsFor(size))
      ensures r == 0 ==> blocks == old(Chains()) && (old(initialized) ==> mem.ram[..] == old(mem.ram[..]))
      ensures r != 0 ==> exists g: nat, b: nat ::
        && BestChoice(old(Chains()), UnitsFor(size), g, b)
        && blocks == old(Chains())[g := Granted(old(Chains())[g], b, UnitsFor(size))]
      ensures r != 0 ==>
          r == p.at && NewPayload(old(Live()), Live(), p, size) && Kept(old(mem.ram[..]), mem.ram[..], old(Live()))
      ensures r == 0 <==> size == 0 || NothingHolds(old(Chains()), size)
      ensures r != 0 ==> ServedBy(old(Chains()), size, p)
    {
      NothingIs(Chains(), size);
      hide NothingHolds, ServedBy, Good, LiveAll, UnitsFor, Granted, Fits;
      if !initialized {
        Init();
        NoneLive(regions);
      }
      r, p := 0, Payload(0, 0);
      ghost var w, cs := mem.ram[..], blocks;
      ghost var b := 0;
      for i := 0 to |regions|
        invariant r == 0 && mem.ram[..] == w && blocks == cs && initialized && AllGood(w, regions, cs)
        invariant size == 0 || forall s: nat, x: nat | s < i :: !Fits(cs[s], UnitsFor(size), x)
      {
        r, b := mem.GetFreeBlock(size, regions[i].first, blocks[i], regions[i].last);
        if r != 0 {
          assert Fits(cs[i], UnitsFor(size), b);
          blocks := cs[i := Granted(cs[i], b, UnitsFor(size))];
          p := GrantedPayload(cs[i], b, UnitsFor(size));
          GrantAll(w, mem.ram[..], regions, cs, i, b, size);
          assert BestChoice(cs, UnitsFor(size), i, b);
          ServedIs(cs, size, i, b);
          break;
        }
      }
    }
  
    /** sfree: the payload at ptr is given back and no live unit changes. */
    method Sfree(ptr: nat)
      requires Valid() && (ptr == 0 || !initialized || IsHeld(Live(), ptr))
      modifies this`blocks, mem.ram
      ensures Valid()
      ensures ptr == 0 || !initialized ==> blocks == old(blocks) && mem.ram[..] == old(mem.ram[..])
      ensures ptr != 0 && initialized ==>
          Live() == old(Live()) - {PayloadAt(old(Live()), ptr)} && Kept(old(mem.ram[..]), mem.ram[..], Live())
    {
      hide Chain, NoTwoFree, LiveAll, Freed, NoTwoFreeBut, HeadersOnly, Kept, RegionsOk;
      if ptr != 0 && initialized {
        ghost var r, k := Locate(regions, blocks, PayloadAt(Live(), ptr));
        ghost var g, w, bs := regions[r], mem.ram[..], blocks[r];
        assert Good(w, bs, g.first, g.last);
        ChainFacts(w, bs, g.first, g.last, k);
        ButOne(bs, k);
        mem.CompactFree(ptr - 1, bs, k, g.first, g.last);
        FreeAll(w, mem.ram[..], regions, blocks, r, k);
        blocks := blocks[r := Freed(bs, k)];
      }
    }

    /** s_shrink_block: what a smaller request leaves over is given back, if it makes a block. */
    method ShrinkBlock(ptr: nat, size: nat) returns (ghost p: Payload)
      requires Valid() && initialized && IsHeld(Live(), ptr)
      modifies this`blocks, mem.ram
      ensures Valid() && Shrunk(old(Live()), Live(), PayloadAt(old(Live()), ptr), p, size)
      ensures var q, n := PayloadAt(old(Live()), ptr), (size + 7) / 8;
              p.end == if q.at + n + 2 <= q.end then q.at + n else q.end
      ensures Kept(old(mem.ram[..]), mem.ram[..], Live())
    {
      hide Chain, NoTwoFree, LiveAll, Freed, CutTwo;
      ghost var r, k := Locate(regions, blocks, PayloadAt(Live(), ptr));
      ghost var g, w, bs := regions[r], mem.ram[..], blocks[r];
      assert Good(w, bs, g.first, g.last);
      ChainFacts(w, bs, g.first, g.last, k);
      ChainFacts(w, bs, g.first, g.last, k + 1);
      var pblock := ptr - 1;
      var act := ActSize(size + DYN_HEADER_SIZE);
      ActSizeUnits(size);
      UnitsAre(size);
      hide UnitsFor, ActSize;
      var bsize := 8 * (NextOf(mem.ram[pblock]) - pblock);
      p := PayloadAt(Live(), ptr);
      KeptSame(w, regions, blocks);
      if act >= bsize || bsize - act < DYN_MIN_SPLIT_SIZE {
        return;
      }
      mem.SplitBlock(pblock, act / 8, bs, k, g.first, g.last);
      ShrinkAll(w, mem.ram[..], regions, blocks, r, k, act / 8);
      blocks := blocks[r := Freed(CutTwo(bs, k, act / 8), k + 1)];
      p := Payload(ptr, pblock + act / 8);
    }
  
    /** srealloc's last case: a larger payload takes over the contents of the old one. */
    method Grow(ptr: nat, size: nat, units: nat) returns (r: nat, ghost p: Payload)
      requires Valid() && initialized && IsHeld(Live(), ptr) && size + 15 < 0x1_0000_0000
      requires var q := PayloadAt(Live(), ptr); units == q.end - q.at && 8 * units < size
      modifies this`initialized, this`blocks, mem.ram
      ensures Valid() && initialized
      ensures r == 0 <==> NothingFits(old(blocks), UnitsFor(size))
      ensures r == 0 ==> blocks == old(blocks) && mem.ram[..] == old(mem.ram[..])
      ensures r != 0 ==> p.at == r && Resized(old(Live()), Live(), PayloadAt(old(Live()), ptr), p, size)
      ensures r != 0 ==> Carried(old(mem.ram[..]), mem.ram[..], PayloadAt(old(Live()), ptr), p)
      ensures r == 0 <==> NothingHolds(old(blocks), size)
      ensures r != 0 ==> ServedBy(old(blocks), size, p) && p !in old(Live())
      ensures r != 0 ==> Kept(old(mem.ram[..]), mem.ram[..], old(Live()) - {PayloadAt(old(Live()), ptr)})
    {
      hide AllGood, LiveAll, UnitsFor, Granted, NothingFits, Fits, RegionsOk, Kept, Carried, BestChoice, NothingHolds,
          ServedBy;
      ghost var w0, live, q := mem.ram[..], Live(), PayloadAt(Live(), ptr);
      r, p := Smalloc(size);
      if r != 0 {
        ghost var w1 := mem.ram[..];
        AllLiveDisjoint(w1, regions, blocks, p, q);
        PayloadFits(w1, regions, blocks, p);
        PayloadFits(w1, regions, blocks, q);
        mem.MoveUnits(r, ptr, units);
        ghost var w2 := mem.ram[..];
        PayloadWrite(w1, w2, regions, blocks, p);
        assert live + {p} - {p} == live;
        HeldOnce(w2, regions, blocks, q);
        Sfree(ptr);
        GrowKeeps(w0, w1, w2, mem.ram[..], live, q, p, units);
      }
    }

    /** srealloc. */
    method Srealloc(ptr: nat, size: nat) returns (r: nat, ghost p: Payload)
      requires Valid() && (ptr == 0 || IsHeld(Live(), ptr)) && size + 15 < 0x1_0000_0000
      modifies this`initialized, this`blocks, mem.ram
      ensures Valid() && initialized
      ensures ptr == 0 && r != 0 ==>
          r == p.at && NewPayload(old(Live()), Live(), p, size) && Kept(old(mem.ram[..]), mem.ram[..], old(Live()))
      ensures ptr == 0 ==> (r == 0 <==> size == 0 || NothingFits(old(Chains()), UnitsFor(size)))
      ensures ptr != 0 && size == 0 ==>
        r == 0 && Live() == old(Live()) - {PayloadAt(old(Live()), ptr)} && Kept(old(mem.ram[..]), mem.ram[..], Live())
      ensures ptr != 0 && size != 0 && r == 0 ==>
        blocks == old(blocks) && mem.ram[..] == old(mem.ram[..]) && NothingFits(blocks, UnitsFor(size))
      ensures ptr != 0 && r != 0 ==>
        var q := PayloadAt(old(Live()), ptr);
        && p.at == r && Resized(old(Live()), Live(), q, p, size) && Carried(old(mem.ram[..]), mem.ram[..], q, p)
        && Kept(old(mem.ram[..]), mem.ram[..], old(Live()) - {q}) && (size <= 8 * (q.end - q.at) ==> r == ptr)
        && (if size <= 8 * (q.end - q.at) then
              p.end == if q.at + (size + 7) / 8 + 2 <= q.end then q.at + (size + 7) / 8 else q.end
            else ServedBy(old(blocks), size, p))
      ensures ptr == 0 ==> (r == 0 <==> size == 0 || NothingHolds(old(Chains()), size))
      ensures ptr == 0 && r != 0 ==> ServedBy(old(Chains()), size, p)
      ensures ptr != 0 && size != 0 ==>
        (r == 0 <==> size > 8 * (var q := PayloadAt(old(Live()), ptr); q.end - q.at) && NothingHolds(old(blocks), size))
    {
      hide AllGood, LiveAll, UnitsFor, Granted, NothingFits, Fits, RegionsOk, Kept, Carried, NothingHolds, ServedBy;
      if ptr == 0 {
        r, p := Smalloc(size);
      } else if size == 0 {
        Sfree(ptr);
        r, p := 0, Payload(0, 0);
      } else {
        ghost var w, live, q := mem.ram[..], Live(), PayloadAt(Live(), ptr);
        var units := SizeOf(ptr);
        if 8 * units == size {
          r, p := ptr, q;
          SameLive(w, regions, blocks, q);
        } else if size < 8 * units {
          PayloadFits(w, regions, blocks, q);
          ghost var blocks0 := blocks;
          p := ShrinkBlock(ptr, size);
          OnlyAt(w, regions, blocks0, q, p);
          ShrinkCarries(w, mem.ram[..], live, Live(), q, p);
          r := ptr;
        } else {
          r, p := Grow(ptr, size, units);
        }
      }
    }

    /** s_get_actual_block_size, in units. */
    method SizeOf(ptr: nat) returns (units: nat)
      requires Valid() && initialized && IsHeld(Live(), ptr)
      ensures var q := PayloadAt(Live(), ptr); units == q.end - q.at
    {
      hide Chain, NoTwoFree, LiveAll;
      ghost var r, k := Locate(regions, blocks, PayloadAt(Live(), ptr));
      assert Good(mem.ram[..], blocks[r], regions[r].first, regions[r].last);
      ChainFacts(mem.ram[..], blocks[r], regions[r].first, regions[r].last, k);
      units := NextOf(mem.ram[ptr - 1]) - (ptr - 1) - 1;
    }
  }

  /** p, with room for size bytes, has taken the place of q. */
  ghost predicate Resized(live: set<Payload>, live': set<Payload>, q: Payload, p: Payload, size: nat) {
    q in live && p !in live - {q} && live' == live - {q} + {p} && p.at <= p.end &&
        size <= 8 * (p.end - p.at) < size + 16
  }

  /** The units that q and p both have room for are the same at p as they were at q. */
  ghost predicate Carried(w: seq<Unit>, w': seq<Unit>, q: Payload, p: Payload) {
    && q.at <= q.end <= |w| == |w'| && p.at <= p.end <= |w|
    && var n := if q.end - q.at < p.end - p.at then q.end - q.at else p.end - p.at;
       w'[p.at..p.at + n] == w[q.at..q.at + n]
  }

  lemma PayloadFits(w: seq<Unit>, regions: seq<Region>, blocks: seq<seq<Block>>, p: Payload)
    requires AllGood(w, regions, blocks) && p in LiveAll(blocks)
    ensures 0 < p.at <= p.end <= |w|
  {
    hide Chain, NoTwoFree, LiveAll;
    var r, k := Locate(regions, blocks, p);
    InRange(w, regions, blocks, r, k);
  }

  /** A unit starts one live payload only. */
  lemma HeldOnce(w: seq<Unit>, regions: seq<Region>, blocks: seq<seq<Block>>, q: Payload)
    requires AllGood(w, regions, blocks) && RegionsOk(regions, |w|) && q in LiveAll(blocks)
    ensures IsHeld(LiveAll(blocks), q.at) && PayloadAt(LiveAll(blocks), q.at) == q
  {
    hide Chain, NoTwoFree, LiveAll, AllGood;
    var x := PayloadAt(LiveAll(blocks), q.at);
    PayloadFits(w, regions, blocks, q);
    PayloadFits(w, regions, blocks, x);
    if x != q { AllLiveDisjoint(w, regions, blocks, x, q); }
  }

  lemma OnlyAt(w: seq<Unit>, regions: seq<Region>, blocks: seq<seq<Block>>, q: Payload, p: Payload)
    requires AllGood(w, regions, blocks) && RegionsOk(regions, |w|) && q in LiveAll(blocks) && p.at == q.at
    ensures p !in LiveAll(blocks) - {q}
  {
    hide AllGood, LiveAll;
    if p in LiveAll(blocks) - {q} {
      HeldOnce(w, regions, blocks, q);
      HeldOnce(w, regions, blocks, p);
    }
  }

  lemma GrowKeeps(w0: seq<Unit>, w1: seq<Unit>, w2: seq<Unit>, w3: seq<Unit>, live: set<Payload>, q: Payload,
      p: Payload, units: nat)
    requires q in live && p !in live && Kept(w0, w1, live) && Kept(w1, w2, live) && Kept(w2, w3, live + {p} - {q})
    requires units == q.end - q.at <= p.end - p.at && p.end <= |w2| == |w1| && q.end <= |w1| &&
        w2[p.at..p.at + units] == w1[q.at..q.at + units]
    ensures Kept(w0, w3, live - {q}) && Carried(w0, w3, q, p)
  {
    forall x | x in live - {q} ensures UnitsSame(w0, w3, x) {
      assert UnitsSame(w0, w1, x) && UnitsSame(w1, w2, x) && UnitsSame(w2, w3, x);
    }
    assert UnitsSame(w0, w1, q) && UnitsSame(w2, w3, p);
    SliceOfSlice(w3, p.at, p.end, units);
    SliceOfSlice(w2, p.at, p.end, units);
  }

  lemma SameLive(w: seq<Unit>, regions: seq<Region>, blocks: seq<seq<Block>>, q: Payload)
    requires AllGood(w, regions, blocks) && q in LiveAll(blocks)
    ensures LiveAll(blocks) == LiveAll(blocks) - {q} + {q} && Kept(w, w, LiveAll(blocks) - {q}) && Carried(w, w, q, q)
  {
    hide AllGood, LiveAll;
    KeptSame(w, regions, blocks);
    PayloadFits(w, regions, blocks, q);
  }

  lemma ShrinkCarries(w: seq<Unit>, w': seq<Unit>, live: set<Payload>, live': set<Payload>, q: Payload, p: Payload)
    requires q in live && live' == live - {q} + {p} && p.at == q.at && p.at <= p.end <= q.end <= |w| &&
        Kept(w, w', live')
    ensures Kept(w, w', live - {q}) && Carried(w, w', q, p)
  {
    assert UnitsSame(w, w', p);
  }

  /** A live payload starts at unit ptr. */
  ghost predicate IsHeld(live: set<Payload>, ptr: nat) {
    exists p :: p in live && p.at == ptr
  }

  ghost function PayloadAt(live: set<Payload>, ptr: nat): (p: Payload)
    requires IsHeld(live, ptr)
    ensures p in live && p.at == ptr
  {
    var p :| p in live && p.at == ptr;
    p
  }

  /**
    q has become p, the same or a shorter payload with room for size bytes and less than 16 to spare unless it is the
    whole of q.
   */
  ghost predicate Shrunk(live: set<Payload>, live': set<Payload>, q: Payload, p: Payload, size: nat) {
    && live' == live - {q} + {p} && q in live && p.at == q.at && p.at <= p.end <= q.end
    && (size <= 8 * (q.end - q.at) ==> size <= 8 * (p.end - p.at) < size + 16)
  }

  lemma ButOne(bs: seq<Block>, k: nat)
    requires NoTwoFree(bs)
    ensures NoTwoFreeBut(bs, k)
  {
  }

  lemma KeptSame(w: seq<Unit>, regions: seq<Region>, blocks: seq<seq<Block>>)
    requires AllGood(w, regions, blocks)
    ensures Kept(w, w, LiveAll(blocks))
  {
    hide Chain, LiveIn;
    forall p | p in LiveAll(blocks) ensures UnitsSame(w, w, p) {
      var s :| 0 <= s < |blocks| && p in LiveIn(blocks[s]);
      LiveBounds(w, blocks[s], regions[s].first, regions[s].last, p);
      InRam(w, blocks[s], regions[s].first, regions[s].last);
      ChainFacts(w, blocks[s], regions[s].first, regions[s].last, 0);
    }
  }

  lemma LiveAllSwap(w: seq<Unit>, regions: seq<Region>, blocks: seq<seq<Block>>, r: nat, bs': seq<Block>, q: Payload,
      p: Payload)
    requires AllGood(w, regions, blocks) && RegionsOk(regions, |w|) && r < |regions|
    requires LiveIn(bs') == LiveIn(blocks[r]) - {q} + {p} && q in LiveIn(blocks[r]) && p != q
    ensures LiveAll(blocks[r := bs']) == LiveAll(blocks) - {q} + {p}
  {
    hide LiveIn, Chain;
    LiveBounds(w, blocks[r], regions[r].first, regions[r].last, q);
    var blocks' := blocks[r := bs'];
    forall x | x in LiveAll(blocks) - {q} + {p} ensures x in LiveAll(blocks') {
      if x == p {
        assert x in LiveIn(blocks'[r]);
      } else {
        var s :| 0 <= s < |blocks| && x in LiveIn(blocks[s]);
        assert x in LiveIn(blocks'[s]);
      }
    }
    forall x | x in LiveAll(blocks') ensures x in LiveAll(blocks) - {q} + {p} {
      var s :| 0 <= s < |blocks| && x in LiveIn(blocks'[s]);
      if s != r { LiveBounds(w, blocks[s], regions[s].first, regions[s].last, x); }
    }
  }

  lemma ShrinkAll(w: seq<Unit>, w': seq<Unit>, regions: seq<Region>, blocks: seq<seq<Block>>, r: nat, k: nat, n: nat)
    requires AllGood(w, regions, blocks) && RegionsOk(regions, |w|) && r < |regions| && Inner(blocks[r], k) &&
        blocks[r][k].taken
    requires 0 < n < Len(blocks[r], k) && Inner(CutTwo(blocks[r], k, n), k + 1)
    requires Good(w', Freed(CutTwo(blocks[r], k, n), k + 1), regions[r].first, regions[r].last)
    requires HeadersOnly(w, w', Starts(blocks[r]) + {blocks[r][k].at + n})
    ensures var blocks', q, u := blocks[r := Freed(CutTwo(blocks[r], k, n), k + 1)], PayloadOf(blocks[r], k),
        blocks[r][k].at;
            && AllGood(w', regions, blocks') && LiveAll(blocks') == LiveAll(blocks) - {q} + {Payload(u + 1, u + n)}
            && Kept(w, w', LiveAll(blocks'))
  {
    hide Chain, NoTwoFree, LiveAll, Freed, CutTwo, Starts, Increasing;
    var g, bs := regions[r], blocks[r];
    var u, q, bs' := bs[k].at, PayloadOf(bs, k), Freed(CutTwo(bs, k, n), k + 1);
    ChainIncreasing(w, bs, g.first, g.last);
    CutFreedLive(bs, k, n);
    assert q in LiveIn(bs);
    hide LiveIn;
    LiveAllSwap(w, regions, blocks, r, bs', q, Payload(u + 1, u + n));
    ChainFacts(w, bs, g.first, g.last, k + 1);
    KeptElsewhere(w, w', regions, blocks, r, k, u + n, LiveAll(blocks) - {q});
    OneRegion(w, w', regions, blocks, r, bs', Starts(bs) + {u + n});
    forall x | u + 1 <= x < u + n ensures w'[x] == w[x] { NoStartInside(w, bs, g.first, g.last, q, x); }
  }

  lemma InitGood(w: seq<Unit>, g: Region)
    requires 0 < g.first && g.first + 3 <= g.last <= |w| <= MAX_UNITS
    requires w[g.first] == Unit(g.first + 1 + TAKEN, 0) && w[g.first + 1] == Unit(g.last - 1, g.first) &&
        w[g.last - 1] == Unit(TAKEN, g.first + 1)
    ensures Good(w, Initial(g), g.first, g.last)
  {
    var bs := Initial(g);
    assert Linked(w, bs[0], bs[1]) && Linked(w, bs[1], bs[2]);
  }

  lemma NoneLive(regions: seq<Region>)
    ensures LiveAll(InitialBlocks(regions)) == {}
  {
  }
}
