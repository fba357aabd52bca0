/** Whole runs of the simple allocator, as the program that makes the calls sees them. */
module SallocRun {
  import opened Seqs
  import opened SallocChain
  import opened SallocOps
  import opened SallocRegions
  import opened Salloc

  /** A call; blocks are named by their position in the list of pointers the program holds. */
  datatype Call = CallMalloc(size: nat) | CallFree(i: nat) | CallRealloc(i: nat, size: nat)

  predicate CallOk(c: Call) { c.CallFree? || c.size + 15 < 0x1_0000_0000 }

  /** The pointers are the starts of the live payloads, each held once. */
  ghost predicate HeldBy(live: set<Payload>, ps: seq<nat>) {
    && (forall i | 0 <= i < |ps| :: ps[i] > 0 && IsHeld(live, ps[i]))
    && (forall i, j | 0 <= i < j < |ps| :: ps[i] != ps[j])
    && (forall p | p in live :: p.at in ps)
  }

  lemma HeldMore(w: seq<Unit>, regions: seq<Region>, blocks: seq<seq<Block>>, live: set<Payload>, ps: seq<nat>,
      p: Payload)
    requires AllGood(w, regions, blocks) && RegionsOk(regions, |w|) && HeldBy(live, ps) && p !in live &&
        LiveAll(blocks) == live + {p}
    ensures HeldBy(LiveAll(blocks), ps + [p.at])
  {
    hide AllGood, RegionsOk, LiveAll;
    PayloadFits(w, regions, blocks, p);
    forall i | 0 <= i < |ps| ensures IsHeld(LiveAll(blocks), ps[i]) && ps[i] != p.at {
      var q := PayloadAt(live, ps[i]);
      PayloadFits(w, regions, blocks, q);
      AllLiveDisjoint(w, regions, blocks, p, q);
    }
    assert p in LiveAll(blocks);
  }

  lemma HeldLess(w: seq<Unit>, regions: seq<Region>, blocks: seq<seq<Block>>, ps: seq<nat>, i: nat)
    requires AllGood(w, regions, blocks) && RegionsOk(regions, |w|) && HeldBy(LiveAll(blocks), ps) && i < |ps|
    ensures HeldBy(LiveAll(blocks) - {PayloadAt(LiveAll(blocks), ps[i])}, Without(ps, i))
  {
    hide AllGood, RegionsOk, LiveAll;
    var live, q, ps' := LiveAll(blocks), PayloadAt(LiveAll(blocks), ps[i]), Without(ps, i);
    WithoutDistinct(ps, i);
    hide Without;
    forall k | 0 <= k < |ps'| ensures ps'[k] > 0 && IsHeld(live - {q}, ps'[k]) {
      var p := PayloadAt(live, ps'[k]);
      assert p in live - {q};
    }
    hide IsHeld;
    forall p | p in live - {q} ensures p.at in ps' {
      if p.at == q.at { OnlyAt(w, regions, blocks, q, p); }
      WithoutKeeps(ps, i, p.at);
    }
  }

  method Step(a: Allocator, call: Call, ps: seq<nat>) returns (ps': seq<nat>)
    requires a.Valid() && a.initialized && HeldBy(a.Live(), ps) && CallOk(call)
    modifies a`initialized, a`blocks, a.mem.ram
    ensures a.Valid() && a.initialized && HeldBy(a.Live(), ps')
  {
    hide AllGood, RegionsOk, LiveAll, HeldBy, Kept, Carried, NothingFits, BestChoice, UnitsFor, Granted;
    ps' := ps;
    ghost var live := a.Live();
    match call
    case CallMalloc(size) =>
      var r;
      ghost var p;
      r, p := a.Smalloc(size);
      if r != 0 {
        HeldMore(a.mem.ram[..], a.regions, a.blocks, live, ps, p);
        ps' := ps + [r];
      }
    case CallFree(i) =>
      if i < |ps| {
        HeldAt(live, ps, i);
        HeldLess(a.mem.ram[..], a.regions, a.blocks, ps, i);
        a.Sfree(ps[i]);
        ps' := Without(ps, i);
      }
    case CallRealloc(i, size) =>
      if i < |ps| {
        HeldAt(live, ps, i);
        HeldLess(a.mem.ram[..], a.regions, a.blocks, ps, i);
        ghost var q := PayloadAt(live, ps[i]);
        var r;
        ghost var p;
        r, p := a.Srealloc(ps[i], size);
        if r != 0 {
          HeldMore(a.mem.ram[..], a.regions, a.blocks, live - {q}, Without(ps, i), p);
          ps' := Without(ps, i) + [r];
        } else if size == 0 {
          ps' := Without(ps, i);
        }
      }
  }

  lemma HeldAt(live: set<Payload>, ps: seq<nat>, i: nat)
    requires HeldBy(live, ps) && i < |ps|
    ensures ps[i] > 0 && IsHeld(live, ps[i])
  {
  }

  /**
    Any run: the chains stay good, the pointers held are the live payloads, and when none is left every region is as
    it was set up.
   */
  method Run(a: Allocator, calls: seq<Call>) returns (ps: seq<nat>)
    requires a.Valid() && !a.initialized && forall i | 0 <= i < |calls| :: CallOk(calls[i])
    modifies a`initialized, a`blocks, a.mem.ram
    ensures a.Valid() && a.initialized && HeldBy(a.Live(), ps)
    ensures ps == [] ==> a.blocks == InitialBlocks(a.regions)
  {
    hide AllGood, LiveAll, HeldBy;
    a.Init();
    NoneLive(a.regions);
    ps := [];
    NoneHeld();
    for i := 0 to |calls|
      invariant a.Valid() && a.initialized && HeldBy(a.Live(), ps)
    {
      ps := Step(a, calls[i], ps);
    }
    if ps == [] {
      NobodyHolds(a.Live());
      AllGivenBack(a.mem.ram[..], a.regions, a.blocks);
      assert a.blocks == InitialBlocks(a.regions);
    }
  }

  lemma NoneHeld()
    ensures HeldBy({}, [])
  {
  }

  lemma NobodyHolds(live: set<Payload>)
    requires HeldBy(live, [])
    ensures live == {}
  {
  }
}
