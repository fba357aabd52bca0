/**
  The allocator itself: a tagged segment of chunks whose free chunks are each in exactly
  one place, a bin, the designated victim dv, or top.
 */
module DlHeap {
  import opened Seqs
  import opened DlBitmap
  import opened DlIndex
  import opened DlTrie
  import opened DlTags
  import SB = DlSmallBins
  import TB = DlTreeBins

  const MALLOC_ALIGNMENT: nat := 8
  const MIN_CHUNK_SIZE: nat := 16
  const CHUNK_OVERHEAD: nat := 4
  const MIN_REQUEST: nat := 11
  const MAX_SMALL_REQUEST: nat := 244
  const MAX_REQUEST: nat := 0xFFFF_FFC0
  const MAX_SIZE_T: nat := 0xFFFF_FFFF

  /** pad_request and request2size. */
  function PadRequest(bytes: nat): nat { (bytes + CHUNK_OVERHEAD + 7) / 8 * 8 }
  function Request2Size(bytes: nat): nat { if bytes < MIN_REQUEST then MIN_CHUNK_SIZE else PadRequest(bytes) }

  lemma RequestSize(bytes: nat)
    requires bytes < WORD
    ensures Request2Size(bytes) % 8 == 0 && MIN_CHUNK_SIZE <= Request2Size(bytes)
    ensures bytes <= MAX_SMALL_REQUEST ==> Request2Size(bytes) < MIN_LARGE_SIZE
    ensures MAX_SMALL_REQUEST < bytes ==> MIN_LARGE_SIZE <= Request2Size(bytes) == PadRequest(bytes)
    ensures bytes < MAX_REQUEST ==> Request2Size(bytes) < WORD
    ensures bytes + CHUNK_OVERHEAD <= Request2Size(bytes)
  {
  }

  /** It is the least such size. */
  lemma RequestLeast(bytes: nat, n: nat)
    requires n % 8 == 0 && 16 <= n && bytes + 4 <= n
    ensures Request2Size(bytes) <= n
  {
  }

  function DvSet(dv: Addr): set<Addr> { if dv == 0 then {} else {dv} }

  /** Every free chunk is in one place: a small bin, a tree bin, dv, top, or (in mid-operation) loose. */
  ghost predicate Owners(frees: set<Addr>, sb: set<Addr>, tb: set<Addr>, dv: Addr, top: Addr, loose: set<Addr>) {
    && frees == sb + tb + DvSet(dv) + {top} + loose
    && sb !! tb && sb + tb !! DvSet(dv) && top !in sb + tb + DvSet(dv)
    && loose !! sb + tb + DvSet(dv) + {top}
  }

  ghost predicate DvOk(head: Heads, dv: Addr, dvsize: nat) {
    && (dv == 0 <==> dvsize == 0)
    && (dv != 0 ==> dv in head && ChunkSize(head[dv]) == dvsize)
  }

  ghost predicate SameSizes(head: Heads, head': Heads, s: set<Addr>) {
    forall a | a in s && a in head :: a in head' && ChunkSize(head'[a]) == ChunkSize(head[a])
  }

  /** What a request of nb bytes gets of a binned chunk, or dv, of s bytes at p: the rest stays if it makes a chunk. */
  function Cut(p: Addr, s: nat, nb: nat): Chunk { Chunk(p, if s < nb + MIN_CHUNK_SIZE then s else nb, true) }

  /** What dv and its size are when a request has been served from a free chunk whose rest becomes dv. */
  function RestAsDv(dv: Addr, dvsize: nat, p: Addr, s: nat, nb: nat): (Addr, nat) {
    if s < nb + MIN_CHUNK_SIZE then (dv, dvsize) else (p + nb, s - nb)
  }

  /**
    dv when chunk c has been freed: none if there was none, or if it lay before c and c before top; else the free chunk
    that it is part of now.
   */
  ghost predicate DvFollows(dv: Addr, dvsize: nat, dv': Addr, dvsize': nat, c: Chunk, top: Addr) {
    && (dv' == 0 <==> dv == 0 || (dv + dvsize == c.addr && End(c) == top))
    && (dv' != 0 ==> dv' <= dv && dv + dvsize <= dv' + dvsize')
  }

  /** One of the chunks in s holds nb bytes. */
  ghost predicate SomeFits(head: Heads, s: set<Addr>, nb: nat) {
    exists a :: a in s && a in head && nb <= ChunkSize(head[a])
  }

  lemma ThisFits(head: Heads, s: set<Addr>, nb: nat, a: Addr)
    requires a in s && a in head && nb <= ChunkSize(head[a])
    ensures SomeFits(head, s, nb)
  {
  }

  lemma BestFits(head: Heads, s: set<Addr>, nb: nat, v: int)
    requires v > 0 && TB.IsBestFit(head, s, nb, v)
    ensures SomeFits(head, s, nb)
  {
  }

  /** v is a smallest chunk of s. */
  ghost predicate IsSmallest(head: Heads, s: set<Addr>, v: int) {
    v >= 0 && v in s && v in head && forall a | a in s :: a in head && ChunkSize(head[v]) <= ChunkSize(head[a])
  }

  lemma LeastOfAll(head: Heads, s: set<Addr>, nb: nat, v: Addr)
    requires v != 0 && TB.IsBestFit(head, s, nb, v) && forall a | a in s :: a in head && nb <= ChunkSize(head[a])
    ensures IsSmallest(head, s, v)
  {
  }

  /** A small chunk that nb bytes use up: what is left would not make a chunk. */
  ghost predicate Snug(head: Heads, sb: set<Addr>, nb: nat) {
    exists a :: a in sb && a in head && nb <= ChunkSize(head[a]) < nb + MIN_CHUNK_SIZE
  }

  /** A tree chunk that holds nb bytes and is smaller than dv. */
  ghost predicate Fitter(head: Heads, tb: set<Addr>, nb: nat, dvsize: nat) {
    exists a :: a in tb && a in head && nb <= ChunkSize(head[a]) < dvsize
  }

  /**
    A request of nb bytes is served from the bins: they have a chunk that is large enough, and dv is too small, or a
    small request uses a small chunk up, or a large request fits a tree chunk better than dv.
   */
  ghost predicate BinsFirst(head: Heads, sb: set<Addr>, tb: set<Addr>, nb: nat, dvsize: nat) {
    && SomeFits(head, sb + tb, nb)
    && (dvsize < nb || if nb < MIN_LARGE_SIZE then Snug(head, sb, nb) else Fitter(head, tb, nb, dvsize))
  }

  lemma LargeTaken(head: Heads, sb: set<Addr>, tb: set<Addr>, nb: nat, dvsize: nat, v: Addr)
    requires MIN_LARGE_SIZE <= nb && v > 0 && TB.IsBestFit(head, tb, nb, v)
    requires (forall a | a in sb :: a in head && ChunkSize(head[a]) < MIN_LARGE_SIZE)
    requires nb <= dvsize ==> ChunkSize(head[v]) < dvsize
    ensures BinsFirst(head, sb, tb, nb, dvsize) && TB.IsBestFit(head, sb + tb, nb, v) && SomeFits(head, tb, nb)
  {
  }

  lemma LargeDeclined(head: Heads, sb: set<Addr>, tb: set<Addr>, nb: nat, dvsize: nat)
    requires MIN_LARGE_SIZE <= nb
    requires forall a | a in sb :: a in head && ChunkSize(head[a]) < MIN_LARGE_SIZE
    requires dvsize < nb ==> forall a | a in tb :: a in head && ChunkSize(head[a]) < nb
    requires nb <= dvsize ==>
      forall a | a in tb :: a in head && (nb <= ChunkSize(head[a]) ==> dvsize <= ChunkSize(head[a]))
    ensures !BinsFirst(head, sb, tb, nb, dvsize)
    ensures dvsize < nb ==> forall a | a in sb + tb :: a in head && ChunkSize(head[a]) < nb
  {
  }

  /** A chunk of the first marked small bin from that of nb on is the best fit of all bins. */
  lemma SmallTaken(head: Heads, sb: set<Addr>, tb: set<Addr>, nb: nat, i: nat, dvsize: nat, p: Addr)
    requires p > 0 && p in sb && p in head && ChunkSize(head[p]) == 8 * i && nb <= 8 * i < MIN_LARGE_SIZE
    requires forall a | a in sb :: a in head && (nb <= ChunkSize(head[a]) ==> 8 * i <= ChunkSize(head[a]))
    requires forall a | a in tb :: a in head && MIN_LARGE_SIZE <= ChunkSize(head[a])
    requires dvsize < nb || 8 * i < nb + MIN_CHUNK_SIZE
    ensures BinsFirst(head, sb, tb, nb, dvsize) && TB.IsBestFit(head, sb + tb, nb, p)
  {
  }

  /** With no small chunk large enough, the smallest tree chunk is the best fit of all bins. */
  lemma SmallestTaken(head: Heads, sb: set<Addr>, tb: set<Addr>, nb: nat, dvsize: nat, v: Addr)
    requires v > 0 && IsSmallest(head, tb, v) && nb < MIN_LARGE_SIZE && dvsize < nb
    requires forall a | a in sb :: a in head && ChunkSize(head[a]) < nb
    requires nb <= ChunkSize(head[v]) < WORD
    ensures BinsFirst(head, sb, tb, nb, dvsize) && TB.IsBestFit(head, sb + tb, nb, v)
  {
  }

  /** No small chunk of nb or nb + 8 bytes. */
  lemma NotSnug(head: Heads, sb: set<Addr>, tb: set<Addr>, nb: nat, dvsize: nat)
    requires nb < MIN_LARGE_SIZE && nb <= dvsize
    requires forall a | a in sb :: a in head && (ChunkSize(head[a]) < nb || nb + MIN_CHUNK_SIZE <= ChunkSize(head[a]))
    ensures !BinsFirst(head, sb, tb, nb, dvsize)
  {
  }

  lemma NoneFits(head: Heads, sb: set<Addr>, tb: set<Addr>, nb: nat, dvsize: nat)
    requires forall a | a in sb + tb :: a in head && ChunkSize(head[a]) < nb
    ensures !BinsFirst(head, sb, tb, nb, dvsize)
  {
  }

  /** Bins depend on the heads of their own chunks only. */
  lemma SmallHeads(head: Heads, head': Heads, link: Links, smallmap: BinMap, bins: seq<seq<Addr>>, binsAt: Addr,
      least: Addr)
    requires SB.SmallOk(head, link, smallmap, bins, binsAt, least) && SameSizes(head, head', SB.AllSmall(bins))
    ensures SB.SmallOk(head', link, smallmap, bins, binsAt, least)
  {
    hide RingLinked;
    forall i | 0 <= i < SB.NSMALLBINS
      ensures SB.SmallBinOk(head', link, smallmap[i], bins[i], SB.HeaderAt(binsAt, i), i)
    {
      assert forall a | a in bins[i] :: a in SB.AllSmall(bins);
    }
  }

  lemma {:induction false} SizedHeads(head: Heads, head': Heads, t: Tree)
    requires Sized(head, t) && SameSizes(head, head', Addrs(t))
    ensures Sized(head', t)
  {
    match t
    case Nil =>
    case Node(ring, _, l, r) =>
      assert forall a | a in ring :: a in RingSet(ring);
      SizedHeads(head, head', l);
      SizedHeads(head, head', r);
  }

  lemma TreeHeads(head: Heads, head': Heads, link: Links, treebins: seq<Addr>, treemap: BinMap, trees: seq<Tree>,
      binsAt: Addr, least: Addr)
    requires TB.BinsOk(head, link, treebins, treemap, trees, binsAt, least) &&
        SameSizes(head, head', TB.AllAddrs(trees))
    ensures TB.BinsOk(head', link, treebins, treemap, trees, binsAt, least)
  {
    hide Linked, InTrie, Proper, InBin;
    forall i | 0 <= i < NTREEBINS ensures TB.BinOk(head', link, trees[i], treebins[i], TB.Cell(binsAt, i), i) {
      assert Addrs(trees[i]) <= TB.AllAddrs(trees);
      SizedHeads(head, head', trees[i]);
    }
  }

  lemma SmallSize(head: Heads, link: Links, smallmap: BinMap, bins: seq<seq<Addr>>, binsAt: Addr, least: Addr, a: Addr)
    requires SB.SmallOk(head, link, smallmap, bins, binsAt, least) && a in SB.AllSmall(bins)
    ensures a in head && ChunkSize(head[a]) < MIN_LARGE_SIZE
  {
  }

  lemma TreeSize(head: Heads, link: Links, treebins: seq<Addr>, treemap: BinMap, trees: seq<Tree>, binsAt: Addr,
      least: Addr, a: Addr)
    requires TB.BinsOk(head, link, treebins, treemap, trees, binsAt, least) && a in TB.AllAddrs(trees)
    ensures a in head && ChunkSize(head[a]) >= MIN_LARGE_SIZE
  {
    var i :| 0 <= i < |trees| && a in Addrs(trees[i]);
    TB.AddrSize(head, trees[i], a);
    assert InBin(i, ChunkSize(head[a]));
  }

  lemma TreesLarge(head: Heads, link: Links, treebins: seq<Addr>, treemap: BinMap, trees: seq<Tree>, binsAt: Addr,
      least: Addr)
    requires TB.BinsOk(head, link, treebins, treemap, trees, binsAt, least)
    ensures forall a | a in TB.AllAddrs(trees) :: a in head && ChunkSize(head[a]) >= MIN_LARGE_SIZE
    ensures forall a | a in TB.AllAddrs(trees) :: OkAddress(least, a)
  {
    hide ChunkSize;
    forall a | a in TB.AllAddrs(trees)
      ensures a in head && ChunkSize(head[a]) >= MIN_LARGE_SIZE && OkAddress(least, a)
    {
      TreeSize(head, link, treebins, treemap, trees, binsAt, least, a);
      TB.BinOfChunk(head, link, treebins, treemap, trees, binsAt, least, a);
    }
  }

  /** After a change of tags confined to cs[k..m], the bins and dv still see their chunks' sizes. */
  lemma OwnersKeepSizes(head: Heads, head': Heads, foot: Heads, cs: seq<Chunk>, k: nat, m: nat, sb: set<Addr>,
      tb: set<Addr>, dv: Addr, top: Addr, loose: set<Addr>)
    requires SegmentOk(head, foot, cs) && k < m <= |cs| && (m < |cs| ==> cs[m].inuse)
    requires SameOutside(head, head', cs[k].addr, End(cs[m - 1]))
    requires Owners(Frees(cs), sb, tb, dv, top, loose) && Frees(cs[k..m]) <= loose + {top}
    ensures SameSizes(head, head', sb) && SameSizes(head, head', tb) && SameSizes(head, head', DvSet(dv))
  {
    FreesOutside(cs, k, m);
    assert sb + tb + DvSet(dv) <= Frees(cs) - Frees(cs[k..m]);
    forall a | a in sb + tb + DvSet(dv) ensures a in head ==> a in head' && head'[a] == head[a] {
      assert a in Frees(cs) - Frees(cs[k..m]);
    }
  }

  /** Free chunks that only this operation holds are replaced by others. */
  lemma OwnersChange(frees: set<Addr>, sb: set<Addr>, tb: set<Addr>, dv: Addr, top: Addr, loose: set<Addr>,
      gone: set<Addr>, come: set<Addr>)
    requires Owners(frees, sb, tb, dv, top, loose) && gone <= loose && come !! frees - gone
    ensures Owners(frees - gone + come, sb, tb, dv, top, loose - gone + come)
  {
  }

  /** What a splice of loose chunks does to the free and to the live chunks. */
  lemma SpliceOwners(head: Heads, foot: Heads, cs: seq<Chunk>, k: nat, m: nat, mid: seq<Chunk>,
                     sb: set<Addr>, tb: set<Addr>, dv: Addr, top: Addr, loose: set<Addr>)
    requires SegmentOk(head, foot, cs) && GoodParts(cs, k, m, mid) && m < |cs| && cs[m].inuse
    requires Owners(Frees(cs), sb, tb, dv, top, loose) && Frees(cs[k..m]) <= loose
    ensures var cs' := Splice(cs, k, m, mid);
            && Owners(Frees(cs'), sb, tb, dv, top, loose - Frees(cs[k..m]) + Frees(mid))
            && Live(cs') == Live(cs) - Live(cs[k..m]) + Live(mid)
            && cs' != [] && cs'[0].addr == cs[0].addr
  {
    SpliceSets(cs, k, m, mid);
    MidInside(cs, k, m, mid);
    FreesOutside(cs, k, m);
    OwnersChange(Frees(cs), sb, tb, dv, top, loose, Frees(cs[k..m]), Frees(mid));
    SpliceAt(cs, k, m, mid, 0);
  }

  lemma TopOwners(head: Heads, foot: Heads, cs: seq<Chunk>, k: nat, mid: seq<Chunk>,
                  sb: set<Addr>, tb: set<Addr>, dv: Addr, top: Addr, loose: set<Addr>)
    requires SegmentOk(head, foot, cs) && GoodParts(cs, k, |cs|, mid) && Last(cs).addr == top
    requires Owners(Frees(cs), sb, tb, dv, top, loose) && Frees(cs[k..]) <= loose + {top} &&
        Frees(mid) == {Last(mid).addr}
    ensures var cs' := Splice(cs, k, |cs|, mid);
            && Owners(Frees(cs'), sb, tb, dv, Last(mid).addr, loose - Frees(cs[k..]))
            && Live(cs') == Live(cs) - Live(cs[k..]) + Live(mid)
            && cs' != [] && cs'[0].addr == cs[0].addr
  {
    hide Owners, Tagged;
    assert cs[k..|cs|] == cs[k..] && Last(cs) in cs[k..];
    SpliceSets(cs, k, |cs|, mid);
    MidInside(cs, k, |cs|, mid);
    FreesOutside(cs, k, |cs|);
    SpliceAt(cs, k, |cs|, mid, 0);
    assert Last(mid).addr in Frees(mid);
    OwnersTop(Frees(cs), sb, tb, dv, top, loose, Frees(cs[k..]), Last(mid).addr);
  }

  lemma OwnersTop(frees: set<Addr>, sb: set<Addr>, tb: set<Addr>, dv: Addr, top: Addr, loose: set<Addr>,
      gone: set<Addr>, t: Addr)
    requires Owners(frees, sb, tb, dv, top, loose) && top in gone && gone <= loose + {top} && t !in frees - gone
    ensures Owners(frees - gone + {t}, sb, tb, dv, t, loose - gone)
  {
  }

  /** Nobody but the heap itself looks at top's head. */
  lemma TopUnseen(head: Heads, frees: set<Addr>, sb: set<Addr>, tb: set<Addr>, dv: Addr, top: Addr, w: nat)
    requires Owners(frees, sb, tb, dv, top, {})
    ensures var head' := head[top := w];
            SameSizes(head, head', sb) && SameSizes(head, head', tb) && SameSizes(head, head', DvSet(dv))
  {
  }

  lemma MidInside(cs: seq<Chunk>, k: nat, m: nat, mid: seq<Chunk>)
    requires GoodParts(cs, k, m, mid)
    ensures forall a | a in Frees(mid) :: cs[k].addr <= a < End(cs[m - 1])
  {
    forall a | a in Frees(mid) ensures cs[k].addr <= a < End(cs[m - 1]) {
      var i :| 0 <= i < |mid| && mid[i].addr == a;
      if i > 0 { Ordered(mid, 0, i); }
      if i < |mid| - 1 { Ordered(mid, i, |mid| - 1); }
    }
  }

  class Heap {
    var head: Heads
    var foot: Heads
    var dv: Addr
    var dvsize: nat
    var top: Addr
    var topsize: nat
    const small: SB.SmallBins
    const tree: TB.TreeBins
    ghost var cs: seq<Chunk>
    ghost const base: Addr
    ghost var limit: Addr

    /** The invariant for given tags, chunks, dv and top, with some free chunks held by nobody yet. */
    ghost predicate OkIn(head: Heads, foot: Heads, cs: seq<Chunk>, loose: set<Addr>, dv: Addr, dvsize: nat, top: Addr,
        topsize: nat)
      reads this, small, tree
    {
      && SegmentOk(head, foot, cs) && cs[0].addr == base && End(Last(cs)) == limit && limit + TOP_FOOT_SIZE <= WORD
      && Last(cs) == Chunk(top, topsize, false)
      && small.Valid(head) && tree.Valid(head) && small.least <= cs[0].addr && tree.least <= cs[0].addr
      && Owners(Frees(cs), small.Binned(), tree.Binned(), dv, top, loose)
      && DvOk(head, dv, dvsize)
    }

    ghost predicate Ok(loose: set<Addr>, dv: Addr, dvsize: nat)
      reads this, small, tree
    {
      OkIn(head, foot, cs, loose, dv, dvsize, top, topsize)
    }

    ghost predicate Valid()
      reads this, small, tree
    {
      Ok({}, dv, dvsize)
    }

    /**
      First growth: the segment [start, start + size) becomes the top chunk (init_top, init_bins).  The arrays of small
      and tree bins lie before it, and apart.
     */
    constructor (smallAt: Addr, treeAt: Addr, start: Addr, size: nat)
      requires 0 < smallAt && smallAt + 8 * (SB.NSMALLBINS + 1) <= start
      requires 0 < treeAt && treeAt + 4 * NTREEBINS <= start
      requires smallAt + 8 * (SB.NSMALLBINS + 1) <= treeAt || treeAt + 4 * NTREEBINS <= smallAt
      requires start % 8 == 0 && size % 8 == 0 && size > TOP_FOOT_SIZE && start + size <= WORD
      ensures Valid() && Live(cs) == {} && fresh(small) && fresh(tree)
      ensures topsize == size - TOP_FOOT_SIZE && cs == [Chunk(start, size - TOP_FOOT_SIZE, false)]
      ensures base == start && limit == start + size - TOP_FOOT_SIZE
    {
      small := new SB.SmallBins(smallAt, start);
      tree := new TB.TreeBins(treeAt, start);
      head := map[start := size - TOP_FOOT_SIZE + PINUSE_BIT];
      foot := map[];
      dv, dvsize, top, topsize := 0, 0, start, size - TOP_FOOT_SIZE;
      cs := [Chunk(start, size - TOP_FOOT_SIZE, false)];
      base, limit := start, start + size - TOP_FOOT_SIZE;
      new;
      Only(cs[0]);
    }

    /** insert_chunk: bin a free chunk by size. */
    method InsertChunk(p: Addr, s: nat, ghost loose: set<Addr>, ghost d: Addr, ghost ds: nat)
      requires Ok(loose, d, ds) && p in loose && p in head && s == ChunkSize(head[p])
      modifies small, tree
      ensures Ok(loose - {p}, d, ds)
    {
      FreeWord(head, foot, cs, p);
      assert small.least <= p && tree.least <= p && s % 8 == 0 && s < WORD by {
        Bounds(head, foot, cs, ChunkAt(cs, p));
      }
      if s / 8 < SB.NSMALLBINS {
        small.InsertSmall(head, p, s);
      } else {
        tree.InsertLarge(head, p, s);
      }
    }

    /** unlink_chunk: take a free chunk out of its bin. */
    method UnlinkChunk(p: Addr, s: nat, ghost loose: set<Addr>, ghost d: Addr, ghost ds: nat)
      requires Ok(loose, d, ds) && p in small.Binned() + tree.Binned() && p in head && s == ChunkSize(head[p])
      modifies small, tree
      ensures Ok(loose + {p}, d, ds)
      ensures small.Binned() == old(small.Binned()) - {p} && tree.Binned() == old(tree.Binned()) - {p}
    {
      hide TB.BinsOk, SB.SmallOk, BitsOf, SegmentOk, Frees, DvOk, SB.AllSmall, TB.AllAddrs;
      if p in small.Binned() {
        SmallSize(head, small.link, BitsOf(small.smallmap), small.bins, small.binsAt, small.least, p);
      }
      if p in tree.Binned() {
        TreeSize(head, tree.link, tree.treebins, BitsOf(tree.treemap), tree.trees, tree.binsAt, tree.least, p);
      }
      if s / 8 < SB.NSMALLBINS {
        small.UnlinkSmall(head, p, s);
      } else {
        tree.UnlinkLarge(head, p);
      }
    }

    /** set_inuse_and_pinuse: hand out a loose chunk whole. */
    method TakeWhole(p: Addr, s: nat, ghost loose: set<Addr>, ghost d: Addr, ghost ds: nat)
      requires Ok(loose, d, ds) && p in loose && p in head && s == ChunkSize(head[p])
      modifies this`head, this`cs
      ensures Ok(loose - {p}, d, ds)
      ensures Chunk(p, s, true) !in old(Live(cs)) && Live(cs) == old(Live(cs)) + {Chunk(p, s, true)}
    {
      hide Tiled, Tagged, Splice, TB.BinsOk, SB.SmallOk, Owners, ClearPin, SetPin;
      LooseNotTop(Frees(cs), small.Binned(), tree.Binned(), d, top, loose, p);
      FreeWord(head, foot, cs, p);
      ghost var k := ChunkAt(cs, p);
      ghost var head0, mid := head, [cs[k].(inuse := true)];
      TakeParts(head, foot, cs, k);
      head := head[p := s + PINUSE_BIT + CINUSE_BIT];
      head := head[p + s := SetPin(WordAt(head, p + s))];
      TakeOk(head0, foot, cs, k, head);
      Transition(head0, foot, cs, loose, d, ds, top, topsize, k, k + 1, mid, head, foot);
      assert loose - Frees(cs[k..k + 1]) + Frees(mid) == loose - {p};
      cs := Splice(cs, k, k + 1, mid);
    }

    /** Hand out the first nb bytes of a loose chunk; the rest, a free chunk, is loose then. */
    method SplitLoose(p: Addr, s: nat, nb: nat, ghost loose: set<Addr>, ghost d: Addr, ghost ds: nat)
      requires Ok(loose, d, ds) && p in loose && p in head && s == ChunkSize(head[p])
      requires nb % 8 == 0 && MIN_CHUNK_SIZE <= nb && nb + MIN_CHUNK_SIZE <= s
      modifies this`head, this`foot, this`cs
      ensures Ok(loose - {p} + {p + nb}, d, ds) && p + nb in head && ChunkSize(head[p + nb]) == s - nb
      ensures Chunk(p, nb, true) !in old(Live(cs)) && Live(cs) == old(Live(cs)) + {Chunk(p, nb, true)}
    {
      hide Tiled, Tagged, Splice, TB.BinsOk, SB.SmallOk, Owners;
      LooseNotTop(Frees(cs), small.Binned(), tree.Binned(), d, top, loose, p);
      FreeWord(head, foot, cs, p);
      ghost var k := ChunkAt(cs, p);
      ghost var head0, foot0, mid := head, foot, CutAt(cs[k], nb, false);
      SplitParts(head, foot, cs, k, nb);
      var r, rsize := p + nb, s - nb;
      head := head[p := nb + PINUSE_BIT + CINUSE_BIT];
      head := head[r := rsize + PINUSE_BIT];
      foot := foot[r + rsize := rsize];
      SplitOk(head0, foot0, cs, k, nb, head, foot);
      Transition(head0, foot0, cs, loose, d, ds, top, topsize, k, k + 1, mid, head, foot);
      assert loose - Frees(cs[k..k + 1]) + Frees(mid) == loose - {p} + {r};
      PinBits(mid[1], true);
      cs := Splice(cs, k, k + 1, mid);
    }

    /** Hand out the first nb bytes of top. */
    method SplitTop(nb: nat)
      requires Valid() && nb % 8 == 0 && MIN_CHUNK_SIZE <= nb < topsize
      modifies this`head, this`top, this`topsize, this`cs
      ensures Valid() && topsize == old(topsize) - nb
      ensures var c := Chunk(old(top), nb, true); c !in old(Live(cs)) && Live(cs) == old(Live(cs)) + {c}
    {
      hide Tiled, Tagged, Splice, TB.BinsOk, SB.SmallOk, Owners, Frees, Live, GoodParts, SegmentOk, DvOk, ChunkSize;
      SomeChunk(head, foot, cs);
      ghost var k := |cs| - 1;
      ghost var head0: Heads := head;
      ghost var mid := CutAt(cs[k], nb, false);
      TopParts(head, foot, cs, nb);
      var rsize: nat := topsize - nb;
      var p: Addr := top;
      topsize := rsize;
      top := p + nb;
      head := head[p := nb + PINUSE_BIT + CINUSE_BIT];
      head := head[top := rsize + PINUSE_BIT];
      SplitOk(head0, foot, cs, k, nb, head, foot);
      TransitionTop(head0, foot, cs, {}, dv, dvsize, p, old(topsize), k, mid, head, foot);
      assert {} - Frees(cs[k..]) == {};
      cs := Splice(cs, k, k + 1, mid);
    }

    /** sys_alloc's contiguous growth: MORECORE has appended g bytes to the segment (init_top). */
    method GrowTop(g: nat)
      requires Valid() && g % 8 == 0 && limit + g + TOP_FOOT_SIZE <= WORD
      modifies this`head, this`topsize, this`cs, this`limit
      ensures Valid() && topsize == old(topsize) + g && Live(cs) == old(Live(cs)) && limit == old(limit) + g
    {
      hide Tiled, Tagged, TB.BinsOk, SB.SmallOk, Owners, Frees, Live, SegmentOk, ChunkSize;
      SomeChunk(head, foot, cs);
      ghost var head0, cs0, k := head, cs, |cs| - 1;
      TopUnseen(head, Frees(cs), small.Binned(), tree.Binned(), dv, top, topsize + g + PINUSE_BIT);
      topsize := topsize + g;
      limit := limit + g;
      head := head[top := topsize + PINUSE_BIT];
      GrowOk(head0, foot, cs0, g, head);
      cs := cs0[..k] + [cs0[k].(size := topsize)];
      assert cs0 == cs0[..k] + [cs0[k]] + [] && cs == cs0[..k] + [cs[k]] + [];
      SetsOf(cs0, cs0[..k], [cs0[k]], []);
      SetsOf(cs, cs0[..k], [cs[k]], []);
      Only(cs0[k]);
      Only(cs[k]);
      SeeHeads(head0, head);
    }

    /** replace_dv: p becomes the designated victim, the old one is binned. */
    method ReplaceDv(p: Addr, s: nat)
      requires Ok({p}, dv, dvsize) && p in head && s == ChunkSize(head[p]) && dvsize < MIN_LARGE_SIZE
      modifies this`dv, this`dvsize, small, tree
      ensures Valid() && dv == p && dvsize == s
    {
      hide Tiled, Tagged, TB.BinsOk, SB.SmallOk, SegmentOk, Frees, Live, ChunkSize, SB.AllSmall, TB.AllAddrs;
      FreeWord(head, foot, cs, p);
      var dvs := dvsize;
      if dvs != 0 {
        assert {p} + DvSet(dv) - {dv} == {p};
        InsertChunk(dv, dvs, {p} + DvSet(dv), 0, 0);
      }
      dvsize := s;
      dv := p;
      assert {p} - {p} == {};
    }

    /** Take nb bytes from a loose chunk; what is left, if it makes a chunk, becomes dv. */
    method TakeToDv(p: Addr, s: nat, nb: nat, rsize: nat)
      requires Ok({p}, dv, dvsize) && p in head && s == ChunkSize(head[p]) && p % 8 == 0 && nb % 8 == 0
      requires MIN_CHUNK_SIZE <= nb && s == nb + rsize && (MIN_CHUNK_SIZE <= rsize ==> dvsize < MIN_LARGE_SIZE)
      modifies this`head, this`foot, this`cs, this`dv, this`dvsize, small, tree
      ensures Valid() && Allocated(old(Live(cs)), Live(cs), p + 8, nb)
      ensures Live(cs) == old(Live(cs)) + {Cut(p, s, nb)}
      ensures (dv, dvsize) == RestAsDv(old(dv), old(dvsize), p, s, nb)
    {
      hide SegmentOk, TB.BinsOk, SB.SmallOk, DvOk, Frees, Live, ChunkSize, TB.AllAddrs, SB.AllSmall, Owners;
      if rsize < MIN_CHUNK_SIZE {
        TakeWhole(p, s, {p}, dv, dvsize);
        assert {p} - {p} == {};
        MakeAllocated(old(Live(cs)), Live(cs), Chunk(p, s, true), nb);
      } else {
        SplitLoose(p, s, nb, {p}, dv, dvsize);
        assert {p} - {p} + {p + nb} == {p + nb};
        MakeAllocated(old(Live(cs)), Live(cs), Chunk(p, nb, true), nb);
        ReplaceDv(p + nb, rsize);
      }
    }

    /** tmalloc_small: take nb bytes from the smallest chunk of the tree bins; the rest becomes dv. */
    method TmallocSmall(nb: nat) returns (mem: Addr)
      requires Valid() && nb % 8 == 0 && MIN_CHUNK_SIZE <= nb < MIN_LARGE_SIZE && dvsize < nb && tree.treemap != 0
      modifies this`head, this`foot, this`cs, this`dv, this`dvsize, small, tree
      ensures Valid() && Allocated(old(Live(cs)), Live(cs), mem, nb) && SomeFits(old(head), old(tree.Binned()), nb)
      ensures mem > 8 && IsSmallest(old(head), old(tree.Binned()), mem - 8)
      ensures var p: Addr := mem - 8; var s := ChunkSize(old(head)[p]);
        && Live(cs) == old(Live(cs)) + {Cut(p, s, nb)} && nb <= s < WORD
        && (dv, dvsize) == RestAsDv(old(dv), old(dvsize), p, s, nb)
    {
      hide SegmentOk, TB.BinsOk, SB.SmallOk, DvOk, Frees, Live, ChunkSize, TB.AllAddrs, SB.AllSmall, BitsOf;
      TreesLarge(head, tree.link, tree.treebins, BitsOf(tree.treemap), tree.trees, tree.binsAt, tree.least);
      var v, rsize := tree.Smallest(head, nb);
      LeastOfAll(head, tree.Binned(), nb, v);
      hide IsSmallest;
      assert OkAddress(tree.least, v) && v < v + nb;
      var s := ChunkSize(head[v]);
      assert v in Frees(cs);
      ThisFits(head, tree.Binned(), nb, v);
      hide SomeFits;
      hide Owners;
      FreeWord(head, foot, cs, v);
      UnlinkChunk(v, s, {}, dv, dvsize);
      assert {} + {v} == {v};
      TakeToDv(v, s, nb, rsize);
      mem := v + 8;
    }

    /** tmalloc_large: take nb bytes from the best fitting chunk of the tree bins, unless dv fits at least as well. */
    method TmallocLarge(nb: nat) returns (mem: Addr)
      requires Valid() && nb % 8 == 0 && MIN_LARGE_SIZE <= nb < WORD
      modifies this`head, this`foot, this`cs, small, tree
      ensures Valid()
      ensures mem == 0 ==>
          && Live(cs) == old(Live(cs)) && cs == old(cs) && head == old(head)
          && tree.Binned() == old(tree.Binned()) && small.Binned() == old(small.Binned())
      ensures mem == 0 && dvsize < nb ==> forall a | a in tree.Binned() :: a in head && ChunkSize(head[a]) < nb
      ensures mem == 0 && nb <= dvsize ==>
        forall a | a in tree.Binned() :: a in head && (nb <= ChunkSize(head[a]) ==> dvsize <= ChunkSize(head[a]))
      ensures mem != 0 ==> Allocated(old(Live(cs)), Live(cs), mem, nb)
      ensures mem != 0 ==>
          && mem > 8 && TB.IsBestFit(old(head), old(tree.Binned()), nb, mem - 8)
          && (nb <= dvsize ==> ChunkSize(old(head)[mem - 8]) < dvsize)
          && Live(cs) == old(Live(cs)) + {Cut(mem - 8, ChunkSize(old(head)[mem - 8]), nb)}
    {
      hide SegmentOk, TB.BinsOk, SB.SmallOk, DvOk, Frees, Live, ChunkSize, TB.AllAddrs, SB.AllSmall;
      HeapSmall();
      TreesLarge(head, tree.link, tree.treebins, BitsOf(tree.treemap), tree.trees, tree.binsAt, tree.least);
      mem := 0;
      var v, rsize := tree.BestFit(head, nb);
      if v != 0 && rsize < Sub32(dvsize, nb) {
        assert OkAddress(tree.least, v) && v < v + nb;
        var s := ChunkSize(head[v]);
        assert v in Frees(cs);
        hide Owners;
        FreeWord(head, foot, cs, v);
        UnlinkChunk(v, s, {}, dv, dvsize);
        assert {} + {v} == {v};
        TakeLarge(v, s, nb);
        mem := v + 8;
      }
    }

    /** Take nb bytes from a loose chunk of the tree bins; what is left, if it makes a chunk, is binned. */
    method TakeLarge(v: Addr, s: nat, nb: nat)
      requires Ok({v}, dv, dvsize) && v in head && s == ChunkSize(head[v]) && nb % 8 == 0 &&
          MIN_CHUNK_SIZE <= nb <= s && v % 8 == 0
      modifies this`head, this`foot, this`cs, small, tree
      ensures Valid() && Allocated(old(Live(cs)), Live(cs), v + 8, nb)
      ensures Live(cs) == old(Live(cs)) + {Cut(v, s, nb)}
    {
      hide SegmentOk, TB.BinsOk, SB.SmallOk, DvOk, Frees, Live, ChunkSize, TB.AllAddrs, SB.AllSmall, Owners;
      if s - nb < MIN_CHUNK_SIZE {
        TakeWhole(v, s, {v}, dv, dvsize);
        assert {v} - {v} == {};
        MakeAllocated(old(Live(cs)), Live(cs), Chunk(v, s, true), nb);
      } else {
        SplitLoose(v, s, nb, {v}, dv, dvsize);
        assert {v} - {v} + {v + nb} == {v + nb};
        MakeAllocated(old(Live(cs)), Live(cs), Chunk(v, nb, true), nb);
        InsertChunk(v + nb, s - nb, {v + nb}, dv, dvsize);
        assert {v + nb} - {v + nb} == {};
      }
    }

    /** Take nb bytes from the designated victim. */
    method UseDv(nb: nat) returns (mem: Addr)
      requires Valid() && nb % 8 == 0 && MIN_CHUNK_SIZE <= nb <= dvsize
      modifies this`head, this`foot, this`cs, this`dv, this`dvsize
      ensures Valid() && Allocated(old(Live(cs)), Live(cs), mem, nb)
      ensures mem == old(dv) + 8 && Live(cs) == old(Live(cs)) + {Cut(old(dv), old(dvsize), nb)}
      ensures (dv, dvsize) == RestAsDv(0, 0, old(dv), old(dvsize), nb)
    {
      hide SegmentOk, TB.BinsOk, SB.SmallOk, Frees, Live, TB.AllAddrs, SB.AllSmall;
      var rsize := dvsize - nb;
      var p := dv;
      assert p in Frees(cs) && Ok({p}, 0, 0);
      hide Owners;
      FreeWord(head, foot, cs, p);
      if rsize >= MIN_CHUNK_SIZE {
        SplitLoose(p, dvsize, nb, {p}, 0, 0);
        MakeAllocated(old(Live(cs)), Live(cs), Chunk(p, nb, true), nb);
        dv := p + nb;
        dvsize := rsize;
        assert {p} - {p} + {p + nb} == {p + nb};
        DvFromLoose(p + nb, rsize);
      } else {
        var dvs := dvsize;
        TakeWhole(p, dvs, {p}, 0, 0);
        MakeAllocated(old(Live(cs)), Live(cs), Chunk(p, dvs, true), nb);
        dvsize := 0;
        dv := 0;
        assert {p} - {p} == {};
      }
      mem := p + 8;
    }

    lemma DvFromLoose(p: Addr, s: nat)
      requires Ok({p}, 0, 0) && p in head && ChunkSize(head[p]) == s
      ensures Ok({}, p, s)
    {
      hide TB.BinsOk, SB.SmallOk, Tiled, Tagged;
      FreeWord(head, foot, cs, p);
    }

    /** Take the first chunk of small bin i out of its bin. */
    method PopSmall(i: nat) returns (p: Addr)
      requires Valid() && i < SB.NSMALLBINS && BitsOf(small.smallmap)[i]
      modifies small
      ensures Ok({p}, dv, dvsize) && p in head && ChunkSize(head[p]) == 8 * i && p % 8 == 0 && p in old(small.Binned())
      ensures 0 < p
    {
      hide SegmentOk, TB.BinsOk, SB.SmallOk, DvOk, Frees, Live, ChunkSize, TB.AllAddrs, SB.AllSmall;
      p := small.UnlinkFirst(head, i);
      FreeWord(head, foot, cs, p);
    }

    /** A small request served from small bin i: whole if the fit leaves no chunk, else the rest becomes dv. */
    method UseSmall(i: nat, nb: nat) returns (mem: Addr)
      requires Valid() && i < SB.NSMALLBINS && BitsOf(small.smallmap)[i] && nb % 8 == 0 && MIN_CHUNK_SIZE <= nb <= 8 * i
      requires nb + MIN_CHUNK_SIZE <= 8 * i ==> dvsize < nb
      modifies this`head, this`foot, this`cs, this`dv, this`dvsize, small, tree
      ensures Valid() && Allocated(old(Live(cs)), Live(cs), mem, nb) && SomeFits(old(head), old(small.Binned()), nb)
      ensures var p: int := mem - 8;
        && p > 0 && p in old(small.Binned()) && p in old(head) && ChunkSize(old(head)[p]) == 8 * i
        && Live(cs) == old(Live(cs)) + {Cut(p, 8 * i, nb)}
        && (dv, dvsize) == RestAsDv(old(dv), old(dvsize), p, 8 * i, nb)
    {
      hide SegmentOk, TB.BinsOk, SB.SmallOk, DvOk, Frees, Live, ChunkSize, TB.AllAddrs, SB.AllSmall, Owners;
      var p := PopSmall(i);
      ThisFits(head, old(small.Binned()), nb, p);
      hide SomeFits;
      var rsize := 8 * i - nb;
      TakeToDv(p, 8 * i, nb, rsize);
      mem := p + 8;
    }

    /** Take nb bytes from top, if they leave something of it. */
    method UseTop(nb: nat) returns (mem: Addr)
      requires Valid() && nb % 8 == 0 && MIN_CHUNK_SIZE <= nb < topsize
      modifies this`head, this`top, this`topsize, this`cs
      ensures Valid() && Allocated(old(Live(cs)), Live(cs), mem, nb)
      ensures mem == old(top) + 8 && Live(cs) == old(Live(cs)) + {Chunk(old(top), nb, true)}
    {
      hide TB.BinsOk, SB.SmallOk, Owners, Tagged;
      var p := top;
      Bounds(head, foot, cs, |cs| - 1);
      SplitTop(nb);
      MakeAllocated(old(Live(cs)), Live(cs), Chunk(p, nb, true), nb);
      mem := p + 8;
    }

    /** The chunks in the small bins and in the tree bins. */
    ghost function Bins(): (set<Addr>, set<Addr>)
      reads this, small, tree
    {
      (small.Binned(), tree.Binned())
    }

    /** A request of nb bytes would be served from the bins. */
    ghost predicate FromBins(nb: nat)
      reads this, small, tree
    {
      BinsFirst(head, small.Binned(), tree.Binned(), nb, dvsize)
    }

    /** p is the smallest binned chunk that holds nb bytes. */
    ghost predicate BestBinned(nb: nat, p: Addr)
      reads this, small, tree
    {
      p > 0 && TB.IsBestFit(head, small.Binned() + tree.Binned(), nb, p)
    }

    /**
      The free chunk that serves a request of nb bytes: the best fit of the bins if they come first, else dv if it is
      large enough, else top.
     */
    ghost predicate Serves(nb: nat, p: Addr)
      reads this, small, tree
    {
      if FromBins(nb) then BestBinned(nb, p) else if nb <= dvsize then p == dv else p == top
    }

    /** The chunk handed out when p serves the request: all of p, or its first nb bytes. */
    ghost function Given(nb: nat, p: Addr): Chunk
      reads this
    {
      if p == top then Chunk(p, nb, true)
      else if p == dv then Cut(p, dvsize, nb)
      else Cut(p, if p in head then ChunkSize(head[p]) else 0, nb)
    }

    /** dv and its size when p has served the request: the rest of dv, or of a binned chunk after a small request. */
    ghost function DvAfter(nb: nat, p: Addr): (Addr, nat)
      reads this
    {
      if p == dv then RestAsDv(0, 0, dv, dvsize, nb)
      else if p == top || nb >= MIN_LARGE_SIZE then (dv, dvsize)
      else RestAsDv(dv, dvsize, p, if p in head then ChunkSize(head[p]) else 0, nb)
    }

    /** Taking nb bytes of the binned chunk p is what serves the request. */
    ghost predicate Right(nb: nat, p: Addr)
      reads this, small, tree
    {
      && FromBins(nb) && BestBinned(nb, p) && p in head
      && Given(nb, p) == Cut(p, ChunkSize(head[p]), nb)
      && DvAfter(nb, p) == if nb < MIN_LARGE_SIZE then RestAsDv(dv, dvsize, p, ChunkSize(head[p]), nb) else (dv, dvsize)
    }

    lemma NeitherDvNorTop(nb: nat, p: Addr)
      requires Valid() && p in small.Binned() + tree.Binned() && FromBins(nb) && BestBinned(nb, p)
      ensures Right(nb, p)
    {
      hide SegmentOk, TB.BinsOk, SB.SmallOk, Frees, TB.AllAddrs, SB.AllSmall, BinsFirst;
    }

    /** Any chunk of the first marked small bin from that of nb on is right, if it is snug or dv is too small. */
    lemma FirstBinRight(nb: nat, i: nat)
      requires Valid() && nb % 8 == 0 && nb <= 8 * i < MIN_LARGE_SIZE && (dvsize < nb || 8 * i < nb + MIN_CHUNK_SIZE)
      requires forall j | nb / 8 <= j < i :: !BitsOf(small.smallmap)[j]
      ensures forall p | p in small.Binned() && p in head && ChunkSize(head[p]) == 8 * i :: p > 0 ==> Right(nb, p)
    {
      hide SegmentOk, TB.BinsOk, SB.SmallOk, Frees, TB.AllAddrs, SB.AllSmall, DvOk, Owners, BitsOf;
      BelowBin(head, small.link, BitsOf(small.smallmap), small.bins, small.binsAt, small.least, nb / 8, i);
      TreesLarge(head, tree.link, tree.treebins, BitsOf(tree.treemap), tree.trees, tree.binsAt, tree.least);
      hide Right, ChunkSize;
      forall p | p in small.Binned() && p in head && ChunkSize(head[p]) == 8 * i && p > 0 ensures Right(nb, p) {
        SmallTaken(head, small.Binned(), tree.Binned(), nb, i, dvsize, p);
        NeitherDvNorTop(nb, p);
      }
    }

    lemma SmallestRight(nb: nat)
      requires Valid() && nb % 8 == 0 && nb < MIN_LARGE_SIZE && dvsize < nb
      requires forall a | a in small.Binned() :: a in head && ChunkSize(head[a]) < nb
      ensures forall p: Addr | IsSmallest(head, tree.Binned(), p) ::
          p > 0 && p in head && nb <= ChunkSize(head[p]) < WORD ==> Right(nb, p)
    {
      hide SegmentOk, TB.BinsOk, SB.SmallOk, Frees, TB.AllAddrs, SB.AllSmall, DvOk, Owners, BitsOf;
      hide Right, ChunkSize, IsSmallest;
      forall p: Addr | IsSmallest(head, tree.Binned(), p) && p > 0 && p in head && nb <= ChunkSize(head[p]) < WORD
        ensures Right(nb, p)
      {
        SmallestTaken(head, small.Binned(), tree.Binned(), nb, dvsize, p);
        InBins(head, tree.Binned(), p);
        NeitherDvNorTop(nb, p);
      }
    }

    /** Neither the bin of nb nor the next is marked, and dv is large enough. */
    lemma DvFirst(nb: nat)
      requires Valid() && nb % 8 == 0 && nb < MIN_LARGE_SIZE && nb <= dvsize
      requires !BitsOf(small.smallmap)[nb / 8] && (nb / 8 < 31 ==> !BitsOf(small.smallmap)[nb / 8 + 1])
      ensures !FromBins(nb)
    {
      hide SegmentOk, TB.BinsOk, SB.SmallOk, Frees, TB.AllAddrs, SB.AllSmall, DvOk, Owners, BitsOf;
      NoneSnug(head, small.link, BitsOf(small.smallmap), small.bins, small.binsAt, small.least, nb);
      NotSnug(head, small.Binned(), tree.Binned(), nb, dvsize);
    }

    /** A small request takes the first chunk of the first marked bin from its own on. */
    method UseFirst(i: nat, nb: nat) returns (mem: Addr)
      requires Valid() && i < SB.NSMALLBINS && BitsOf(small.smallmap)[i] && nb % 8 == 0 && MIN_CHUNK_SIZE <= nb <= 8 * i
      requires dvsize < nb || 8 * i < nb + MIN_CHUNK_SIZE
      requires forall j | nb / 8 <= j < i :: !BitsOf(small.smallmap)[j]
      modifies this`head, this`foot, this`cs, this`dv, this`dvsize, small, tree
      ensures Valid() && mem > 8 && old(Right(nb, mem - 8)) && (dv, dvsize) == old(DvAfter(nb, mem - 8))
      ensures AllocatedAs(old(Live(cs)), Live(cs), mem, nb, old(Given(nb, mem - 8)))
    {
      hide SegmentOk, TB.BinsOk, SB.SmallOk, DvOk, Frees, Live, ChunkSize, TB.AllAddrs, SB.AllSmall, Owners;
      hide BitsOf, SomeFits, Allocated, FromBins, BestBinned, RestAsDv;
      FirstBinRight(nb, i);
      mem := UseSmall(i, nb);
    }

    /** A small request that no small chunk can serve takes the smallest tree chunk. */
    method UseTree(nb: nat) returns (mem: Addr)
      requires Valid() && nb % 8 == 0 && MIN_CHUNK_SIZE <= nb < MIN_LARGE_SIZE && dvsize < nb && tree.treemap != 0
      requires forall a | a in small.Binned() :: a in head && ChunkSize(head[a]) < nb
      modifies this`head, this`foot, this`cs, this`dv, this`dvsize, small, tree
      ensures Valid() && mem > 8 && old(Right(nb, mem - 8)) && (dv, dvsize) == old(DvAfter(nb, mem - 8))
      ensures AllocatedAs(old(Live(cs)), Live(cs), mem, nb, old(Given(nb, mem - 8)))
    {
      hide SegmentOk, TB.BinsOk, SB.SmallOk, DvOk, Frees, Live, ChunkSize, TB.AllAddrs, SB.AllSmall, Owners;
      hide SomeFits, Allocated, FromBins, BestBinned, RestAsDv;
      SmallestRight(nb);
      mem := TmallocSmall(nb);
    }

    /** No small bin from that of nb on is marked. */
    lemma NoSmallChunk(nb: nat)
      requires Valid() && nb % 8 == 0 && nb < MIN_LARGE_SIZE
      ensures (forall j | nb / 8 <= j < 32 :: !BitsOf(small.smallmap)[j]) ==>
        forall a | a in small.Binned() :: a in head && ChunkSize(head[a]) < nb
    {
      hide SegmentOk, TB.BinsOk, SB.SmallOk, DvOk, Frees, TB.AllAddrs, SB.AllSmall, Owners, BitsOf, ChunkSize;
      NoSmall(head, small.link, BitsOf(small.smallmap), small.bins, small.binsAt, small.least, nb / 8);
    }

    lemma NoTreeChunk(nb: nat)
      requires Valid() && (forall a | a in small.Binned() :: a in head && ChunkSize(head[a]) < nb)
      ensures tree.treemap == 0 ==> !FromBins(nb)
    {
      hide SegmentOk, TB.BinsOk, SB.SmallOk, DvOk, Frees, TB.AllAddrs, SB.AllSmall, Owners, BitsOf, ChunkSize;
      NoTree(head, tree.link, tree.treebins, BitsOf(tree.treemap), tree.trees, tree.binsAt, tree.least);
      FirstMarked(tree.treemap);
      if tree.treemap == 0 { NoneFits(head, small.Binned(), tree.Binned(), nb, dvsize); }
    }

    /** The search of dlmalloc for a small request, before dv and top are tried. */
    method SmallSearch(nb: nat) returns (mem: Addr)
      requires Valid() && nb % 8 == 0 && MIN_CHUNK_SIZE <= nb < MIN_LARGE_SIZE
      modifies this`head, this`foot, this`cs, this`dv, this`dvsize, small, tree
      ensures Valid() && (mem != 0 <==> old(FromBins(nb)))
      ensures mem == 0 ==>
          cs == old(cs) && head == old(head) && dv == old(dv) && dvsize == old(dvsize) && Bins() == old(Bins())
      ensures mem != 0 ==>
          && mem > 8 && old(Right(nb, mem - 8)) && (dv, dvsize) == old(DvAfter(nb, mem - 8))
          && AllocatedAs(old(Live(cs)), Live(cs), mem, nb, old(Given(nb, mem - 8)))
    {
      hide OkIn, Live, ChunkSize, TB.AllAddrs, SB.AllSmall, BinsFirst, BestBinned, Given, DvAfter, AllocatedAs;
      hide Marked, BitsOf, SmallBits, SmallAbove, LeastIndex, ProbeHits, ProbeStep;
      mem := 0;
      var idx := nb / 8;
      var smallbits := SmallBits(small.smallmap, idx);
      ProbeMarked(small.smallmap, idx);
      if ProbeHits(smallbits) {
        mem := UseFirst(idx + ProbeStep(smallbits), nb);
      } else if nb > dvsize {
        SmallNextMarked(small.smallmap, idx);
        if smallbits != 0 {
          mem := UseFirst(LeastIndex(SmallAbove(smallbits, idx)), nb);
        } else {
          NoSmallChunk(nb);
          NoTreeChunk(nb);
          if tree.treemap != 0 {
            mem := UseTree(nb);
          }
        }
      } else {
        DvFirst(nb);
      }
    }

    /** No free chunk of the heap, and not top once it has grown by `grant`, holds nb bytes. */
    ghost predicate NoRoom(nb: nat, grant: nat)
      reads this
    {
      NoneBig(nb) && topsize + grant <= nb
    }

    ghost predicate NoneBig(nb: nat)
      reads this
    {
      forall a | a in Frees(cs) - {top} :: a in head && ChunkSize(head[a]) < nb
    }

    lemma NothingFits(nb: nat)
      requires Valid() && dvsize < nb && !FromBins(nb)
      ensures NoneBig(nb)
    {
      hide SegmentOk, TB.BinsOk, SB.SmallOk, Live, TB.AllAddrs, SB.AllSmall, ChunkSize;
      forall a | a in Frees(cs) - {top} ensures a in head && ChunkSize(head[a]) < nb {
        FreeWord(head, foot, cs, a);
      }
    }

    /** A binned chunk, or dv, of nb bytes is room. */
    lemma BinnedFits(nb: nat)
      requires Valid()
      ensures FromBins(nb) ==> !NoneBig(nb)
    {
      hide SegmentOk, TB.BinsOk, SB.SmallOk, Frees, Live, TB.AllAddrs, SB.AllSmall, ChunkSize, DvOk;
      if FromBins(nb) {
        var a :| a in small.Binned() + tree.Binned() && a in head && nb <= ChunkSize(head[a]);
        assert a in Frees(cs) - {top};
      }
    }

    lemma DvFits(nb: nat)
      requires Valid() && 0 < nb <= dvsize
      ensures !NoneBig(nb)
    {
      hide SegmentOk, TB.BinsOk, SB.SmallOk, Frees, Live, TB.AllAddrs, SB.AllSmall, ChunkSize;
      assert dv in Frees(cs) - {top};
    }

    /** From dv on: the designated victim, top, and at last more memory from the system (grant bytes). */
    method DvTopSystem(nb: nat, grant: nat) returns (mem: Addr)
      requires Valid() && (nb == MAX_SIZE_T || nb % 8 == 0) && MIN_CHUNK_SIZE <= nb < WORD
      requires grant % 8 == 0 && limit + grant + TOP_FOOT_SIZE <= WORD
      modifies this`head, this`foot, this`cs, this`dv, this`dvsize, this`top, this`topsize, this`limit
      ensures Valid() && limit in {old(limit), old(limit) + grant}
      ensures mem != 0 ==> nb % 8 == 0 && Allocated(old(Live(cs)), Live(cs), mem, nb)
      ensures mem == 0 ==> Live(cs) == old(Live(cs))
      ensures mem == 0 <==> old(dvsize) < nb && old(topsize) + grant <= nb
      ensures limit == if nb <= old(dvsize) || nb < old(topsize) then old(limit) else old(limit) + grant
      ensures (dv, dvsize) == if nb <= old(dvsize) then RestAsDv(0, 0, old(dv), old(dvsize), nb) else old((dv, dvsize))
      ensures mem != 0 ==>
        var c := if nb <= old(dvsize) then Cut(old(dv), old(dvsize), nb) else Chunk(old(top), nb, true);
        Live(cs) == old(Live(cs)) + {c} && mem == c.addr + 8
    {
      hide SegmentOk, TB.BinsOk, SB.SmallOk, Frees, Live, TB.AllAddrs, SB.AllSmall, Owners, ChunkSize, RestAsDv;
      HeapSmall();
      mem := 0;
      if nb <= dvsize {
        mem := UseDv(nb);
      } else if nb < topsize {
        mem := UseTop(nb);
      } else {
        GrowTop(grant);
        HeapSmall();
        if nb < topsize {
          mem := UseTop(nb);
        }
      }
    }

    lemma HeapSmall()
      requires Valid()
      ensures dvsize < MAX_SIZE_T && topsize < MAX_SIZE_T
    {
      hide TB.BinsOk, SB.SmallOk, Tagged;
      if dv != 0 {
        FreeWord(head, foot, cs, dv);
        Bounds(head, foot, cs, ChunkAt(cs, dv));
      }
    }

    lemma SmallsBelow()
      requires Valid()
      ensures forall a | a in small.Binned() :: a in head && ChunkSize(head[a]) < MIN_LARGE_SIZE
    {
      hide SegmentOk, TB.BinsOk, SB.SmallOk, Frees, TB.AllAddrs, SB.AllSmall, DvOk, Owners, BitsOf, ChunkSize;
      SmallBelow(head, small.link, BitsOf(small.smallmap), small.bins, small.binsAt, small.least);
    }

    lemma LargeRight(nb: nat)
      requires Valid() && MIN_LARGE_SIZE <= nb
      ensures forall p: Addr | p > 0 && TB.IsBestFit(head, tree.Binned(), nb, p) ::
        (nb <= dvsize ==> ChunkSize(head[p]) < dvsize) ==> Right(nb, p) && SomeFits(head, tree.Binned(), nb)
    {
      hide SegmentOk, TB.BinsOk, SB.SmallOk, Frees, TB.AllAddrs, SB.AllSmall, DvOk, Owners, BitsOf;
      SmallBelow(head, small.link, BitsOf(small.smallmap), small.bins, small.binsAt, small.least);
      hide Right, ChunkSize;
      forall p: Addr |
          p > 0 && TB.IsBestFit(head, tree.Binned(), nb, p) && (nb <= dvsize ==> ChunkSize(head[p]) < dvsize)
        ensures Right(nb, p) && SomeFits(head, tree.Binned(), nb)
      {
        LargeTaken(head, small.Binned(), tree.Binned(), nb, dvsize, p);
        NeitherDvNorTop(nb, p);
      }
    }

    /** The search for a large request, before dv. */
    method LargeSearch(nb: nat) returns (mem: Addr)
      requires Valid() && nb % 8 == 0 && MIN_LARGE_SIZE <= nb < WORD
      modifies this`head, this`foot, this`cs, small, tree
      ensures Valid() && (mem != 0 <==> old(FromBins(nb)))
      ensures mem == 0 ==> cs == old(cs) && head == old(head) && Bins() == old(Bins())
      ensures mem != 0 ==>
          && mem > 8 && old(Right(nb, mem - 8)) && (dv, dvsize) == old(DvAfter(nb, mem - 8))
          && AllocatedAs(old(Live(cs)), Live(cs), mem, nb, old(Given(nb, mem - 8)))
    {
      hide OkIn, Live, ChunkSize, TB.AllAddrs, SB.AllSmall, BestBinned, RestAsDv, Allocated, TB.IsBestFit;
      mem := 0;
      SmallsBelow();
      NoTreeChunk(nb);
      LargeRight(nb);
      hide BinsFirst;
      if tree.treemap != 0 {
        mem := TmallocLarge(nb);
        if mem == 0 { LargeDeclined(head, small.Binned(), tree.Binned(), nb, dvsize); }
      }
    }

    lemma DvNotTop()
      requires Valid() && dvsize > 0
      ensures dv > 0 && dv != top
    {
      hide SegmentOk, TB.BinsOk, SB.SmallOk, Frees, TB.AllAddrs, SB.AllSmall;
    }

    lemma TopNotDv()
      requires Valid()
      ensures top > 0 && top != dv
    {
      hide TB.BinsOk, SB.SmallOk, TB.AllAddrs, SB.AllSmall, Tagged;
    }

    /** dv, or else top, serves a request that the bins do not. */
    lemma RightOfRest(nb: nat)
      requires Valid() && !FromBins(nb) && 0 < nb
      ensures nb <= dvsize ==>
        && dv > 0 && Serves(nb, dv)
        && Given(nb, dv) == Cut(dv, dvsize, nb) && DvAfter(nb, dv) == RestAsDv(0, 0, dv, dvsize, nb)
      ensures nb > dvsize ==>
        && top > 0 && Serves(nb, top)
        && Given(nb, top) == Chunk(top, nb, true) && DvAfter(nb, top) == (dv, dvsize)
    {
      hide OkIn, BinsFirst, BestBinned, Cut, RestAsDv;
      TopNotDv();
      if nb <= dvsize { DvNotTop(); }
    }

    /** Neither the bins nor dv nor top can serve the request. */
    ghost predicate NeedsSystem(nb: nat)
      reads this, small, tree
    {
      !FromBins(nb) && dvsize < nb && topsize <= nb
    }

    /** The rest of dlmalloc, from dv on, when the bins do not serve the request. */
    method ServeRest(nb: nat, grant: nat) returns (mem: Addr)
      requires Valid() && nb % 8 == 0 && MIN_CHUNK_SIZE <= nb < WORD && !FromBins(nb)
      requires grant % 8 == 0 && limit + grant + TOP_FOOT_SIZE <= WORD
      modifies this`head, this`foot, this`cs, this`dv, this`dvsize, this`top, this`topsize, this`limit
      ensures Valid() && limit == old(limit) + if old(NeedsSystem(nb)) then grant else 0
      ensures mem == 0 <==> old(NoRoom(nb, grant))
      ensures mem == 0 ==> Live(cs) == old(Live(cs)) && dv == old(dv) && dvsize == old(dvsize)
      ensures mem != 0 ==>
          && mem > 8 && old(Serves(nb, mem - 8)) && (dv, dvsize) == old(DvAfter(nb, mem - 8))
          && AllocatedAs(old(Live(cs)), Live(cs), mem, nb, old(Given(nb, mem - 8)))
    {
      hide OkIn, BinsFirst, BestBinned, RestAsDv, Live, Given, DvAfter, Serves, Allocated;
      RightOfRest(nb);
      if dvsize < nb { NothingFits(nb); } else { DvFits(nb); }
      hide NoneBig;
      mem := DvTopSystem(nb, grant);
    }

    /**
      dlmalloc.  grant is what the system is ready to append to the segment when all else fails.  A request is served
      from the smallest binned chunk that holds it, if dv is too small, or if that chunk is a small one without enough
      left over for a chunk (small requests) or fits better than dv (large ones); else from dv; else from top.
     */
    method Malloc(bytes: nat, grant: nat) returns (mem: Addr)
      requires Valid() && bytes < WORD
      requires grant % 8 == 0 && limit + grant + TOP_FOOT_SIZE <= WORD
      modifies this`head, this`foot, this`cs, this`dv, this`dvsize, this`top, this`topsize, this`limit, small, tree
      ensures Valid() && limit in {old(limit), old(limit) + grant}
      ensures mem != 0 ==> bytes < MAX_REQUEST && Allocated(old(Live(cs)), Live(cs), mem, Request2Size(bytes))
      ensures mem == 0 ==> Live(cs) == old(Live(cs)) && dv == old(dv) && dvsize == old(dvsize)
      ensures mem == 0 <==> bytes >= MAX_REQUEST || old(NoRoom(Request2Size(bytes), grant))
      ensures mem != 0 ==>
          && mem > 8 && old(Serves(Request2Size(bytes), mem - 8))
          && (dv, dvsize) == old(DvAfter(Request2Size(bytes), mem - 8))
          && Live(cs) == old(Live(cs)) + {old(Given(Request2Size(bytes), mem - 8))}
      ensures bytes < MAX_REQUEST ==>
          limit == old(limit) + if old(NeedsSystem(Request2Size(bytes))) then grant else 0
    {
      hide OkIn, Live, BinsFirst, BestBinned, RestAsDv, Cut, Allocated;
      RequestSize(bytes);
      var nb: nat;
      mem := 0;
      if bytes <= MAX_SMALL_REQUEST {
        nb := if bytes < MIN_REQUEST then MIN_CHUNK_SIZE else PadRequest(bytes);
        BinnedFits(nb);
        mem := SmallSearch(nb);
      } else if bytes >= MAX_REQUEST {
        nb := MAX_SIZE_T;
      } else {
        nb := PadRequest(bytes);
        BinnedFits(nb);
        mem := LargeSearch(nb);
      }
      if mem == 0 {
        if nb == MAX_SIZE_T {
          HeapSmall();
          mem := DvTopSystem(nb, grant);
        } else {
          mem := ServeRest(nb, grant);
        }
      }
    }

    /** Writing the tags of the merged free chunk; clear says whether the next chunk's pinuse bit is cleared too. */
    method TagFree(p: Addr, psize: nat, clear: bool, ghost j: nat, ghost k: nat, ghost m: nat, ghost loose: set<Addr>,
        ghost d: Addr, ghost ds: nat)
      requires Ok(loose, d, ds) && IsBlock(cs, j, k, m) && m < |cs| && Frees(cs[k..m]) <= loose
      requires p == cs[k].addr && p + psize == End(cs[m - 1]) && clear == cs[j + 1].inuse
      modifies this`head, this`foot, this`cs
      ensures Ok(loose - Frees(old(cs)[k..m]) + {p}, d, ds) && p in head && ChunkSize(head[p]) == psize
      ensures Live(cs) == old(Live(cs)) - {old(cs)[j]}
    {
      hide Tiled, Tagged, Splice, TB.BinsOk, SB.SmallOk, Owners, ClearPin, SetPin, GoodParts, SegmentOk, Frees, Live,
          ChunkOk, DvOk;
      ghost var head0: Heads, foot0: Heads := head, foot;
      BlockEdges(head, foot, cs, j, k, m);
      BlockParts(head, foot, cs, j, k, m);
      ghost var c := Merged(cs, k, m);
      if clear {
        head := head[p + psize := ClearPin(WordAt(head, p + psize))];
      }
      head := head[p := psize + PINUSE_BIT];
      foot := foot[p + psize := psize];
      assert head == head0[End(c) := ClearPin(WordAt(head0, End(c)))][p := psize + 1] by {
        PinBits(cs[m], cs[m - 1].inuse);
      }
      MergeOk(head0, foot0, cs, k, m, head, foot);
      Transition(head0, foot0, cs, loose, d, ds, top, topsize, k, m, [c], head, foot);
      PinBits(c, true);
      cs := Splice(cs, k, m, [c]);
    }

    /** Merging the block cs[k..] into top. */
    method TagTop(p: Addr, psize: nat, ghost j: nat, ghost k: nat, ghost loose: set<Addr>, ghost d: Addr, ghost ds: nat)
      requires Ok(loose, d, ds) && IsBlock(cs, j, k, |cs|) && Frees(cs[k..]) == loose + {top}
      requires p == cs[k].addr && p + psize == top
      modifies this`head, this`cs, this`top, this`topsize
      ensures Ok({}, d, ds) && Live(cs) == old(Live(cs)) - {old(cs)[j]} && top == p && topsize == old(topsize) + psize
    {
      hide Tiled, Tagged, Splice, TB.BinsOk, SB.SmallOk, Owners, ClearPin, SetPin, GoodParts, SegmentOk, Frees, Live,
          ChunkOk, DvOk;
      ghost var head0: Heads, t, ts := head, top, topsize;
      BlockEdges(head, foot, cs, j, k, |cs|);
      BlockParts(head, foot, cs, j, k, |cs|);
      assert cs[k..|cs|] == cs[k..];
      ghost var c := Merged(cs, k, |cs|);
      topsize := topsize + psize;
      top := p;
      head := head[p := topsize + PINUSE_BIT];
      MergeOk(head0, foot, cs, k, |cs|, head, foot);
      TransitionTop(head0, foot, cs, loose, d, ds, t, ts, k, [c], head, foot);
      assert loose - Frees(cs[k..]) == {};
      cs := Splice(cs, k, |cs|, [c]);
    }

    /** First half of dlfree: consolidate backward.  Done when the chunk before is dv and the one after is in use. */
    method FreeBack(p0: Addr, psize0: nat, ghost j: nat, ghost k: nat, ghost m: nat)
      returns (p: Addr, psize: nat, done: bool, ghost loose: set<Addr>, ghost d: Addr, ghost ds: nat)
      requires Valid() && IsBlock(cs, j, k, m) && p0 == cs[j].addr && psize0 == cs[j].size
      modifies this`head, this`foot, this`cs, this`dvsize, small, tree
      ensures done ==> Valid() && Live(cs) == old(Live(cs)) - {old(cs)[j]}
      ensures !done ==> cs == old(cs) && dvsize == old(dvsize) && Ok(loose, d, ds) && head == old(head)
      ensures !done ==> p == cs[k].addr && p + psize == End(cs[j]) && loose == if k < j then {p} else {}
      ensures !done ==> if k < j && p == dv then d == 0 && ds == 0 && !cs[j + 1].inuse
          else d == dv && ds == dvsize && p != dv
      ensures !done ==> (k < j && p == dv <==> dv != 0 && dv + dvsize == cs[j].addr)
      ensures done ==> DvFollows(dv, old(dvsize), dv, dvsize, old(cs)[j], top)
    {
      hide SegmentOk, TB.BinsOk, SB.SmallOk, Frees, Live, TB.AllAddrs, SB.AllSmall, ChunkSize;
      p, psize, done, loose, d, ds := p0, psize0, false, {}, dv, dvsize;
      var next := p + psize;
      BlockReads(head, foot, cs, j, k, m);
      if dv != 0 { DvBefore(j, k, m); }
      if head[p] % 2 == 0 {
        var prevsize := foot[p];
        p := p - prevsize;
        psize := psize + prevsize;
        loose := {p};
        if p != dv {
          assert {} + {p} == {p};
          UnlinkChunk(p, prevsize, {}, dv, dvsize);
        } else {
          assert Ok({p}, 0, 0);
          hide Owners;
          if head[next] % 4 == 3 {
            dvsize := psize;
            BlockParts(head, foot, cs, j, k, m);
            TagFree(p, psize, true, j, k, m, {p}, 0, 0);
            assert {p} - {p} + {p} == {p};
            DvFromLoose(p, psize);
            done := true;
          } else {
            d, ds := 0, 0;
          }
        }
      } else {
        assert p != dv;
      }
    }

    /** What FreeBack hands on: the freed block starts at p, and dv is loose if it is p or as before. */
    ghost predicate HalfFreed(p: Addr, psize: nat, j: nat, k: nat, m: nat, loose: set<Addr>, d: Addr, ds: nat)
      reads this, small, tree
    {
      && IsBlock(cs, j, k, m) && Ok(loose, d, ds)
      && p == cs[k].addr && p + psize == End(cs[j]) && loose == (if k < j then {p} else {})
      && (if k < j && p == dv then d == 0 && ds == 0 && !cs[j + 1].inuse else d == dv && ds == dvsize && p != dv)
      && (k < j && p == dv <==> dv != 0 && dv + dvsize == cs[j].addr)
    }

    /** The next chunk is top. */
    method FreeIntoTop(p: Addr, psize: nat, ghost j: nat, ghost k: nat, ghost m: nat, ghost loose: set<Addr>,
        ghost d: Addr, ghost ds: nat)
      requires HalfFreed(p, psize, j, k, m, loose, d, ds) && !cs[j + 1].inuse && p + psize == top
      modifies this`head, this`foot, this`cs, this`dv, this`dvsize, this`top, this`topsize
      ensures Valid() && Live(cs) == old(Live(cs)) - {old(cs)[j]}
      ensures DvFollows(old(dv), old(dvsize), dv, dvsize, old(cs)[j], old(top))
    {
      hide SegmentOk, TB.BinsOk, SB.SmallOk, Frees, Live, TB.AllAddrs, SB.AllSmall, ChunkSize, Owners;
      BlockReads(head, foot, cs, j, k, m);
      BlockParts(head, foot, cs, j, k, m);
      assert cs[k..|cs|] == cs[k..];
      TagTop(p, psize, j, k, loose, d, ds);
      if p == dv {
        dv, dvsize := 0, 0;
      }
    }

    /** The next chunk is dv. */
    method FreeIntoDv(p: Addr, psize: nat, ghost j: nat, ghost k: nat, ghost m: nat, ghost loose: set<Addr>,
        ghost d: Addr, ghost ds: nat)
      requires HalfFreed(p, psize, j, k, m, loose, d, ds) && !cs[j + 1].inuse && p + psize == dv && dv != top
      modifies this`head, this`foot, this`cs, this`dv, this`dvsize
      ensures Valid() && Live(cs) == old(Live(cs)) - {old(cs)[j]}
      ensures DvFollows(old(dv), old(dvsize), dv, dvsize, old(cs)[j], top)
    {
      hide SegmentOk, TB.BinsOk, SB.SmallOk, Frees, Live, TB.AllAddrs, SB.AllSmall, ChunkSize, Owners;
      BlockReads(head, foot, cs, j, k, m);
      BlockParts(head, foot, cs, j, k, m);
      ghost var next := dv;
      DvToLoose(loose, d, ds);
      dvsize := dvsize + psize;
      dv := p;
      TagFree(p, dvsize, false, j, k, m, loose + {next}, 0, 0);
      assert loose + {next} - (loose + {next}) + {p} == {p};
      DvFromLoose(p, dvsize);
    }

    /** The next chunk is in a bin. */
    method FreeIntoNext(p: Addr, psize: nat, ghost j: nat, ghost k: nat, ghost m: nat, ghost loose: set<Addr>,
        ghost d: Addr, ghost ds: nat)
      requires HalfFreed(p, psize, j, k, m, loose, d, ds) && !cs[j + 1].inuse && p + psize !in {top, dv}
      modifies this`head, this`foot, this`cs, this`dvsize, small, tree
      ensures Valid() && Live(cs) == old(Live(cs)) - {old(cs)[j]}
      ensures DvFollows(dv, old(dvsize), dv, dvsize, old(cs)[j], top)
    {
      hide SegmentOk, TB.BinsOk, SB.SmallOk, Frees, Live, TB.AllAddrs, SB.AllSmall, ChunkSize, Owners;
      BlockReads(head, foot, cs, j, k, m);
      BlockParts(head, foot, cs, j, k, m);
      var next := p + psize;
      var nsize := ChunkSize(head[next]);
      FreeIsBinned(Frees(cs), small.Binned(), tree.Binned(), d, top, loose, next);
      UnlinkChunk(next, nsize, loose, d, ds);
      TagFree(p, psize + nsize, false, j, k, m, loose + {next}, d, ds);
      assert loose + {next} - (loose + {next}) + {p} == {p};
      if p == dv {
        dvsize := psize + nsize;
        DvFromLoose(p, dvsize);
      } else {
        InsertChunk(p, psize + nsize, {p}, d, ds);
        assert {p} - {p} == {};
      }
    }

    /** The next chunk is in use. */
    method FreeAlone(p: Addr, psize: nat, ghost j: nat, ghost k: nat, ghost m: nat, ghost loose: set<Addr>,
        ghost d: Addr, ghost ds: nat)
      requires HalfFreed(p, psize, j, k, m, loose, d, ds) && cs[j + 1].inuse
      modifies this`head, this`foot, this`cs, small, tree
      ensures Valid() && Live(cs) == old(Live(cs)) - {old(cs)[j]}
      ensures DvFollows(dv, dvsize, dv, dvsize, old(cs)[j], top)
    {
      hide SegmentOk, TB.BinsOk, SB.SmallOk, Frees, Live, TB.AllAddrs, SB.AllSmall, ChunkSize, Owners;
      BlockReads(head, foot, cs, j, k, m);
      BlockParts(head, foot, cs, j, k, m);
      assert Frees(cs[k..m]) == loose;
      TagFree(p, psize, true, j, k, m, loose, d, ds);
      assert loose - loose + {p} == {p};
      InsertChunk(p, psize, {p}, d, ds);
      assert {p} - {p} == {};
    }

    /** Second half of dlfree: consolidate forward, tag and bin the free chunk, or make it dv or top. */
    method FreeForward(p: Addr, psize: nat, ghost j: nat, ghost k: nat, ghost m: nat, ghost loose: set<Addr>,
        ghost d: Addr, ghost ds: nat)
      requires HalfFreed(p, psize, j, k, m, loose, d, ds)
      modifies this`head, this`foot, this`cs, this`dv, this`dvsize, this`top, this`topsize, small, tree
      ensures Valid() && Live(cs) == old(Live(cs)) - {old(cs)[j]}
      ensures DvFollows(old(dv), old(dvsize), dv, dvsize, old(cs)[j], old(top))
    {
      hide SegmentOk, TB.BinsOk, SB.SmallOk, Frees, Live, TB.AllAddrs, SB.AllSmall, ChunkSize, Owners, DvFollows;
      var next := p + psize;
      BlockReads(head, foot, cs, j, k, m);
      if head[next] % 4 < 2 {
        if next == top {
          FreeIntoTop(p, psize, j, k, m, loose, d, ds);
        } else if next == dv {
          FreeIntoDv(p, psize, j, k, m, loose, d, ds);
        } else {
          FreeIntoNext(p, psize, j, k, m, loose, d, ds);
        }
      } else {
        FreeAlone(p, psize, j, k, m, loose, d, ds);
      }
    }

    /** dv is the free chunk before a chunk in use exactly if it ends where that one starts. */
    lemma DvBefore(j: nat, k: nat, m: nat)
      requires Valid() && IsBlock(cs, j, k, m) && dv != 0
      ensures k < j && cs[k].addr == dv <==> dv + dvsize == cs[j].addr
    {
      hide TB.BinsOk, SB.SmallOk, TB.AllAddrs, SB.AllSmall, Tagged;
      FreeWord(head, foot, cs, dv);
      var i := ChunkAt(cs, dv);
      DvNotTop();
      if i + 1 != j { AddrsDiffer(cs, i + 1, j); }
      if k < j && i != k { AddrsDiffer(cs, i, k); }
    }

    lemma DvToLoose(loose: set<Addr>, d: Addr, ds: nat)
      requires Ok(loose, d, ds) && d != 0
      ensures Ok(loose + {d}, 0, 0) && d in head && ChunkSize(head[d]) == ds
    {
      hide TB.BinsOk, SB.SmallOk, SegmentOk, Frees;
    }

    /** dlfree: the chunk is given back, nothing else the program holds changes. */
    method Free(mem: Addr)
      requires Valid() && (mem == 0 || IsPayload(Live(cs), mem))
      modifies this`head, this`foot, this`cs, this`dv, this`dvsize, this`top, this`topsize, small, tree
      ensures Valid()
      ensures Live(cs) == if mem == 0 then old(Live(cs)) else old(Live(cs)) - {LiveChunk(old(Live(cs)), mem)}
      ensures mem == 0 ==> dv == old(dv) && dvsize == old(dvsize)
      ensures mem != 0 ==> DvFollows(old(dv), old(dvsize), dv, dvsize, LiveChunk(old(Live(cs)), mem), old(top))
    {
      hide SegmentOk, TB.BinsOk, SB.SmallOk, Live, TB.AllAddrs, SB.AllSmall, ChunkSize, Owners, DvOk, Frees;
      if mem != 0 {
        ghost var j, k, m := FindBlock(head, foot, cs, mem);
        BlockReads(head, foot, cs, j, k, m);
        var p := mem - 8;
        var psize := ChunkSize(head[p]);
        var done;
        ghost var loose, d, ds;
        p, psize, done, loose, d, ds := FreeBack(p, psize, j, k, m);
        if !done {
          FreeForward(p, psize, j, k, m, loose, d, ds);
        }
      }
    }

    /** A change of tags inside one block of loose chunks and chunks in use. */
    lemma Transition(head0: Heads, foot0: Heads, cs0: seq<Chunk>, loose: set<Addr>, d: Addr, ds: nat, t: Addr, ts: nat,
                     k: nat, m: nat, mid: seq<Chunk>, head1: Heads, foot1: Heads)
      requires OkIn(head0, foot0, cs0, loose, d, ds, t, ts)
      requires GoodParts(cs0, k, m, mid) && m < |cs0| && cs0[m].inuse && Frees(cs0[k..m]) <= loose
      requires SegmentOk(head1, foot1, Splice(cs0, k, m, mid)) && Last(Splice(cs0, k, m, mid)) == Last(cs0)
      requires SameOutside(head0, head1, cs0[k].addr, End(cs0[m - 1]))
      ensures OkIn(head1, foot1, Splice(cs0, k, m, mid), loose - Frees(cs0[k..m]) + Frees(mid), d, ds, t, ts)
      ensures Live(Splice(cs0, k, m, mid)) == Live(cs0) - Live(cs0[k..m]) + Live(mid)
    {
      hide Tiled, Tagged, Splice, TB.BinsOk, SB.SmallOk;
      SpliceOwners(head0, foot0, cs0, k, m, mid, small.Binned(), tree.Binned(), d, t, loose);
      OwnersKeepSizes(head0, head1, foot0, cs0, k, m, small.Binned(), tree.Binned(), d, t, loose);
      SeeHeads(head0, head1);
    }

    /** A change of tags at the end of the segment, which moves top. */
    lemma TransitionTop(head0: Heads, foot0: Heads, cs0: seq<Chunk>, loose: set<Addr>, d: Addr, ds: nat, t: Addr,
        ts: nat, k: nat, mid: seq<Chunk>, head1: Heads, foot1: Heads)
      requires OkIn(head0, foot0, cs0, loose, d, ds, t, ts)
      requires GoodParts(cs0, k, |cs0|, mid) && Frees(cs0[k..]) <= loose + {t} && Frees(mid) == {Last(mid).addr}
      requires SegmentOk(head1, foot1, Splice(cs0, k, |cs0|, mid)) && Last(Splice(cs0, k, |cs0|, mid)) == Last(mid)
      requires SameOutside(head0, head1, cs0[k].addr, End(Last(cs0)))
      ensures OkIn(head1, foot1, Splice(cs0, k, |cs0|, mid), loose - Frees(cs0[k..]), d, ds, Last(mid).addr,
          Last(mid).size)
      ensures Live(Splice(cs0, k, |cs0|, mid)) == Live(cs0) - Live(cs0[k..]) + Live(mid)
    {
      hide Tiled, Tagged, Splice, TB.BinsOk, SB.SmallOk;
      TopOwners(head0, foot0, cs0, k, mid, small.Binned(), tree.Binned(), d, t, loose);
      assert cs0[k..|cs0|] == cs0[k..];
      OwnersKeepSizes(head0, head1, foot0, cs0, k, |cs0|, small.Binned(), tree.Binned(), d, t, loose);
      SeeHeads(head0, head1);
    }

    lemma SeeHeads(head0: Heads, head1: Heads)
      requires small.Valid(head0) && tree.Valid(head0)
      requires SameSizes(head0, head1, small.Binned()) && SameSizes(head0, head1, tree.Binned())
      ensures small.Valid(head1) && tree.Valid(head1)
    {
      SmallHeads(head0, head1, small.link, BitsOf(small.smallmap), small.bins, small.binsAt, small.least);
      TreeHeads(head0, head1, tree.link, tree.treebins, BitsOf(tree.treemap), tree.trees, tree.binsAt, tree.least);
    }
  }

  lemma SomeChunk(head: Heads, foot: Heads, cs: seq<Chunk>)
    requires SegmentOk(head, foot, cs)
    ensures cs != [] && !Last(cs).inuse
  {
  }

  lemma TakeParts(head: Heads, foot: Heads, cs: seq<Chunk>, k: nat)
    requires SegmentOk(head, foot, cs) && k < |cs| - 1 && !cs[k].inuse
    ensures var mid := [cs[k].(inuse := true)];
            && GoodParts(cs, k, k + 1, mid) && cs[k + 1].inuse
            && Frees(cs[k..k + 1]) == {cs[k].addr} && Live(cs[k..k + 1]) == {} && Frees(mid) == {}
            && Live(mid) == {mid[0]}
            && mid[0] !in Live(cs)
  {
    Neighbours(head, foot, cs, k);
    assert cs[k..k + 1] == [cs[k]];
    Only(cs[k]);
    Only(cs[k].(inuse := true));
    NotLive(cs, k, cs[k].(inuse := true));
  }

  lemma CutSets(c: Chunk, nb: nat, second: bool)
    requires nb < c.size
    ensures var mid := CutAt(c, nb, second);
            && Frees(mid) == (if second then {} else {c.addr + nb})
            && Live(mid) == if second then {mid[0], mid[1]} else {mid[0]}
  {
    var mid := CutAt(c, nb, second);
    assert mid[0] in mid && mid[1] in mid;
    assert forall x | x in mid :: x == mid[0] || x == mid[1];
  }

  lemma SplitParts(head: Heads, foot: Heads, cs: seq<Chunk>, k: nat, nb: nat)
    requires SegmentOk(head, foot, cs) && k < |cs| - 1 && !cs[k].inuse
    requires nb % 8 == 0 && MIN_CHUNK_SIZE <= nb && nb + MIN_CHUNK_SIZE <= cs[k].size
    ensures var mid := CutAt(cs[k], nb, false);
            && GoodParts(cs, k, k + 1, mid) && cs[k + 1].inuse && ChunkOk(mid[1])
            && Frees(cs[k..k + 1]) == {cs[k].addr} && Live(cs[k..k + 1]) == {}
            && Frees(mid) == {cs[k].addr + nb} && Live(mid) == {mid[0]}
            && mid[0] !in Live(cs)
  {
    hide Tagged;
    Neighbours(head, foot, cs, k);
    Mod8(cs[k].addr, nb);
    Mod8(cs[k].size, nb);
    assert cs[k..k + 1] == [cs[k]];
    Only(cs[k]);
    CutSets(cs[k], nb, false);
    NotLive(cs, k, CutAt(cs[k], nb, false)[0]);
  }

  lemma TopParts(head: Heads, foot: Heads, cs: seq<Chunk>, nb: nat)
    requires SegmentOk(head, foot, cs) && nb % 8 == 0 && MIN_CHUNK_SIZE <= nb < Last(cs).size
    ensures var k, mid := |cs| - 1, CutAt(Last(cs), nb, false);
            && GoodParts(cs, k, |cs|, mid)
            && Frees(cs[k..]) == {cs[k].addr} && Live(cs[k..]) == {}
            && Frees(mid) == {cs[k].addr + nb} && Live(mid) == {mid[0]}
            && mid[0] !in Live(cs)
  {
    hide Tagged;
    var k := |cs| - 1;
    Neighbours(head, foot, cs, k);
    Mod8(cs[k].addr, nb);
    Mod8(cs[k].size, nb);
    assert cs[k..] == [cs[k]];
    Only(cs[k]);
    CutSets(cs[k], nb, false);
    NotLive(cs, k, CutAt(cs[k], nb, false)[0]);
  }

  /** cs[k..m] is chunk j, in use, with the free chunks next to it. */
  ghost predicate IsBlock(cs: seq<Chunk>, j: nat, k: nat, m: nat) {
    && k <= j < m <= |cs| && j + 1 < |cs| && cs[j].inuse
    && k == (if j > 0 && !cs[j - 1].inuse then j - 1 else j)
    && m == (if cs[j + 1].inuse then j + 1 else j + 2)
  }

  lemma BlockEdges(head: Heads, foot: Heads, cs: seq<Chunk>, j: nat, k: nat, m: nat)
    requires SegmentOk(head, foot, cs) && IsBlock(cs, j, k, m)
    ensures (k > 0 ==> cs[k - 1].inuse)
    ensures m < |cs| ==>
              && cs[m].inuse && cs[m].addr == End(cs[m - 1]) && cs[m].addr in head && ChunkOk(cs[m])
              && head[cs[m].addr] == Word(cs[m], cs[m - 1].inuse)
  {
    hide Tiled, Tagged, Splice, ChunkOk;
    Neighbours(head, foot, cs, j);
    Neighbours(head, foot, cs, k);
    Neighbours(head, foot, cs, m - 1);
  }

  /** mem is the payload of a live chunk. */
  ghost predicate IsPayload(live: set<Chunk>, mem: Addr) {
    exists c :: c in live && c.addr + 8 == mem
  }

  ghost function LiveChunk(live: set<Chunk>, mem: Addr): (c: Chunk)
    requires IsPayload(live, mem)
    ensures c in live && c.addr + 8 == mem
  {
    var c :| c in live && c.addr + 8 == mem;
    c
  }

  lemma FindBlock(head: Heads, foot: Heads, cs: seq<Chunk>, mem: Addr) returns (j: nat, k: nat, m: nat)
    requires SegmentOk(head, foot, cs) && IsPayload(Live(cs), mem)
    ensures IsBlock(cs, j, k, m) && cs[j] == LiveChunk(Live(cs), mem)
  {
    hide Tiled, Tagged;
    var c := LiveChunk(Live(cs), mem);
    j :| 0 <= j < |cs| && cs[j] == c;
    k := if j > 0 && !cs[j - 1].inuse then j - 1 else j;
    m := if cs[j + 1].inuse then j + 1 else j + 2;
  }

  lemma FreeIsBinned(frees: set<Addr>, sb: set<Addr>, tb: set<Addr>, dv: Addr, top: Addr, loose: set<Addr>, a: Addr)
    requires Owners(frees, sb, tb, dv, top, loose) && a in frees && a != dv && a != top && a !in loose
    ensures a in sb + tb
  {
  }

  /** What dlfree reads in the words of a chunk in use and of its neighbours. */
  lemma BlockReads(head: Heads, foot: Heads, cs: seq<Chunk>, j: nat, k: nat, m: nat)
    requires SegmentOk(head, foot, cs) && IsBlock(cs, j, k, m)
    ensures var p := cs[j].addr;
            && p in head && p !in Frees(cs) && (head[p] % 2 == 0 <==> k < j)
            && ChunkSize(head[p]) == cs[j].size && p > 0
            && (k < j ==>
                 && p in foot && foot[p] == cs[k].size && End(cs[k]) == p
                 && cs[k].addr in Frees(cs) && cs[k].addr > 0
                 && cs[k].addr in head && ChunkSize(head[cs[k].addr]) == cs[k].size && cs[k].addr != Last(cs).addr)
    ensures var n := cs[j + 1];
            && n.addr == End(cs[j]) && n.addr in head && (head[n.addr] % 4 == 3 <==> n.inuse)
            && (head[n.addr] % 4 < 2 <==> !n.inuse)
            && ChunkSize(head[n.addr]) == n.size && (!n.inuse ==> n.addr in Frees(cs) && n.addr != cs[k].addr)
            && (n.addr == Last(cs).addr <==> j + 2 == |cs|)
  {
    hide Tagged, ChunkSize, ChunkOk, Splice;
    Neighbours(head, foot, cs, j);
    PinBits(cs[j], j == 0 || cs[j - 1].inuse);
    WordBits(cs[j + 1], true);
    PinBits(cs[j + 1], true);
    AddrOfUsed(cs, j);
    assert !cs[j + 1].inuse ==> cs[j + 1] in cs;
    if j + 2 < |cs| { AddrsDiffer(cs, j + 1, |cs| - 1); }
    if k < j {
      Neighbours(head, foot, cs, k);
      PinBits(cs[k], k == 0 || cs[k - 1].inuse);
      AddrsDiffer(cs, k, |cs| - 1);
      assert cs[k] in cs;
    }
    AddrsDiffer(cs, k, j + 1);
  }

  lemma AddrOfUsed(cs: seq<Chunk>, j: nat)
    requires Tiled(cs) && j < |cs| && cs[j].inuse
    ensures cs[j].addr !in Frees(cs) && cs[j].addr > 0
  {
    if cs[j].addr in Frees(cs) {
      var i :| 0 <= i < |cs| && !cs[i].inuse && cs[i].addr == cs[j].addr;
      AddrsDiffer(cs, i, j);
    }
  }

  lemma WordBits(c: Chunk, pin: bool)
    requires ChunkOk(c)
    ensures Word(c, pin) % 4 == (if c.inuse then 2 else 0) + (if pin then 1 else 0)
  {
    LowBits(2 * (c.size / 8), (if c.inuse then 2 else 0) + (if pin then 1 else 0));
  }

  /** The merged chunk can take the place of the block. */
  lemma BlockParts(head: Heads, foot: Heads, cs: seq<Chunk>, j: nat, k: nat, m: nat)
    requires SegmentOk(head, foot, cs) && IsBlock(cs, j, k, m)
    ensures cs[k].addr <= End(cs[m - 1])
    ensures var c := Merged(cs, k, m);
            && GoodParts(cs, k, m, [c]) && ChunkOk(c) && Frees([c]) == {c.addr} && Live([c]) == {}
            && Live(cs[k..m]) == {cs[j]}
            && Frees(cs[k..m]) == (if k < j then {cs[k].addr} else {}) + (if j + 1 < m then {cs[j + 1].addr} else {})
  {
    hide Tiled, Tagged, Splice, SegmentOk, ChunkOk, GoodParts, Frees, Live;
    BlockShape(head, foot, cs, j, k, m);
    Only(Merged(cs, k, m));
    BlockSets(cs, j, k, m);
  }

  lemma BlockShape(head: Heads, foot: Heads, cs: seq<Chunk>, j: nat, k: nat, m: nat)
    requires SegmentOk(head, foot, cs) && IsBlock(cs, j, k, m)
    ensures cs[k].addr <= End(cs[m - 1])
    ensures GoodParts(cs, k, m, [Merged(cs, k, m)]) && ChunkOk(Merged(cs, k, m))
  {
    hide Tiled, Tagged, SegmentOk, ChunkOk;
    BlockEdges(head, foot, cs, j, k, m);
    Row(head, foot, cs, k, m);
    MergedOk(cs, k, m);
    var c := Merged(cs, k, m);
    OneOk(map[c.addr := Word(c, true)], map[], c, true);
  }

  lemma BlockSets(cs: seq<Chunk>, j: nat, k: nat, m: nat)
    requires k <= j < m <= |cs| && cs[j].inuse && j - 1 <= k && m <= j + 2
    requires (k < j ==> !cs[k].inuse) && (j + 1 < m ==> !cs[j + 1].inuse)
    ensures Live(cs[k..m]) == {cs[j]}
    ensures Frees(cs[k..m]) == (if k < j then {cs[k].addr} else {}) + (if j + 1 < m then {cs[j + 1].addr} else {})
  {
    var b := cs[k..m];
    SliceInParts(cs, k, j, m);
    SetsOf(b, cs[k..j], [cs[j]], cs[j + 1..m]);
    Only(cs[j]);
    if k < j { assert cs[k..j] == [cs[k]]; Only(cs[k]); } else { assert cs[k..j] == []; }
    if j + 1 < m { assert cs[j + 1..m] == [cs[j + 1]]; Only(cs[j + 1]); } else { assert cs[j + 1..m] == []; }
  }

  /** A chunk that starts at a free chunk is not in use. */
  lemma NotLive(cs: seq<Chunk>, k: nat, c: Chunk)
    requires Tiled(cs) && k < |cs| && !cs[k].inuse && c.addr == cs[k].addr
    ensures c !in Live(cs)
  {
    if c in Live(cs) {
      var j :| 0 <= j < |cs| && cs[j] == c && c.inuse;
      AddrsDiffer(cs, j, k);
    }
  }

  /** With no bin marked from idx on, no small chunk holds 8 * idx bytes. */
  lemma NoSmall(head: Heads, link: Links, smallmap: BinMap, bins: seq<seq<Addr>>, binsAt: Addr, least: Addr, idx: nat)
    requires SB.SmallOk(head, link, smallmap, bins, binsAt, least) && idx < 32
    ensures (forall j | idx <= j < 32 :: !smallmap[j]) ==>
        forall a | a in SB.AllSmall(bins) :: a in head && ChunkSize(head[a]) < 8 * idx
  {
    hide RingLinked;
  }

  /** With no bin marked from idx to below i, a small chunk of at least 8 * idx bytes has at least 8 * i. */
  lemma BelowBin(head: Heads, link: Links, smallmap: BinMap, bins: seq<seq<Addr>>, binsAt: Addr, least: Addr, idx: nat,
      i: nat)
    requires SB.SmallOk(head, link, smallmap, bins, binsAt, least) && idx <= i <= 32
    requires forall j | idx <= j < i :: !smallmap[j]
    ensures forall a | a in SB.AllSmall(bins) ::
        a in head && (8 * idx <= ChunkSize(head[a]) ==> 8 * i <= ChunkSize(head[a]))
  {
    hide RingLinked;
  }

  lemma NoneSnug(head: Heads, link: Links, smallmap: BinMap, bins: seq<seq<Addr>>, binsAt: Addr, least: Addr, nb: nat)
    requires SB.SmallOk(head, link, smallmap, bins, binsAt, least) && nb % 8 == 0 && nb < MIN_LARGE_SIZE
    requires !smallmap[nb / 8] && (nb / 8 < 31 ==> !smallmap[nb / 8 + 1])
    ensures forall a | a in SB.AllSmall(bins) ::
        a in head && (ChunkSize(head[a]) < nb || nb + MIN_CHUNK_SIZE <= ChunkSize(head[a]))
  {
    hide SB.SmallOk, SB.AllSmall, ChunkSize;
    BelowBin(head, link, smallmap, bins, binsAt, least, nb / 8, if nb / 8 < 31 then nb / 8 + 2 else 32);
    SmallBelow(head, link, smallmap, bins, binsAt, least);
  }

  lemma InBins(head: Heads, s: set<Addr>, v: Addr)
    requires IsSmallest(head, s, v)
    ensures v in s
  {
  }

  lemma SmallBelow(head: Heads, link: Links, smallmap: BinMap, bins: seq<seq<Addr>>, binsAt: Addr, least: Addr)
    requires SB.SmallOk(head, link, smallmap, bins, binsAt, least)
    ensures forall a | a in SB.AllSmall(bins) :: a in head && ChunkSize(head[a]) < MIN_LARGE_SIZE
  {
    forall a | a in SB.AllSmall(bins) ensures a in head && ChunkSize(head[a]) < MIN_LARGE_SIZE {
      SmallSize(head, link, smallmap, bins, binsAt, least, a);
    }
  }

  lemma NoTree(head: Heads, link: Links, treebins: seq<Addr>, treemap: BinMap, trees: seq<Tree>, binsAt: Addr,
      least: Addr)
    requires TB.BinsOk(head, link, treebins, treemap, trees, binsAt, least)
    ensures true !in treemap ==> TB.AllAddrs(trees) == {}
  {
    hide Linked, Proper, InTrie, Sized, InBin;
  }

  /** One new chunk, of nb to nb + 15 bytes, has been handed out; mem is its 8-aligned payload. */
  ghost predicate Allocated(live: set<Chunk>, live': set<Chunk>, mem: Addr, nb: nat) {
    exists c :: c !in live && live' == live + {c} && c.inuse && c.addr + 8 == mem && mem % 8 == 0 &&
        nb <= c.size < nb + MIN_CHUNK_SIZE
  }

  /** That chunk is c. */
  ghost predicate AllocatedAs(live: set<Chunk>, live': set<Chunk>, mem: Addr, nb: nat, c: Chunk) {
    Allocated(live, live', mem, nb) && live' == live + {c} && c.addr + 8 == mem
  }

  lemma MakeAllocated(live: set<Chunk>, live': set<Chunk>, c: Chunk, nb: nat)
    requires c !in live && live' == live + {c} && c.inuse && c.addr % 8 == 0 && nb <= c.size < nb + MIN_CHUNK_SIZE
    ensures Allocated(live, live', c.addr + 8, nb)
  {
  }

  lemma LooseNotTop(frees: set<Addr>, sb: set<Addr>, tb: set<Addr>, dv: Addr, top: Addr, loose: set<Addr>, p: Addr)
    requires Owners(frees, sb, tb, dv, top, loose) && p in loose
    ensures p in frees && p != top
  {
  }

  lemma Only(c: Chunk)
    ensures Frees([c]) == if c.inuse then {} else {c.addr}
    ensures Live([c]) == if c.inuse then {c} else {}
  {
    assert c in [c];
  }

  lemma Bounds(head: Heads, foot: Heads, cs: seq<Chunk>, k: nat)
    requires SegmentOk(head, foot, cs) && k < |cs|
    ensures cs[0].addr <= cs[k].addr && End(cs[k]) <= End(Last(cs)) && ChunkOk(cs[k])
  {
    if k > 0 { Ordered(cs, 0, k); }
    if k < |cs| - 1 { Ordered(cs, k, |cs| - 1); }
  }
}
